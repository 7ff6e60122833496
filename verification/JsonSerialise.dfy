/** A serialiser for whole trees, and its round trip through the parser. */
module JsonSerialise {
  import CStrings
  import opened Json
  import opened JsonText
  import opened JsonRoundTrip

  // ----- numbers -----

  function DigitChar(d: nat): (c: char)
    requires d < 10
    ensures IsDigit(c) && DigitValue(c) == d
  {
    '0' + d as char
  }

  function NatText(n: nat): (s: string)
    ensures s != [] && AllDigits(s) && (s[0] == '0' ==> |s| == 1)
    ensures n > 0 ==> s[0] != '0'
  {
    if n < 10 then [DigitChar(n)] else NatText(n / 10) + [DigitChar(n % 10)]
  }

  lemma {:induction false} DecimalAppend(ds: string, d: char, acc: nat)
    requires AllDigits(ds) && IsDigit(d)
    ensures DecimalNat(ds + [d], acc) == DecimalNat(ds, acc) * 10 + DigitValue(d)
  {
    if ds == [] {
      assert (ds + [d])[1..] == [];
    } else {
      assert (ds + [d])[1..] == ds[1..] + [d];
      DecimalAppend(ds[1..], d, acc * 10 + DigitValue(ds[0]));
    }
  }

  lemma {:induction false} NatTextIs(n: nat)
    ensures DecimalNat(NatText(n), 0) == n
  {
    if n >= 10 {
      NatTextIs(n / 10);
      DecimalAppend(NatText(n / 10), DigitChar(n % 10), 0);
    } else {
      assert NatText(n)[1..] == [];
    }
  }

  lemma {:induction false} DecimalIsNat(ds: string, acc: nat)
    requires AllDigits(ds)
    ensures Decimal(ds, acc as real) == DecimalNat(ds, acc) as real
  {
    if ds != [] { DecimalIsNat(ds[1..], acc * 10 + DigitValue(ds[0])); }
  }

  lemma {:induction false} DecimalShift(ds: string, acc: nat)
    requires AllDigits(ds)
    ensures DecimalNat(ds, acc) as real == acc as real * Pow10(|ds|) + DecimalNat(ds, 0) as real
  {
    hide DecimalNat, Pow10, DigitValue;
    DecimalSteps(ds, acc);
    DecimalSteps(ds, 0);
    if ds == [] {
      assert acc as real * 1.0 == acc as real;
    } else {
      var d := DigitValue(ds[0]);
      DecimalShift(ds[1..], acc * 10 + d);
      DecimalShift(ds[1..], d);
      ShiftStep(acc, d, Pow10(|ds| - 1));
    }
  }

  lemma DecimalSteps(ds: string, acc: nat)
    requires AllDigits(ds)
    ensures ds == [] ==> DecimalNat(ds, acc) == acc && Pow10(|ds|) == 1.0
    ensures ds != [] ==> DecimalNat(ds, acc) == DecimalNat(ds[1..], acc * 10 + DigitValue(ds[0]))
    ensures ds != [] ==> Pow10(|ds|) == Pow10(|ds| - 1) * 10.0
  {}

  lemma ShiftStep(acc: nat, d: nat, p: real)
    ensures (acc * 10 + d) as real * p == acc as real * (p * 10.0) + d as real * p
    ensures (d as real) * p == 0 as real * (p * 10.0) + d as real * p
  {
    assert (acc * 10 + d) as real == acc as real * 10.0 + d as real;
    assert (acc as real * 10.0 + d as real) * p == acc as real * (p * 10.0) + d as real * p;
  }

  lemma {:induction false} FractionIs(ds: string)
    requires AllDigits(ds)
    ensures Fraction(ds) * Pow10(|ds|) == DecimalNat(ds, 0) as real
  {
    hide DecimalNat, Pow10, DigitValue;
    DecimalSteps(ds, 0);
    if ds != [] {
      var d := DigitValue(ds[0]);
      FractionIs(ds[1..]);
      DecimalShift(ds[1..], d);
      Tenth(d as real, Fraction(ds[1..]), Pow10(|ds| - 1));
    }
  }

  lemma Tenth(d: real, f: real, p: real)
    ensures (d + f) / 10.0 * (p * 10.0) == d * p + f * p
  {
    assert (d + f) / 10.0 * 10.0 == d + f;
  }

  lemma {:induction false} DecimalJoin(a: string, b: string, acc: nat)
    requires AllDigits(a) && AllDigits(b)
    ensures DecimalNat(a + b, acc) == DecimalNat(b, DecimalNat(a, acc))
  {
    if a == [] {
      assert a + b == b;
    } else {
      assert (a + b)[1..] == a[1..] + b;
      DecimalJoin(a[1..], b, acc * 10 + DigitValue(a[0]));
    }
  }

  /** The number of a literal: all digits as one whole number, with the point moved back by
      the length of the fraction and on by the exponent. */
  lemma LiteralAsNumber(l: Literal)
    requires ValidLiteral(l)
    ensures var e := if l.exponent == NoExponent then 0 else DecimalNat(l.exponent.digits, 0);
      var size := if l.minus then -LiteralValue(l) else LiteralValue(l);
      var n := DecimalNat(l.whole + l.fraction, 0) as real;
      if l.exponent != NoExponent && l.exponent.sign == Minus
        then size * Pow10(|l.fraction|) * Pow10(e) == n
        else size * Pow10(|l.fraction|) == n * Pow10(e)
  {
    hide Decimal, DecimalNat, Fraction, Pow10;
    var w, p := DecimalNat(l.whole, 0), Pow10(|l.fraction|);
    DecimalIsNat(l.whole, 0);
    FractionIs(l.fraction);
    DecimalJoin(l.whole, l.fraction, 0);
    DecimalShift(l.fraction, w);
    assert 0 as real == 0.0;
    var v := Decimal(l.whole, 0.0) + Fraction(l.fraction);
    assert v * p == DecimalNat(l.whole + l.fraction, 0) as real;
    if l.exponent != NoExponent {
      Scaled(v, p, Pow10(DecimalNat(l.exponent.digits, 0)));
    } else {
      PowZero();
    }
  }

  lemma Scaled(v: real, p: real, q: real)
    requires q > 0.0
    ensures v / q * p * q == v * p && v * q * p == v * p * q
  {
    assert v / q * q == v;
  }

  lemma PowZero()
    ensures Pow10(0) == 1.0
  {}

  /** A real with finitely many decimal places. */
  ghost predicate IsDecimal(x: real, minus: bool, m: nat, k: nat) {
    x == (if minus then -(m as real / Pow10(k)) else m as real / Pow10(k))
  }

  ghost predicate HasDecimal(x: real) { exists minus, m, k :: IsDecimal(x, minus, m, k) }

  function DecimalLiteral(minus: bool, m: nat, k: nat): (l: Literal)
    ensures ValidLiteral(l)
  {
    Literal(minus, NatText(m), "", Exponent('e', Minus, NatText(k)))
  }

  lemma DecimalLiteralIs(x: real, minus: bool, m: nat, k: nat)
    requires IsDecimal(x, minus, m, k)
    ensures LiteralValue(DecimalLiteral(minus, m, k)) == x
  {
    hide NatText, DecimalNat, Decimal;
    NatTextIs(m);
    NatTextIs(k);
    DecimalIsNat(NatText(m), 0);
    assert Decimal(NatText(m), 0.0) == m as real;
  }

  // ----- strings -----

  function HexChar(d: nat): (c: char)
    requires d < 16
    ensures HexValue(c) == d
  {
    if d < 10 then '0' + d as char else 'a' + (d - 10) as char
  }

  /** Quotes, backslashes and control characters are escaped. */
  function Form(c: char): (f: CharForm)
    ensures ValidChar(f)
  {
    if c == '"' || c == '\\' then Escaped(c)
    else if c < ' ' then Unicode(['0', '0', HexChar(c as nat / 16), HexChar(c as nat % 16)])
    else Raw(c)
  }

  lemma FormIs(c: char)
    ensures CharMeaning(Form(c)) == c
  {
    if c < ' ' {
      var a, b := HexChar(c as nat / 16), HexChar(c as nat % 16);
      var hex := ['0', '0', a, b];
      HexCodeNext(hex, 0); HexCodeNext(hex, 1); HexCodeNext(hex, 2); HexCodeNext(hex, 3);
      assert hex[..4] == hex && hex[..0] == [];
      assert HexCode(hex) == HexValue(a) * 16 + HexValue(b);
    }
  }

  function Forms(s: string): (cs: seq<CharForm>)
    ensures ValidChars(cs) && |cs| == |s|
  {
    seq(|s|, i requires 0 <= i < |s| => Form(s[i]))
  }

  lemma FormsAre(s: string)
    requires '\0' !in s
    ensures CStrings.Text(CharsMeaning(Forms(s))) == s
  {
    hide Form, CharMeaning;
    forall i | 0 <= i < |s| ensures CharsMeaning(Forms(s))[i] == s[i] { FormIs(s[i]); }
    assert CharsMeaning(Forms(s)) == s;
    CStrings.TextWhole(s);
  }

  // ----- trees -----

  ghost predicate Serialisable(v: Value) {
    match v
    case Number(x) => HasDecimal(x)
    case String(t) => '\0' !in t
    case Array(items) => forall i :: 0 <= i < |items| ==> Serialisable(items[i])
    case Object(es) => forall i :: 0 <= i < |es| ==> '\0' !in es[i].key && Serialisable(es[i].value)
    case _ => true
  }

  ghost function ToLiteral(x: real): (l: Literal)
    requires HasDecimal(x)
    ensures ValidLiteral(l) && LiteralValue(l) == x
  {
    var minus, m, k :| IsDecimal(x, minus, m, k);
    DecimalLiteralIs(x, minus, m, k);
    DecimalLiteral(minus, m, k)
  }

  ghost function ToDoc(v: Value): Doc
    requires Serialisable(v)
  {
    match v
    case Null => DNull
    case Bool(b) => DBool(b)
    case Number(x) => DNumber(ToLiteral(x))
    case String(t) => DString(Forms(t))
    case Array(items) => DArray("", seq(|items|, i requires 0 <= i < |items| => Item("", ToDoc(items[i]), "")))
    case Object(es) => DObject("", seq(|es|, i requires 0 <= i < |es| => Pair("", Forms(es[i].key), "", "", ToDoc(es[i].value), "")))
  }

  ghost function Serialise(v: Value): string
    requires Serialisable(v)
  {
    Text(ToDoc(v))
  }

  lemma {:induction false} ToDocMeans(v: Value)
    requires Serialisable(v)
    ensures Valid(ToDoc(v)) && Meaning(ToDoc(v)) == v
    decreases v
  {
    hide Forms, CharsMeaning, CStrings.Text, LiteralValue, ValidLiteral, ToLiteral, ValidChars;
    match v {
      case String(t) => FormsAre(t);
      case Array(items) =>
        forall i | 0 <= i < |items| ensures Valid(ToDoc(items[i])) && Meaning(ToDoc(items[i])) == items[i] {
          ToDocMeans(items[i]);
        }
        assert Meaning(ToDoc(v)).items == items;
      case Object(es) =>
        forall i | 0 <= i < |es|
          ensures Valid(ToDoc(es[i].value)) && Meaning(ToDoc(es[i].value)) == es[i].value
          ensures CStrings.Text(CharsMeaning(Forms(es[i].key))) == es[i].key
        {
          ToDocMeans(es[i].value);
          FormsAre(es[i].key);
        }
        assert Meaning(ToDoc(v)).entries == es;
      case _ =>
    }
  }

  /** Every tree of decimal numbers and zero-free strings is parsed back from its text. */
  lemma ParseSerialise(v: Value)
    requires Serialisable(v)
    ensures Parse(Serialise(v)) == Good(v, "")
  {
    hide Text, Meaning, Valid, Parse;
    ToDocMeans(v);
    NoSpaces();
    RoundTrip("", ToDoc(v), "");
    assert "" + Text(ToDoc(v)) + "" == Text(ToDoc(v));
  }

  // ----- errors that are never reported -----

  /** A missing key or colon is reported as an unexpected character or end of input: the
      error set first is kept. */
  lemma {:induction false} NeverReported(s: string)
    ensures var o := ParseValue(s); o.Bad? ==> o.error != ExpectedColon && o.error != ExpectedString
    decreases |s|, 2
  {
    hide StringBody, Members, Elements, Member, ParseNumber, LiteralValue, CStrings.Text;
    var t := Skip(s);
    if t != [] {
      NeverInNumber(t);
      if t[0] == '{' {
        var u := Skip(t[1..]);
        if !StartsWith(u, '}') { NeverInMembers(u, []); }
      } else if t[0] == '[' {
        var u := Skip(t[1..]);
        if !StartsWith(u, ']') { NeverInElements(u, []); }
      } else if t[0] == '"' {
        NeverInString(t[1..], []);
      }
    }
  }

  lemma {:induction false} NeverInString(s: string, acc: string)
    ensures var o := StringBody(s, acc); o.Bad? ==> o.error != ExpectedColon && o.error != ExpectedString
    decreases |s|
  {
    if s != [] && s[0] != '"' {
      if s[0] != '\\' {
        NeverInString(s[1..], acc + [s[0]]);
      } else if |s| > 1 {
        if s[1] == 'u' {
          NeverInHex(s[2..]);
          var u := UnicodeEscape(s[2..]);
          if u.Good? { NeverInString(u.rest, acc + [u.value]); }
        } else {
          NeverInString(s[2..], acc + [SimpleEscape(s[1])]);
        }
      }
    }
  }

  lemma NeverInNumber(s: string)
    ensures var o := ParseNumber(s); o.Bad? ==> o.error == UnexpectedEof || o.error == InvalidNumber
  {
    hide Digits, LiteralValue;
  }

  lemma NeverInHex(s: string)
    ensures var u := UnicodeEscape(s); u.Bad? ==> u.error == UnexpectedEof || u.error == InvalidUnicode
  {
    if |s| >= 4 { NeverInDigits(s, 4, 0); }
  }

  lemma {:induction false} NeverInDigits(s: string, n: nat, code: nat)
    requires n <= |s| && code < 0x1_0000
    ensures Hex(s, n, code).Bad? ==> Hex(s, n, code).error == InvalidUnicode
  {
    hide HexValue;
    if n > 0 && HexValue(s[0]) >= 0 { NeverInDigits(s[1..], n - 1, (code * 16 + HexValue(s[0])) % 0x1_0000); }
  }

  lemma {:induction false} NeverInMembers(s: string, acc: seq<Entry>)
    ensures var o := Members(s, acc); o.Bad? ==> o.error != ExpectedColon && o.error != ExpectedString
    decreases |s|, 4
  {
    hide ParseString, ParseValue, Members, CStrings.Text;
    MembersStep(s, acc);
    NeverInKey(s);
    var k := ParseString(s);
    if k.Good? {
      var c := Expect(Skip(k.rest), ':');
      if c.Good? {
        NeverReported(c.rest);
        var o := Member(s);
        if o.Good? {
          var comma := Expect(Skip(o.rest), ',');
          if comma.Good? { NeverInMembers(Skip(comma.rest), acc + [o.value]); }
        }
      }
    }
  }

  lemma NeverInKey(s: string)
    ensures var o := ParseString(s); o.Bad? ==> o.error != ExpectedColon && o.error != ExpectedString
  {
    hide StringBody;
    if s != [] && s[0] == '"' { NeverInString(s[1..], []); }
  }

  lemma {:induction false} NeverInElements(s: string, acc: seq<Value>)
    ensures var o := Elements(s, acc); o.Bad? ==> o.error != ExpectedColon && o.error != ExpectedString
    decreases |s|, 3
  {
    hide ParseValue, Elements;
    ElementsStep(s, acc);
    NeverReported(s);
    var o := ParseValue(s);
    if o.Good? {
      var comma := Expect(Skip(o.rest), ',');
      if comma.Good? { NeverInElements(Skip(comma.rest), acc + [o.value]); }
    }
  }
}
