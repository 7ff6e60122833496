/** What the JSON parser makes of a text, as functions of the text still to be read. */
module JsonText {
  import CStrings
  import opened Json

  datatype Error = UnexpectedEof | InvalidNumber | InvalidLiteral | ExpectedColon | ExpectedString
                 | ExpectedValue | TrailingContent | UnexpectedChar | InvalidUnicode

  /** `rest` is the text behind what was read, or where the error was found. */
  datatype Outcome<T> = Good(value: T, rest: string) | Bad(error: Error, rest: string)

  predicate IsSpace(c: char) { c == ' ' || c == '\t' || c == '\n' || c == '\r' }

  function Skip(s: string): (r: string)
    ensures |r| <= |s|
    ensures r == [] || !IsSpace(r[0])
  {
    if s != [] && IsSpace(s[0]) then Skip(s[1..]) else s
  }

  predicate StartsWith(s: string, c: char) { s != [] && s[0] == c }

  function Expect(s: string, c: char): Outcome<()> {
    if s == [] then Bad(UnexpectedEof, s) else if s[0] != c then Bad(UnexpectedChar, s) else Good((), s[1..])
  }

  // ----- strings -----

  function HexValue(c: char): int {
    if '0' <= c <= '9' then c as int - '0' as int
    else if 'a' <= c <= 'f' then 10 + c as int - 'a' as int
    else if 'A' <= c <= 'F' then 10 + c as int - 'A' as int
    else -1
  }

  lemma HexValueIs(c: char)
    ensures HexValue(c) >= 0 <==> c in "0123456789abcdef" + "ABCDEF"
    ensures HexValue(c) >= 0 ==> HexValue(c) < 16 && (c == "0123456789abcdef"[HexValue(c)] || c == "0123456789ABCDEF"[HexValue(c)])
  {
    if c in "0123456789abcdef" + "ABCDEF" {
      var k :| 0 <= k < 22 && c == ("0123456789abcdef" + "ABCDEF")[k];
      assert k < 16 ==> HexValue(c) == k;
    }
    if HexValue(c) >= 0 { assert c == "0123456789abcdef"[HexValue(c)] || c == "0123456789ABCDEF"[HexValue(c)]; }
  }

  /** `n` more hexadecimal digits of a 16-bit code. */
  function Hex(s: string, n: nat, code: nat): (r: Outcome<nat>)
    requires n <= |s| && code < 0x1_0000
    ensures r.Good? ==> r.value < 0x1_0000 && r.rest == s[n..]
  {
    if n == 0 then Good(code, s)
    else if HexValue(s[0]) < 0 then Bad(InvalidUnicode, s[1..])
    else Hex(s[1..], n - 1, (code * 16 + HexValue(s[0])) % 0x1_0000)
  }

  lemma HexStep(s: string, n: nat, code: nat)
    requires 0 < n <= |s| && code < 0x1_0000
    ensures HexValue(s[0]) < 0 ==> Hex(s, n, code) == Bad(InvalidUnicode, s[1..])
    ensures HexValue(s[0]) >= 0 ==>
              0 <= (code * 16 + HexValue(s[0])) % 0x1_0000 < 0x1_0000
              && Hex(s, n, code) == Hex(s[1..], n - 1, (code * 16 + HexValue(s[0])) % 0x1_0000)
  {}

  lemma HexEnd(s: string, code: nat)
    requires code < 0x1_0000
    ensures Hex(s, 0, code) == Good(code, s)
  {}

  /** Only codes up to 0x7F are kept. */
  function CodeChar(code: nat): char { if code <= 0x7F then code as char else '?' }

  function UnicodeEscape(s: string): (r: Outcome<char>)
    ensures r.Good? ==> |s| >= 4 && r.rest == s[4..]
  {
    if |s| < 4 then Bad(UnexpectedEof, s)
    else match Hex(s, 4, 0)
      case Bad(e, rest) => Bad(e, rest)
      case Good(code, rest) => Good(CodeChar(code), rest)
  }

  function SimpleEscape(c: char): char {
    match c
    case 'b' => '\U{8}'
    case 'f' => '\U{C}'
    case 'n' => '\n'
    case 'r' => '\r'
    case 't' => '\t'
    case _ => c
  }

  /** A string behind its opening quote. */
  function StringBody(s: string, acc: string): (r: Outcome<string>)
    ensures r.Good? ==> |r.rest| < |s|
    decreases |s|
  {
    if s == [] then Bad(UnexpectedEof, s)
    else if s[0] == '"' then Good(acc, s[1..])
    else if s[0] == '\\' then
      if |s| == 1 then Bad(UnexpectedEof, s[1..])
      else if s[1] == 'u' then
        match UnicodeEscape(s[2..])
        case Bad(e, rest) => Bad(e, rest)
        case Good(c, rest) => StringBody(rest, acc + [c])
      else StringBody(s[2..], acc + [SimpleEscape(s[1])])
    else StringBody(s[1..], acc + [s[0]])
  }

  function ParseString(s: string): (r: Outcome<string>)
    ensures r.Good? ==> |r.rest| < |s|
  {
    match Expect(s, '"')
    case Bad(e, rest) => Bad(e, rest)
    case Good(_, rest) => StringBody(rest, [])
  }

  // ----- numbers -----

  predicate IsDigit(c: char) { '0' <= c <= '9' }

  predicate AllDigits(s: string) { forall i :: 0 <= i < |s| ==> IsDigit(s[i]) }

  function DigitValue(c: char): nat
    requires IsDigit(c)
  {
    c as nat - '0' as nat
  }

  /** Number of digits at the start. */
  function Run(s: string): (n: nat)
    ensures n <= |s| && AllDigits(s[..n]) && (n < |s| ==> !IsDigit(s[n]))
  {
    if s == [] || !IsDigit(s[0]) then 0 else 1 + Run(s[1..])
  }

  lemma {:induction false} RunIs(ds: string, tail: string)
    requires AllDigits(ds) && (tail == [] || !IsDigit(tail[0]))
    ensures Run(ds + tail) == |ds|
  {
    if ds == [] {
      assert ds + tail == tail;
    } else {
      assert (ds + tail)[1..] == ds[1..] + tail;
      RunIs(ds[1..], tail);
    }
  }

  datatype Sign = NoSign | Plus | Minus
  datatype Exponent = NoExponent | Exponent(mark: char, sign: Sign, digits: string)

  /** A number literal of section 6 of RFC 8259; no fraction if `fraction` is empty. */
  datatype Literal = Literal(minus: bool, whole: string, fraction: string, exponent: Exponent)

  predicate ValidExponent(e: Exponent) {
    e.Exponent? ==> (e.mark == 'e' || e.mark == 'E') && e.digits != [] && AllDigits(e.digits)
  }

  predicate ValidLiteral(l: Literal) {
    && l.whole != [] && AllDigits(l.whole) && (l.whole[0] == '0' ==> |l.whole| == 1)
    && AllDigits(l.fraction) && ValidExponent(l.exponent)
  }

  function SignText(s: Sign): string { match s case NoSign => "" case Plus => "+" case Minus => "-" }

  function ExponentText(e: Exponent): string {
    if e.NoExponent? then "" else [e.mark] + SignText(e.sign) + e.digits
  }

  function FractionText(f: string): string { if f == [] then "" else "." + f }

  function LiteralText(l: Literal): string {
    (if l.minus then "-" else "") + l.whole + FractionText(l.fraction) + ExponentText(l.exponent)
  }

  /** Digits as a decimal number, appended to those already read. */
  function Decimal(ds: string, acc: real): real
    requires AllDigits(ds)
  {
    if ds == [] then acc else Decimal(ds[1..], acc * 10.0 + DigitValue(ds[0]) as real)
  }

  function DecimalNat(ds: string, acc: nat): nat
    requires AllDigits(ds)
  {
    if ds == [] then acc else DecimalNat(ds[1..], acc * 10 + DigitValue(ds[0]))
  }

  /** Digits behind the point. */
  function Fraction(ds: string): real
    requires AllDigits(ds)
  {
    if ds == [] then 0.0 else (DigitValue(ds[0]) as real + Fraction(ds[1..])) / 10.0
  }

  function Pow10(n: nat): (r: real)
    ensures r > 0.0
  {
    if n == 0 then 1.0 else Pow10(n - 1) * 10.0
  }

  /** The number a literal stands for. */
  function LiteralValue(l: Literal): real
    requires ValidLiteral(l)
  {
    var v := Decimal(l.whole, 0.0) + Fraction(l.fraction);
    var scaled := match l.exponent
      case NoExponent => v
      case Exponent(_, sign, ds) => if sign == Minus then v / Pow10(DecimalNat(ds, 0)) else v * Pow10(DecimalNat(ds, 0));
    if l.minus then -scaled else scaled
  }

  function ScanSign(s: string): (r: (Sign, string))
    ensures SignText(r.0) + r.1 == s && |r.1| <= |s|
  {
    if StartsWith(s, '+') then (Plus, s[1..]) else if StartsWith(s, '-') then (Minus, s[1..]) else (NoSign, s)
  }

  /** The digits at the start, and the rest. */
  function Digits(s: string): (r: (string, string))
    ensures r.0 + r.1 == s && AllDigits(r.0) && |r.1| <= |s|
    ensures r.1 == [] || !IsDigit(r.1[0])
  {
    (s[..Run(s)], s[Run(s)..])
  }

  function ScanExponent(s: string): (r: Outcome<Exponent>)
    ensures r.Good? ==> |r.rest| <= |s|
  {
    if StartsWith(s, 'e') || StartsWith(s, 'E') then
      var (sign, t) := ScanSign(s[1..]);
      var (ds, rest) := Digits(t);
      if ds == [] then Bad(InvalidNumber, t) else Good(Exponent(s[0], sign, ds), rest)
    else Good(NoExponent, s)
  }

  function ScanFraction(s: string): (r: Outcome<string>)
    ensures r.Good? ==> |r.rest| <= |s|
  {
    if StartsWith(s, '.') then
      var (ds, rest) := Digits(s[1..]);
      if ds == [] then Bad(InvalidNumber, s[1..]) else Good(ds, rest)
    else Good([], s)
  }

  function ScanWhole(s: string): (r: Outcome<string>)
    ensures r.Good? ==> |r.rest| < |s|
  {
    if s == [] then Bad(UnexpectedEof, s)
    else if s[0] == '0' then Good(s[..1], s[1..])
    else if !IsDigit(s[0]) then Bad(InvalidNumber, s)
    else var (ds, rest) := Digits(s); NonEmptyDigits(s); Good(ds, rest)
  }

  lemma NonEmptyDigits(s: string)
    requires s != [] && IsDigit(s[0])
    ensures Digits(s).0 != [] && Digits(s).0[0] == s[0] && |Digits(s).1| < |s|
  {}

  function ScanNumber(s: string): (r: Outcome<Literal>)
    ensures r.Good? ==> |r.rest| < |s|
  {
    var minus := StartsWith(s, '-');
    match ScanWhole(if minus then s[1..] else s)
    case Bad(e, rest) => Bad(e, rest)
    case Good(whole, s2) =>
      match ScanFraction(s2)
      case Bad(e, rest) => Bad(e, rest)
      case Good(fraction, s3) =>
        match ScanExponent(s3)
        case Bad(e, rest) => Bad(e, rest)
        case Good(exponent, s4) => Good(Literal(minus, whole, fraction, exponent), s4)
  }

  lemma ScanWholeText(s: string)
    requires ScanWhole(s).Good?
    ensures var r := ScanWhole(s);
      r.value + r.rest == s && r.value != [] && AllDigits(r.value) && (r.value[0] == '0' ==> |r.value| == 1)
  {
    hide Digits;
    if s[0] != '0' { NonEmptyDigits(s); }
  }

  lemma ScanFractionText(s: string)
    requires ScanFraction(s).Good?
    ensures var r := ScanFraction(s); FractionText(r.value) + r.rest == s && AllDigits(r.value)
  {
    hide Digits;
    if StartsWith(s, '.') {
      assert s == "." + s[1..];
      Joined3(".", Digits(s[1..]).0, Digits(s[1..]).1);
    } else {
      assert [] + s == s;
    }
  }

  lemma ScanExponentText(s: string)
    requires ScanExponent(s).Good?
    ensures var r := ScanExponent(s); ExponentText(r.value) + r.rest == s && ValidExponent(r.value)
  {
    hide Digits, ScanSign, SignText;
    if StartsWith(s, 'e') || StartsWith(s, 'E') {
      var st := ScanSign(s[1..]);
      var dr := Digits(st.1);
      assert s == [s[0]] + s[1..];
      Joined3([s[0]], SignText(st.0), st.1);
      Joined3([s[0]] + SignText(st.0), dr.0, dr.1);
    } else {
      assert [] + s == s;
    }
  }

  lemma Joined3<T>(a: seq<T>, b: seq<T>, c: seq<T>)
    ensures a + (b + c) == a + b + c
  {}

  /** What was scanned is a valid literal, and is the text up to where scanning stopped. */
  lemma ScanIsLiteral(s: string)
    requires ScanNumber(s).Good?
    ensures ValidLiteral(ScanNumber(s).value)
    ensures LiteralText(ScanNumber(s).value) + ScanNumber(s).rest == s
  {
    hide ScanWhole, ScanFraction, ScanExponent, ExponentText, FractionText, ValidExponent;
    var minus := StartsWith(s, '-');
    var s1 := if minus then s[1..] else s;
    var w := ScanWhole(s1);
    ScanWholeText(s1);
    var f := ScanFraction(w.rest);
    ScanFractionText(w.rest);
    var e := ScanExponent(f.rest);
    ScanExponentText(f.rest);
    var m := if minus then "-" else "";
    assert s == m + s1;
    Joined3(m, w.value, w.rest);
    Joined3(m + w.value, FractionText(f.value), f.rest);
    Joined3(m + w.value + FractionText(f.value), ExponentText(e.value), e.rest);
  }

  // ----- values -----

  function ParseNumber(s: string): (r: Outcome<Value>)
    ensures r.Good? ==> |r.rest| < |s|
  {
    match ScanNumber(s)
    case Bad(e, rest) => Bad(e, rest)
    case Good(l, rest) => ScanIsLiteral(s); Good(Number(LiteralValue(l)), rest)
  }

  function ParseLiteral(s: string, literal: string, v: Value): (r: Outcome<Value>)
    requires literal != []
    ensures r.Good? ==> |r.rest| < |s|
  {
    if |literal| > |s| then Bad(UnexpectedEof, s)
    else if s[..|literal|] != literal then Bad(InvalidLiteral, s)
    else Good(v, s[|literal|..])
  }

  function ParseValue(s: string): (r: Outcome<Value>)
    ensures r.Good? ==> |r.rest| < |s|
    decreases |s|, 2
  {
    var t := Skip(s);
    if t == [] then Bad(UnexpectedEof, t)
    else match t[0]
      case '{' => ParseObject(t)
      case '[' => ParseArray(t)
      case '"' =>
        (match ParseString(t)
         case Bad(e, rest) => Bad(e, rest)
         case Good(v, rest) => Good(String(CStrings.Text(v)), rest))
      case 't' => ParseLiteral(t, "true", Bool(true))
      case 'f' => ParseLiteral(t, "false", Bool(false))
      case 'n' => ParseLiteral(t, "null", Null)
      case c => if c == '-' || IsDigit(c) then ParseNumber(t) else Bad(ExpectedValue, t)
  }

  function ParseObject(s: string): (r: Outcome<Value>)
    ensures r.Good? ==> |r.rest| < |s|
    decreases |s|, 1
  {
    match Expect(s, '{')
    case Bad(e, rest) => Bad(e, rest)
    case Good(_, rest) =>
      var t := Skip(rest);
      if StartsWith(t, '}') then Good(Object([]), t[1..]) else Members(t, [])
  }

  /** One member of an object. */
  function Member(s: string): (r: Outcome<Entry>)
    ensures r.Good? ==> |r.rest| < |s|
    decreases |s|, 3
  {
    match ParseString(s)
    case Bad(e, rest) => Bad(e, rest)
    case Good(key, s1) =>
      match Expect(Skip(s1), ':')
      case Bad(e, rest) => Bad(e, rest)
      case Good(_, s2) =>
        match ParseValue(s2)
        case Bad(e, rest) => Bad(e, rest)
        case Good(v, s3) => Good(Entry(CStrings.Text(key), v), s3)
  }

  /** The members of an object from one key on. */
  function Members(s: string, acc: seq<Entry>): (r: Outcome<Value>)
    ensures r.Good? ==> |r.rest| < |s|
    decreases |s|, 4
  {
    match Member(s)
    case Bad(e, rest) => Bad(e, rest)
    case Good(m, s1) =>
      var t := Skip(s1);
      var all := acc + [m];
      if StartsWith(t, '}') then Good(Object(all), t[1..])
      else
        match Expect(t, ',')
        case Bad(e, rest) => Bad(e, rest)
        case Good(_, s2) => Members(Skip(s2), all)
  }

  function ParseArray(s: string): (r: Outcome<Value>)
    ensures r.Good? ==> |r.rest| < |s|
    decreases |s|, 1
  {
    match Expect(s, '[')
    case Bad(e, rest) => Bad(e, rest)
    case Good(_, rest) =>
      var t := Skip(rest);
      if StartsWith(t, ']') then Good(Array([]), t[1..]) else Elements(t, [])
  }

  /** The elements of an array from one element on. */
  function Elements(s: string, acc: seq<Value>): (r: Outcome<Value>)
    ensures r.Good? ==> |r.rest| < |s|
    decreases |s|, 3
  {
    match ParseValue(s)
    case Bad(e, rest) => Bad(e, rest)
    case Good(v, s1) =>
      var t := Skip(s1);
      var all := acc + [v];
      if StartsWith(t, ']') then Good(Array(all), t[1..])
      else
        match Expect(t, ',')
        case Bad(e, rest) => Bad(e, rest)
        case Good(_, s2) => Elements(Skip(s2), all)
  }

  lemma MembersStep(s: string, acc: seq<Entry>)
    ensures Members(s, acc) ==
      var o := Member(s);
      if o.Bad? then Bad(o.error, o.rest)
      else
        var t := Skip(o.rest);
        var comma := Expect(t, ',');
        if StartsWith(t, '}') then Good(Object(acc + [o.value]), t[1..])
        else if comma.Bad? then Bad(comma.error, comma.rest)
        else Members(Skip(comma.rest), acc + [o.value])
  {}

  lemma ElementsStep(s: string, acc: seq<Value>)
    ensures Elements(s, acc) ==
      var o := ParseValue(s);
      if o.Bad? then Bad(o.error, o.rest)
      else
        var t := Skip(o.rest);
        var comma := Expect(t, ',');
        if StartsWith(t, ']') then Good(Array(acc + [o.value]), t[1..])
        else if comma.Bad? then Bad(comma.error, comma.rest)
        else Elements(Skip(comma.rest), acc + [o.value])
  {}

  /** A whole text. */
  function Parse(s: string): Outcome<Value> {
    match ParseValue(Skip(s))
    case Bad(e, rest) => Bad(e, rest)
    case Good(v, rest) =>
      var t := Skip(rest);
      if t == [] then Good(v, t) else Bad(TrailingContent, t)
  }
}
