/** Every text that sections 2 to 7 of RFC 8259 allow for a tree parses back to that tree. */
module JsonRoundTrip {
  import CStrings
  import opened Json
  import opened JsonText

  // ----- texts, written down with every choice a serialiser has -----

  /** A character of a string: as it is, behind a backslash, or as four hexadecimal digits. */
  datatype CharForm = Raw(c: char) | Escaped(c: char) | Unicode(hex: string)

  /** `before` and `after` are the white space around a value or a member. */
  datatype Item = Item(before: string, doc: Doc, after: string)
  datatype Pair = Pair(before: string, key: seq<CharForm>, colonBefore: string, colonAfter: string, doc: Doc, after: string)

  datatype Doc =
    | DNull
    | DBool(truth: bool)
    | DNumber(literal: Literal)
    | DString(chars: seq<CharForm>)
    | DArray(inner: string, items: seq<Item>)
    | DObject(inner: string, pairs: seq<Pair>)

  function CharText(f: CharForm): string {
    match f
    case Raw(c) => [c]
    case Escaped(c) => ['\\', c]
    case Unicode(hex) => "\\u" + hex
  }

  function CharsText(cs: seq<CharForm>): string {
    if cs == [] then "" else CharText(cs[0]) + CharsText(cs[1..])
  }

  function StringText(cs: seq<CharForm>): string { "\"" + CharsText(cs) + "\"" }

  function Text(d: Doc): string
    decreases d, 1, 0
  {
    match d
    case DNull => "null"
    case DBool(b) => if b then "true" else "false"
    case DNumber(l) => LiteralText(l)
    case DString(cs) => StringText(cs)
    case DArray(inner, items) => "[" + if items == [] then inner + "]" else items[0].before + ArrayText(d, 0)
    case DObject(inner, pairs) => "{" + if pairs == [] then inner + "}" else pairs[0].before + ObjectText(d, 0)
  }

  /** An array from its i-th element on. */
  function ArrayText(d: Doc, i: nat): string
    requires d.DArray? && i < |d.items|
    decreases d, 0, |d.items| - i
  {
    Text(d.items[i].doc) + (d.items[i].after
      + if i + 1 == |d.items| then "]" else "," + (d.items[i + 1].before + ArrayText(d, i + 1)))
  }

  function PairText(p: Pair, value: string): string {
    StringText(p.key) + (p.colonBefore + (":" + (p.colonAfter + value)))
  }

  /** An object from its i-th member on. */
  function ObjectText(d: Doc, i: nat): string
    requires d.DObject? && i < |d.pairs|
    decreases d, 0, |d.pairs| - i
  {
    PairText(d.pairs[i], Text(d.pairs[i].doc)) + (d.pairs[i].after
      + if i + 1 == |d.pairs| then "}" else "," + (d.pairs[i + 1].before + ObjectText(d, i + 1)))
  }

  // ----- what they mean -----

  function HexCode(hex: string): nat
    requires forall i :: 0 <= i < |hex| ==> HexValue(hex[i]) >= 0
  {
    if hex == [] then 0 else HexCode(hex[..|hex| - 1]) * 16 + HexValue(hex[|hex| - 1])
  }

  predicate ValidChar(f: CharForm) {
    match f
    case Raw(c) => c != '"' && c != '\\'
    case Escaped(c) => c != 'u'
    case Unicode(hex) => |hex| == 4 && forall i :: 0 <= i < 4 ==> HexValue(hex[i]) >= 0
  }

  /** The escapes of section 7 of RFC 8259 by their code points; any other character stands
      for itself. */
  function EscapeMeaning(c: char): char {
    match c
    case 'b' => 8 as char
    case 't' => 9 as char
    case 'n' => 10 as char
    case 'f' => 12 as char
    case 'r' => 13 as char
    case _ => c
  }

  /** The character: codes above 0x7F become a question mark, the others are themselves. */
  function CharMeaning(f: CharForm): char
    requires ValidChar(f)
  {
    match f
    case Raw(c) => c
    case Escaped(c) => EscapeMeaning(c)
    case Unicode(hex) => if HexCode(hex) <= 0x7F then HexCode(hex) as char else '?'
  }

  predicate ValidChars(cs: seq<CharForm>) { forall i :: 0 <= i < |cs| ==> ValidChar(cs[i]) }

  function CharsMeaning(cs: seq<CharForm>): string
    requires ValidChars(cs)
  {
    seq(|cs|, i requires 0 <= i < |cs| => CharMeaning(cs[i]))
  }

  /** Space, tab, line feed and carriage return, section 2 of RFC 8259. */
  predicate Spaces(s: string) { forall i :: 0 <= i < |s| ==> s[i] as nat in {32, 9, 10, 13} }

  predicate Valid(d: Doc) {
    match d
    case DNumber(l) => ValidLiteral(l)
    case DString(cs) => ValidChars(cs)
    case DArray(inner, items) =>
      Spaces(inner) && forall i :: 0 <= i < |items| ==>
        Spaces(items[i].before) && Spaces(items[i].after) && Valid(items[i].doc)
    case DObject(inner, pairs) =>
      Spaces(inner) && forall i :: 0 <= i < |pairs| ==>
        && Spaces(pairs[i].before) && Spaces(pairs[i].colonBefore) && Spaces(pairs[i].colonAfter) && Spaces(pairs[i].after)
        && ValidChars(pairs[i].key) && Valid(pairs[i].doc)
    case _ => true
  }

  /** The tree; strings are zero-terminated. */
  function Meaning(d: Doc): Value
    requires Valid(d)
  {
    match d
    case DNull => Null
    case DBool(b) => Bool(b)
    case DNumber(l) => Number(LiteralValue(l))
    case DString(cs) => String(CStrings.Text(CharsMeaning(cs)))
    case DArray(_, items) => Array(seq(|items|, i requires 0 <= i < |items| => Meaning(items[i].doc)))
    case DObject(_, pairs) =>
      Object(seq(|pairs|, i requires 0 <= i < |pairs| => Entry(CStrings.Text(CharsMeaning(pairs[i].key)), Meaning(pairs[i].doc))))
  }

  // ----- reading the parts back -----

  lemma {:induction false} SkipSpaces(ws: string, s: string)
    requires Spaces(ws)
    ensures Skip(ws + s) == Skip(s)
  {
    if ws == [] {
      assert ws + s == s;
    } else {
      assert (ws + s)[1..] == ws[1..] + s;
      SkipSpaces(ws[1..], s);
    }
  }

  lemma {:induction false} HexBound(hex: string, k: nat)
    requires k <= |hex| == 4 && forall i :: 0 <= i < 4 ==> HexValue(hex[i]) >= 0
    ensures k == 0 ==> HexCode(hex[..k]) == 0
    ensures k == 1 ==> HexCode(hex[..k]) < 0x10
    ensures k == 2 ==> HexCode(hex[..k]) < 0x100
    ensures k == 3 ==> HexCode(hex[..k]) < 0x1000
    ensures k == 4 ==> HexCode(hex[..k]) < 0x1_0000
  {
    if k > 0 {
      HexBound(hex, k - 1);
      assert hex[..k][..k - 1] == hex[..k - 1] && hex[..k][k - 1] == hex[k - 1];
    }
  }

  lemma HexCodeNext(hex: string, k: nat)
    requires k < |hex| && forall i :: 0 <= i < |hex| ==> HexValue(hex[i]) >= 0
    ensures HexCode(hex[..k + 1]) == HexCode(hex[..k]) * 16 + HexValue(hex[k])
  {
    assert hex[..k + 1][..k] == hex[..k] && hex[..k + 1][k] == hex[k];
  }

  lemma HexReadsOne(hex: string, k: nat, s: string)
    requires k < |hex| == 4 && forall i :: 0 <= i < 4 ==> HexValue(hex[i]) >= 0
    requires HexCode(hex[..k]) < 0x1_0000 && HexCode(hex[..k + 1]) < 0x1_0000
    ensures Hex(hex[k..] + s, 4 - k, HexCode(hex[..k])) == Hex(hex[k + 1..] + s, 3 - k, HexCode(hex[..k + 1]))
  {
    hide Hex, HexCode, HexValue;
    var t := hex[k..] + s;
    TailNext(hex, k, s);
    HexStep(t, 4 - k, HexCode(hex[..k]));
    HexCodeNext(hex, k);
    InRange(HexCode(hex[..k + 1]));
  }

  lemma TailNext(hex: string, k: nat, s: string)
    requires k < |hex|
    ensures (hex[k..] + s)[1..] == hex[k + 1..] + s && (hex[k..] + s)[0] == hex[k]
  {}

  lemma InRange(code: nat)
    requires code < 0x1_0000
    ensures code % 0x1_0000 == code
  {}

  lemma {:induction false} HexReads(hex: string, k: nat, s: string)
    requires k <= |hex| == 4 && forall i :: 0 <= i < 4 ==> HexValue(hex[i]) >= 0
    ensures HexCode(hex[..k]) < 0x1_0000 && HexCode(hex) < 0x1_0000
    ensures Hex(hex[k..] + s, 4 - k, HexCode(hex[..k])) == Good(HexCode(hex), s)
    decreases 4 - k
  {
    hide Hex, HexCode, HexValue;
    HexBound(hex, k);
    if k == 4 {
      assert hex[..4] == hex && hex[4..] + s == s;
      HexEnd(s, HexCode(hex));
    } else {
      HexReads(hex, k + 1, s);
      HexReadsOne(hex, k, s);
    }
  }

  lemma EscapeReads(hex: string, s: string)
    requires |hex| == 4 && forall i :: 0 <= i < 4 ==> HexValue(hex[i]) >= 0
    ensures UnicodeEscape(hex + s) == Good(CodeChar(HexCode(hex)), s)
  {
    HexReads(hex, 0, s);
    assert hex[0..] == hex;
    assert HexCode(hex[..0]) == 0;
  }

  lemma CharReads(f: CharForm, s: string, acc: string)
    requires ValidChar(f)
    ensures StringBody(CharText(f) + s, acc) == StringBody(s, acc + [CharMeaning(f)])
  {
    hide HexCode, HexValue, UnicodeEscape;
    var t := CharText(f) + s;
    match f {
      case Raw(c) => assert t[1..] == s;
      case Escaped(c) => assert t[2..] == s;
      case Unicode(hex) =>
        assert t[2..] == hex + s;
        EscapeReads(hex, s);
    }
  }

  lemma {:induction false} CharsRead(cs: seq<CharForm>, s: string, acc: string)
    requires ValidChars(cs)
    ensures StringBody(CharsText(cs) + s, acc) == StringBody(s, acc + CharsMeaning(cs))
  {
    hide StringBody, CharText, CharMeaning, ValidChar;
    if cs == [] {
      assert CharsText(cs) + s == s && acc + CharsMeaning(cs) == acc;
    } else {
      Joined3(CharText(cs[0]), CharsText(cs[1..]), s);
      CharReads(cs[0], CharsText(cs[1..]) + s, acc);
      CharsRead(cs[1..], s, acc + [CharMeaning(cs[0])]);
      assert acc + [CharMeaning(cs[0])] + CharsMeaning(cs[1..]) == acc + CharsMeaning(cs);
    }
  }

  lemma StringReads(cs: seq<CharForm>, rest: string)
    requires ValidChars(cs)
    ensures ParseString(StringText(cs) + rest) == Good(CharsMeaning(cs), rest)
  {
    hide CharsText, CharMeaning, ValidChar;
    var s := "\"" + rest;
    assert StringText(cs) + rest == "\"" + (CharsText(cs) + s);
    assert ("\"" + (CharsText(cs) + s))[1..] == CharsText(cs) + s;
    CharsRead(cs, s, []);
    assert s[1..] == rest && [] + CharsMeaning(cs) == CharsMeaning(cs);
  }

  // ----- numbers -----

  /** What may follow a value. */
  predicate Delimited(rest: string) {
    rest == [] || IsSpace(rest[0]) || rest[0] == ',' || rest[0] == ']' || rest[0] == '}'
  }

  lemma DigitsRead(ds: string, tail: string)
    requires AllDigits(ds) && (tail == [] || !IsDigit(tail[0]))
    ensures Digits(ds + tail) == (ds, tail)
  {
    RunIs(ds, tail);
  }

  lemma ExponentReads(e: Exponent, rest: string)
    requires ValidExponent(e) && Delimited(rest)
    ensures ScanExponent(ExponentText(e) + rest) == Good(e, rest)
  {
    hide Digits, ScanSign, SignText;
    if e.Exponent? {
      DigitsRead(e.digits, rest);
      var t := e.digits + rest;
      assert t[0] == e.digits[0] && IsDigit(t[0]);
      SignReads(e.sign, t);
      Joined3([e.mark] + SignText(e.sign), e.digits, rest);
      Joined3([e.mark], SignText(e.sign), t);
      assert ([e.mark] + (SignText(e.sign) + t))[1..] == SignText(e.sign) + t;
    } else {
      assert ExponentText(e) + rest == rest;
    }
  }

  lemma SignReads(sign: Sign, t: string)
    requires t != [] && IsDigit(t[0])
    ensures ScanSign(SignText(sign) + t) == (sign, t)
  {
    var s := SignText(sign) + t;
    if sign == NoSign { assert s == t; } else { assert s[1..] == t; }
  }

  lemma FractionReads(fraction: string, tail: string)
    requires AllDigits(fraction) && (tail == [] || (!IsDigit(tail[0]) && tail[0] != '.'))
    ensures ScanFraction(FractionText(fraction) + tail) == Good(fraction, tail)
    ensures var t := FractionText(fraction) + tail; t == [] || !IsDigit(t[0])
  {
    hide Digits;
    if fraction != [] {
      assert FractionText(fraction) + tail == "." + (fraction + tail);
      DigitsRead(fraction, tail);
    } else {
      assert FractionText(fraction) + tail == tail;
    }
  }

  lemma WholeReads(whole: string, tail: string)
    requires whole != [] && AllDigits(whole) && (whole[0] == '0' ==> |whole| == 1) && (tail == [] || !IsDigit(tail[0]))
    ensures ScanWhole(whole + tail) == Good(whole, tail)
    ensures (whole + tail)[0] == whole[0] && whole[0] != '-'
  {
    hide Digits;
    var s := whole + tail;
    if whole[0] == '0' {
      assert s[..1] == whole && s[1..] == tail;
    } else {
      DigitsRead(whole, tail);
    }
  }

  lemma ExponentStart(e: Exponent, rest: string)
    requires ValidExponent(e) && Delimited(rest)
    ensures var t := ExponentText(e) + rest; t == [] || (!IsDigit(t[0]) && t[0] != '.')
  {}

  lemma NumberReads(l: Literal, rest: string)
    requires ValidLiteral(l) && Delimited(rest)
    ensures ScanNumber(LiteralText(l) + rest) == Good(l, rest)
    ensures var c := (LiteralText(l) + rest)[0]; c == '-' || IsDigit(c)
  {
    hide ScanWhole, ScanFraction, ScanExponent, ExponentText, FractionText, ValidExponent, AllDigits;
    var e := ExponentText(l.exponent) + rest;
    ExponentReads(l.exponent, rest);
    ExponentStart(l.exponent, rest);
    var f := FractionText(l.fraction) + e;
    FractionReads(l.fraction, e);
    WholeReads(l.whole, f);
    Regrouped(if l.minus then "-" else "", l.whole, FractionText(l.fraction), ExponentText(l.exponent), rest);
    WholeDigit(l.whole);
    if l.minus { assert ("-" + (l.whole + f))[1..] == l.whole + f; } else { assert "" + (l.whole + f) == l.whole + f; }
  }

  lemma WholeDigit(whole: string)
    requires whole != [] && AllDigits(whole)
    ensures IsDigit(whole[0])
  {}

  lemma Regrouped<T>(a: seq<T>, b: seq<T>, c: seq<T>, d: seq<T>, e: seq<T>)
    ensures a + b + c + d + e == a + (b + (c + (d + e)))
  {}

  // ----- values -----

  /** First characters of a value's text. */
  lemma Head(d: Doc, rest: string)
    requires Valid(d)
    ensures var t := Text(d) + rest;
      && t != [] && !IsSpace(t[0]) && t[0] != ']' && Skip(t) == t
      && (d.DNull? ==> t[0] == 'n') && (d.DBool? ==> t[0] == if d.truth then 't' else 'f')
      && (d.DNumber? ==> t[0] == '-' || IsDigit(t[0])) && (d.DString? ==> t[0] == '"')
      && (d.DArray? ==> t[0] == '[') && (d.DObject? ==> t[0] == '{')
  {
    hide ArrayText, ObjectText, LiteralText;
    if d.DNumber? { LiteralHead(d.literal); }
  }

  lemma LiteralHead(l: Literal)
    requires ValidLiteral(l)
    ensures LiteralText(l) != [] && (LiteralText(l)[0] == '-' || IsDigit(LiteralText(l)[0]))
  {
    hide FractionText, ExponentText;
  }

  lemma NoSpaces()
    ensures Spaces("")
  {}

  /** White space, then something that is none. */
  lemma Skipped(ws: string, s: string)
    requires Spaces(ws) && s != [] && !IsSpace(s[0])
    ensures Skip(ws + s) == s
  {
    SkipSpaces(ws, s);
  }

  lemma SpacesDelimit(after: string, next: string)
    requires Spaces(after) && Delimited(next)
    ensures Delimited(after + next)
  {
    if after == [] { assert after + next == next; }
  }

  lemma LiteralReads(d: Doc, rest: string)
    requires d.DNull? || d.DBool?
    ensures ParseValue(Text(d) + rest) == Good(Meaning(d), rest)
  {
    var t := Text(d) + rest;
    Head(d, rest);
    assert t[..|Text(d)|] == Text(d) && t[|Text(d)|..] == rest;
  }

  lemma NumberValueReads(l: Literal, rest: string)
    requires ValidLiteral(l) && Delimited(rest)
    ensures ParseNumber(LiteralText(l) + rest) == Good(Number(LiteralValue(l)), rest)
  {
    hide ScanNumber, LiteralText, LiteralValue, ValidLiteral;
    NumberReads(l, rest);
  }

  function ArrayRest(d: Doc, i: nat): (s: string)
    requires d.DArray? && i < |d.items|
  {
    if i + 1 == |d.items| then "]" else "," + (d.items[i + 1].before + ArrayText(d, i + 1))
  }

  function ObjectRest(d: Doc, i: nat): (s: string)
    requires d.DObject? && i < |d.pairs|
  {
    if i + 1 == |d.pairs| then "}" else "," + (d.pairs[i + 1].before + ObjectText(d, i + 1))
  }

  /** The round trip: every valid text, followed by anything that may follow a value, is
      read to its meaning, and reading stops right behind it. */
  lemma {:induction false} ValueReads(d: Doc, rest: string)
    requires Valid(d) && Delimited(rest)
    ensures ParseValue(Text(d) + rest) == Good(Meaning(d), rest)
    decreases d, 2, 0
  {
    hide ParseObject, ParseArray, ParseNumber, ParseString, LiteralText, LiteralValue, StringText, CharsMeaning, CStrings.Text;
    Head(d, rest);
    match d {
      case DNull => LiteralReads(d, rest);
      case DBool(_) => LiteralReads(d, rest);
      case DNumber(l) => NumberValueReads(l, rest);
      case DString(cs) => StringReads(cs, rest);
      case DArray(_, _) => ArrayReads(d, rest);
      case DObject(_, _) => ObjectReads(d, rest);
    }
  }

  lemma {:induction false} ArrayReads(d: Doc, rest: string)
    requires d.DArray? && Valid(d) && Delimited(rest)
    ensures ParseArray(Text(d) + rest) == Good(Meaning(d), rest)
    decreases d, 1, 0
  {
    hide ArrayText, Elements;
    var s := Text(d) + rest;
    if d.items == [] {
      var t := "]" + rest;
      assert s == "[" + (d.inner + t) && s[1..] == d.inner + t;
      Skipped(d.inner, t);
      assert t[1..] == rest && Meaning(d) == Array([]);
    } else {
      var t := ArrayText(d, 0) + rest;
      var before := d.items[0].before;
      assert s == "[" + (before + t) && s[1..] == before + t;
      ArrayHead(d, 0, rest);
      Skipped(before, t);
      ElementsRead(d, 0, [], rest);
    }
  }

  lemma ArrayHead(d: Doc, i: nat, rest: string)
    requires d.DArray? && i < |d.items| && Valid(d.items[i].doc)
    ensures ArrayText(d, i) + rest == Text(d.items[i].doc) + (d.items[i].after + (ArrayRest(d, i) + rest))
    ensures var t := ArrayText(d, i) + rest; t != [] && !IsSpace(t[0]) && t[0] != ']'
  {
    hide Text;
    var it := d.items[i];
    Head(it.doc, it.after + (ArrayRest(d, i) + rest));
    Joined3(Text(it.doc), it.after + ArrayRest(d, i), rest);
    Joined3(it.after, ArrayRest(d, i), rest);
  }

  lemma ArrayRestIs(d: Doc, i: nat, rest: string)
    requires d.DArray? && i < |d.items| && Spaces(d.items[i].after)
    ensures var next := ArrayRest(d, i) + rest;
      && next != [] && Delimited(d.items[i].after + next) && Skip(d.items[i].after + next) == next
      && (i + 1 == |d.items| ==> next[0] == ']' && next[1..] == rest)
      && (i + 1 < |d.items| ==> next[0] == ',' && next[1..] == d.items[i + 1].before + (ArrayText(d, i + 1) + rest))
  {
    hide ArrayText;
    var next := ArrayRest(d, i) + rest;
    if i + 1 < |d.items| {
      Joined3(d.items[i + 1].before, ArrayText(d, i + 1), rest);
      Joined3(",", d.items[i + 1].before + ArrayText(d, i + 1), rest);
    }
    SpacesDelimit(d.items[i].after, next);
    Skipped(d.items[i].after, next);
  }

  /** The elements from the i-th on are appended to those already read. */
  lemma {:induction false} ElementsRead(d: Doc, i: nat, acc: seq<Value>, rest: string)
    requires d.DArray? && Valid(d) && i < |d.items| && acc == Meaning(d).items[..i]
    ensures Elements(ArrayText(d, i) + rest, acc) == Good(Meaning(d), rest)
    decreases d, 0, |d.items| - i
  {
    hide ParseValue, Elements, ArrayText, ArrayRest, Text, Spaces, Delimited, Skip;
    ElementsStep(ArrayText(d, i) + rest, acc);
    var it := d.items[i];
    var next := ArrayRest(d, i) + rest;
    ArrayHead(d, i, rest);
    ArrayRestIs(d, i, rest);
    ValueReads(it.doc, it.after + next);
    assert acc + [Meaning(it.doc)] == Meaning(d).items[..i + 1];
    if i + 1 == |d.items| {
      assert Meaning(d).items[..i + 1] == Meaning(d).items;
    } else {
      ArrayHead(d, i + 1, rest);
      Skipped(d.items[i + 1].before, ArrayText(d, i + 1) + rest);
      ElementsRead(d, i + 1, acc + [Meaning(it.doc)], rest);
    }
  }

  lemma {:induction false} ObjectReads(d: Doc, rest: string)
    requires d.DObject? && Valid(d) && Delimited(rest)
    ensures ParseObject(Text(d) + rest) == Good(Meaning(d), rest)
    decreases d, 1, 0
  {
    hide ObjectText, Members, CharsMeaning, CStrings.Text;
    var s := Text(d) + rest;
    if d.pairs == [] {
      var t := "}" + rest;
      assert s == "{" + (d.inner + t) && s[1..] == d.inner + t;
      Skipped(d.inner, t);
      assert t[1..] == rest && Meaning(d) == Object([]);
    } else {
      var t := ObjectText(d, 0) + rest;
      var before := d.pairs[0].before;
      assert s == "{" + (before + t) && s[1..] == before + t;
      ObjectHead(d, 0, rest);
      Skipped(before, t);
      MembersRead(d, 0, [], rest);
    }
  }

  lemma ObjectHead(d: Doc, i: nat, rest: string)
    requires d.DObject? && i < |d.pairs|
    ensures var p := d.pairs[i];
      ObjectText(d, i) + rest
      == StringText(p.key) + (p.colonBefore + (":" + (p.colonAfter + (Text(p.doc) + (p.after + (ObjectRest(d, i) + rest))))))
    ensures var t := ObjectText(d, i) + rest; t != [] && t[0] == '"'
  {
    hide Text;
    var p := d.pairs[i];
    StringHead(p.key);
    var tail := p.after + (ObjectRest(d, i) + rest);
    Joined3(PairText(p, Text(p.doc)), p.after + ObjectRest(d, i), rest);
    Joined3(p.after, ObjectRest(d, i), rest);
    PairThen(p, Text(p.doc), tail);
  }

  lemma StringHead(cs: seq<CharForm>)
    ensures StringText(cs) != [] && StringText(cs)[0] == '"'
  {}

  lemma PairThen(p: Pair, value: string, tail: string)
    ensures PairText(p, value) + tail == StringText(p.key) + (p.colonBefore + (":" + (p.colonAfter + (value + tail))))
  {
    hide StringText;
    Joined3(StringText(p.key), p.colonBefore + (":" + (p.colonAfter + value)), tail);
    Joined3(p.colonBefore, ":" + (p.colonAfter + value), tail);
    Joined3(":", p.colonAfter + value, tail);
    Joined3(p.colonAfter, value, tail);
  }

  lemma ObjectRestIs(d: Doc, i: nat, rest: string)
    requires d.DObject? && i < |d.pairs| && Spaces(d.pairs[i].after)
    ensures var next := ObjectRest(d, i) + rest;
      && next != [] && Delimited(d.pairs[i].after + next) && Skip(d.pairs[i].after + next) == next
      && (i + 1 == |d.pairs| ==> next[0] == '}' && next[1..] == rest)
      && (i + 1 < |d.pairs| ==> next[0] == ',' && next[1..] == d.pairs[i + 1].before + (ObjectText(d, i + 1) + rest))
  {
    hide ObjectText;
    var next := ObjectRest(d, i) + rest;
    if i + 1 < |d.pairs| {
      Joined3(d.pairs[i + 1].before, ObjectText(d, i + 1), rest);
      Joined3(",", d.pairs[i + 1].before + ObjectText(d, i + 1), rest);
    }
    SpacesDelimit(d.pairs[i].after, next);
    Skipped(d.pairs[i].after, next);
  }

  /** White space before a value does not matter. */
  lemma ParseSpaces(ws: string, s: string)
    requires Spaces(ws)
    ensures ParseValue(ws + s) == ParseValue(s)
  {
    SkipSpaces(ws, s);
  }

  lemma {:induction false} MemberReads(d: Doc, i: nat, rest: string)
    requires d.DObject? && Valid(d) && i < |d.pairs|
    ensures var p := d.pairs[i];
      Member(ObjectText(d, i) + rest)
      == Good(Entry(CStrings.Text(CharsMeaning(p.key)), Meaning(p.doc)), p.after + (ObjectRest(d, i) + rest))
    decreases d, 0, 0
  {
    hide ParseValue, ParseString, ObjectText, ObjectRest, Text, Spaces, Delimited, Skip, CharsMeaning, CStrings.Text, StringText;
    var p := d.pairs[i];
    var tail := p.after + (ObjectRest(d, i) + rest);
    ObjectHead(d, i, rest);
    ObjectRestIs(d, i, rest);
    var v := p.colonAfter + (Text(p.doc) + tail);
    StringReads(p.key, p.colonBefore + (":" + v));
    Skipped(p.colonBefore, ":" + v);
    assert (":" + v)[1..] == v;
    ParseSpaces(p.colonAfter, Text(p.doc) + tail);
    ValueReads(p.doc, tail);
  }

  lemma {:induction false} MembersRead(d: Doc, i: nat, acc: seq<Entry>, rest: string)
    requires d.DObject? && Valid(d) && i < |d.pairs| && acc == Meaning(d).entries[..i]
    ensures Members(ObjectText(d, i) + rest, acc) == Good(Meaning(d), rest)
    decreases d, 0, |d.pairs| - i
  {
    hide Member, Members, ObjectText, ObjectRest, Text, Spaces, Delimited, Skip, CharsMeaning, CStrings.Text;
    MembersStep(ObjectText(d, i) + rest, acc);
    var p := d.pairs[i];
    MemberReads(d, i, rest);
    ObjectRestIs(d, i, rest);
    assert acc + [Entry(CStrings.Text(CharsMeaning(p.key)), Meaning(p.doc))] == Meaning(d).entries[..i + 1];
    if i + 1 == |d.pairs| {
      assert Meaning(d).entries[..i + 1] == Meaning(d).entries;
    } else {
      ObjectHead(d, i + 1, rest);
      NoSpace();
      Skipped(d.pairs[i + 1].before, ObjectText(d, i + 1) + rest);
      MembersRead(d, i + 1, Meaning(d).entries[..i + 1], rest);
    }
  }

  lemma NoSpace()
    ensures !IsSpace('"')
  {}

  /** Parsing a whole text. */
  lemma RoundTrip(before: string, d: Doc, after: string)
    requires Spaces(before) && Valid(d) && Spaces(after)
    ensures Parse(before + Text(d) + after) == Good(Meaning(d), "")
  {
    hide ParseValue, Text, Meaning;
    Joined3(before, Text(d), after);
    Head(d, after);
    Skipped(before, Text(d) + after);
    assert after + "" == after;
    SpacesDelimit(after, "");
    ValueReads(d, after);
    SkipSpaces(after, "");
  }
}
