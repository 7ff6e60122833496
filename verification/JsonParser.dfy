/** The recursive-descent parser, step by step. */
module JsonParser {
  import CStrings
  import opened Json
  import opened JsonText

  class Parser {
    const text: string
    var pos: nat
    var error: Option<Error>

    constructor (text: string)
      ensures this.text == text && pos == 0 && error == None
    {
      this.text, pos, error := text, 0, None;
    }

    /** The text still to be read. */
    ghost function Rest(): (s: string)
      requires pos <= |text|
      reads this`pos
      ensures |s| == |text| - pos
    {
      text[pos..]
    }

    /** The parser stands where `o` says; of several errors the first is kept. */
    ghost predicate Ends<T>(o: Outcome<T>, ok: bool, was: Option<Error>)
      reads this
    {
      && pos <= |text| && Rest() == o.rest && ok == o.Good?
      && error == if o.Good? || was.Some? then was else Some(o.error)
    }

    predicate Eof()
      reads this
    {
      pos >= |text|
    }

    method SetError(e: Error)
      modifies this`error
      ensures error == if old(error).Some? then old(error) else Some(e)
    {
      if error.None? { error := Some(e); }
    }

    lemma Ahead()
      requires pos <= |text|
      ensures Eof() <==> Rest() == []
      ensures !Eof() ==> Rest()[0] == text[pos] && Rest()[1..] == text[pos + 1..]
    {}

    /** Parser::get */
    method Get() returns (c: char)
      requires pos <= |text| && !Eof()
      modifies this`pos
      ensures pos == old(pos) + 1 <= |text| && c == old(Rest())[0] && Rest() == old(Rest())[1..]
    {
      Ahead();
      c := text[pos];
      pos := pos + 1;
    }

    method SkipWhitespace()
      requires pos <= |text|
      modifies this`pos
      ensures pos <= |text| && Rest() == Skip(old(Rest())) && old(pos) <= pos
    {
      while !Eof() && IsSpace(text[pos])
        invariant pos <= |text| && Skip(Rest()) == Skip(old(Rest())) && old(pos) <= pos
        decreases |text| - pos
      {
        Ahead();
        pos := pos + 1;
      }
      Ahead();
    }

    method ExpectChar(c: char) returns (ok: bool)
      requires pos <= |text|
      modifies this`pos, this`error
      ensures Ends(Expect(old(Rest()), c), ok, old(error))
    {
      Ahead();
      if Eof() {
        SetError(UnexpectedEof);
        return false;
      }
      if text[pos] != c {
        SetError(UnexpectedChar);
        return false;
      }
      pos := pos + 1;
      ok := true;
    }

    method Match(c: char) returns (ok: bool)
      requires pos <= |text|
      modifies this`pos
      ensures pos <= |text| && ok == StartsWith(old(Rest()), c)
      ensures Rest() == if ok then old(Rest())[1..] else old(Rest())
    {
      Ahead();
      if !Eof() && text[pos] == c {
        pos := pos + 1;
        return true;
      }
      ok := false;
    }

    /** Parser::appendUnicodeEscape */
    method ReadUnicodeEscape() returns (ok: bool, c: char)
      requires pos <= |text|
      modifies this`pos, this`error
      ensures Ends(UnicodeEscape(old(Rest())), ok, old(error))
      ensures ok ==> c == UnicodeEscape(old(Rest())).value
    {
      hide Rest, Hex, HexValue;
      c := '?';
      if pos + 4 > |text| {
        SetError(UnexpectedEof);
        return false, c;
      }
      ghost var s := Rest();
      var code: nat := 0;
      var i := 0;
      while i < 4
        invariant 0 <= i <= 4 && pos == old(pos) + i && code < 0x1_0000 && error == old(error)
        invariant Hex(s, 4, 0) == Hex(Rest(), 4 - i, code)
      {
        HexStep(Rest(), 4 - i, code);
        var digit := Get();
        var value := HexValue(digit);
        if value < 0 {
          SetError(InvalidUnicode);
          return false, c;
        }
        code := (code * 16 + value) % 0x1_0000;
        i := i + 1;
      }
      HexEnd(Rest(), code);
      if code <= 0x7F { c := code as char; }
      ok := true;
    }

    /** Parser::parseStringRaw, up to the terminator it appends */
    method ReadString() returns (ok: bool, buffer: string)
      requires pos <= |text|
      modifies this`pos, this`error
      ensures Ends(ParseString(old(Rest())), ok, old(error))
      ensures ok ==> buffer == ParseString(old(Rest())).value
    {
      hide Rest, StringBody, UnicodeEscape;
      buffer := [];
      ok := ExpectChar('"');
      if !ok {
        SetError(ExpectedString);
        return;
      }
      ghost var goal := StringBody(Rest(), []);
      while !Eof()
        invariant pos <= |text| && StringBody(Rest(), buffer) == goal && error == old(error)
        decreases |text| - pos
      {
        BodyStep(Rest(), buffer);
        ghost var s := Rest();
        var c := Get();
        if c == '"' { return true, buffer; }
        if c == '\\' {
          if Eof() {
            SetError(UnexpectedEof);
            return false, buffer;
          }
          var esc := Get();
          assert Rest() == s[2..];
          if esc == 'u' {
            EscapeLength(s[2..]);
            var decoded;
            ok, decoded := ReadUnicodeEscape();
            if !ok { return; }
            buffer := buffer + [decoded];
          } else {
            buffer := buffer + [SimpleEscape(esc)];
          }
        } else {
          buffer := buffer + [c];
        }
      }
      BodyStep(Rest(), buffer);
      SetError(UnexpectedEof);
      ok := false;
    }

    static lemma EscapeLength(s: string)
      ensures UnicodeEscape(s).Good? ==> |UnicodeEscape(s).rest| <= |s|
    {}

    /** StringBody, one character read. */
    static lemma BodyStep(s: string, acc: string)
      ensures StringBody(s, acc) ==
        if s == [] then Bad(UnexpectedEof, s)
        else if s[0] == '"' then Good(acc, s[1..])
        else if s[0] != '\\' then StringBody(s[1..], acc + [s[0]])
        else if |s| == 1 then Bad(UnexpectedEof, s[1..])
        else if s[1] != 'u' then StringBody(s[2..], acc + [SimpleEscape(s[1])])
        else
          var u := UnicodeEscape(s[2..]);
          if u.Bad? then Bad(u.error, u.rest) else StringBody(u.rest, acc + [u.value])
    {}

    // ----- numbers -----

    method ReadDigits() returns (ds: string)
      requires pos <= |text|
      modifies this`pos
      ensures pos <= |text| && ds == Digits(old(Rest())).0 && Rest() == Digits(old(Rest())).1
      ensures old(pos) <= pos && ds == text[old(pos)..pos]
    {
      var first := pos;
      while !Eof() && IsDigit(text[pos])
        invariant first <= pos <= |text|
        invariant Run(text[first..]) == (pos - first) + Run(Rest())
        decreases |text| - pos
      {
        Ahead();
        pos := pos + 1;
      }
      Ahead();
      ds := text[first..pos];
      assert text[first..][..pos - first] == ds && text[first..][pos - first..] == Rest();
    }

    method ReadWhole() returns (ok: bool)
      requires pos <= |text|
      modifies this`pos, this`error
      ensures Ends(ScanWhole(old(Rest())), ok, old(error)) && old(pos) <= pos
    {
      hide Digits;
      Ahead();
      if Eof() {
        SetError(UnexpectedEof);
        return false;
      }
      var zero := Match('0');
      if !zero {
        if !IsDigit(text[pos]) {
          SetError(InvalidNumber);
          return false;
        }
        var _ := ReadDigits();
      }
      ok := true;
    }

    method ReadFraction() returns (ok: bool)
      requires pos <= |text|
      modifies this`pos, this`error
      ensures Ends(ScanFraction(old(Rest())), ok, old(error)) && old(pos) <= pos
    {
      hide Digits;
      var point := Match('.');
      if point {
        var ds := ReadDigits();
        if ds == [] {
          SetError(InvalidNumber);
          return false;
        }
      }
      ok := true;
    }

    method ReadSign()
      requires pos <= |text|
      modifies this`pos
      ensures pos <= |text| && Rest() == ScanSign(old(Rest())).1 && old(pos) <= pos
    {
      Ahead();
      if !Eof() && (text[pos] == '+' || text[pos] == '-') { pos := pos + 1; }
    }

    method ReadExponent() returns (ok: bool)
      requires pos <= |text|
      modifies this`pos, this`error
      ensures Ends(ScanExponent(old(Rest())), ok, old(error)) && old(pos) <= pos
    {
      hide Rest, Digits, ScanSign;
      Ahead();
      if !Eof() && (text[pos] == 'e' || text[pos] == 'E') {
        var _ := Get();
        ReadSign();
        var ds := ReadDigits();
        if ds == [] {
          SetError(InvalidNumber);
          return false;
        }
      }
      ok := true;
    }

    /** The first scan of Parser::parseNumber. */
    method ReadNumber() returns (ok: bool)
      requires pos <= |text|
      modifies this`pos, this`error
      ensures Ends(ScanNumber(old(Rest())), ok, old(error)) && old(pos) <= pos
    {
      hide ScanWhole, ScanFraction, ScanExponent;
      var minus := Match('-');
      ok := ReadWhole();
      if !ok { return; }
      ok := ReadFraction();
      if !ok { return; }
      ok := ReadExponent();
    }

    /** Parser::parseNumber: scan, then evaluate a copy of what was scanned. */
    method ParseNumber() returns (ok: bool, out: Value)
      requires pos <= |text|
      modifies this`pos, this`error
      ensures Ends(JsonText.ParseNumber(old(Rest())), ok, old(error))
      ensures ok ==> out == JsonText.ParseNumber(old(Rest())).value
    {
      hide JsonText.ScanNumber, LiteralValue, LiteralText, ValidLiteral;
      out := Null;
      var start := pos;
      ghost var s := Rest();
      ok := ReadNumber();
      if !ok { return; }
      ScanIsLiteral(s);
      ghost var l := JsonText.ScanNumber(s).value;
      assert text[start..pos] == LiteralText(l) by {
        assert s == text[start..pos] + Rest();
        assert |LiteralText(l)| == pos - start;
      }
      var value, _ := Evaluate(text[start..pos] + "\0", l);
      out := Number(value);
    }

    // ----- values -----

    /** Parser::parseLiteral */
    method ParseLiteral(literal: string, v: Value) returns (ok: bool, out: Value)
      requires pos <= |text| && literal != []
      modifies this`pos, this`error
      ensures Ends(JsonText.ParseLiteral(old(Rest()), literal, v), ok, old(error))
      ensures ok ==> out == JsonText.ParseLiteral(old(Rest()), literal, v).value
    {
      out := v;
      if pos + |literal| > |text| {
        SetError(UnexpectedEof);
        return false, out;
      }
      ghost var s := Rest();
      var i := 0;
      while i < |literal|
        invariant 0 <= i <= |literal| && s[..i] == literal[..i]
      {
        assert s[i] == text[pos + i];
        if text[pos + i] != literal[i] {
          assert s[..|literal|][i] != literal[i];
          SetError(InvalidLiteral);
          return false, out;
        }
        i := i + 1;
      }
      assert literal[..i] == literal;
      pos := pos + |literal|;
      ok := true;
    }

    /** Parser::parseValue */
    method ParseValue() returns (ok: bool, out: Value)
      requires pos <= |text|
      modifies this`pos, this`error
      ensures Ends(JsonText.ParseValue(old(Rest())), ok, old(error)) && (ok ==> out == JsonText.ParseValue(old(Rest())).value)
      decreases |Rest()|, 2
    {
      hide Elements, Members, Member, StringBody;
      hide Rest, Skip, ParseString, JsonText.ParseObject, JsonText.ParseArray, JsonText.ParseNumber, JsonText.ParseLiteral, CStrings.Text;
      out := Null;
      SkipWhitespace();
      Ahead();
      if Eof() {
        SetError(UnexpectedEof);
        return false, out;
      }
      var c := text[pos];
      match c {
        case '{' => ok, out := ParseObject();
        case '[' => ok, out := ParseArray();
        case '"' => ok, out := ParseStringValue();
        case 't' => ok, out := ParseLiteral("true", Bool(true));
        case 'f' => ok, out := ParseLiteral("false", Bool(false));
        case 'n' => ok, out := ParseLiteral("null", Null);
        case _ =>
          if c == '-' || IsDigit(c) {
            ok, out := ParseNumber();
          } else {
            SetError(ExpectedValue);
            ok := false;
          }
      }
    }

    method ParseStringValue() returns (ok: bool, out: Value)
      requires pos <= |text|
      modifies this`pos, this`error
      ensures Ends(ParseString(old(Rest())), ok, old(error))
      ensures ok ==> out == String(CStrings.Text(ParseString(old(Rest())).value))
    {
      hide ParseString, CStrings.Text;
      var buffer;
      ok, buffer := ReadString();
      out := String(CStrings.Text(buffer));
    }

    /** A key, a colon and a value. The errors for a missing key or colon come second and
        are never kept. */
    method ReadMember() returns (ok: bool, m: Entry)
      requires pos <= |text|
      modifies this`pos, this`error
      ensures Ends(Member(old(Rest())), ok, old(error)) && (ok ==> m == Member(old(Rest())).value)
      decreases |Rest()|, 3
    {
      hide Rest, Skip, ParseString, JsonText.ParseValue, CStrings.Text, JsonText.ParseObject, JsonText.ParseArray, Elements, Members;
      hide StringBody, JsonText.ParseNumber, JsonText.ParseLiteral;
      m := Entry("", Null);
      var key;
      ok, key := ReadString();
      if !ok { return; }
      SkipWhitespace();
      ok := ExpectChar(':');
      if !ok {
        SetError(ExpectedColon);
        return;
      }
      var v;
      ok, v := ParseValue();
      m := Entry(CStrings.Text(key), v);
    }

    /** Parser::parseObject */
    method ParseObject() returns (ok: bool, out: Value)
      requires pos <= |text|
      modifies this`pos, this`error
      ensures Ends(JsonText.ParseObject(old(Rest())), ok, old(error)) && (ok ==> out == JsonText.ParseObject(old(Rest())).value)
      decreases |Rest()|, 1
    {
      hide Rest, Skip, Members, Member, ParseString, CStrings.Text, JsonText.ParseValue, JsonText.ParseArray, Elements;
      hide StringBody, JsonText.ParseNumber, JsonText.ParseLiteral;
      out := Object([]);
      ok := ExpectChar('{');
      if !ok { return; }
      SkipWhitespace();
      var close := Match('}');
      if close { return true, out; }
      var obj: seq<Entry> := [];
      ghost var goal := Members(Rest(), obj);
      while true
        invariant pos <= |text| && Members(Rest(), obj) == goal && error == old(error) && |Rest()| < |old(Rest())|
        decreases |Rest()|
      {
        ghost var size := |Rest()|;
        MembersStep(Rest(), obj);
        var m;
        ok, m := ReadMember();
        if !ok { return; }
        assert |Rest()| < size;
        obj := obj + [m];
        SkipWhitespace();
        close := Match('}');
        if close { return true, Object(obj); }
        assert |Rest()| < size;
        ok := ExpectChar(',');
        if !ok { return; }
        SkipWhitespace();
        assert |Rest()| < size;
      }
    }

    /** Parser::parseArray */
    method ParseArray() returns (ok: bool, out: Value)
      requires pos <= |text|
      modifies this`pos, this`error
      ensures Ends(JsonText.ParseArray(old(Rest())), ok, old(error)) && (ok ==> out == JsonText.ParseArray(old(Rest())).value)
      decreases |Rest()|, 1
    {
      hide Rest, Skip, Members, Member, ParseString, CStrings.Text, JsonText.ParseValue, JsonText.ParseObject, Elements;
      hide StringBody, JsonText.ParseNumber, JsonText.ParseLiteral;
      out := Array([]);
      ok := ExpectChar('[');
      if !ok { return; }
      SkipWhitespace();
      var close := Match(']');
      if close { return true, out; }
      var arr: seq<Value> := [];
      ghost var goal := Elements(Rest(), arr);
      while true
        invariant pos <= |text| && Elements(Rest(), arr) == goal && error == old(error) && |Rest()| < |old(Rest())|
        decreases |Rest()|
      {
        ghost var size := |Rest()|;
        ElementsStep(Rest(), arr);
        var element;
        ok, element := ParseValue();
        if !ok { return; }
        assert |Rest()| < size;
        arr := arr + [element];
        SkipWhitespace();
        close := Match(']');
        if close { return true, Array(arr); }
        assert |Rest()| < size;
        ok := ExpectChar(',');
        if !ok { return; }
        SkipWhitespace();
        assert |Rest()| < size;
      }
    }

    /** Parser::parse: ends on every text, with the value or with the first error. */
    method Parse() returns (ok: bool, out: Value)
      requires pos == 0 && error == None
      modifies this`pos, this`error
      ensures pos <= |text| && ok == JsonText.Parse(text).Good?
      ensures ok ==> out == JsonText.Parse(text).value && error == None
      ensures !ok ==> error == Some(JsonText.Parse(text).error) && text[pos..] == JsonText.Parse(text).rest
    {
      hide Skip, JsonText.ParseValue;
      assert Rest() == text;
      SkipWhitespace();
      ok, out := ParseValue();
      if !ok { return; }
      SkipWhitespace();
      Ahead();
      if !Eof() {
        SetError(TrailingContent);
        ok := false;
      }
    }
  }

  // ----- the second scan of a number -----

  lemma At(buffer: string, i: nat, k: nat, ds: string, tail: string)
    requires i <= |buffer| && buffer[i..] == ds + tail && tail != [] && k <= |ds|
    ensures i + k < |buffer| && buffer[i + k] == if k < |ds| then ds[k] else tail[0]
    ensures k == |ds| ==> buffer[i + k..] == tail
  {
    assert buffer[i + k] == buffer[i..][k];
  }

  lemma DecimalStep(ds: string, acc: real)
    requires AllDigits(ds) && ds != []
    ensures Decimal(ds, acc) == Decimal(ds[1..], acc * 10.0 + DigitValue(ds[0]) as real)
  {}

  lemma DecimalNatStep(ds: string, acc: nat)
    requires AllDigits(ds) && ds != []
    ensures DecimalNat(ds, acc) == DecimalNat(ds[1..], acc * 10 + DigitValue(ds[0]))
  {}

  lemma DecimalEnds(value: real, exponent: nat)
    ensures Decimal("", value) == value && DecimalNat("", exponent) == exponent
  {}

  method WholeAt(buffer: string, i: nat, ghost ds: string, ghost tail: string) returns (idx: nat, value: real)
    requires i <= |buffer| && buffer[i..] == ds + tail && AllDigits(ds) && tail != [] && !IsDigit(tail[0])
    ensures idx == i + |ds| && idx <= |buffer| && buffer[idx..] == tail && value == Decimal(ds, 0.0)
  {
    hide Decimal;
    idx, value := i, 0.0;
    At(buffer, i, 0, ds, tail);
    assert ds[0..] == ds;
    while IsDigit(buffer[idx])
      invariant i <= idx <= i + |ds| && idx < |buffer| && buffer[idx] == if idx - i < |ds| then ds[idx - i] else tail[0]
      invariant Decimal(ds[idx - i..], value) == Decimal(ds, 0.0)
      decreases i + |ds| - idx
    {
      At(buffer, i, idx - i + 1, ds, tail);
      DecimalStep(ds[idx - i..], value);
      assert ds[idx - i..][1..] == ds[idx - i + 1..];
      value := value * 10.0 + DigitValue(buffer[idx]) as real;
      idx := idx + 1;
    }
    At(buffer, i, |ds|, ds, tail);
    assert ds[idx - i..] == "";
    DecimalEnds(value, 0);
  }

  /** What is read so far and what the remaining digits, at this place, will add. */
  function Pending(value: real, place: real, ds: string): real
    requires AllDigits(ds)
  {
    value + place * 10.0 * Fraction(ds)
  }

  lemma PendingStep(value: real, place: real, ds: string)
    requires AllDigits(ds) && ds != []
    ensures Pending(value, place, ds) == Pending(value + place * DigitValue(ds[0]) as real, place * 0.1, ds[1..])
  {
    var d, f := DigitValue(ds[0]) as real, Fraction(ds[1..]);
    assert Fraction(ds) == (d + f) / 10.0;
    assert place * 10.0 * ((d + f) / 10.0) == place * d + place * f;
    assert place * 0.1 * 10.0 * f == place * f;
  }

  lemma PendingEnds(start: real, value: real, place: real, ds: string)
    requires AllDigits(ds)
    ensures Pending(value, place, "") == value && Pending(start, 0.1, ds) == start + Fraction(ds)
  {}

  method FractionAt(buffer: string, i: nat, start: real, ghost ds: string, ghost tail: string) returns (idx: nat, value: real)
    requires i <= |buffer| && buffer[i..] == ds + tail && AllDigits(ds) && tail != [] && !IsDigit(tail[0])
    ensures idx == i + |ds| && idx <= |buffer| && buffer[idx..] == tail && value == start + Fraction(ds)
  {
    hide Fraction, Pending;
    idx, value := i, start;
    var place := 0.1;
    PendingEnds(start, value, place, ds);
    assert ds[0..] == ds;
    At(buffer, i, 0, ds, tail);
    while IsDigit(buffer[idx])
      invariant i <= idx <= i + |ds| && idx < |buffer| && buffer[idx] == if idx - i < |ds| then ds[idx - i] else tail[0]
      invariant Pending(value, place, ds[idx - i..]) == start + Fraction(ds)
      decreases i + |ds| - idx
    {
      At(buffer, i, idx - i + 1, ds, tail);
      assert ds[idx - i..][1..] == ds[idx - i + 1..];
      PendingStep(value, place, ds[idx - i..]);
      value := value + place * DigitValue(buffer[idx]) as real;
      place := place * 0.1;
      idx := idx + 1;
    }
    At(buffer, i, |ds|, ds, tail);
    PendingEnds(start, value, place, ds);
    assert ds[idx - i..] == "";
  }

  method ExponentAt(buffer: string, i: nat, ghost ds: string, ghost tail: string) returns (idx: nat, exponent: nat)
    requires i <= |buffer| && buffer[i..] == ds + tail && AllDigits(ds) && tail != [] && !IsDigit(tail[0])
    ensures idx == i + |ds| && idx <= |buffer| && buffer[idx..] == tail && exponent == DecimalNat(ds, 0)
  {
    hide DecimalNat;
    idx, exponent := i, 0;
    At(buffer, i, 0, ds, tail);
    DecimalEnds(0.0, 0);
    assert ds[0..] == ds;
    while IsDigit(buffer[idx])
      invariant i <= idx <= i + |ds| && idx < |buffer| && buffer[idx] == if idx - i < |ds| then ds[idx - i] else tail[0]
      invariant DecimalNat(ds[idx - i..], exponent) == DecimalNat(ds, 0)
      decreases i + |ds| - idx
    {
      At(buffer, i, idx - i + 1, ds, tail);
      DecimalNatStep(ds[idx - i..], exponent);
      assert ds[idx - i..][1..] == ds[idx - i + 1..];
      exponent := exponent * 10 + DigitValue(buffer[idx]);
      idx := idx + 1;
    }
    At(buffer, i, |ds|, ds, tail);
    assert ds[idx - i..] == "";
    DecimalEnds(0.0, exponent);
  }

  method Factor(exponent: nat) returns (factor: real)
    ensures factor == Pow10(exponent)
  {
    factor := 1.0;
    var i := 0;
    while i < exponent
      invariant 0 <= i <= exponent && factor == Pow10(i)
    {
      factor := factor * 10.0;
      i := i + 1;
    }
  }

  function Scaled(e: Exponent, v: real): real
    requires ValidExponent(e)
  {
    match e
    case NoExponent => v
    case Exponent(_, sign, ds) => if sign == Minus then v / Pow10(DecimalNat(ds, 0)) else v * Pow10(DecimalNat(ds, 0))
  }

  method SignAt(buffer: string, i: nat, ghost sign: Sign, ghost tail: string) returns (idx: nat, negative: bool)
    requires i <= |buffer| && buffer[i..] == SignText(sign) + tail && tail != [] && tail[0] != '+' && tail[0] != '-'
    ensures i <= idx <= |buffer| && buffer[idx..] == tail && negative == (sign == Minus)
  {
    idx, negative := i, false;
    assert buffer[idx] == buffer[i..][0];
    if buffer[idx] == '+' || buffer[idx] == '-' {
      negative := buffer[idx] == '-';
      idx := idx + 1;
      assert buffer[idx..] == buffer[i..][1..];
    }
  }

  lemma ExponentTexts(e: Exponent)
    requires e.Exponent? && ValidExponent(e)
    ensures var t := ExponentText(e) + "\0"; t != [] && t[0] == e.mark && t[1..] == SignText(e.sign) + (e.digits + "\0")
    ensures var d := (e.digits + "\0")[0]; d != '+' && d != '-'
  {
    hide SignText;
    assert e.digits[0] != '-' && e.digits[0] != '+';
    assert ExponentText(e) + "\0" == [e.mark] + (SignText(e.sign) + (e.digits + "\0"));
  }

  method ScaleAt(buffer: string, i: nat, v: real, ghost e: Exponent) returns (idx: nat, value: real)
    requires i <= |buffer| && ValidExponent(e) && buffer[i..] == ExponentText(e) + "\0"
    ensures idx < |buffer| && buffer[idx..] == "\0" && value == Scaled(e, v)
  {
    hide DecimalNat, SignText;
    idx, value := i, v;
    assert buffer[i] == buffer[i..][0];
    if buffer[idx] == 'e' || buffer[idx] == 'E' {
      ExponentTexts(e);
      assert buffer[i + 1..] == buffer[i..][1..];
      var negative, exponent;
      idx, negative := SignAt(buffer, idx + 1, e.sign, e.digits + "\0");
      idx, exponent := ExponentAt(buffer, idx, e.digits, "\0");
      var factor := Factor(exponent);
      value := if negative then value / factor else value * factor;
    }
  }

  lemma Regroup<T>(a: seq<T>, b: seq<T>, c: seq<T>, d: seq<T>, e: seq<T>)
    ensures a + b + c + d + e == a + (b + (c + (d + e)))
  {}

  lemma Tails(l: Literal)
    requires ValidLiteral(l)
    ensures var e := ExponentText(l.exponent) + "\0";
      var f := FractionText(l.fraction) + e;
      && LiteralText(l) + "\0" == (if l.minus then "-" else "") + (l.whole + f)
      && !IsDigit(e[0]) && e[0] != '.' && !IsDigit(f[0])
      && (f[0] == '.' <==> l.fraction != []) && (l.fraction != [] ==> f[1..] == l.fraction + e) && (l.fraction == [] ==> f == e)
  {
    hide ExponentText, FractionText, AllDigits;
    var e := ExponentText(l.exponent) + "\0";
    ExponentHead(l.exponent);
    FractionHead(l.fraction, e);
    Regroup(if l.minus then "-" else "", l.whole, FractionText(l.fraction), ExponentText(l.exponent), "\0");
  }

  lemma ExponentHead(e: Exponent)
    requires ValidExponent(e)
    ensures var t := ExponentText(e) + "\0"; t != [] && !IsDigit(t[0]) && t[0] != '.'
  {
    hide SignText;
  }

  lemma FractionHead(fraction: string, e: string)
    requires e != [] && !IsDigit(e[0]) && e[0] != '.'
    ensures var f := FractionText(fraction) + e;
      && f != [] && !IsDigit(f[0]) && (f[0] == '.' <==> fraction != [])
      && (fraction != [] ==> f[1..] == fraction + e) && (fraction == [] ==> f == e)
  {
    if fraction != [] { assert FractionText(fraction) + e == "." + (fraction + e); }
  }

  lemma BehindSign(buffer: string, l: Literal, f: string)
    requires ValidLiteral(l) && buffer == LiteralText(l) + "\0" && f == FractionText(l.fraction) + (ExponentText(l.exponent) + "\0")
    ensures buffer != [] && (buffer[0] == '-' <==> l.minus)
    ensures buffer[if l.minus then 1 else 0..] == l.whole + f
  {
    hide LiteralText, FractionText, ExponentText;
    Tails(l);
    assert buffer[0] == if l.minus then '-' else l.whole[0];
  }

  lemma LiteralValueIs(l: Literal)
    requires ValidLiteral(l)
    ensures AllDigits(l.whole) && AllDigits(l.fraction) && ValidExponent(l.exponent)
    ensures var v := Scaled(l.exponent, Decimal(l.whole, 0.0) + Fraction(l.fraction));
      LiteralValue(l) == if l.minus then -v else v
  {
    hide Decimal, DecimalNat, Fraction;
  }

  /** The second scan reads the whole literal and stops at the terminator: the check behind
      it never fails. The value is that of the literal. */
  method Evaluate(buffer: string, ghost l: Literal) returns (value: real, idx: nat)
    requires ValidLiteral(l) && buffer == LiteralText(l) + "\0"
    ensures value == LiteralValue(l)
    ensures idx == |buffer| - 1 && buffer[idx] == '\0'
  {
    hide Decimal, DecimalNat, Fraction, LiteralText, FractionText, ExponentText, LiteralValue, Scaled, ValidLiteral;
    LiteralValueIs(l);
    ghost var f := FractionText(l.fraction) + (ExponentText(l.exponent) + "\0");
    BehindSign(buffer, l, f);
    idx := 0;
    var negative := false;
    if buffer[idx] == '-' {
      negative := true;
      idx := idx + 1;
    }
    idx, value := EvaluateUnsigned(buffer, idx, l, f);
    if negative { value := -value; }
  }

  method EvaluateUnsigned(buffer: string, i: nat, ghost l: Literal, ghost f: string) returns (idx: nat, value: real)
    requires ValidLiteral(l) && f == FractionText(l.fraction) + (ExponentText(l.exponent) + "\0")
    requires i <= |buffer| && buffer[i..] == l.whole + f
    ensures idx == |buffer| - 1 && buffer[idx] == '\0'
    ensures value == Scaled(l.exponent, Decimal(l.whole, 0.0) + Fraction(l.fraction))
  {
    hide Decimal, DecimalNat, Fraction, LiteralText, FractionText, ExponentText, Scaled;
    Tails(l);
    NoFraction(l);
    ghost var e := ExponentText(l.exponent) + "\0";
    idx, value := WholeAt(buffer, i, l.whole, f);
    assert buffer[idx] == buffer[idx..][0];
    if buffer[idx] == '.' {
      assert buffer[idx + 1..] == buffer[idx..][1..];
      idx := idx + 1;
      idx, value := FractionAt(buffer, idx, value, l.fraction, e);
    }
    idx, value := ScaleAt(buffer, idx, value, l.exponent);
    assert buffer[idx] == buffer[idx..][0] && |buffer[idx..]| == 1;
  }

  lemma NoFraction(l: Literal)
    requires ValidLiteral(l)
    ensures l.fraction == [] ==> Fraction(l.fraction) == 0.0
  {}
}
