/** The texts the parser accepts are those of the trees of JsonRoundTrip and no others. */
module JsonAccepts {
  import opened Json
  import opened JsonText
  import opened JsonRoundTrip

  lemma {:induction false} SkippedSpaces(s: string) returns (ws: string)
    ensures Spaces(ws) && s == ws + Skip(s)
  {
    hide Spaces, IsSpace;
    if s != [] && IsSpace(s[0]) {
      var more := SkippedSpaces(s[1..]);
      OneSpace(s[0]);
      SpacesJoin([s[0]], more);
      ws := [s[0]] + more;
      Joined3([s[0]], more, Skip(s[1..]));
      assert s == [s[0]] + s[1..];
    } else {
      NoSpaces();
      ws := "";
    }
  }

  lemma OneSpace(c: char)
    requires IsSpace(c)
    ensures Spaces([c])
  {}

  lemma SpacesJoin(a: string, b: string)
    requires Spaces(a) && Spaces(b)
    ensures Spaces(a + b)
  {}

  // ----- strings -----

  lemma {:induction false} HexShape(s: string, n: nat, code: nat)
    requires n <= |s| && code < 0x1_0000 && Hex(s, n, code).Good?
    ensures forall i :: 0 <= i < n ==> HexValue(s[i]) >= 0
  {
    hide HexValue;
    if n > 0 {
      HexShape(s[1..], n - 1, (code * 16 + HexValue(s[0])) % 0x1_0000);
      forall i | 0 < i < n ensures HexValue(s[i]) >= 0 { assert s[i] == s[1..][i - 1]; }
    }
  }

  /** The first character of a string, and what is behind it. */
  lemma CharShape(s: string, acc: string) returns (f: CharForm, rest: string)
    requires s != [] && s[0] != '"' && StringBody(s, acc).Good?
    ensures ValidChar(f) && s == CharText(f) + rest && |rest| < |s|
    ensures StringBody(s, acc) == StringBody(rest, acc + [CharMeaning(f)])
  {
    hide HexValue, Hex, CharMeaning;
    if s[0] != '\\' {
      f, rest := Raw(s[0]), s[1..];
    } else if s[1] != 'u' {
      f, rest := Escaped(s[1]), s[2..];
    } else {
      HexShape(s[2..], 4, 0);
      f, rest := Unicode(s[2..6]), s[6..];
      assert s[2..][4..] == rest && s[..2] == "\\u";
    }
    CharReads(f, rest, acc);
  }

  lemma {:induction false} CharsShape(s: string, acc: string) returns (cs: seq<CharForm>)
    requires StringBody(s, acc).Good?
    ensures ValidChars(cs) && s == CharsText(cs) + ("\"" + StringBody(s, acc).rest)
    decreases |s|
  {
    hide ValidChar, CharText, CharMeaning;
    if s[0] == '"' {
      cs := [];
      assert CharsText(cs) + ("\"" + s[1..]) == s;
    } else {
      var f, rest := CharShape(s, acc);
      var more := CharsShape(rest, acc + [CharMeaning(f)]);
      cs := [f] + more;
      assert cs[1..] == more;
      Joined3(CharText(f), CharsText(more), "\"" + StringBody(s, acc).rest);
    }
  }

  lemma StringShape(s: string) returns (cs: seq<CharForm>)
    requires ParseString(s).Good?
    ensures ValidChars(cs) && s == StringText(cs) + ParseString(s).rest
  {
    hide StringBody, CharsText;
    cs := CharsShape(s[1..], []);
    var rest := ParseString(s).rest;
    assert s == "\"" + (CharsText(cs) + ("\"" + rest));
    Joined3("\"", CharsText(cs), "\"" + rest);
    Joined3("\"" + CharsText(cs), "\"", rest);
  }

  // ----- values -----

  /** `before` is the white space in front of the value. */
  lemma {:induction false} ValueShape(s: string) returns (before: string, d: Doc)
    requires ParseValue(s).Good?
    ensures Spaces(before) && Valid(d) && s == before + (Text(d) + ParseValue(s).rest)
    decreases |s|, 2
  {
    hide ParseObject, ParseArray, ParseNumber, ParseString, StringText, LiteralText, LiteralValue, Spaces, ValidChars;
    var t := Skip(s);
    before := SkippedSpaces(s);
    if t[0] == '{' {
      d := ObjectShape(t);
    } else if t[0] == '[' {
      d := ArrayShape(t);
    } else if t[0] == '"' {
      var cs := StringShape(t);
      d := DString(cs);
    } else if t[0] == 't' || t[0] == 'f' || t[0] == 'n' {
      d := if t[0] == 't' then DBool(true) else if t[0] == 'f' then DBool(false) else DNull;
      assert t == t[..|Text(d)|] + t[|Text(d)|..];
    } else {
      d := NumberShape(t);
    }
  }

  lemma NumberShape(s: string) returns (d: Doc)
    requires ParseNumber(s).Good?
    ensures Valid(d) && s == Text(d) + ParseNumber(s).rest
  {
    hide ScanNumber, LiteralText, LiteralValue, ValidLiteral;
    ScanIsLiteral(s);
    d := DNumber(ScanNumber(s).value);
  }

  lemma {:induction false} ArrayShape(s: string) returns (d: Doc)
    requires ParseArray(s).Good?
    ensures Valid(d) && s == Text(d) + ParseArray(s).rest
    decreases |s|, 1
  {
    hide Elements, ArrayText, Skip, Spaces, ParseValue;
    var t := Skip(s[1..]);
    var ws := SkippedSpaces(s[1..]);
    var rest := ParseArray(s).rest;
    if StartsWith(t, ']') {
      d := DArray(ws, []);
      assert s == "[" + (ws + ("]" + rest));
      Joined3(ws, "]", rest);
      Joined3("[", ws + "]", rest);
    } else {
      var items := ElementsShape(t, [], ws);
      NoSpaces();
      d := DArray("", items);
      assert s == "[" + (items[0].before + (ArrayText(d, 0) + rest));
      Joined3(items[0].before, ArrayText(d, 0), rest);
      Joined3("[", items[0].before + ArrayText(d, 0), rest);
    }
  }

  /** One element fewer in front does not change the text of the others. */
  lemma {:induction false} ArrayTextShift(it: Item, items: seq<Item>, i: nat)
    requires i < |items|
    ensures ArrayText(DArray("", [it] + items), i + 1) == ArrayText(DArray("", items), i)
    decreases |items| - i
  {
    hide Text;
    if i + 1 < |items| { ArrayTextShift(it, items, i + 1); }
  }

  ghost predicate ValidItems(items: seq<Item>) {
    forall i :: 0 <= i < |items| ==> Spaces(items[i].before) && Spaces(items[i].after) && Valid(items[i].doc)
  }

  lemma ItemFirst(it: Item, items: seq<Item>)
    requires ValidItems(items) && Spaces(it.before) && Spaces(it.after) && Valid(it.doc)
    ensures ValidItems([it] + items)
  {}

  lemma {:induction false} ElementsShape(s: string, acc: seq<Value>, ws: string) returns (items: seq<Item>)
    requires Elements(s, acc).Good? && Spaces(ws)
    ensures items != [] && ValidItems(items)
    ensures ws + s == items[0].before + (ArrayText(DArray("", items), 0) + Elements(s, acc).rest)
    decreases |s|, 3
  {
    hide Elements, ParseValue, Skip, Spaces, Text, Valid, ValidItems;
    ElementsStep(s, acc);
    var o, rest := ParseValue(s), Elements(s, acc).rest;
    var ws', doc := ValueShape(s);
    SpacesJoin(ws, ws');
    var t := Skip(o.rest);
    var after := SkippedSpaces(o.rest);
    var it := Item(ws + ws', doc, after);
    var next: string;
    if StartsWith(t, ']') {
      items, next := [it], "]";
      NoItems();
      ItemFirst(it, []);
      assert [it] + [] == [it] && t == next + rest;
    } else {
      var comma := Expect(t, ',');
      var before := SkippedSpaces(comma.rest);
      var more := ElementsShape(Skip(comma.rest), acc + [o.value], before);
      items := [it] + more;
      ItemFirst(it, more);
      ArrayTextShift(it, more, 0);
      var text := ArrayText(DArray("", more), 0);
      next := "," + (more[0].before + text);
      assert t == "," + (more[0].before + (text + rest));
      Joined3(more[0].before, text, rest);
      Joined3(",", more[0].before + text, rest);
    }
    assert ArrayText(DArray("", items), 0) == Text(doc) + (after + next);
    ElementText(ws, ws', Text(doc), after, next, rest);
  }

  lemma NoItems()
    ensures ValidItems([])
  {}

  lemma ElementText(ws: string, ws': string, text: string, after: string, next: string, rest: string)
    ensures ws + (ws' + (text + (after + (next + rest)))) == ws + ws' + (text + (after + next) + rest)
  {
    Joined3(ws, ws', text + (after + (next + rest)));
    Joined3(text, after + next, rest);
    Joined3(after, next, rest);
  }

  lemma {:induction false} ObjectShape(s: string) returns (d: Doc)
    requires ParseObject(s).Good?
    ensures Valid(d) && s == Text(d) + ParseObject(s).rest
    decreases |s|, 1
  {
    hide Members, ObjectText, Skip, Spaces, ParseValue, ValidChars;
    var t := Skip(s[1..]);
    var ws := SkippedSpaces(s[1..]);
    var rest := ParseObject(s).rest;
    if StartsWith(t, '}') {
      d := DObject(ws, []);
      assert s == "{" + (ws + ("}" + rest));
      Joined3(ws, "}", rest);
      Joined3("{", ws + "}", rest);
    } else {
      var pairs := MembersShape(t, [], ws);
      NoSpaces();
      d := DObject("", pairs);
      assert s == "{" + (pairs[0].before + (ObjectText(d, 0) + rest));
      Joined3(pairs[0].before, ObjectText(d, 0), rest);
      Joined3("{", pairs[0].before + ObjectText(d, 0), rest);
    }
  }

  lemma {:induction false} ObjectTextShift(p: Pair, pairs: seq<Pair>, i: nat)
    requires i < |pairs|
    ensures ObjectText(DObject("", [p] + pairs), i + 1) == ObjectText(DObject("", pairs), i)
    decreases |pairs| - i
  {
    hide Text, PairText;
    if i + 1 < |pairs| { ObjectTextShift(p, pairs, i + 1); }
  }

  ghost predicate ValidPair(p: Pair) {
    && Spaces(p.before) && Spaces(p.colonBefore) && Spaces(p.colonAfter) && Spaces(p.after)
    && ValidChars(p.key) && Valid(p.doc)
  }

  ghost predicate ValidPairs(pairs: seq<Pair>) { forall i :: 0 <= i < |pairs| ==> ValidPair(pairs[i]) }

  lemma PairFirst(p: Pair, pairs: seq<Pair>)
    requires ValidPairs(pairs) && ValidPair(p)
    ensures ValidPairs([p] + pairs)
  {}

  lemma NoPairs()
    ensures ValidPairs([])
  {}

  /** One member, without the white space behind it. */
  lemma {:induction false} MemberShape(s: string, before: string) returns (p: Pair)
    requires Member(s).Good? && Spaces(before)
    ensures ValidPair(p) && p.before == before && p.after == "" && s == PairText(p, Text(p.doc)) + Member(s).rest
    decreases |s|, 3
  {
    hide ParseString, ParseValue, Skip, Spaces, Text, Valid, ValidChars, StringText;
    var key := StringShape(s);
    var s1 := ParseString(s).rest;
    var colonBefore := SkippedSpaces(s1);
    var s2 := Expect(Skip(s1), ':').rest;
    var colonAfter, doc := ValueShape(s2);
    NoSpaces();
    p := Pair(before, key, colonBefore, colonAfter, doc, "");
    var rest := Member(s).rest;
    assert s1 == colonBefore + (":" + s2);
    PairThen(p, Text(doc), rest);
  }

  lemma {:induction false} MembersShape(s: string, acc: seq<Entry>, ws: string) returns (pairs: seq<Pair>)
    requires Members(s, acc).Good? && Spaces(ws)
    ensures pairs != [] && ValidPairs(pairs)
    ensures ws + s == pairs[0].before + (ObjectText(DObject("", pairs), 0) + Members(s, acc).rest)
    decreases |s|, 4
  {
    hide Members, Member, Skip, Spaces, Text, Valid, ValidPairs, ValidChars, PairText;
    MembersStep(s, acc);
    var o, rest := Member(s), Members(s, acc).rest;
    var q := MemberShape(s, ws);
    var t := Skip(o.rest);
    var after := SkippedSpaces(o.rest);
    var p := q.(after := after);
    var text := PairText(p, Text(p.doc));
    SameText(p, q, Text(p.doc));
    var next: string;
    if StartsWith(t, '}') {
      pairs, next := [p], "}";
      NoPairs();
      PairFirst(p, []);
      assert [p] + [] == [p] && t == next + rest;
    } else {
      var comma := Expect(t, ',');
      var before := SkippedSpaces(comma.rest);
      var more := MembersShape(Skip(comma.rest), acc + [o.value], before);
      pairs := [p] + more;
      PairFirst(p, more);
      ObjectTextShift(p, more, 0);
      var others := ObjectText(DObject("", more), 0);
      next := "," + (more[0].before + others);
      assert t == "," + (more[0].before + (others + rest));
      Joined3(more[0].before, others, rest);
      Joined3(",", more[0].before + others, rest);
    }
    assert ObjectText(DObject("", pairs), 0) == text + (after + next);
    Joined3(text, after + next, rest);
    Joined3(after, next, rest);
  }

  lemma SameText(p: Pair, q: Pair, value: string)
    requires q == p.(after := q.after)
    ensures PairText(p, value) == PairText(q, value)
  {}

  // ----- whole texts -----

  ghost predicate IsTextOf(s: string, before: string, d: Doc, after: string) {
    Spaces(before) && Valid(d) && Spaces(after) && s == before + Text(d) + after
  }

  /** The parser accepts a text exactly if it is that of a tree with white space around it, and
      what it returns is then what the text means. */
  lemma ParseExact(s: string)
    ensures Parse(s).Good? <==> exists before, d, after :: IsTextOf(s, before, d, after)
    ensures forall before, d, after :: IsTextOf(s, before, d, after) ==> Parse(s) == Good(Meaning(d), "")
  {
    hide Text, Valid, Parse, Meaning, Spaces;
    forall before, d, after | IsTextOf(s, before, d, after) ensures Parse(s) == Good(Meaning(d), "") {
      RoundTrip(before, d, after);
    }
    if Parse(s).Good? { var before, d, after := WholeShape(s); }
  }

  lemma WholeShape(s: string) returns (before: string, d: Doc, after: string)
    requires Parse(s).Good?
    ensures IsTextOf(s, before, d, after)
  {
    hide ParseValue, Text, Valid, Spaces, Skip;
    var ws := SkippedSpaces(s);
    var ws', doc := ValueShape(Skip(s));
    var rest := ParseValue(Skip(s)).rest;
    var tail := SkippedSpaces(rest);
    SpacesJoin(ws, ws');
    before, d, after := ws + ws', doc, tail;
    assert tail + [] == tail;
    Joined3(ws, ws', Text(d) + after);
    Joined3(before, Text(d), after);
  }
}
