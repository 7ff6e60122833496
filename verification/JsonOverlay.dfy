/** The overlay class, template parameters, and template strings. */
module JsonOverlay {
  import opened Json

  /** Value::find, entry by entry. */
  method FindValue(v: Value, key: string) returns (r: Option<Value>)
    ensures r == Find(v, key)
  {
    if !v.Object? { return None; }
    var i := 0;
    while i < |v.entries|
      invariant 0 <= i <= |v.entries|
      invariant FindIn(v.entries, key) == FindIn(v.entries[i..], key)
    {
      if v.entries[i].key == key { return Some(v.entries[i].value); }
      i := i + 1;
    }
    r := None;
  }

  // ----- parameters -----

  datatype Param = Param(key: string, value: string)

  function GetIn(ps: seq<Param>, key: string): Option<string> {
    if ps == [] then None else if ps[0].key == key then Some(ps[0].value) else GetIn(ps[1..], key)
  }

  lemma {:induction false} GetInAt(ps: seq<Param>, i: nat, key: string)
    requires i < |ps| && ps[i].key == key && forall j :: 0 <= j < i ==> ps[j].key != key
    ensures GetIn(ps, key) == Some(ps[i].value)
  {
    if i > 0 { GetInAt(ps[1..], i - 1, key); }
  }

  lemma {:induction false} GetInNone(ps: seq<Param>, key: string)
    requires forall j :: 0 <= j < |ps| ==> ps[j].key != key
    ensures GetIn(ps, key) == None
  {
    if ps != [] { GetInNone(ps[1..], key); }
  }

  /** Replacing the value at the first place of a key, or adding it, changes that key only. */
  lemma {:induction false} GetInSet(ps: seq<Param>, i: nat, p: Param, key: string)
    requires i <= |ps| && (forall j :: 0 <= j < i ==> ps[j].key != p.key) && (i < |ps| ==> ps[i].key == p.key)
    ensures GetIn(if i < |ps| then ps[i := p] else ps + [p], key) == if key == p.key then Some(p.value) else GetIn(ps, key)
  {
    var r := if i < |ps| then ps[i := p] else ps + [p];
    if ps == [] {
      assert r == [p] && r[1..] == [];
      GetInNone(r[1..], key);
    } else if i == 0 {
      assert r[1..] == ps[1..];
    } else {
      assert r[1..] == if i < |ps| then ps[1..][i - 1 := p] else ps[1..] + [p];
      GetInSet(ps[1..], i - 1, p, key);
    }
  }

  class ParamMap {
    var entries: seq<Param>

    constructor ()
      ensures entries == []
    {
      entries := [];
    }

    ghost function Get(key: string): Option<string>
      reads this
    {
      GetIn(entries, key)
    }

    /** ParamMap::set */
    method Set(key: string, value: string)
      modifies this
      ensures forall k :: Get(k) == if k == key then Some(value) else old(Get(k))
    {
      hide GetIn;
      ghost var before := entries;
      var i := 0;
      while i < |entries|
        invariant 0 <= i <= |entries| && entries == before
        invariant forall j :: 0 <= j < i ==> entries[j].key != key
      {
        if entries[i].key == key {
          SetTo(before, i, Param(key, value), before[i := Param(key, value)]);
          entries := entries[i := Param(key, value)];
          return;
        }
        i := i + 1;
      }
      SetTo(before, i, Param(key, value), before + [Param(key, value)]);
      entries := entries + [Param(key, value)];
    }

    static lemma SetTo(ps: seq<Param>, i: nat, p: Param, r: seq<Param>)
      requires i <= |ps| && (forall j :: 0 <= j < i ==> ps[j].key != p.key) && (i < |ps| ==> ps[i].key == p.key)
      requires r == if i < |ps| then ps[i := p] else ps + [p]
      ensures forall k :: GetIn(r, k) == if k == p.key then Some(p.value) else GetIn(ps, k)
    {
      hide GetIn;
      forall k ensures GetIn(r, k) == if k == p.key then Some(p.value) else GetIn(ps, k) {
        GetInSet(ps, i, p, k);
      }
    }

    /** ParamMap::get */
    method GetValue(key: string) returns (r: Option<string>)
      ensures r == Get(key)
    {
      hide GetIn;
      var i := 0;
      while i < |entries|
        invariant 0 <= i <= |entries|
        invariant forall j :: 0 <= j < i ==> entries[j].key != key
      {
        if entries[i].key == key {
          GetInAt(entries, i, key);
          return Some(entries[i].value);
        }
        i := i + 1;
      }
      GetInNone(entries, key);
      r := None;
    }

    method Clear()
      modifies this
      ensures entries == []
    {
      entries := [];
    }
  }

  /** The parameters of one layer. */
  function ParamsOf(layer: Value): seq<Entry> {
    match Find(layer, "params")
    case Some(Object(es)) => es
    case _ => []
  }

  /** Of several strings with one key, the last counts. */
  function LastString(es: seq<Entry>, key: string): Option<string> {
    if es == [] then None
    else
      var e := es[|es| - 1];
      if e.key == key && e.value.String? then Some(e.value.text) else LastString(es[..|es| - 1], key)
  }

  /** The string of the highest-priority layer that has one for the key. */
  function Winner(layers: seq<Value>, key: string): Option<string> {
    if layers == [] then None
    else var own := LastString(ParamsOf(layers[0]), key); if own.Some? then own else Winner(layers[1..], key)
  }

  /** The string of the last entry that has one for the key. */
  lemma {:induction false} LastStringIs(es: seq<Entry>, key: string, n: nat)
    requires n <= |es| && forall j :: n <= j < |es| ==> !(es[j].key == key && es[j].value.String?)
    ensures n == 0 ==> LastString(es, key) == None
    ensures n > 0 && es[n - 1].key == key && es[n - 1].value.String? ==> LastString(es, key) == Some(es[n - 1].value.text)
  {
    if n < |es| { LastStringIs(es[..|es| - 1], key, n); }
  }

  /** The string of layer i wins exactly if no layer before it has one for the key. */
  lemma {:induction false} WinnerIs(layers: seq<Value>, key: string, i: nat)
    requires i <= |layers| && forall j :: 0 <= j < i ==> LastString(ParamsOf(layers[j]), key) == None
    ensures i == |layers| ==> Winner(layers, key) == None
    ensures i < |layers| && LastString(ParamsOf(layers[i]), key).Some? ==>
              Winner(layers, key) == LastString(ParamsOf(layers[i]), key)
  {
    hide LastString, ParamsOf;
    if i > 0 { WinnerIs(layers[1..], key, i - 1); }
  }

  /** Without repeated keys that string is simply the one found. */
  lemma {:induction false} LastIsFound(es: seq<Entry>, key: string)
    requires forall i, j :: 0 <= i < j < |es| ==> es[i].key != es[j].key
    ensures LastString(es, key) == match FindIn(es, key) case Some(String(t)) => Some(t) case _ => None
  {
    if es != [] {
      var n := |es| - 1;
      LastIsFound(es[..n], key);
      assert es == es[..n] + [es[n]];
      FindInAppend(es[..n], [es[n]], key);
      OneEntry(es[n], key);
      if es[n].key == key { NotFound(es[..n], key); }
    }
  }

  lemma OneEntry(e: Entry, key: string)
    ensures FindIn([e], key) == if e.key == key then Some(e.value) else None
  {
    var es := [e];
    assert FindIn(es[1..], key) == None;
    assert FindIn(es, key) == if e.key == key then Some(e.value) else None;
  }

  lemma {:induction false} NotFound(es: seq<Entry>, key: string)
    requires forall i :: 0 <= i < |es| ==> es[i].key != key
    ensures FindIn(es, key) == None
  {
    if es != [] { NotFound(es[1..], key); }
  }

  // ----- the overlay -----

  class Overlay {
    /** Highest priority first. */
    var layers: seq<Value>

    constructor ()
      ensures layers == []
    {
      layers := [];
    }

    method AddLayer(v: Option<Value>)
      modifies this
      ensures layers == old(layers) + if v.Some? then [v.value] else []
    {
      if v.Some? { layers := layers + [v.value]; }
    }

    /** Overlay::child, in two passes over the layers. */
    method GetChild(key: string) returns (result: Overlay)
      ensures fresh(result) && result.layers == Child(layers, key)
    {
      hide Found, Objects;
      result := new Overlay();
      var highest := Highest(key);
      if highest.None? { return; }
      if !highest.value.Object? {
        result.AddLayer(highest);
        return;
      }
      var objects := GatherObjects(key);
      result.layers := objects;
    }

    method Highest(key: string) returns (r: Option<Value>)
      ensures r == if Found(layers, key) == [] then None else Some(Found(layers, key)[0])
    {
      hide Found, Find;
      NothingYet(key);
      var i := 0;
      while i < |layers|
        invariant 0 <= i <= |layers| && Found(layers[..i], key) == []
      {
        assert layers[..i] + [layers[i]] == layers[..i + 1];
        FoundAppend(layers[..i], layers[i], key);
        FoundPrefix(layers, i + 1, key);
        r := FindValue(layers[i], key);
        if r.Some? { return; }
        i := i + 1;
      }
      assert layers[..i] == layers;
      r := None;
    }

    method GatherObjects(key: string) returns (r: seq<Value>)
      ensures r == Objects(Found(layers, key))
    {
      hide Found, Find, Objects;
      NothingYet(key);
      r := [];
      var i := 0;
      while i < |layers|
        invariant 0 <= i <= |layers| && r == Objects(Found(layers[..i], key))
      {
        assert layers[..i] + [layers[i]] == layers[..i + 1];
        FoundAppend(layers[..i], layers[i], key);
        var v := FindValue(layers[i], key);
        if v.Some? {
          ObjectsAppend(Found(layers[..i], key), v.value);
          if v.value.Object? { r := r + [v.value]; }
        } else {
          assert Found(layers[..i], key) + [] == Found(layers[..i], key);
        }
        i := i + 1;
      }
      assert layers[..i] == layers;
    }

    static lemma NothingYet(key: string)
      ensures Found([], key) == [] && Objects([]) == []
    {}

    static lemma {:induction false} FoundPrefix(layers: seq<Value>, n: nat, key: string)
      requires n <= |layers|
      ensures Found(layers[..n], key) <= Found(layers, key)
    {
      if n > 0 {
        assert layers[..n][1..] == layers[1..][..n - 1];
        FoundPrefix(layers[1..], n - 1, key);
      }
    }

    /** Overlay::collectParams: lowest priority first, so that higher layers overwrite. */
    method CollectParams(out: ParamMap)
      modifies out
      ensures forall key :: out.Get(key) == Winner(layers, key)
    {
      hide GetIn, Find, LastString, ParamsOf;
      out.Clear();
      NothingSet();
      var i := |layers|;
      while i > 0
        invariant 0 <= i <= |layers|
        invariant forall key :: out.Get(key) == Winner(layers[i..], key)
      {
        i := i - 1;
        assert layers[i..][1..] == layers[i + 1..];
        var es := LayerParams(layers[i]);
        ghost var before := out.entries;
        Apply(out, es);
        forall key ensures out.Get(key) == Winner(layers[i..], key) {
          assert Winner(layers[i..], key)
              == (var own := LastString(es, key); if own.Some? then own else Winner(layers[i + 1..], key));
        }
      }
      assert layers[0..] == layers;
    }

    static lemma NothingSet()
      ensures forall key :: GetIn([], key) == None
    {}

    static method LayerParams(layer: Value) returns (es: seq<Entry>)
      ensures es == ParamsOf(layer)
    {
      if !layer.Object? { return []; }
      var params := FindValue(layer, "params");
      if params.None? || !params.value.Object? { return []; }
      es := params.value.entries;
    }

    static method Apply(out: ParamMap, es: seq<Entry>)
      modifies out
      ensures forall key :: out.Get(key) == var own := LastString(es, key); if own.Some? then own else old(out.Get(key))
    {
      hide GetIn;
      var e := 0;
      while e < |es|
        invariant 0 <= e <= |es|
        invariant forall key :: out.Get(key) == var own := LastString(es[..e], key); if own.Some? then own else old(out.Get(key))
      {
        assert es[..e + 1][..e] == es[..e];
        if es[e].value.String? { out.Set(es[e].key, es[e].value.text); }
        e := e + 1;
      }
      assert es[..e] == es;
    }
  }

  // ----- template strings -----

  const NAME_BUFFER := 64

  predicate IsNameChar(c: char) { 'a' <= c <= 'z' || 'A' <= c <= 'Z' || '0' <= c <= '9' || c == '_' }

  /** Number of name characters at the start. */
  function NameLength(s: string): (n: nat)
    ensures n <= |s| && (forall i :: 0 <= i < n ==> IsNameChar(s[i])) && (n < |s| ==> !IsNameChar(s[n]))
  {
    if s == [] || !IsNameChar(s[0]) then 0 else 1 + NameLength(s[1..])
  }

  /** Length of the placeholder at the start, or 0: a brace, a name, a brace. */
  function Placeholder(s: string): (n: nat)
    ensures n <= |s| && (n != 0 ==> n >= 3 && s[0] == '{' && s[n - 1] == '}')
  {
    if s == [] || s[0] != '{' then 0
    else
      var n := NameLength(s[1..]);
      if n == 0 || n == |s[1..]| || s[1..][n] != '}' then 0 else n + 2
  }

  /** The name looked up: the copy holds 63 characters. */
  function LookupName(name: string): string {
    if |name| >= NAME_BUFFER then name[..NAME_BUFFER - 1] else name
  }

  /** The text that replaces a placeholder. */
  function Replacement(s: string, params: seq<Param>): string
    requires Placeholder(s) != 0
  {
    var n := Placeholder(s);
    match GetIn(params, LookupName(s[1..n - 1]))
    case Some(v) => v
    case None => s[..n]
  }

  /** Expansion from left to right; what a placeholder turns into is not expanded again. */
  function Expand(s: string, params: seq<Param>): string
    decreases |s|
  {
    if s == [] then []
    else
      var n := Placeholder(s);
      if n != 0 then Replacement(s, params) + Expand(s[n..], params)
      else [s[0]] + Expand(s[1..], params)
  }

  /** Text without braces is copied. */
  lemma {:induction false} ExpandPlain(a: string, s: string, params: seq<Param>)
    requires '{' !in a
    ensures Expand(a + s, params) == a + Expand(s, params)
  {
    if a == [] {
      assert a + s == s;
    } else {
      assert (a + s)[1..] == a[1..] + s;
      ExpandPlain(a[1..], s, params);
    }
  }

  lemma {:induction false} NameLengthIs(name: string, rest: string)
    requires forall i :: 0 <= i < |name| ==> IsNameChar(name[i])
    requires rest != [] && !IsNameChar(rest[0])
    ensures NameLength(name + rest) == |name|
  {
    if name == [] {
      assert name + rest == rest;
    } else {
      assert (name + rest)[1..] == name[1..] + rest;
      NameLengthIs(name[1..], rest);
    }
  }

  lemma PlaceholderIs(name: string, rest: string)
    requires name != [] && forall i :: 0 <= i < |name| ==> IsNameChar(name[i])
    ensures Placeholder("{" + name + "}" + rest) == |name| + 2
  {
    hide NameLength, IsNameChar;
    var s := "{" + name + "}" + rest;
    assert s[1..] == name + ("}" + rest);
    NotNameChars();
    NameLengthIs(name, "}" + rest);
    assert s[1..][|name|] == '}';
  }

  lemma NotNameChars()
    ensures !IsNameChar('}') && !IsNameChar('{')
  {}

  /** A placeholder is replaced by the parameter of its name, and kept without one; of a name
      of 64 characters or more the first 63 count. */
  lemma ExpandPlaceholder(name: string, rest: string, params: seq<Param>)
    requires name != [] && forall i :: 0 <= i < |name| ==> IsNameChar(name[i])
    ensures var text := "{" + name + "}";
      Expand(text + rest, params)
      == (match GetIn(params, if |name| < 64 then name else name[..63]) case Some(v) => v case None => text) + Expand(rest, params)
  {
    hide GetIn, Placeholder, IsNameChar;
    var s := "{" + name + "}" + rest;
    PlaceholderIs(name, rest);
    var n := |name| + 2;
    assert s[1..n - 1] == name && s[..n] == "{" + name + "}" && s[n..] == rest;
  }

  /** A brace that no name and brace follow is copied like any other character. */
  lemma ExpandOther(s: string, params: seq<Param>)
    requires s != []
    requires s[0] == '{' ==> forall n :: 2 <= n < |s| && s[n] == '}' ==> exists i :: 1 <= i < n && !IsNameChar(s[i])
    ensures Expand(s, params) == [s[0]] + Expand(s[1..], params)
  {
    hide IsNameChar, NameLength;
    var n := Placeholder(s);
    if n != 0 { assert false; }
  }

  /** Letters, digits and the underscore, by their code points. */
  lemma NameCharIs(c: char)
    ensures IsNameChar(c) <==> 48 <= c as int <= 57 || 65 <= c as int <= 90 || c as int == 95 || 97 <= c as int <= 122
  {}

  /** Without a single known name the text stays as it is. */
  lemma {:induction false} ExpandNothing(s: string)
    ensures Expand(s, []) == s
    decreases |s|
  {
    hide Placeholder;
    if s != [] {
      var n := Placeholder(s);
      if n != 0 {
        ExpandNothing(s[n..]);
        assert s == s[..n] + s[n..];
      } else {
        ExpandNothing(s[1..]);
      }
    }
  }

  /** expandTemplateString, up to the terminator it appends. */
  method ExpandTemplate(input: string, params: ParamMap) returns (out: string)
    ensures out == Expand(input, params.entries)
  {
    hide GetIn, Expand, Replacement, Placeholder;
    out := [];
    var p := 0;
    ExpandEnds(params.entries);
    while p < |input|
      invariant 0 <= p <= |input|
      invariant Expand(input, params.entries) == out + Expand(input[p..], params.entries)
    {
      var n := ScanPlaceholder(input, p);
      ExpandNext(out, input, p, params.entries);
      if n != 0 {
        var text := ReplacementText(input, p, n, params);
        out := out + text;
        p := p + n;
      } else {
        out := out + [input[p]];
        p := p + 1;
      }
    }
    assert input[p..] == [] && out + [] == out;
  }

  method ReplacementText(input: string, p: nat, n: nat, params: ParamMap) returns (text: string)
    requires p < |input| && n == Placeholder(input[p..]) && n != 0
    ensures text == Replacement(input[p..], params.entries)
  {
    hide GetIn, Replacement, Placeholder;
    ReplacementIs(input, p, params.entries);
    var name := input[p + 1..p + n - 1];
    if |name| >= NAME_BUFFER { name := name[..NAME_BUFFER - 1]; }
    var replacement := params.GetValue(name);
    text := if replacement.Some? then replacement.value else input[p..p + n];
  }

  lemma ExpandEnds(params: seq<Param>)
    ensures Expand([], params) == []
  {}

  lemma Joined(a: string, b: string, c: string)
    ensures a + (b + c) == a + b + c
  {}

  lemma ExpandNext(out: string, input: string, p: nat, params: seq<Param>)
    requires p < |input|
    ensures var n := Placeholder(input[p..]);
      p + n <= |input| &&
      out + Expand(input[p..], params) ==
        if n != 0 then out + Replacement(input[p..], params) + Expand(input[p + n..], params)
        else out + [input[p]] + Expand(input[p + 1..], params)
  {
    hide Replacement, GetIn, Placeholder;
    var s := input[p..];
    var n := Placeholder(s);
    assert s[n..] == input[p + n..] && s[1..] == input[p + 1..];
    if n != 0 {
      Joined(out, Replacement(s, params), Expand(s[n..], params));
    } else {
      Joined(out, [s[0]], Expand(s[1..], params));
    }
  }

  lemma ReplacementIs(input: string, p: nat, params: seq<Param>)
    requires p < |input| && Placeholder(input[p..]) != 0
    ensures var n := Placeholder(input[p..]);
      n >= 3 && p + n <= |input| &&
      Replacement(input[p..], params) == match GetIn(params, LookupName(input[p + 1..p + n - 1]))
        case Some(v) => v
        case None => input[p..p + n]
  {
    hide GetIn;
    var n := Placeholder(input[p..]);
    assert input[p..][1..n - 1] == input[p + 1..p + n - 1] && input[p..][..n] == input[p..p + n];
  }

  method ScanPlaceholder(input: string, p: nat) returns (n: nat)
    requires p < |input|
    ensures n == Placeholder(input[p..])
  {
    if input[p] != '{' { return 0; }
    var start := p + 1;
    var q := start;
    while q < |input| && IsNameChar(input[q])
      invariant start <= q <= |input|
      invariant NameLength(input[start..]) == (q - start) + NameLength(input[q..])
    {
      assert input[q..][1..] == input[q + 1..];
      q := q + 1;
    }
    assert input[p..][1..] == input[start..];
    if q == start || q == |input| || input[q] != '}' { return 0; }
    n := q + 1 - p;
  }
}
