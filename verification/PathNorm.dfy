/** Normalising paths for the command shell. Strings are zero-terminated in the source; here
    they are their characters, and an output buffer is an array. */
module PathNorm {
  import opened CStrings

  const MAX_SEGMENTS := 32
  const TMP := 256

  // ----- what a path means -----

  function SegmentLength(s: string): (n: nat)
    ensures n <= |s| && (forall i :: 0 <= i < n ==> s[i] != '/') && (n < |s| ==> s[n] == '/')
    ensures s != [] && s[0] != '/' ==> n > 0
  {
    if s == [] || s[0] == '/' then 0 else 1 + SegmentLength(s[1..])
  }

  /** The non-empty pieces between slashes. */
  function Segments(s: string): seq<string>
    decreases |s|
  {
    if s == [] then []
    else if s[0] == '/' then Segments(s[1..])
    else var n := SegmentLength(s); [s[..n]] + Segments(s[n..])
  }

  /** One segment met: "." stays, ".." goes up, a name goes down unless 32 are there. */
  function Step(stack: seq<string>, seg: string): seq<string> {
    if seg == "." then stack
    else if seg == ".." then if stack == [] then stack else stack[..|stack| - 1]
    else if |stack| < MAX_SEGMENTS then stack + [seg] else stack
  }

  function Walk(stack: seq<string>, segs: seq<string>): seq<string>
    decreases |segs|
  {
    if segs == [] then stack else Walk(Step(stack, segs[0]), segs[1..])
  }

  /** The segments with a slash before each but the first. */
  function Joined(stack: seq<string>): string {
    if stack == [] then "" else if |stack| == 1 then stack[0] else Joined(stack[..|stack| - 1]) + "/" + stack[|stack| - 1]
  }

  function Render(stack: seq<string>): string { "/" + Joined(stack) }

  function Normal(path: string): string { Render(Walk([], Segments(path))) }

  // ----- laws -----

  predicate IsName(seg: string) { seg != "" && seg != "." && seg != ".." && '/' !in seg }

  predicate IsStack(stack: seq<string>) {
    |stack| <= MAX_SEGMENTS && forall i :: 0 <= i < |stack| ==> IsName(stack[i])
  }

  lemma {:induction false} SegmentsClean(s: string)
    ensures forall seg :: seg in Segments(s) ==> seg != "" && '/' !in seg
    decreases |s|
  {
    if s != [] {
      if s[0] == '/' {
        SegmentsClean(s[1..]);
      } else {
        SegmentsClean(s[SegmentLength(s)..]);
      }
    }
  }

  lemma {:induction false} WalkIsStack(stack: seq<string>, segs: seq<string>)
    requires IsStack(stack) && forall seg :: seg in segs ==> seg != "" && '/' !in seg
    ensures IsStack(Walk(stack, segs))
    decreases |segs|
  {
    if segs != [] {
      assert segs[0] in segs;
      StepIsStack(stack, segs[0]);
      forall seg | seg in segs[1..] ensures seg != "" && '/' !in seg { assert seg in segs; }
      WalkIsStack(Step(stack, segs[0]), segs[1..]);
    }
  }

  lemma StepIsStack(stack: seq<string>, seg: string)
    requires IsStack(stack) && seg != "" && '/' !in seg
    ensures IsStack(Step(stack, seg))
  {
    var r := Step(stack, seg);
    forall i | 0 <= i < |r| ensures IsName(r[i]) {
      if i < |stack| { assert r[i] == stack[i]; }
    }
  }

  lemma {:induction false} WalkAppend(stack: seq<string>, a: seq<string>, b: seq<string>)
    ensures Walk(stack, a + b) == Walk(Walk(stack, a), b)
    decreases |a|
  {
    if a == [] {
      assert a + b == b;
    } else {
      assert (a + b)[1..] == a[1..] + b;
      WalkAppend(Step(stack, a[0]), a[1..], b);
    }
  }

  lemma {:induction false} SegmentLengthJoin(a: string, t: string)
    requires t == [] || t[0] == '/'
    ensures SegmentLength(a + t) == SegmentLength(a)
  {
    if a == [] {
      assert a + t == t;
    } else if a[0] != '/' {
      assert (a + t)[1..] == a[1..] + t;
      SegmentLengthJoin(a[1..], t);
    }
  }

  lemma {:induction false} SegmentsAppend(a: string, t: string)
    requires t == [] || t[0] == '/'
    ensures Segments(a + t) == Segments(a) + Segments(t)
    decreases |a|
  {
    if a == [] {
      assert a + t == t;
    } else if a[0] == '/' {
      assert (a + t)[1..] == a[1..] + t;
      SegmentsAppend(a[1..], t);
    } else {
      var n := SegmentLength(a);
      SegmentLengthJoin(a, t);
      assert (a + t)[..n] == a[..n] && (a + t)[n..] == a[n..] + t;
      SegmentsAppend(a[n..], t);
      assert [a[..n]] + (Segments(a[n..]) + Segments(t)) == [a[..n]] + Segments(a[n..]) + Segments(t);
    }
  }

  lemma SegmentsJoin(a: string, b: string)
    ensures Segments(a + "/" + b) == Segments(a) + Segments(b)
  {
    var t := "/" + b;
    assert a + "/" + b == a + t;
    SegmentsAppend(a, t);
    assert t[1..] == b;
  }

  lemma {:induction false} OneSegment(seg: string)
    requires seg != "" && '/' !in seg
    ensures Segments(seg) == [seg]
  {
    WholeLength(seg);
    assert seg[..|seg|] == seg && seg[|seg|..] == [];
  }

  lemma {:induction false} WholeLength(seg: string)
    requires '/' !in seg
    ensures SegmentLength(seg) == |seg|
  {
    if seg != [] { WholeLength(seg[1..]); }
  }

  lemma {:induction false} SegmentsOfJoined(stack: seq<string>)
    requires IsStack(stack)
    ensures Segments(Joined(stack)) == stack
  {
    if stack != [] {
      var n := |stack| - 1;
      OneSegment(stack[n]);
      if n > 0 {
        SegmentsOfJoined(stack[..n]);
        SegmentsJoin(Joined(stack[..n]), stack[n]);
        assert stack == stack[..n] + [stack[n]];
      } else {
        assert stack == [stack[0]];
      }
    }
  }

  lemma SegmentsOfRender(stack: seq<string>)
    requires IsStack(stack)
    ensures Segments(Render(stack)) == stack
  {
    SegmentsOfJoined(stack);
    assert Render(stack)[1..] == Joined(stack);
  }

  lemma {:induction false} WalkNames(stack: seq<string>, names: seq<string>)
    requires IsStack(stack + names)
    ensures Walk(stack, names) == stack + names
    decreases |names|
  {
    if names == [] {
      assert stack + names == stack;
    } else {
      assert names[0] == (stack + names)[|stack|];
      assert stack + [names[0]] + names[1..] == stack + names;
      WalkNames(stack + [names[0]], names[1..]);
    }
  }

  lemma NormalStack(path: string)
    ensures IsStack(Walk([], Segments(path)))
  {
    SegmentsClean(path);
    WalkIsStack([], Segments(path));
  }

  /** The result has at most 32 segments, none of them empty, "." or "..". */
  lemma NormalIsClean(path: string)
    ensures IsStack(Segments(Normal(path))) && Normal(path) == Render(Segments(Normal(path)))
  {
    NormalStack(path);
    SegmentsOfRender(Walk([], Segments(path)));
  }

  /** Composition: normalising a first part beforehand makes no difference, even when names
      were dropped because 32 were there. */
  lemma NormalCompose(a: string, b: string)
    ensures Normal(Normal(a) + "/" + b) == Normal(a + "/" + b)
  {
    var st := Walk([], Segments(a));
    NormalStack(a);
    SegmentsOfRender(st);
    SegmentsJoin(Normal(a), b);
    SegmentsJoin(a, b);
    WalkAppend([], st, Segments(b));
    WalkAppend([], Segments(a), Segments(b));
    assert [] + st == st;
    WalkNames([], st);
  }

  lemma NormalAppend(st: seq<string>, seg: string)
    requires IsStack(st) && seg != "" && '/' !in seg
    ensures Normal(Render(st) + "/" + seg) == Render(Step(st, seg))
  {
    hide Step;
    SegmentsOfRender(st);
    SegmentsJoin(Render(st), seg);
    OneSegment(seg);
    WalkAppend([], st, [seg]);
    assert [] + st == st;
    WalkNames([], st);
    WalkFirst(st, seg, []);
    assert [seg] + [] == [seg];
  }

  /** What one more segment does to a path in normal form: "." nothing, ".." takes the last
      name off, and a name is put behind it unless 32 are there. */
  lemma NormalNext(st: seq<string>, name: string)
    requires IsStack(st) && IsName(name)
    ensures Normal(Render(st) + "/" + ".") == Render(st)
    ensures Normal(Render([]) + "/" + "..") == Render([]) == "/"
    ensures st != [] ==> Normal(Render(st) + "/" + "..") == Render(st[..|st| - 1])
    ensures |st| < MAX_SEGMENTS ==> Normal(Render(st) + "/" + name) == Render(st + [name])
    ensures |st| < MAX_SEGMENTS && st != [] ==> Render(st + [name]) == Render(st) + "/" + name
    ensures |st| == MAX_SEGMENTS ==> Normal(Render(st) + "/" + name) == Render(st)
  {
    hide Normal;
    NormalAppend(st, ".");
    NormalAppend(st, "..");
    NormalAppend([], "..");
    NormalAppend(st, name);
    if st != [] { assert (st + [name])[..|st|] == st; }
  }

  /** On any path: a segment "." changes nothing, and neither do a name and ".." behind it,
      below the cap. */
  lemma DotsVanish(a: string, b: string, name: string)
    requires IsName(name)
    ensures Normal(a + "/" + "." + "/" + b) == Normal(a + "/" + b)
    ensures |Segments(Normal(a))| < MAX_SEGMENTS ==>
              Normal(a + "/" + name + "/" + ".." + "/" + b) == Normal(a + "/" + b)
  {
    hide Normal, Render;
    var st := Segments(Normal(a));
    NormalIsClean(a);
    NormalNext(st, name);
    NormalCompose(a, ".");
    NormalCompose(a + "/" + ".", b);
    NormalCompose(a, b);
    if |st| < MAX_SEGMENTS {
      var up := st + [name];
      NormalNext(up, name);
      assert up[..|up| - 1] == st;
      NormalCompose(a, name);
      NormalCompose(a + "/" + name, "..");
      NormalCompose(a + "/" + name + "/" + "..", b);
    }
  }

  /** Normalising again changes nothing. */
  lemma NormalIdempotent(a: string)
    ensures Normal(Normal(a)) == Normal(a)
  {
    var st := Walk([], Segments(a));
    NormalStack(a);
    SegmentsOfRender(st);
    assert [] + st == st;
    WalkNames([], st);
  }

  /** The normal paths are exactly the fixed points, and the renderings of stacks. */
  lemma FixedPoints(p: string)
    ensures Normal(p) == p <==> exists stack :: IsStack(stack) && p == Render(stack)
  {
    if Normal(p) == p {
      NormalStack(p);
      assert p == Render(Walk([], Segments(p)));
    }
    forall stack | IsStack(stack) && p == Render(stack) ensures Normal(p) == p {
      SegmentsOfRender(stack);
      assert [] + stack == stack;
      WalkNames([], stack);
    }
  }

  /** Characters of the segments, each with a slash. */
  function Weight(segs: seq<string>): nat {
    if segs == [] then 0 else Weight(segs[..|segs| - 1]) + |segs[|segs| - 1]| + 1
  }

  lemma {:induction false} WeightCons(seg: string, rest: seq<string>)
    ensures Weight([seg] + rest) == |seg| + 1 + Weight(rest)
  {
    var all := [seg] + rest;
    if rest != [] {
      assert all[..|all| - 1] == [seg] + rest[..|rest| - 1];
      WeightCons(seg, rest[..|rest| - 1]);
    } else {
      assert all == [seg] && all[..0] == [];
    }
  }

  lemma {:induction false} WalkWeight(stack: seq<string>, segs: seq<string>)
    ensures Weight(Walk(stack, segs)) <= Weight(stack) + Weight(segs)
    decreases |segs|
  {
    if segs != [] {
      var next := Step(stack, segs[0]);
      assert segs == [segs[0]] + segs[1..];
      WeightCons(segs[0], segs[1..]);
      assert (stack + [segs[0]])[..|stack|] == stack;
      WalkWeight(next, segs[1..]);
    }
  }

  lemma {:induction false} SegmentsWeight(s: string)
    ensures Weight(Segments(s)) <= |s| + if s == "" || s[0] == '/' then 0 else 1
    decreases |s|
  {
    if s != [] {
      if s[0] == '/' {
        SegmentsWeight(s[1..]);
      } else {
        var n := SegmentLength(s);
        SegmentsWeight(s[n..]);
        WeightCons(s[..n], Segments(s[n..]));
      }
    }
  }

  lemma {:induction false} JoinedWeight(stack: seq<string>)
    ensures |Joined(stack)| + (if stack == [] then 0 else 1) == Weight(stack)
  {
    if stack != [] {
      JoinedWeight(stack[..|stack| - 1]);
      if |stack| == 1 { assert stack[..0] == []; }
    }
  }

  /** Normalising an absolute path makes it no longer. */
  lemma NormalShrinks(path: string)
    requires path != "" && path[0] == '/'
    ensures 1 <= |Normal(path)| <= |path|
  {
    SegmentsWeight(path);
    WalkWeight([], Segments(path));
    JoinedWeight(Walk([], Segments(path)));
  }

  /** Where the cap of 32 shows: one name too many is forgotten, so going up afterwards
      leaves one level fewer than was entered. */
  lemma CapForgets(stack: seq<string>, seg: string)
    requires IsStack(stack) && IsName(seg)
    ensures Walk(stack, [seg, ".."]) == stack <==> |stack| < MAX_SEGMENTS
  {
    assert [seg, ".."][1..] == [".."] && [".."][1..] == [];
    var up := Step(stack, seg);
    assert Walk(stack, [seg, ".."]) == Walk(up, [".."]) == Walk(Step(up, ".."), []);
    if |stack| < MAX_SEGMENTS { assert up[..|stack|] == stack; }
  }

  // ----- the code -----

  method SegmentEquals(input: string, start: nat, len: nat, literal: string) returns (eq: bool)
    requires start + len <= |input|
    ensures eq == (input[start..start + len] == literal)
  {
    if len != |literal| { return false; }
    var i := 0;
    while i < len
      invariant 0 <= i <= len && input[start..start + i] == literal[..i]
    {
      if input[start + i] != literal[i] {
        assert input[start..start + len][i] != literal[i];
        return false;
      }
      assert input[start..start + i + 1] == input[start..start + i] + [input[start + i]];
      assert literal[..i + 1] == literal[..i] + [literal[i]];
      i := i + 1;
    }
    assert literal[..i] == literal;
    eq := true;
  }

  /** The segments on the stack, as starts and lengths in the input. */
  function StackOf(input: string, starts: seq<nat>, lens: seq<nat>, count: nat): (st: seq<string>)
    requires count <= |starts| == |lens|
    requires forall i :: 0 <= i < count ==> starts[i] + lens[i] <= |input|
    ensures |st| == count
  {
    seq(count, i requires 0 <= i < count => input[starts[i]..starts[i] + lens[i]])
  }

  /** What one character says about the segments of the rest. */
  lemma SegmentsAt(input: string, i: nat)
    requires i <= |input|
    ensures i == |input| ==> Segments(input[i..]) == [] && SegmentLength(input[i..]) == 0
    ensures i < |input| && input[i] == '/' ==> Segments(input[i..]) == Segments(input[i + 1..]) && SegmentLength(input[i..]) == 0
    ensures i < |input| && input[i] != '/' ==>
      var end := i + SegmentLength(input[i..]);
      && SegmentLength(input[i..]) == 1 + SegmentLength(input[i + 1..])
      && end <= |input| && Segments(input[i..]) == [input[i..end]] + Segments(input[end..])
  {
    var s := input[i..];
    if i < |input| {
      assert s[1..] == input[i + 1..] && s[0] == input[i];
      if s[0] != '/' {
        var n := SegmentLength(s);
        assert s[..n] == input[i..i + n] && s[n..] == input[i + n..];
      }
    }
  }

  /** One piece of the input between slashes. */
  method NextSegment(input: string, from: nat) returns (start: nat, end: nat)
    requires from <= |input|
    ensures from <= start <= end <= |input|
    ensures start == end ==> end == |input| && Segments(input[from..]) == []
    ensures start < end ==> Segments(input[from..]) == [input[start..end]] + Segments(input[end..])
  {
    hide Segments, SegmentLength;
    start := from;
    while start < |input| && input[start] == '/'
      invariant from <= start <= |input| && Segments(input[start..]) == Segments(input[from..])
    {
      SegmentsAt(input, start);
      start := start + 1;
    }
    SegmentsAt(input, start);
    end := start;
    if start == |input| { return; }
    end := SegmentEnd(input, start);
  }

  method SegmentEnd(input: string, start: nat) returns (end: nat)
    requires start < |input| && input[start] != '/'
    ensures start < end <= |input| && end == start + SegmentLength(input[start..])
  {
    hide SegmentLength, Segments;
    SegmentsAt(input, start);
    end := start;
    while end < |input| && input[end] != '/'
      invariant start <= end <= |input|
      invariant SegmentLength(input[start..]) == (end - start) + SegmentLength(input[end..])
    {
      SegmentsAt(input, end);
      end := end + 1;
    }
    SegmentsAt(input, end);
  }

  /** What one segment does to the stack. */
  method Put(input: string, starts: array<nat>, lens: array<nat>, count: nat, start: nat, end: nat) returns (n: nat)
    requires starts.Length == MAX_SEGMENTS && lens.Length == MAX_SEGMENTS && starts != lens
    requires count <= MAX_SEGMENTS && start <= end <= |input|
    requires forall i :: 0 <= i < count ==> starts[i] + lens[i] <= |input|
    modifies starts, lens
    ensures n <= MAX_SEGMENTS && forall i :: 0 <= i < n ==> starts[i] + lens[i] <= |input|
    ensures StackOf(input, starts[..], lens[..], n) == Step(old(StackOf(input, starts[..], lens[..], count)), input[start..end])
  {
    n := count;
    ghost var st := StackOf(input, starts[..], lens[..], count);
    var dot := SegmentEquals(input, start, end - start, ".");
    if dot { return; }
    var dots := SegmentEquals(input, start, end - start, "..");
    if dots {
      if n > 0 { n := n - 1; }
      assert StackOf(input, starts[..], lens[..], n) == Step(st, "..");
    } else if n < MAX_SEGMENTS {
      starts[n], lens[n] := start, end - start;
      n := n + 1;
      assert StackOf(input, starts[..], lens[..], n) == st + [input[start..end]];
    }
  }

  /** The first half of normalizeAbsolutePath. */
  method Lex(input: string, starts: array<nat>, lens: array<nat>) returns (count: nat)
    requires starts.Length == MAX_SEGMENTS && lens.Length == MAX_SEGMENTS && starts != lens
    modifies starts, lens
    ensures count <= MAX_SEGMENTS && forall i :: 0 <= i < count ==> starts[i] + lens[i] <= |input|
    ensures StackOf(input, starts[..], lens[..], count) == Walk([], Segments(input))
  {
    hide Segments, Walk, StackOf, Step;
    count := 0;
    EmptyStack(input, starts[..], lens[..]);
    var p := 0;
    assert input[0..] == input;
    while p < |input|
      invariant p <= |input| && count <= MAX_SEGMENTS
      invariant forall i :: 0 <= i < count ==> starts[i] + lens[i] <= |input|
      invariant Walk(StackOf(input, starts[..], lens[..], count), Segments(input[p..])) == Walk([], Segments(input))
      decreases |input| - p
    {
      ghost var st := StackOf(input, starts[..], lens[..], count);
      var start, end := NextSegment(input, p);
      p := end;
      if start == end {
        LastPiece(input);
        break;
      }
      WalkFirst(st, input[start..end], Segments(input[end..]));
      count := Put(input, starts, lens, count, start, end);
    }
    LastPiece(input);
    WalkNothing(StackOf(input, starts[..], lens[..], count));
  }

  lemma EmptyStack(input: string, starts: seq<nat>, lens: seq<nat>)
    requires |starts| == |lens|
    ensures StackOf(input, starts, lens, 0) == []
  {}

  lemma LastPiece(input: string)
    ensures Segments(input[|input|..]) == []
  {}

  lemma WalkNothing(st: seq<string>)
    ensures Walk(st, []) == st
  {}

  lemma WalkFirst(st: seq<string>, seg: string, rest: seq<string>)
    ensures Walk(st, [seg] + rest) == Walk(Step(st, seg), rest)
  {
    assert ([seg] + rest)[1..] == rest;
  }

  lemma JoinedNext(st: seq<string>, n: nat)
    requires n < |st|
    ensures Joined(st[..n + 1]) == (if n == 0 then "" else Joined(st[..n]) + "/") + st[n]
    ensures |Joined(st[..n])| <= |Joined(st[..n + 1])|
  {
    assert st[..n + 1][..n] == st[..n];
    if n == 0 { assert "" + st[0] == st[0]; }
  }

  lemma {:induction false} JoinedGrows(st: seq<string>, n: nat)
    requires n <= |st|
    ensures |Joined(st[..n])| <= |Joined(st)|
    decreases |st| - n
  {
    if n < |st| {
      JoinedNext(st, n);
      JoinedGrows(st, n + 1);
    } else {
      assert st[..n] == st;
    }
  }

  method CopySegment(out: array<char>, at: nat, input: string, start: nat, len: nat)
    requires start + len <= |input| && at + len <= out.Length
    modifies out
    ensures out[..at + len] == old(out[..at]) + input[start..start + len]
  {
    var j := 0;
    while j < len
      invariant 0 <= j <= len
      invariant out[..at + j] == old(out[..at]) + input[start..start + j]
    {
      out[at + j] := input[start + j];
      j := j + 1;
    }
  }

  /** Appends a segment, with a slash before it unless it is the first, if a terminator will
      still fit behind it. */
  method WriteSegment(out: array<char>, at: nat, slash: bool, input: string, start: nat, len: nat) returns (ok: bool, idx: nat)
    requires start + len <= |input| && at < out.Length
    modifies out
    ensures var piece := (if slash then "/" else "") + input[start..start + len];
      && ok == (at + |piece| < out.Length)
      && (ok ==> idx == at + |piece| && out[..idx] == old(out[..at]) + piece)
  {
    idx := at;
    if slash {
      if idx + 1 >= out.Length { return false, idx; }
      out[idx] := '/';
      idx := idx + 1;
      assert out[..idx] == old(out[..at]) + "/";
    }
    if idx + len >= out.Length { return false, idx; }
    CopySegment(out, idx, input, start, len);
    idx := idx + len;
    ok := true;
  }

  /** The second half of normalizeAbsolutePath: writes the stack if it fits with its
      terminator, and otherwise stops before the end of the buffer. */
  method WriteOut(input: string, starts: array<nat>, lens: array<nat>, count: nat, out: array<char>) returns (ok: bool)
    requires starts.Length == MAX_SEGMENTS && lens.Length == MAX_SEGMENTS && count <= MAX_SEGMENTS
    requires forall i :: 0 <= i < count ==> starts[i] + lens[i] <= |input|
    modifies out
    ensures var path := Render(StackOf(input, old(starts[..]), old(lens[..]), count));
      ok == (|path| < out.Length) && (ok ==> out[..|path| + 1] == path + "\0")
  {
    hide Joined;
    ghost var st := StackOf(input, starts[..], lens[..], count);
    JoinedGrows(st, 0);
    if out.Length < 2 { return false; }
    var idx: nat := 0;
    out[idx] := '/';
    idx := idx + 1;
    var i := 0;
    NothingJoined(st);
    while i < count
      invariant 0 <= i <= count && idx < out.Length && out[..idx] == "/" + Joined(st[..i])
    {
      JoinedNext(st, i);
      JoinedGrows(st, i + 1);
      assert st[i] == input[starts[i]..starts[i] + lens[i]];
      JoinedPieces(Joined(st[..i]), st[i], i == 0);
      ok, idx := WriteSegment(out, idx, i != 0, input, starts[i], lens[i]);
      if !ok { return; }
      i := i + 1;
    }
    assert st[..i] == st;
    out[idx] := '\0';
    ok := true;
  }

  lemma JoinedPieces(before: string, seg: string, first: bool)
    requires first ==> before == ""
    ensures var next := (if first then "" else before + "/") + seg;
      "/" + before + ((if !first then "/" else "") + seg) == "/" + next
  {
    if !first { assert "/" + before + ("/" + seg) == "/" + (before + "/" + seg); } else { assert "" + seg == seg; }
  }

  lemma NothingJoined(st: seq<string>)
    ensures Joined(st[..0]) == "" && "/" + "" == "/"
  {}

  /** normalizeAbsolutePath: succeeds exactly when the input is absolute and the normal form
      fits with its terminator, and then writes it. */
  method NormalizeAbsolutePath(input: string, out: array<char>) returns (ok: bool)
    modifies out
    ensures ok == (input != "" && input[0] == '/' && |Normal(input)| < out.Length)
    ensures ok ==> out[..|Normal(input)| + 1] == Normal(input) + "\0"
  {
    hide Segments, Walk, Joined, StackOf;
    if out.Length == 0 || input == "" || input[0] != '/' { return false; }
    var starts := new nat[MAX_SEGMENTS](_ => 0);
    var lens := new nat[MAX_SEGMENTS](_ => 0);
    var count := Lex(input, starts, lens);
    ok := WriteOut(input, starts, lens, count, out);
  }

  // ----- appending to a buffer, and resolving -----

  /** appendString: appends what fits, and tells whether that was all. */
  method AppendString(dest: array<char>, src: string) returns (ok: bool)
    requires '\0' !in src && |Text(dest[..])| < dest.Length
    modifies dest
    ensures ok == (|Text(old(dest[..]))| + |src| < dest.Length)
    ensures Text(dest[..]) == Cut(Text(old(dest[..])) + src, dest.Length - 1)
    ensures |Text(dest[..])| < dest.Length
  {
    hide Text;
    ghost var before := Text(dest[..]);
    assert before[..|before|] == before;
    if src == "" {
      assert before + src == before;
      return true;
    }
    var destLen := TextLength(dest);
    var remaining := dest.Length - destLen - 1;
    if |src| > remaining {
      CopyText(dest, destLen, src, remaining);
      assert Cut(before + src, dest.Length - 1) == before + src[..remaining];
      return false;
    }
    CopyText(dest, destLen, src, |src|);
    assert src[..|src|] == src;
    ok := true;
  }

  /** strncpy into a cleared buffer, one place left for the terminator */
  method FreshCopy(src: string) returns (tmp: array<char>)
    requires '\0' !in src
    ensures fresh(tmp) && tmp.Length == TMP && Text(tmp[..]) == Cut(src, TMP - 1)
  {
    hide Text;
    tmp := new char[TMP](_ => '\0');
    TextIs(tmp[..], "");
    var n := if |src| < TMP then |src| else TMP - 1;
    CopyText(tmp, 0, src, n);
    assert src[..|src|] == src;
    assert "" + src[..n] == src[..n];
  }

  /** The absolute path a shell argument stands for, if it fits the buffer of 256. An
      absolute argument is cut off without notice, a relative one is refused. */
  function Absolute(cwd: string, input: string): (r: (bool, string)) {
    var arg := if input == "" then "." else input;
    var base := if cwd == "" then "/" else cwd;
    if arg[0] == '/' then (true, Cut(arg, TMP - 1))
    else if base == "/" then (1 + |arg| < TMP, "/" + arg)
    else (|base| + 1 + |arg| < TMP, base + "/" + arg)
  }

  /** The buffer of resolvePath, before normalisation. */
  method BuildPath(base: string, arg: string) returns (fits: bool, tmp: array<char>)
    requires '\0' !in base && '\0' !in arg && arg != "" && base != ""
    ensures fresh(tmp) && |Text(tmp[..])| < tmp.Length && fits == Absolute(base, arg).0
    ensures fits ==> Text(tmp[..]) == Absolute(base, arg).1
  {
    hide Text;
    fits := true;
    if arg[0] == '/' {
      tmp := FreshCopy(arg);
    } else if base == "/" {
      tmp := FreshCopy("/");
      fits := AppendString(tmp, arg);
    } else {
      tmp := FreshCopy(base);
      fits := AppendString(tmp, "/");
      if !fits { return; }
      fits := AppendString(tmp, arg);
    }
  }

  /** resolvePath */
  method ResolvePath(cwd: string, input: string, out: array<char>) returns (ok: bool)
    requires '\0' !in cwd && '\0' !in input
    modifies out
    ensures var (fits, path) := Absolute(cwd, input);
      && ok == (fits && path[0] == '/' && |Normal(path)| < out.Length)
      && (ok ==> out[..|Normal(path)| + 1] == Normal(path) + "\0")
    ensures input != "" && input[0] == '/' && |input| < TMP ==>
      ok == (|Normal(input)| < out.Length) && (ok ==> out[..|Normal(input)| + 1] == Normal(input) + "\0")
    ensures input != "" && input[0] == '/' && TMP <= |input| && |input| < out.Length ==>
      ok && (Normal(input) == input ==> out[..|input|] != input)
  {
    hide Text, Normal;
    ShownCut(cwd, input);
    if out.Length == 0 { return false; }
    var arg := if input == "" then "." else input;
    var base := if cwd == "" then "/" else cwd;
    var fits, tmp := BuildPath(base, arg);
    if !fits { return false; }
    var path := ReadText(tmp);
    ok := NormalizeAbsolutePath(path, out);
    ghost var n := |Normal(path)|;
    if ok {
      assert out[n] == '\0' by { assert out[..n + 1][n] == (Normal(path) + "\0")[n]; }
      if n < |input| <= out.Length { assert input[n] in input && out[..|input|][n] != input[n]; }
    }
  }

  /** An absolute argument is taken as it is exactly if it fits the buffer. */
  lemma AbsoluteWhole(cwd: string, arg: string)
    requires arg != "" && arg[0] == '/'
    ensures Absolute(cwd, arg) == (true, arg) <==> |arg| < TMP
  {}

  /** An absolute argument in normal form resolves to itself exactly if it fits: of a longer
      one the end is lost. */
  lemma NormalKept(cwd: string, arg: string)
    requires arg != "" && arg[0] == '/' && Normal(arg) == arg
    ensures Normal(Absolute(cwd, arg).1) == arg <==> |arg| < TMP
  {
    hide Normal;
    NormalShrinks(Absolute(cwd, arg).1);
  }

  lemma ShownCut(cwd: string, input: string)
    ensures input != "" && input[0] == '/' ==>
      var path := Absolute(cwd, input).1;
      path != "" && path[0] == '/' && |Normal(path)| <= |path| <= |input|
      && (|input| < TMP ==> path == input) && (|input| >= TMP ==> |path| < |input|)
  {
    hide Normal;
    if input != "" && input[0] == '/' { NormalShrinks(Absolute(cwd, input).1); }
  }

  /** A single name of 255 characters or more loses its end. */
  lemma LongNameCut(cwd: string, seg: string)
    requires IsName(seg) && |seg| >= TMP - 1
    ensures Absolute(cwd, "/" + seg) == (true, "/" + seg[..TMP - 2])
    ensures Normal("/" + seg) == "/" + seg && Normal("/" + seg[..TMP - 2]) == "/" + seg[..TMP - 2]
  {
    OneName(seg);
    OneName(seg[..TMP - 2]);
    assert ("/" + seg)[..TMP - 1] == "/" + seg[..TMP - 2];
  }

  lemma OneName(seg: string)
    requires IsName(seg)
    ensures Normal("/" + seg) == "/" + seg
  {
    assert Render([seg]) == "/" + seg && IsStack([seg]);
    FixedPoints("/" + seg);
  }

  /** Resolving against a normalised directory is normalising the two parts joined, as long
      as they fit. */
  lemma ResolveCompose(a: string, arg: string)
    requires arg != "" && arg[0] != '/'
    ensures var (fits, path) := Absolute(Normal(a), arg);
      && fits == (|Normal(a)| + |arg| + (if Normal(a) == "/" then 0 else 1) < TMP)
      && path[0] == '/' && Normal(path) == Normal(a + "/" + arg)
  {
    NormalCompose(a, arg);
    if Normal(a) == "/" {
      SegmentsJoin("/", arg);
      SegmentsJoin("", arg);
      assert Segments("/") == [] by { assert "/"[1..] == ""; }
      assert "" + "/" + arg == "/" + arg;
    }
  }
}
