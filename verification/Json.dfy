/** JSON value trees and how several of them are merged. */
module Json {

  datatype Option<T> = None | Some(value: T)

  datatype Entry = Entry(key: string, value: Value)

  datatype Value =
    | Null
    | Bool(truth: bool)
    | Number(number: real)
    | String(text: string)
    | Object(entries: seq<Entry>)
    | Array(items: seq<Value>)

  /** The first entry with the key counts. */
  function FindIn(es: seq<Entry>, key: string): Option<Value> {
    if es == [] then None else if es[0].key == key then Some(es[0].value) else FindIn(es[1..], key)
  }

  /** Value::find */
  function Find(v: Value, key: string): Option<Value> {
    if v.Object? then FindIn(v.entries, key) else None
  }

  lemma {:induction false} FindInAppend(a: seq<Entry>, b: seq<Entry>, key: string)
    ensures FindIn(a + b, key) == if FindIn(a, key).Some? then FindIn(a, key) else FindIn(b, key)
  {
    if a == [] {
      assert a + b == b;
    } else {
      assert (a + b)[1..] == a[1..] + b;
      FindInAppend(a[1..], b, key);
    }
  }

  // ----- the eager merge of two trees -----

  /** `hi` over what a lower tree has in the same place: objects combine, anything else
      replaces. */
  function Over(hi: Value, lo: Option<Value>): (r: Value)
    ensures r.Object? <==> hi.Object?
    ensures !hi.Object? ==> r == hi
    decreases hi
  {
    if hi.Object? && lo.Some? && lo.value.Object? then
      Object(seq(|hi.entries|, i requires 0 <= i < |hi.entries| =>
                  Entry(hi.entries[i].key, Over(hi.entries[i].value, FindIn(lo.value.entries, hi.entries[i].key))))
             + Missing(lo.value.entries, hi.entries))
    else hi
  }

  /** The deep merge of two trees. */
  function Merge(hi: Value, lo: Value): Value { Over(hi, Some(lo)) }

  /** The entries whose keys the other object lacks. */
  function Missing(lo: seq<Entry>, hi: seq<Entry>): seq<Entry> {
    if lo == [] then []
    else (if FindIn(hi, lo[0].key).None? then [lo[0]] else []) + Missing(lo[1..], hi)
  }

  lemma {:induction false} FindInMissing(lo: seq<Entry>, hi: seq<Entry>, key: string)
    ensures FindIn(Missing(lo, hi), key) == if FindIn(hi, key).Some? then None else FindIn(lo, key)
  {
    if lo != [] {
      FindInMissing(lo[1..], hi, key);
      FindInAppend(if FindIn(hi, lo[0].key).None? then [lo[0]] else [], Missing(lo[1..], hi), key);
    }
  }

  lemma {:induction false} FindInMapped(es: seq<Entry>, r: seq<Entry>, lo: seq<Entry>, key: string)
    requires |r| == |es|
    requires forall i :: 0 <= i < |es| ==> r[i] == Entry(es[i].key, Over(es[i].value, FindIn(lo, es[i].key)))
    ensures FindIn(r, key) == match FindIn(es, key) case None => None case Some(v) => Some(Over(v, FindIn(lo, key)))
  {
    if es != [] && es[0].key != key {
      FindInMapped(es[1..], r[1..], lo, key);
    }
  }

  /** Looking a key up in a merged object. */
  lemma FindInMerge(hi: Value, lo: Value, key: string)
    requires hi.Object? && lo.Object?
    ensures Find(Merge(hi, lo), key)
         == match Find(hi, key) case None => Find(lo, key) case Some(v) => Some(Over(v, Find(lo, key)))
  {
    var es := hi.entries;
    var r := seq(|es|, i requires 0 <= i < |es| => Entry(es[i].key, Over(es[i].value, FindIn(lo.entries, es[i].key))));
    FindInMapped(es, r, lo.entries, key);
    FindInMissing(lo.entries, es, key);
    FindInAppend(r, Missing(lo.entries, es), key);
  }

  // ----- the lazy overlay -----

  /** The values the layers have for a key, highest priority first. */
  function Found(layers: seq<Value>, key: string): seq<Value> {
    if layers == [] then []
    else (match Find(layers[0], key) case None => [] case Some(v) => [v]) + Found(layers[1..], key)
  }

  function Objects(vs: seq<Value>): (r: seq<Value>)
    ensures forall v :: v in r ==> v.Object?
  {
    if vs == [] then [] else (if vs[0].Object? then [vs[0]] else []) + Objects(vs[1..])
  }

  /** Overlay::child: a non-object of highest priority stands alone, otherwise all objects
      the layers have for the key. */
  function Child(layers: seq<Value>, key: string): seq<Value> {
    var found := Found(layers, key);
    if found == [] then [] else if !found[0].Object? then [found[0]] else Objects(found)
  }

  lemma {:induction false} FoundAppend(layers: seq<Value>, l: Value, key: string)
    ensures Found(layers + [l], key) == Found(layers, key) + match Find(l, key) case None => [] case Some(v) => [v]
  {
    hide Find;
    if layers == [] {
      assert layers + [l] == [l] && [l][1..] == [];
    } else {
      assert (layers + [l])[0] == layers[0] && (layers + [l])[1..] == layers[1..] + [l];
      FoundAppend(layers[1..], l, key);
    }
  }

  lemma {:induction false} ObjectsAppend(vs: seq<Value>, v: Value)
    ensures Objects(vs + [v]) == Objects(vs) + if v.Object? then [v] else []
  {
    if vs == [] {
      assert vs + [v] == [v] && [v][1..] == [];
    } else {
      assert (vs + [v])[1..] == vs[1..] + [v];
      ObjectsAppend(vs[1..], v);
    }
  }

  /** What a further, lowest layer adds to a child. */
  lemma ChildAppend(layers: seq<Value>, l: Value, key: string)
    ensures var c := Child(layers, key);
      Child(layers + [l], key) == match Find(l, key)
        case None => c
        case Some(v) => if c == [] then [v] else if c[0].Object? && v.Object? then c + [v] else c
  {
    hide Find;
    FoundAppend(layers, l, key);
    var f := Found(layers, key);
    if Find(l, key).None? {
      assert f + [] == f;
    } else {
      var v := Find(l, key).value;
      ObjectsAppend(f, v);
      if f != [] && f[0].Object? {
        assert Objects(f) != [] && Objects(f)[0] == f[0];
      } else if f == [] {
        assert f + [v] == [v];
        assert Objects([v]) == if v.Object? then [v] else [] by { assert [v][1..] == []; }
      }
    }
  }

  /** Objects only, or one value that is none. */
  ghost predicate Layers(vs: seq<Value>) {
    vs == [] || (forall v :: v in vs ==> v.Object?) || (|vs| == 1 && !vs[0].Object?)
  }

  lemma ChildLayers(layers: seq<Value>, key: string)
    ensures Layers(Child(layers, key))
    ensures (forall v :: v in layers ==> !v.Object?) ==> Child(layers, key) == []
  {
    if forall v :: v in layers ==> !v.Object? { NothingFound(layers, key); }
  }

  lemma {:induction false} NothingFound(layers: seq<Value>, key: string)
    requires forall v :: v in layers ==> !v.Object?
    ensures Found(layers, key) == []
  {
    if layers != [] { NothingFound(layers[1..], key); }
  }

  /** Layers that are no objects play no part. */
  lemma {:induction false} ChildOfObjects(layers: seq<Value>, key: string)
    ensures Found(layers, key) == Found(Objects(layers), key)
    ensures Child(layers, key) == Child(Objects(layers), key)
  {
    if layers != [] {
      ChildOfObjects(layers[1..], key);
      var rest := Objects(layers[1..]);
      if layers[0].Object? {
        assert ([layers[0]] + rest)[1..] == rest;
      } else {
        assert [] + rest == rest && [] + Found(layers[1..], key) == Found(layers[1..], key);
      }
    }
  }

  // ----- lazy equals eager -----

  /** All layers merged from the highest down. */
  function MergeAll(layers: seq<Value>): (r: Value)
    requires layers != []
    ensures r.Object? <==> layers[0].Object?
  {
    if |layers| == 1 then layers[0] else Merge(MergeAll(layers[..|layers| - 1]), layers[|layers| - 1])
  }

  /** The merged tree of an overlay, if it has one. */
  function Merged(layers: seq<Value>): Option<Value> { if layers == [] then None else Some(MergeAll(layers)) }

  lemma MergeAllAppend(layers: seq<Value>, l: Value)
    requires layers != []
    ensures MergeAll(layers + [l]) == Merge(MergeAll(layers), l)
  {
    assert (layers + [l])[..|layers|] == layers;
  }

  /** One step down: the child's layers merge to what the merged tree has for the key, and
      there is no child exactly when it has nothing. */
  lemma {:induction false} ChildIsFind(layers: seq<Value>, key: string)
    requires layers != [] && forall v :: v in layers ==> v.Object?
    ensures Merged(Child(layers, key)) == Find(MergeAll(layers), key)
  {
    hide Find, Merge;
    var n := |layers| - 1;
    var rest, l := layers[..n], layers[n];
    assert layers == rest + [l];
    ChildAppend(rest, l, key);
    if n == 0 {
      assert Child([], key) == [];
    } else {
      ChildIsFind(rest, key);
      MergeAllAppend(rest, l);
      FindInMerge(MergeAll(rest), l, key);
      var c := Child(rest, key);
      if Find(l, key).Some? && c != [] {
        var v := Find(l, key).value;
        if c[0].Object? && v.Object? {
          MergeAllAppend(c, v);
          OverIsMerge(MergeAll(c), v);
        } else {
          OverKeeps(MergeAll(c), Some(v));
        }
      } else if c != [] {
        OverKeeps(MergeAll(c), None);
      }
    }
  }

  lemma OverIsMerge(hi: Value, lo: Value)
    ensures Over(hi, Some(lo)) == Merge(hi, lo)
  {}

  lemma OverKeeps(hi: Value, lo: Option<Value>)
    requires !hi.Object? || lo.None? || !lo.value.Object?
    ensures Over(hi, lo) == hi
  {}

  /** Repeated child. */
  function Walk(layers: seq<Value>, path: seq<string>): seq<Value>
    decreases |path|
  {
    if path == [] then layers else Walk(Child(layers, path[0]), path[1..])
  }

  /** Repeated find. */
  function Lookup(v: Option<Value>, path: seq<string>): Option<Value>
    decreases |path|
  {
    if path == [] || v.None? then v else Lookup(Find(v.value, path[0]), path[1..])
  }

  lemma {:induction false} NothingToWalk(path: seq<string>)
    ensures Walk([], path) == [] && Lookup(None, path) == None
    decreases |path|
  {
    if path != [] { NothingToWalk(path[1..]); }
  }

  /** Layered lookup equals eager merge: along every path, the layers reached merge to what
      the merged tree has there. So lookup fails exactly where the merged tree has nothing,
      and a result that is no object is the merged tree's own. */
  lemma {:induction false} OverlayIsMerge(layers: seq<Value>, path: seq<string>)
    requires Layers(layers)
    ensures Merged(Walk(layers, path)) == Lookup(Merged(layers), path)
    ensures Layers(Walk(layers, path))
    decreases |path|
  {
    hide Child, Find, Merge;
    if path != [] {
      var c := Child(layers, path[0]);
      ChildLayers(layers, path[0]);
      OverlayIsMerge(c, path[1..]);
      if layers == [] {
        NothingToWalk(path);
        NothingToWalk(path[1..]);
      } else if layers[0].Object? {
        ChildIsFind(layers, path[0]);
      } else {
        FindInScalar(layers[0], path[0]);
        NothingToWalk(path[1..]);
      }
    }
  }

  lemma FindInScalar(v: Value, key: string)
    requires !v.Object?
    ensures Find(v, key) == None
  {}

  /** Folding from the lowest layer up is another merge: a scalar between two objects hides
      the lower one there, but not from the overlay. */
  lemma RightFoldDiffers(k: string, x: string, y: string, n: real)
    requires x != y
    ensures var hi := Object([Entry(k, Object([Entry(x, Null)]))]);
      var mid := Object([Entry(k, Number(n))]);
      var lo := Object([Entry(k, Object([Entry(y, Null)]))]);
      && Walk([hi, mid, lo], [k, y]) == [Null]
      && Lookup(Some(Merge(Merge(hi, mid), lo)), [k, y]) == Some(Null)
      && Lookup(Some(Merge(hi, Merge(mid, lo))), [k, y]) == None
  {
    hide Find, Over, Merge, Child;
    var a, b := Object([Entry(x, Null)]), Object([Entry(y, Null)]);
    var hi, mid, lo := Object([Entry(k, a)]), Object([Entry(k, Number(n))]), Object([Entry(k, b)]);
    FindOne(k, a, k); FindOne(k, Number(n), k); FindOne(k, b, k); FindOne(x, Null, y); FindOne(y, Null, y);
    // eager, from the right
    MergeIsOver(mid, lo);
    FindInMerge(mid, lo, k);
    FindInMerge(hi, Merge(mid, lo), k);
    LookupTwo(Merge(hi, Merge(mid, lo)), k, y);
    // lazy
    NoChild(k);
    NoChild(y);
    MergeIsOver(hi, Merge(mid, lo));
    OverKeeps(Number(n), Some(b));
    OverKeeps(a, Some(Number(n)));
    ChildAppend([], hi, k); ChildAppend([hi], mid, k); ChildAppend([hi, mid], lo, k);
    ChildAppend([], a, y); ChildAppend([a], b, y);
    assert [] + [hi] == [hi] && [hi] + [mid] == [hi, mid] && [hi, mid] + [lo] == [hi, mid, lo];
    assert [] + [a] == [a] && [a] + [b] == [a, b];
    assert [k, y][1..] == [y] && [y][1..] == [];
    assert Walk([hi, mid, lo], [k, y]) == Walk([a, b], [y]) == Walk([Null], []) == [Null];
    // eager, from the left
    OverlayIsMerge([hi, mid, lo], [k, y]);
    MergeAllAppend([hi], mid);
    MergeAllAppend([hi, mid], lo);
  }

  lemma NoChild(key: string)
    ensures Child([], key) == []
  {}

  lemma MergeIsOver(hi: Value, lo: Value)
    ensures Merge(hi, lo) == Over(hi, Some(lo)) && (Merge(hi, lo).Object? <==> hi.Object?)
  {}

  lemma FindOne(key: string, v: Value, other: string)
    ensures Find(Object([Entry(key, v)]), other) == if other == key then Some(v) else None
  {
    var es := [Entry(key, v)];
    assert FindIn(es[1..], other) == None;
    assert FindIn(es, other) == if other == key then Some(v) else None;
  }

  lemma LookupTwo(v: Value, k: string, y: string)
    ensures Lookup(Some(v), [k, y]) == match Find(v, k) case None => None case Some(w) => Find(w, y)
  {
    var path := [k, y];
    assert path[1..] == [y] && [y][1..] == [];
    assert Lookup(Some(v), path) == Lookup(Find(v, k), [y]);
    if Find(v, k).Some? {
      assert Lookup(Find(v, k), [y]) == Lookup(Find(Find(v, k).value, y), []);
    }
  }
}
