/** Cluster chains in a file allocation table, and the bytes they hold.
    `eoc` is the smallest end-of-chain marker of the format; the marker just
    below it stands for a bad cluster. */
module FatChain {
  import opened Bytes

  /** `chain` follows the links of `fat` and stops at an end-of-chain marker. */
  ghost predicate IsChain(fat: seq<nat>, eoc: nat, chain: seq<nat>) {
    && (forall i :: 0 <= i < |chain| ==> 2 <= chain[i] < |fat|)
    && (forall i :: 0 <= i < |chain| - 1 ==> fat[chain[i]] == chain[i + 1])
    && (chain != [] ==> fat[chain[|chain| - 1]] >= eoc)
  }

  function Start(chain: seq<nat>): nat {
    if chain == [] then 0 else chain[0]
  }

  /** The table is indexed by numbers that cannot be mistaken for a marker. */
  predicate Table(fat: seq<nat>, eoc: nat) {
    2 <= |fat| < eoc
  }

  lemma LinkAt(fat: seq<nat>, eoc: nat, chain: seq<nat>, i: nat)
    requires Table(fat, eoc) && IsChain(fat, eoc, chain) && i < |chain|
    ensures 2 <= chain[i] < |fat|
    ensures i < |chain| - 1 ==> 2 <= fat[chain[i]] == chain[i + 1] < |fat|
    ensures i == |chain| - 1 ==> fat[chain[i]] >= eoc
  {
    if i < |chain| - 1 { assert chain[i + 1] >= 2; }
  }

  /** A chain that follows the links to an end marker never revisits a cluster. */
  lemma {:induction false} ChainAcyclic(fat: seq<nat>, eoc: nat, chain: seq<nat>, i: nat, j: nat)
    requires Table(fat, eoc) && IsChain(fat, eoc, chain)
    requires i < j < |chain|
    ensures chain[i] != chain[j]
    decreases |chain| - j
  {
    if chain[i] == chain[j] {
      assert fat[chain[i]] == chain[i + 1];
      if j + 1 < |chain| {
        assert fat[chain[j]] == chain[j + 1];
        ChainAcyclic(fat, eoc, chain, i + 1, j + 1);
      }
    }
  }

  /** The table and a start cluster determine the chain. */
  lemma {:induction false} ChainUnique(fat: seq<nat>, eoc: nat, a: seq<nat>, b: seq<nat>)
    requires Table(fat, eoc) && IsChain(fat, eoc, a) && IsChain(fat, eoc, b)
    requires Start(a) == Start(b)
    ensures a == b
    decreases |a|
  {
    if a != [] {
      assert b != [];
      Tail(fat, eoc, a);
      Tail(fat, eoc, b);
      assert Start(a[1..]) == if fat[a[0]] >= eoc then 0 else fat[a[0]];
      assert Start(b[1..]) == if fat[b[0]] >= eoc then 0 else fat[b[0]];
      ChainUnique(fat, eoc, a[1..], b[1..]);
      assert a == [a[0]] + a[1..] && b == [b[0]] + b[1..];
    }
  }

  lemma Tail(fat: seq<nat>, eoc: nat, chain: seq<nat>)
    requires IsChain(fat, eoc, chain) && chain != []
    ensures IsChain(fat, eoc, chain[1..])
  {
    var t := chain[1..];
    forall i | 0 <= i < |t| - 1 ensures fat[t[i]] == t[i + 1] {
      assert t[i] == chain[i + 1] && t[i + 1] == chain[i + 2];
    }
  }

  lemma ChainFrame(fat: seq<nat>, fat': seq<nat>, eoc: nat, chain: seq<nat>)
    requires IsChain(fat, eoc, chain) && |fat'| == |fat|
    requires forall c :: c in chain ==> c < |fat| && fat'[c] == fat[c]
    ensures IsChain(fat', eoc, chain)
  {
    forall i | 0 <= i < |chain| ensures fat'[chain[i]] == fat[chain[i]] {
      assert chain[i] in chain;
    }
  }

  /** Linking a fresh cluster behind the last one extends the chain by it. */
  lemma ChainAppend(fat: seq<nat>, eoc: nat, chain: seq<nat>, c: nat, end: nat)
    requires Table(fat, eoc) && IsChain(fat, eoc, chain)
    requires 2 <= c < |fat| && c !in chain && end >= eoc
    ensures chain == [] ==> IsChain(fat[c := end], eoc, [c])
    ensures chain != [] ==>
      IsChain(fat[c := end][chain[|chain| - 1] := c], eoc, chain + [c])
  {
    if chain != [] {
      var last := chain[|chain| - 1];
      var fat' := fat[c := end][last := c];
      var ext := chain + [c];
      assert last in chain;
      forall i | 0 <= i < |ext| - 1 ensures fat'[ext[i]] == ext[i + 1] {
        assert chain[i] in chain;
        if i + 1 < |chain| {
          ChainAcyclic(fat, eoc, chain, i, |chain| - 1);
        }
      }
    }
  }

  // ----- contents -----

  predicate Within(chain: seq<nat>, n: nat) {
    forall i :: 0 <= i < |chain| ==> chain[i] < n
  }

  predicate Blocks(data: seq<seq<byte>>, size: nat) {
    forall c :: 0 <= c < |data| ==> |data[c]| == size
  }

  ghost predicate Distinct(chain: seq<nat>) {
    forall i, j :: 0 <= i < j < |chain| ==> chain[i] != chain[j]
  }

  /** The clusters of a chain laid end to end. */
  function Content(data: seq<seq<byte>>, chain: seq<nat>): seq<byte>
    requires Within(chain, |data|)
  {
    if chain == [] then [] else data[chain[0]] + Content(data, chain[1..])
  }

  lemma {:induction false} ContentAppend(data: seq<seq<byte>>, a: seq<nat>, b: seq<nat>)
    requires Within(a, |data|) && Within(b, |data|)
    ensures Within(a + b, |data|)
    ensures Content(data, a + b) == Content(data, a) + Content(data, b)
  {
    if a == [] {
      assert a + b == b;
    } else {
      assert (a + b)[1..] == a[1..] + b;
      ContentAppend(data, a[1..], b);
    }
  }

  lemma {:induction false} ContentLength(data: seq<seq<byte>>, size: nat, chain: seq<nat>)
    requires Blocks(data, size) && Within(chain, |data|)
    ensures |Content(data, chain)| == |chain| * size
  {
    if chain != [] {
      ContentLength(data, size, chain[1..]);
      assert |chain| * size == (|chain| - 1) * size + size;
    }
  }

  lemma {:induction false} ContentFrame(data: seq<seq<byte>>, data': seq<seq<byte>>, chain: seq<nat>)
    requires Within(chain, |data|) && |data'| == |data|
    requires forall i :: 0 <= i < |chain| ==> data'[chain[i]] == data[chain[i]]
    ensures Content(data', chain) == Content(data, chain)
  {
    if chain != [] {
      ContentFrame(data, data', chain[1..]);
    }
  }

  /** Content around cluster i: what precedes it, the cluster, what follows it. */
  lemma ContentSplit(data: seq<seq<byte>>, size: nat, chain: seq<nat>, i: nat)
    requires Blocks(data, size) && Within(chain, |data|) && i < |chain|
    ensures Within(chain[..i], |data|) && Within(chain[i + 1..], |data|)
    ensures |Content(data, chain[..i])| == i * size
    ensures Content(data, chain) ==
      Content(data, chain[..i]) + data[chain[i]] + Content(data, chain[i + 1..])
  {
    var pre, mid, post := chain[..i], [chain[i]], chain[i + 1..];
    assert chain == pre + (mid + post);
    ContentAppend(data, pre, mid + post);
    ContentAppend(data, mid, post);
    ContentLength(data, size, pre);
    assert mid[1..] == [];
  }

  /** Bytes [i*size, (i+1)*size) of the content are cluster i of the chain. */
  lemma ContentCluster(data: seq<seq<byte>>, size: nat, chain: seq<nat>, i: nat)
    requires Blocks(data, size) && Within(chain, |data|) && i < |chain|
    ensures 0 <= i * size <= i * size + size <= |Content(data, chain)|
    ensures Content(data, chain)[i * size..i * size + size] == data[chain[i]]
  {
    ContentSplit(data, size, chain, i);
  }

  /** The position of the first byte of cluster `index`. */
  function Span(index: nat, size: nat): nat { index * size }

  /** Division, known to its callers only by the equation that defines it. */
  method Locate(position: nat, size: nat) returns (index: nat, offset: nat)
    requires size > 0
    ensures position == Span(index, size) + offset && offset < size
  {
    index, offset := position / size, position % size;
  }

  /** A position within a chain's content lies in one of its clusters; the position
      just behind the content, in the cluster that would come next. */
  lemma IndexWithin(data: seq<seq<byte>>, size: nat, chain: seq<nat>, index: nat, offset: nat, position: nat)
    requires Blocks(data, size) && Within(chain, |data|) && offset < size
    requires position == Span(index, size) + offset <= |Content(data, chain)|
    ensures index <= |chain|
    ensures index == |chain| ==> offset == 0 && position == |Content(data, chain)|
    ensures index < |chain| ==> position - offset + size <= |Content(data, chain)|
  {
    ContentLength(data, size, chain);
    if index > |chain| { MulMono(|chain|, index, size); }
    if index < |chain| { MulMono(index, |chain|, size); }
  }

  /** Bytes inside one cluster of a chain. */
  lemma ChunkIn(data: seq<seq<byte>>, size: nat, chain: seq<nat>, i: nat, offset: nat, at: nat, n: nat)
    requires Blocks(data, size) && Within(chain, |data|)
    requires i < |chain| && offset + n <= size && at == Span(i, size) + offset
    ensures at + n <= |Content(data, chain)|
    ensures data[chain[i]][offset..offset + n] == Content(data, chain)[at..at + n]
  {
    hide Content, Within, Blocks;
    ContentCluster(data, size, chain, i);
    SliceOfSlice(Content(data, chain), Span(i, size), size, offset, n);
  }

  /** Replacing one cluster of a chain replaces the corresponding bytes of its content. */
  lemma ContentUpdate(data: seq<seq<byte>>, size: nat, chain: seq<nat>, i: nat, block: seq<byte>)
    requires Blocks(data, size) && Within(chain, |data|) && Distinct(chain)
    requires i < |chain| && |block| == size
    ensures 0 <= i * size <= i * size + size <= |Content(data, chain)|
    ensures Content(data[chain[i] := block], chain) == Splice(Content(data, chain), i * size, block)
  {
    var data' := data[chain[i] := block];
    ContentSplit(data, size, chain, i);
    ContentSplit(data', size, chain, i);
    ContentFrame(data, data', chain[..i]);
    ContentFrame(data, data', chain[i + 1..]);
    SpliceMiddle(Content(data, chain[..i]), data[chain[i]], Content(data, chain[i + 1..]), block);
  }

  lemma SpliceMiddle(pre: seq<byte>, mid: seq<byte>, post: seq<byte>, block: seq<byte>)
    requires |mid| == |block|
    ensures Splice(pre + mid + post, |pre|, block) == pre + block + post
  {
    assert (pre + mid + post)[|pre| + |block|..] == post;
  }

  // ----- the whole table -----

  ghost predicate Disjoint(a: seq<nat>, b: seq<nat>) {
    forall c :: c in a ==> c !in b
  }

  /** Every slot's chain is a chain, no cluster belongs to two of them, and a
      cluster that is neither free nor in `reserved` belongs to one. */
  ghost predicate WellFormed(fat: seq<nat>, eoc: nat, chains: seq<seq<nat>>, reserved: set<nat>) {
    && Table(fat, eoc)
    && (forall s :: 0 <= s < |chains| ==> IsChain(fat, eoc, chains[s]))
    && (forall s, t :: 0 <= s < t < |chains| ==> Disjoint(chains[s], chains[t]))
    && (forall c :: c in reserved ==> 2 <= c < |fat| && fat[c] != 0 && !Owned(chains, c))
    && (forall c :: 2 <= c < |fat| && fat[c] != 0 && c !in reserved ==> Owned(chains, c))
  }

  ghost predicate Owned(chains: seq<seq<nat>>, c: nat) {
    exists s :: 0 <= s < |chains| && c in chains[s]
  }

  /** The clusters that can belong to a file. */
  function Clusters(n: nat): (r: set<nat>)
    ensures forall c :: c in r <==> 2 <= c < n
  {
    if n <= 2 then {} else Clusters(n - 1) + {n - 1}
  }

  ghost predicate NoneFree(fat: seq<nat>) {
    forall c :: 2 <= c < |fat| ==> fat[c] != 0
  }

  /** Entries are only taken: none that was in use became free. */
  ghost predicate OnlyTakes(fat: seq<nat>, fat': seq<nat>) {
    |fat'| == |fat| && forall c :: 0 <= c < |fat| && fat[c] != 0 ==> fat'[c] != 0
  }

  lemma OnlyTakesTrans(a: seq<nat>, b: seq<nat>, c: seq<nat>)
    requires OnlyTakes(a, b) && OnlyTakes(b, c)
    ensures OnlyTakes(a, c)
  {}

  lemma OnlyTakesRefl(a: seq<nat>)
    ensures OnlyTakes(a, a)
  {}

  /** A full table stays full. */
  lemma StaysFull(fat: seq<nat>, fat': seq<nat>)
    requires OnlyTakes(fat, fat') && NoneFree(fat)
    ensures NoneFree(fat')
  {}


  lemma ChainEntries(fat: seq<nat>, eoc: nat, chain: seq<nat>)
    requires Table(fat, eoc) && IsChain(fat, eoc, chain)
    ensures forall c :: c in chain ==> 2 <= c < |fat| && fat[c] >= 2
  {
    forall c | c in chain ensures 2 <= c < |fat| && fat[c] >= 2 {
      var i :| 0 <= i < |chain| && chain[i] == c;
      if i < |chain| - 1 { assert fat[chain[i]] == chain[i + 1]; }
    }
  }

  function FreeSet(fat: seq<nat>): set<nat> {
    set c: nat | 2 <= c < |fat| && fat[c] == 0
  }

  function ChainSet(chain: seq<nat>): set<nat> {
    set c | c in chain
  }

  function OwnedSet(chains: seq<seq<nat>>): set<nat> {
    if chains == [] then {} else ChainSet(chains[0]) + OwnedSet(chains[1..])
  }

  function TotalLength(chains: seq<seq<nat>>): nat {
    if chains == [] then 0 else |chains[0]| + TotalLength(chains[1..])
  }

  lemma {:induction false} DistinctCount(chain: seq<nat>)
    requires Distinct(chain)
    ensures |ChainSet(chain)| == |chain|
  {
    if chain != [] {
      DistinctCount(chain[1..]);
      assert ChainSet(chain) == {chain[0]} + ChainSet(chain[1..]);
      assert chain[0] !in chain[1..];
    }
  }

  lemma {:induction false} OwnedMembers(chains: seq<seq<nat>>, c: nat)
    ensures c in OwnedSet(chains) <==> Owned(chains, c)
  {
    if chains != [] {
      var rest := chains[1..];
      OwnedMembers(rest, c);
      if Owned(rest, c) {
        var s :| 0 <= s < |rest| && c in rest[s];
        assert c in chains[s + 1];
      }
      if Owned(chains, c) && c !in chains[0] {
        var s :| 0 <= s < |chains| && c in chains[s];
        assert c in rest[s - 1];
      }
    }
  }

  lemma {:induction false} OwnedCount(chains: seq<seq<nat>>)
    requires forall s :: 0 <= s < |chains| ==> Distinct(chains[s])
    requires forall s, t :: 0 <= s < t < |chains| ==> Disjoint(chains[s], chains[t])
    ensures |OwnedSet(chains)| == TotalLength(chains)
  {
    if chains != [] {
      var first, rest := chains[0], chains[1..];
      forall s, t | 0 <= s < t < |rest| ensures Disjoint(rest[s], rest[t]) {
        assert rest[s] == chains[s + 1] && rest[t] == chains[t + 1];
      }
      OwnedCount(rest);
      DistinctCount(first);
      forall c | c in first ensures c !in OwnedSet(rest) {
        OwnedMembers(rest, c);
        forall s | 0 <= s < |rest| ensures c !in rest[s] {
          assert Disjoint(first, chains[s + 1]);
        }
      }
      assert ChainSet(first) !! OwnedSet(rest);
    }
  }

  lemma {:induction false} RangeCount(n: nat)
    requires n >= 2
    ensures |Clusters(n)| == n - 2
  {
    if n > 2 {
      RangeCount(n - 1);
      var smaller := Clusters(n - 1);
      assert n - 1 !in smaller && |smaller + {n - 1}| == |smaller| + 1;
    }
  }

  lemma ChainDistinct(fat: seq<nat>, eoc: nat, chain: seq<nat>)
    requires Table(fat, eoc) && IsChain(fat, eoc, chain)
    ensures Distinct(chain)
  {
    forall i, j | 0 <= i < j < |chain| ensures chain[i] != chain[j] {
      ChainAcyclic(fat, eoc, chain, i, j);
    }
  }

  lemma Partition(fat: seq<nat>, eoc: nat, chains: seq<seq<nat>>, reserved: set<nat>)
    requires WellFormed(fat, eoc, chains, reserved)
    requires forall c :: c in OwnedSet(chains) <==> Owned(chains, c)
    ensures FreeSet(fat) !! OwnedSet(chains) !! reserved
    ensures FreeSet(fat) + OwnedSet(chains) + reserved == Clusters(|fat|)
  {
    forall c | c in OwnedSet(chains) ensures 2 <= c < |fat| && fat[c] != 0 {
      var s :| 0 <= s < |chains| && c in chains[s];
      ChainEntries(fat, eoc, chains[s]);
    }
  }

  /** No cluster is ever lost: free, chained and reserved clusters make up the volume. */
  lemma ClusterConservation(fat: seq<nat>, eoc: nat, chains: seq<seq<nat>>, reserved: set<nat>)
    requires WellFormed(fat, eoc, chains, reserved)
    ensures |FreeSet(fat)| + TotalLength(chains) + |reserved| == |fat| - 2
  {
    forall s | 0 <= s < |chains| ensures Distinct(chains[s]) {
      ChainDistinct(fat, eoc, chains[s]);
    }
    OwnedCount(chains);
    RangeCount(|fat|);
    forall c: nat { OwnedMembers(chains, c); }
    Partition(fat, eoc, chains, reserved);
    var free, owned := FreeSet(fat), OwnedSet(chains);
    assert |free + owned + reserved| == |free + owned| + |reserved|;
  }

  // ----- freeing a chain -----

  /** Every link of the table stays in the table or is a marker. */
  ghost predicate LinksInside(fat: seq<nat>, eoc: nat) {
    forall c :: 0 <= c < |fat| ==> fat[c] < |fat| || fat[c] >= eoc - 1
  }

  function NonZero(fat: seq<nat>): set<nat> {
    set c: nat | 0 <= c < |fat| && fat[c] != 0
  }

  predicate Stops(eoc: nat, c: nat) { c < 2 || c >= eoc - 1 }

  lemma NonZeroShrinks(fat: seq<nat>, c: nat)
    requires c < |fat| && fat[c] != 0
    ensures NonZero(fat[c := 0]) < NonZero(fat)
  {
    assert c in NonZero(fat) && c !in NonZero(fat[c := 0]);
  }

  /** Following links from c, with entries zeroed as they are visited, never leaves the table. */
  ghost predicate StaysInside(fat: seq<nat>, eoc: nat, c: nat)
    decreases NonZero(fat)
  {
    Stops(eoc, c) || (c < |fat| && (Stops(eoc, fat[c]) || (NonZeroShrinks(fat, c); StaysInside(fat[c := 0], eoc, fat[c]))))
  }

  /** The clusters that freeing visits from `c`, on any table contents, cyclic or not:
      a cluster is zeroed as it is visited, so the walk ends when it meets one again. */
  ghost function FreeWalk(fat: seq<nat>, eoc: nat, c: nat): seq<nat>
    requires StaysInside(fat, eoc, c)
    decreases NonZero(fat)
  {
    if Stops(eoc, c) then []
    else if Stops(eoc, fat[c]) then [c]
    else NonZeroShrinks(fat, c); [c] + FreeWalk(fat[c := 0], eoc, fat[c])
  }

  lemma {:induction false} LinksStayInside(fat: seq<nat>, eoc: nat, c: nat)
    requires Table(fat, eoc) && LinksInside(fat, eoc) && (c < |fat| || c >= eoc - 1)
    ensures StaysInside(fat, eoc, c)
    decreases NonZero(fat)
  {
    if !Stops(eoc, c) && !Stops(eoc, fat[c]) {
      NonZeroShrinks(fat, c);
      LinksStayInside(fat[c := 0], eoc, fat[c]);
    }
  }

  /** With an entry for every number below the bad marker no link leads outside, so the
      freeing walk ends whatever the entries say. */
  lemma {:induction false} AnyLinksEnd(fat: seq<nat>, eoc: nat, c: nat)
    requires eoc - 1 <= |fat|
    ensures StaysInside(fat, eoc, c)
    decreases NonZero(fat)
  {
    if !Stops(eoc, c) && !Stops(eoc, fat[c]) {
      NonZeroShrinks(fat, c);
      AnyLinksEnd(fat[c := 0], eoc, fat[c]);
    }
  }

  /** More entries behind a table that the walk does not leave make no difference. */
  lemma {:induction false} StaysInsideMore(fat: seq<nat>, more: seq<nat>, eoc: nat, c: nat)
    requires fat <= more && StaysInside(fat, eoc, c)
    ensures StaysInside(more, eoc, c)
    decreases NonZero(fat)
  {
    if !Stops(eoc, c) && !Stops(eoc, fat[c]) {
      NonZeroShrinks(fat, c);
      NonZeroShrinks(more, c);
      StaysInsideMore(fat[c := 0], more[c := 0], eoc, fat[c]);
    }
  }

  function ZeroAll(fat: seq<nat>, walk: seq<nat>): (r: seq<nat>)
    ensures |r| == |fat|
    ensures forall c :: 0 <= c < |fat| ==> r[c] == if c in walk then 0 else fat[c]
  {
    seq(|fat|, c requires 0 <= c < |fat| => if c in walk then 0 else fat[c])
  }

  lemma ZeroStep(fat: seq<nat>, c: nat, rest: seq<nat>)
    requires c < |fat|
    ensures ZeroAll(fat, [c] + rest) == ZeroAll(fat[c := 0], rest)
    ensures ZeroAll(fat, []) == fat
  {
    assert forall d :: d in [c] + rest <==> d == c || d in rest;
    assert ZeroAll(fat, [c] + rest) == ZeroAll(fat[c := 0], rest);
    assert ZeroAll(fat, []) == fat;
  }

  /** From the start of a chain, freeing visits exactly the chain. */
  lemma {:induction false} WalkIsChain(fat: seq<nat>, eoc: nat, chain: seq<nat>)
    requires Table(fat, eoc) && IsChain(fat, eoc, chain)
    ensures StaysInside(fat, eoc, Start(chain)) && FreeWalk(fat, eoc, Start(chain)) == chain
    decreases |chain|
  {
    if |chain| > 1 {
      var c, rest := chain[0], chain[1..];
      LinkAt(fat, eoc, chain, 0);
      Tail(fat, eoc, chain);
      ZeroHead(fat, eoc, chain);
      NonZeroShrinks(fat, c);
      WalkIsChain(fat[c := 0], eoc, rest);
      assert chain == [c] + rest;
    } else if chain != [] {
      LinkAt(fat, eoc, chain, 0);
      assert chain == [chain[0]];
    }
  }

  lemma ZeroHead(fat: seq<nat>, eoc: nat, chain: seq<nat>)
    requires Table(fat, eoc) && IsChain(fat, eoc, chain) && |chain| > 1
    ensures IsChain(fat[chain[0] := 0], eoc, chain[1..])
  {
    Tail(fat, eoc, chain);
    forall d | d in chain[1..] ensures d != chain[0] {
      var i :| 0 <= i < |chain[1..]| && chain[1..][i] == d;
      ChainAcyclic(fat, eoc, chain, 0, i + 1);
    }
    ChainFrame(fat, fat[chain[0] := 0], eoc, chain[1..]);
  }

  // ----- what the file operations keep -----

  lemma OwnerUpdate(chains: seq<seq<nat>>, s: nat, chain: seq<nat>, c: nat)
    requires s < |chains|
    ensures Owned(chains[s := chain], c) <==>
      c in chain || exists t :: 0 <= t < |chains| && t != s && c in chains[t]
  {
    if c in chain { assert c in chains[s := chain][s]; }
    if t :| 0 <= t < |chains| && t != s && c in chains[t] { assert c in chains[s := chain][t]; }
  }

  /** The table after cluster c was taken and linked behind a chain. */
  function Linked(fat: seq<nat>, chain: seq<nat>, c: nat, end: nat): seq<nat>
    requires c < |fat| && Within(chain, |fat|)
  {
    if chain == [] then fat[c := end] else fat[c := end][chain[|chain| - 1] := c]
  }

  lemma GrowChain(fat: seq<nat>, eoc: nat, chains: seq<seq<nat>>, reserved: set<nat>, s: nat, c: nat, end: nat, t: nat)
    requires WellFormed(fat, eoc, chains, reserved) && s < |chains| && t < |chains|
    requires 2 <= c < |fat| && fat[c] == 0 && end >= eoc
    ensures Within(chains[s], |fat|) && c !in chains[t]
    ensures IsChain(Linked(fat, chains[s], c, end), eoc, if t == s then chains[s] + [c] else chains[t])
  {
    assert IsChain(fat, eoc, chains[s]) && IsChain(fat, eoc, chains[t]);
    ChainEntries(fat, eoc, chains[s]);
    ChainEntries(fat, eoc, chains[t]);
    if t == s {
      ChainAppend(fat, eoc, chains[s], c, end);
      assert chains[s] == [] ==> chains[s] + [c] == [c];
    } else {
      assert t < s ==> Disjoint(chains[t], chains[s]);
      assert s < t ==> Disjoint(chains[s], chains[t]);
      ChainFrame(fat, Linked(fat, chains[s], c, end), eoc, chains[t]);
    }
  }

  lemma GrowOwners(fat: seq<nat>, eoc: nat, chains: seq<seq<nat>>, reserved: set<nat>, s: nat, c: nat, end: nat, d: nat)
    requires WellFormed(fat, eoc, chains, reserved) && s < |chains|
    requires 2 <= c < |fat| && fat[c] == 0 && end >= eoc && 2 <= d < |fat| && Within(chains[s], |fat|)
    ensures var fat', chains' := Linked(fat, chains[s], c, end), chains[s := chains[s] + [c]];
      (d in reserved ==> fat'[d] != 0 && !Owned(chains', d))
      && (fat'[d] != 0 && d !in reserved ==> Owned(chains', d))
  {
    OwnerUpdate(chains, s, chains[s] + [c], d);
    if d in chains[s] {
      assert Owned(chains, d);
    } else if d != c && Owned(chains, d) {
      var t :| 0 <= t < |chains| && d in chains[t];
      assert t != s;
    }
  }

  /** Moving a free cluster to the end of a slot's chain keeps the volume well formed. */
  lemma GrowKeeps(fat: seq<nat>, eoc: nat, chains: seq<seq<nat>>, reserved: set<nat>, s: nat, c: nat, end: nat)
    requires WellFormed(fat, eoc, chains, reserved) && s < |chains|
    requires 2 <= c < |fat| && fat[c] == 0 && end >= eoc && Within(chains[s], |fat|)
    ensures WellFormed(Linked(fat, chains[s], c, end), eoc, chains[s := chains[s] + [c]], reserved)
  {
    var fat', chains' := Linked(fat, chains[s], c, end), chains[s := chains[s] + [c]];
    forall t | 0 <= t < |chains'| ensures IsChain(fat', eoc, chains'[t]) {
      GrowChain(fat, eoc, chains, reserved, s, c, end, t);
    }
    forall t, u | 0 <= t < u < |chains'| ensures Disjoint(chains'[t], chains'[u]) {
      GrowChain(fat, eoc, chains, reserved, s, c, end, t);
      GrowChain(fat, eoc, chains, reserved, s, c, end, u);
      assert Disjoint(chains[t], chains[u]);
    }
    forall d | 2 <= d < |fat'|
      ensures d in reserved ==> fat'[d] != 0 && !Owned(chains', d)
      ensures fat'[d] != 0 && d !in reserved ==> Owned(chains', d)
    {
      GrowOwners(fat, eoc, chains, reserved, s, c, end, d);
    }
  }

  /** Zeroing a slot's chain and emptying the slot keeps the volume well formed. */
  lemma ShrinkKeeps(fat: seq<nat>, eoc: nat, chains: seq<seq<nat>>, reserved: set<nat>, s: nat)
    requires WellFormed(fat, eoc, chains, reserved) && s < |chains|
    ensures WellFormed(ZeroAll(fat, chains[s]), eoc, chains[s := []], reserved)
  {
    var fat' := ZeroAll(fat, chains[s]);
    var chains' := chains[s := []];
    forall t | 0 <= t < |chains'| ensures IsChain(fat', eoc, chains'[t]) {
      if t != s {
        assert t < s ==> Disjoint(chains[t], chains[s]);
        assert s < t ==> Disjoint(chains[s], chains[t]);
        ChainEntries(fat, eoc, chains[t]);
        ChainFrame(fat, fat', eoc, chains[t]);
      }
    }
    forall t, u | 0 <= t < u < |chains'| ensures Disjoint(chains'[t], chains'[u]) {
      assert Disjoint(chains[t], chains[u]);
    }
    forall d | 2 <= d < |fat'|
      ensures d in reserved ==> fat'[d] != 0 && !Owned(chains', d)
      ensures fat'[d] != 0 && d !in reserved ==> Owned(chains', d)
    {
      OwnerUpdate(chains, s, [], d);
      if d in chains[s] {
      } else if Owned(chains, d) {
        var t :| 0 <= t < |chains| && d in chains[t];
        assert t != s;
      }
    }
  }

  /** The chains of the other slots, and the clusters on them, are as they were. */
  ghost predicate OthersKept(chains: seq<seq<nat>>, data: seq<seq<byte>>,
                             chains': seq<seq<nat>>, data': seq<seq<byte>>, s: nat)
  {
    && |chains'| == |chains| && |data'| == |data|
    && (forall t :: 0 <= t < |chains| && t != s ==>
          chains'[t] == chains[t] && Within(chains[t], |data|) && SameOn(chains[t], data, data'))
  }

  ghost predicate SameOn(chain: seq<nat>, data: seq<seq<byte>>, data': seq<seq<byte>>)
    requires Within(chain, |data|) && |data'| == |data|
  {
    forall i :: 0 <= i < |chain| ==> data'[chain[i]] == data[chain[i]]
  }

  /** Writing a cluster that is on no other slot's chain keeps the others. */
  lemma OthersKeptStep(fat: seq<nat>, eoc: nat, reserved: set<nat>,
                       chains0: seq<seq<nat>>, data0: seq<seq<byte>>,
                       chains: seq<seq<nat>>, data: seq<seq<byte>>, s: nat, c: nat, block: seq<byte>)
    requires WellFormed(fat, eoc, chains, reserved) && s < |chains|
    requires OthersKept(chains0, data0, chains, data, s)
    requires 2 <= c < |fat| == |data|
    requires c in chains[s] || fat[c] == 0
    ensures OthersKept(chains0, data0, chains, data[c := block], s)
  {
    forall t | 0 <= t < |chains| && t != s
      ensures SameOn(chains0[t], data0, data[c := block])
    {
      ChainEntries(fat, eoc, chains[t]);
      assert t < s ==> Disjoint(chains[t], chains[s]);
      assert s < t ==> Disjoint(chains[s], chains[t]);
      assert c !in chains[t];
      forall i | 0 <= i < |chains[t]| ensures chains[t][i] != c {
        assert chains[t][i] in chains[t];
      }
    }
  }

  /** A fresh cluster behind a slot's chain adds bytes behind its content... */
  lemma GrowContent(data: seq<seq<byte>>, chain: seq<nat>, c: nat, block: seq<byte>)
    requires Within(chain, |data|) && c < |data| && c !in chain
    ensures Within(chain + [c], |data|)
    ensures Content(data[c := block], chain + [c]) == Content(data, chain) + block
  {
    var data' := data[c := block];
    ContentAppend(data', chain, [c]);
    assert [c][1..] == [];
    forall i | 0 <= i < |chain| ensures chain[i] != c { assert chain[i] in chain; }
    ContentFrame(data, data', chain);
  }

  /** ... and leaves the other slots alone. */
  lemma GrowOthers(fat: seq<nat>, eoc: nat, chains: seq<seq<nat>>, reserved: set<nat>,
                   data: seq<seq<byte>>, s: nat, c: nat, block: seq<byte>, chain: seq<nat>)
    requires WellFormed(fat, eoc, chains, reserved) && s < |chains|
    requires |data| == |fat| && 2 <= c < |fat| && fat[c] == 0
    ensures OthersKept(chains, data, chains[s := chain], data[c := block], s)
  {
    forall t | 0 <= t < |chains| ensures Within(chains[t], |data|) { assert IsChain(fat, eoc, chains[t]); }
    hide WellFormed;
    assert OthersKept(chains, data, chains, data, s);
    OthersKeptStep(fat, eoc, reserved, chains, data, chains, data, s, c, block);
    hide SameOn;
  }

  lemma SlotFacts(fat: seq<nat>, eoc: nat, chains: seq<seq<nat>>, reserved: set<nat>, s: nat)
    requires WellFormed(fat, eoc, chains, reserved) && s < |chains|
    ensures IsChain(fat, eoc, chains[s]) && Within(chains[s], |fat|) && Distinct(chains[s])
    ensures forall c :: 2 <= c < |fat| && fat[c] == 0 ==> c !in chains[s]
  {
    ChainDistinct(fat, eoc, chains[s]);
    ChainEntries(fat, eoc, chains[s]);
  }

  /** Everything that holds after a free cluster c was marked as an end and, unless the
      chain of the slot was empty, linked behind its last cluster. */
  lemma GrowSlot(fat: seq<nat>, eoc: nat, chains: seq<seq<nat>>, reserved: set<nat>,
                 data: seq<seq<byte>>, s: nat, c: nat, end: nat, block: seq<byte>)
    requires WellFormed(fat, eoc, chains, reserved) && s < |chains|
    requires 2 <= c < |fat| == |data| && fat[c] == 0 && end >= eoc && Within(chains[s], |fat|)
    ensures var fat', chain' := Linked(fat, chains[s], c, end), chains[s] + [c];
      && WellFormed(fat', eoc, chains[s := chain'], reserved)
      && IsChain(fat', eoc, chain') && Within(chain', |data|) && Distinct(chain')
      && Content(data, chains[s]) <= Content(data[c := block], chain')
      && OthersKept(chains, data, chains[s := chain'], data[c := block], s)
  {
    hide WellFormed, OthersKept;
    SlotFacts(fat, eoc, chains, reserved, s);
    GrowKeeps(fat, eoc, chains, reserved, s, c, end);
    GrowContent(data, chains[s], c, block);
    GrowOthers(fat, eoc, chains, reserved, data, s, c, block, chains[s] + [c]);
    SlotFacts(Linked(fat, chains[s], c, end), eoc, chains[s := chains[s] + [c]], reserved, s);
  }

  lemma OthersKeptTrans(c0: seq<seq<nat>>, d0: seq<seq<byte>>, c1: seq<seq<nat>>, d1: seq<seq<byte>>,
                        c2: seq<seq<nat>>, d2: seq<seq<byte>>, s: nat)
    requires OthersKept(c0, d0, c1, d1, s) && OthersKept(c1, d1, c2, d2, s)
    ensures OthersKept(c0, d0, c2, d2, s)
  {}

  lemma OthersKeptContent(c0: seq<seq<nat>>, d0: seq<seq<byte>>, c1: seq<seq<nat>>, d1: seq<seq<byte>>, s: nat, t: nat)
    requires OthersKept(c0, d0, c1, d1, s) && t < |c0| && t != s
    ensures c1[t] == c0[t] && Within(c0[t], |d0|) && Within(c0[t], |d1|)
    ensures Content(d1, c1[t]) == Content(d0, c0[t])
  {
    assert SameOn(c0[t], d0, d1);
    ContentFrame(d0, d1, c0[t]);
  }

  // ----- one step of the write loop, on values -----

  /** Storing `chunk` at `offset` in cluster i of a chain splices the bytes of the file. */
  lemma ChunkStep(data: seq<seq<byte>>, size: nat, chain: seq<nat>, i: nat, offset: nat, at: nat,
                  chunk: seq<byte>, view: nat)
    requires Blocks(data, size) && Within(chain, |data|) && Distinct(chain)
    requires i < |chain| && offset + |chunk| <= size
    requires at == Span(i, size) + offset <= view <= |Content(data, chain)|
    ensures var data' := data[chain[i] := Splice(data[chain[i]], offset, chunk)];
      && Blocks(data', size)
      && |Content(data', chain)| == |Content(data, chain)| >= at + |chunk|
      && Content(data', chain)[..Max(view, at + |chunk|)] == Splice(Content(data, chain)[..view], at, chunk)
  {
    var block := Splice(data[chain[i]], offset, chunk);
    var content, lo := Content(data, chain), i * size;
    ContentCluster(data, size, chain, i);
    ContentUpdate(data, size, chain, i, block);
    SpliceWithin(content, lo, lo + size, at, chunk);
    SpliceView(content, view, at, chunk);
  }

  function Max(a: nat, b: nat): nat { if a < b then b else a }

  function Min(a: nat, b: nat): nat { if a < b then a else b }

  /** `content` begins with the file `file`, overwritten at `at` by the first k bytes of `src`. */
  ghost predicate Written(content: seq<byte>, file: seq<byte>, at: nat, src: seq<byte>, k: nat) {
    && at <= |file| && k <= |src|
    && Max(|file|, at + k) <= |content|
    && content[..Max(|file|, at + k)] == Splice(file, at, src[..k])
  }

  lemma WrittenBound(content: seq<byte>, file: seq<byte>, at: nat, src: seq<byte>, k: nat)
    requires Written(content, file, at, src, k)
    ensures at + k <= |content| && |file| <= |content| && k <= |src|
    ensures |file| <= at + k ==> at + k <= |content| && content[..at + k] == Splice(file, at, src[..k])
    ensures at + k <= |file| ==> |file| <= |content| && content[..|file|] == Splice(file, at, src[..k])
  {}

  lemma WrittenStart(content: seq<byte>, size: nat, at: nat, src: seq<byte>)
    requires at <= size <= |content|
    ensures Written(content, content[..size], at, src, 0)
  {
    SpliceNothing(content[..size], at);
    assert src[..0] == [];
  }

  lemma WrittenMore(content: seq<byte>, content': seq<byte>, file: seq<byte>, at: nat, src: seq<byte>, k: nat)
    requires Written(content, file, at, src, k) && content <= content'
    ensures Written(content', file, at, src, k)
  {
    assert content'[..Max(|file|, at + k)] == content[..Max(|file|, at + k)];
  }

  /** Storing the next n bytes of `src` at `offset` in cluster i goes on with the write. */
  lemma WrittenNext(data: seq<seq<byte>>, size: nat, chain: seq<nat>, i: nat, offset: nat,
                    file: seq<byte>, at: nat, src: seq<byte>, k: nat, n: nat)
    requires Blocks(data, size) && Within(chain, |data|) && Distinct(chain)
    requires Written(Content(data, chain), file, at, src, k)
    requires k + n <= |src| && i < |chain| && offset + n <= size && at + k == Span(i, size) + offset
    ensures var data' := data[chain[i] := Splice(data[chain[i]], offset, src[k..][..n])];
      Blocks(data', size) && Written(Content(data', chain), file, at, src, k + n)
  {
    ChunkStep(data, size, chain, i, offset, at + k, src[k..][..n], Max(|file|, at + k));
    SpliceNext(file, at, src, k, n);
  }

  lemma SpliceView(s: seq<byte>, view: nat, at: nat, t: seq<byte>)
    requires at <= view <= |s| && at + |t| <= |s|
    ensures Splice(s, at, t)[..Max(view, at + |t|)] == Splice(s[..view], at, t)
  {}
}
