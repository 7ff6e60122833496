/** Byte sequences: little-endian integers and in-place replacement of a range. */
module Bytes {

  type byte = i: int | 0 <= i < 256

  function Pow256(n: nat): (p: int)
    ensures p > 0
  {
    if n == 0 then 1 else 256 * Pow256(n - 1)
  }

  /** The n low-order bytes of v, least significant first. */
  function Encode(n: nat, v: nat): (s: seq<byte>)
    ensures |s| == n
  {
    if n == 0 then [] else [v % 256] + Encode(n - 1, v / 256)
  }

  function Decode(s: seq<byte>): nat {
    if s == [] then 0 else s[0] + 256 * Decode(s[1..])
  }

  lemma {:induction false} DecodeEncode(n: nat, v: nat)
    requires v < Pow256(n)
    ensures Decode(Encode(n, v)) == v
  {
    if n > 0 {
      DecodeEncode(n - 1, v / 256);
      assert Encode(n, v)[1..] == Encode(n - 1, v / 256);
    }
  }

  lemma {:induction false} EncodeDecode(s: seq<byte>)
    ensures Decode(s) < Pow256(|s|)
    ensures Encode(|s|, Decode(s)) == s
  {
    if s != [] {
      EncodeDecode(s[1..]);
      assert Decode(s) / 256 == Decode(s[1..]);
      assert Decode(s) % 256 == s[0];
    }
  }

  /** Numbers of two and four bytes. */
  lemma LowByteFirst(s: seq<byte>)
    ensures |s| == 2 ==> Decode(s) == s[0] + 0x100 * s[1] as nat
    ensures |s| == 4 ==> Decode(s) == s[0] + 0x100 * s[1] as nat + 0x1_0000 * s[2] as nat + 0x100_0000 * s[3] as nat
  {
    if |s| == 2 {
      assert Decode(s[1..]) == s[1] + 256 * Decode(s[1..][1..]) == s[1];
    } else if |s| == 4 {
      LowByteFirst(s[2..]);
      assert s[1..][1..] == s[2..];
      assert Decode(s) == s[0] + 256 * (s[1] + 256 * Decode(s[2..]));
    }
  }

  lemma Widths()
    ensures Pow256(1) == 0x100 && Pow256(2) == 0x1_0000
    ensures Pow256(4) == 0x1_0000_0000 && Pow256(8) == 0x1_0000_0000_0000_0000
  {
    assert Pow256(3) == 0x100_0000;
    assert Pow256(5) == 0x100_0000_0000;
    assert Pow256(6) == 0x1_0000_0000_0000;
    assert Pow256(7) == 0x100_0000_0000_0000;
  }

  /** `old` with `new` written at offset `at`, growing past the end if need be. */
  function Splice<T>(old_: seq<T>, at: nat, new_: seq<T>): (r: seq<T>)
    requires at <= |old_|
    ensures |r| == if at + |new_| <= |old_| then |old_| else at + |new_|
  {
    old_[..at] + new_ + (if at + |new_| <= |old_| then old_[at + |new_|..] else [])
  }

  /** Pointwise meaning of Splice, and of a slice that it misses or hits. */
  lemma SpliceSlice<T>(s: seq<T>, at: nat, t: seq<T>, lo: nat, hi: nat)
    requires at + |t| <= |s| && lo <= hi <= |s|
    ensures hi <= at || at + |t| <= lo ==> Splice(s, at, t)[lo..hi] == s[lo..hi]
    ensures lo == at && hi == at + |t| ==> Splice(s, at, t)[lo..hi] == t
  {
    var r := Splice(s, at, t);
    if hi <= at || at + |t| <= lo {
      forall i | lo <= i < hi ensures r[i] == s[i] {}
      assert r[lo..hi] == s[lo..hi];
    }
  }

  /** A splice inside a slice is a splice of that slice. */
  lemma SpliceWithin<T>(s: seq<T>, lo: nat, hi: nat, at: nat, t: seq<T>)
    requires lo <= at && at + |t| <= hi <= |s|
    ensures Splice(s, at, t)[lo..hi] == Splice(s[lo..hi], at - lo, t)
    ensures Splice(s, lo, Splice(s[lo..hi], at - lo, t)) == Splice(s, at, t)
  {
    assert Splice(s, at, t)[lo..hi] == Splice(s[lo..hi], at - lo, t);
    assert Splice(s, lo, Splice(s[lo..hi], at - lo, t)) == Splice(s, at, t);
  }

  lemma SliceOfSlice<T>(s: seq<T>, lo: nat, len: nat, offset: nat, n: nat)
    requires lo + len <= |s| && offset + n <= len
    ensures s[lo..lo + len][offset..offset + n] == s[lo + offset..lo + offset + n]
  {
    var t := s[lo..lo + len];
    var l, r := t[offset..offset + n], s[lo + offset..lo + offset + n];
    forall k | 0 <= k < n ensures l[k] == r[k] {
      assert l[k] == t[offset + k] == s[lo + (offset + k)];
    }
  }

  lemma SlicesJoin<T>(s: seq<T>, lo: nat, mid: nat, n: nat)
    requires lo <= mid && mid + n <= |s|
    ensures s[lo..mid] + s[mid..mid + n] == s[lo..mid + n]
  {}

  lemma SpliceNothing<T>(s: seq<T>, at: nat)
    requires at <= |s|
    ensures Splice(s, at, []) == s
  {}

  /** Writing the next n elements of t continues a write of its first k. */
  lemma SpliceNext<T>(s: seq<T>, at: nat, t: seq<T>, k: nat, n: nat)
    requires at <= |s| && k + n <= |t|
    ensures Splice(Splice(s, at, t[..k]), at + k, t[k..][..n]) == Splice(s, at, t[..k + n])
  {
    assert t[..k] + t[k..][..n] == t[..k + n];
    SpliceAppend(s, at, t[..k], t[k..][..n]);
  }

  /** Two adjacent splices are one. */
  lemma SpliceAppend<T>(s: seq<T>, at: nat, t: seq<T>, u: seq<T>)
    requires at <= |s|
    ensures Splice(Splice(s, at, t), at + |t|, u) == Splice(s, at, t + u)
  {
    assert Splice(Splice(s, at, t), at + |t|, u) == Splice(s, at, t + u);
  }

  lemma {:induction false} MulMono(a: nat, b: nat, m: nat)
    requires a <= b
    ensures a * m <= b * m
    ensures a < b ==> a * m + m <= b * m
  {
    if a < b {
      MulMono(a, b - 1, m);
      assert b * m == (b - 1) * m + m;
    }
  }

  /** memcpy into a buffer. */
  method CopyInto(buffer: array<byte>, offset: nat, src: seq<byte>)
    requires offset + |src| <= buffer.Length
    modifies buffer
    ensures buffer[..] == Splice(old(buffer[..]), offset, src)
  {
    var i := 0;
    while i < |src|
      invariant 0 <= i <= |src|
      invariant forall k :: 0 <= k < buffer.Length ==>
        buffer[k] == if offset <= k < offset + i then src[k - offset] else old(buffer[k])
    {
      buffer[offset + i] := src[i];
      i := i + 1;
    }
  }
}
