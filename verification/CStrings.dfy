/** Zero-terminated strings in buffers. */
module CStrings {

  /** The string in a zero-terminated buffer. */
  function Text(buffer: seq<char>): (s: string)
    ensures |s| <= |buffer| && s == buffer[..|s|] && '\0' !in s && (|s| < |buffer| ==> buffer[|s|] == '\0')
  {
    if buffer == [] || buffer[0] == '\0' then [] else [buffer[0]] + Text(buffer[1..])
  }

  lemma {:induction false} TextIs(buffer: seq<char>, s: string)
    requires |s| < |buffer| && buffer[..|s|] == s && buffer[|s|] == '\0' && '\0' !in s
    ensures Text(buffer) == s
  {
    if s != [] {
      assert buffer[0] == s[0];
      assert buffer[1..][..|s[1..]|] == s[1..];
      TextIs(buffer[1..], s[1..]);
    }
  }

  /** What stands before a terminator decides the string. */
  lemma {:induction false} TextFront(buffer: seq<char>, s: string)
    requires |s| < |buffer| && buffer[..|s|] == s && buffer[|s|] == '\0'
    ensures Text(buffer) == Text(s)
  {
    if s != [] {
      assert buffer[0] == s[0];
      assert buffer[1..][..|s[1..]|] == s[1..];
      TextFront(buffer[1..], s[1..]);
    }
  }

  lemma {:induction false} TextWhole(s: string)
    requires '\0' !in s
    ensures Text(s) == s
  {
    if s != [] { TextWhole(s[1..]); }
  }

  function Cut(s: string, n: nat): string { if |s| <= n then s else s[..n] }

  /** Writes n characters and a terminator behind the first `at` characters. */
  method CopyText(dest: array<char>, at: nat, src: string, n: nat)
    requires n <= |src| && at + n < dest.Length && '\0' !in src
    requires at <= |Text(dest[..])|
    modifies dest
    ensures Text(dest[..]) == Text(old(dest[..]))[..at] + src[..n]
  {
    hide Text;
    var j := 0;
    while j < n
      invariant 0 <= j <= n && dest[..at + j] == old(dest[..at]) + src[..j]
    {
      dest[at + j] := src[j];
      j := j + 1;
    }
    dest[at + n] := '\0';
    assert dest[..at + n] == old(dest[..at]) + src[..n];
    assert old(dest[..at]) == Text(old(dest[..]))[..at];
    TextIs(dest[..], old(dest[..at]) + src[..n]);
  }

  lemma NoZeroIn(buffer: seq<char>)
    ensures forall k :: 0 <= k < |Text(buffer)| ==> buffer[k] != '\0'
  {
    hide Text;
    var s := Text(buffer);
    forall k | 0 <= k < |s| ensures buffer[k] != '\0' {
      assert s[k] in s && buffer[..|s|][k] == buffer[k];
    }
  }

  /** strlen */
  method TextLength(dest: array<char>) returns (n: nat)
    requires |Text(dest[..])| < dest.Length
    ensures n == |Text(dest[..])|
  {
    hide Text;
    n := 0;
    ghost var s := Text(dest[..]);
    NoZeroIn(dest[..]);
    while dest[n] != '\0'
      invariant n <= |s|
      decreases |s| - n
    {
      assert dest[..][|s|] == '\0';
      n := n + 1;
    }
  }

  method ReadText(buffer: array<char>) returns (s: string)
    requires |Text(buffer[..])| < buffer.Length
    ensures s == Text(buffer[..])
  {
    hide Text;
    var n := TextLength(buffer);
    s := buffer[..n];
  }
}
