/** Long directory names: assembled from fragments, and looked up ignoring case. */
module LongNames {
  import opened CStrings
  import opened Names

  const NAME_MAX := 255

  /** One long-name entry: thirteen 16-bit units in three groups. */
  datatype Fragment = Fragment(order: bv8, checksum: nat, name1: seq<nat>, name2: seq<nat>, name3: seq<nat>)

  ghost predicate Whole(f: Fragment) { |f.name1| == 5 && |f.name2| == 6 && |f.name3| == 2 }

  function Units(f: Fragment): seq<nat> { f.name1 + f.name2 + f.name3 }

  /** The characters up to the terminator, without padding. */
  function Emitted(units: seq<nat>): (s: string)
    ensures |s| <= |units| && '\0' !in s
  {
    if units == [] || units[0] == 0 then ""
    else if units[0] == 0xFFFF then Emitted(units[1..])
    else [if units[0] <= 0x7F then units[0] as char else '?'] + Emitted(units[1..])
  }

  /** sfnChecksum over the eleven bytes of a short name */
  function Checksum(name: string, sum: nat): nat {
    if name == "" then sum
    else Checksum(name[1..], ((if sum % 2 == 1 then 0x80 else 0) + sum / 2 + name[0] as nat) % 0x100)
  }

  /** The checksum of one character more: the sum so far as a byte `r` turned right by one
      bit, plus the character, modulo 256. Turned back left it is the sum again. */
  lemma {:induction false} ChecksumNext(name: string, c: char, sum: nat) returns (r: nat)
    requires sum < 0x100
    ensures r < 0x100 && Checksum(name, sum) == if r < 0x80 then 2 * r else 2 * r - 0xFF
    ensures Checksum(name + [c], sum) == (r + c as nat) % 0x100
  {
    if name == "" {
      r := sum / 2 + if sum % 2 == 1 then 0x80 else 0;
      assert (name + [c])[1..] == "";
    } else {
      assert (name + [c])[1..] == name[1..] + [c];
      r := ChecksumNext(name[1..], c, ((if sum % 2 == 1 then 0x80 else 0) + sum / 2 + name[0] as nat) % 0x100);
    }
  }

  /** The long name gathered so far. */
  datatype Pending = Pending(name: string, checksum: nat, valid: bool)

  const NOTHING := Pending("", 0, false)

  /** Fragments come last part first, so each goes in front. */
  function Prepend(fragment: string, pending: string): (r: string)
    ensures '\0' !in fragment && '\0' !in pending ==> '\0' !in r
  {
    if fragment == "" then pending else Cut(fragment + pending, NAME_MAX)
  }

  /** A directory slot; `proper` long parts have the exact attribute and type. */
  datatype Slot = EndMark | Deleted | LongPart(fragment: Fragment, proper: bool) | Volume | Short(name: string, flags: bv8)

  function Consume(p: Pending, f: Fragment): Pending {
    var q := if f.order & 0x40 != 0 then Pending("", f.checksum, true) else p;
    if q.valid && q.checksum == f.checksum then q.(name := Prepend(Emitted(Units(f)), q.name)) else NOTHING
  }

  function After(p: Pending, s: Slot): Pending {
    match s
    case LongPart(f, proper) => if proper then Consume(p, f) else p
    case _ => NOTHING
  }

  function AfterAll(p: Pending, slots: seq<Slot>): Pending {
    if slots == [] then p else After(AfterAll(p, slots[..|slots| - 1]), slots[|slots| - 1])
  }

  lemma {:induction false} AfterAllAppend(p: Pending, a: seq<Slot>, b: seq<Slot>)
    ensures AfterAll(p, a + b) == AfterAll(AfterAll(p, a), b)
  {
    if b == [] {
      assert a + b == a;
    } else {
      var n := |b| - 1;
      assert (a + b)[..|a + b| - 1] == a + b[..n];
      AfterAllAppend(p, a, b[..n]);
    }
  }

  predicate LongMatches(p: Pending, s: Slot) { s.Short? && p.valid && p.name != "" && Checksum(s.name, 0) == p.checksum }

  predicate ValidSlot(s: Slot) {
    && (s.Short? ==> |s.name| == 11)
    && (s.LongPart? ==> |s.fragment.name1| == 5 && |s.fragment.name2| == 6 && |s.fragment.name3| == 2)
  }

  /** What a slot does to the long name gathered: a first part starts a name, a further one with
      the same checksum goes in front, and anything else loses it. A long part with wrong
      marks is passed over. */
  lemma AfterIs(p: Pending, s: Slot)
    requires ValidSlot(s)
    ensures !s.LongPart? ==> After(p, s) == Pending("", 0, false)
    ensures s.LongPart? && !s.proper ==> After(p, s) == p
    ensures s.LongPart? && s.proper ==>
      var f := s.fragment;
      var text := Emitted(f.name1 + f.name2 + f.name3);
      After(p, s) ==
        if f.order & 0x40 != 0 then Pending(text, f.checksum, true)
        else if p.valid && p.checksum == f.checksum then p.(name := Prepend(text, p.name))
        else Pending("", 0, false)
  {
    hide Emitted;
    if s.LongPart? { assert Emitted(Units(s.fragment)) + "" == Emitted(Units(s.fragment)); }
  }

  /** The characters of a fragment, unit by unit. */
  lemma EmittedNext(u: nat, rest: seq<nat>)
    ensures Emitted([u] + rest) ==
      if u == 0 then "" else if u == 0xFFFF then Emitted(rest)
      else (if u < 128 then [u as char] else "?") + Emitted(rest)
  {
    assert ([u] + rest)[1..] == rest;
  }

  /** The comparison in findEntry. */
  predicate Matches(p: Pending, s: Slot, element: string)
    requires ValidSlot(s)
  {
    s.Short? && ((LongMatches(p, s) && Lowers(element) == Lowers(p.name)) || Lowers(element) == Lowers(Parse(s.name, 0)))
  }

  /** The name readDir shows. */
  function Shown(p: Pending, s: Slot): string
    requires s.Short? && ValidSlot(s)
  {
    if LongMatches(p, s) then p.name else Parse(s.name, s.flags)
  }

  lemma LowersParse(fat: string, flags: bv8)
    requires |fat| == 11
    ensures Lowers(Parse(fat, flags)) == Lowers(Parse(fat, 0))
  {
    hide Field, Lowers, Text;
    var b, e := fat[..8][..Field(fat[..8])], fat[8..][..Field(fat[8..])];
    var lb, le := flags & 0x08 != 0, flags & 0x10 != 0;
    LowersTwice(b, lb);
    LowersTwice(e, le);
    NoFlags();
    if fat[8] == ' ' {
      LowersAppend(LowerIf(lb, b), "");
      LowersAppend(b, "");
    } else {
      LowersAppend(LowerIf(lb, b), "." + LowerIf(le, e));
      LowersAppend(".", LowerIf(le, e));
      LowersAppend(b, "." + e);
      LowersAppend(".", e);
    }
    LowersText(Copied(fat, flags));
    LowersText(Copied(fat, 0));
  }

  lemma LowersCons(c: char, s: string)
    ensures Lowers([c] + s) == [Lower(c)] + Lowers(s) && Lowers("") == ""
  {}

  /** Lower case keeps zeros. */
  lemma {:induction false} LowersText(s: string)
    ensures Lowers(Text(s)) == Text(Lowers(s))
  {
    if s != "" {
      var l := Lowers(s);
      assert l[0] == Lower(s[0]) && l[1..] == Lowers(s[1..]);
      LowersText(s[1..]);
      LowersCons(s[0], Text(s[1..]));
    }
  }

  lemma NoFlags()
    ensures 0 as bv8 & 0x08 == 0 && 0 as bv8 & 0x10 == 0
  {}

  lemma LowersTwice(s: string, b: bool)
    ensures Lowers(LowerIf(b, s)) == Lowers(s)
  {}

  /** What a listing shows can be looked up: the name shown for an entry matches it. */
  lemma ShownMatches(p: Pending, s: Slot)
    requires s.Short? && ValidSlot(s)
    ensures Matches(p, s, Shown(p, s))
  {
    LowersParse(s.name, s.flags);
  }

  // ----- rebuilding a name -----

  predicate Ascii(name: string) { forall i :: 0 <= i < |name| ==> 0 < name[i] as nat <= 0x7F }

  function Codes(s: string): seq<nat> { seq(|s|, i requires 0 <= i < |s| => s[i] as nat) }

  /** The k-th piece of thirteen characters. */
  function Piece(name: string, k: nat): (s: string)
    requires 13 * k < |name|
    ensures 0 < |s| <= 13
  {
    if |name| - 13 * k > 13 then name[13 * k..13 * k + 13] else name[13 * k..]
  }

  /** Its units: terminated and padded if short. */
  function PieceUnits(s: string): (u: seq<nat>)
    requires |s| <= 13
    ensures |u| == 13
  {
    Codes(s) + if |s| == 13 then [] else [0] + seq(12 - |s|, _ => 0xFFFF)
  }

  function Pieces(name: string): nat { (|name| + 12) / 13 }

  function FragmentAt(name: string, checksum: nat, k: nat): (f: Fragment)
    requires 13 * k < |name| && k < 63
    ensures Whole(f)
  {
    var u := PieceUnits(Piece(name, k));
    Fragment((k + 1) as bv8 | (if k + 1 == Pieces(name) then 0x40 else 0), checksum, u[..5], u[5..11], u[11..])
  }

  /** The fragments k, k-1, ... 0, in the order they stand on disk. */
  function FragmentsFrom(name: string, checksum: nat, count: nat): seq<Slot>
    requires count <= Pieces(name) <= 20
  {
    if count == 0 then []
    else [LongPart(FragmentAt(name, checksum, count - 1), true)] + FragmentsFrom(name, checksum, count - 1)
  }

  lemma {:induction false} EmittedCodes(s: string, tail: seq<nat>)
    requires Ascii(s) && (tail == [] || tail[0] == 0)
    ensures Emitted(Codes(s) + tail) == s
  {
    if s == "" {
      assert Codes(s) + tail == tail;
    } else {
      assert (Codes(s) + tail)[1..] == Codes(s[1..]) + tail;
      EmittedCodes(s[1..], tail);
      assert (Codes(s) + tail)[0] as char == s[0];
      assert [s[0]] + s[1..] == s;
    }
  }

  lemma FragmentEmits(name: string, checksum: nat, k: nat)
    requires Ascii(name) && 13 * k < |name| && k < 63
    ensures Emitted(Units(FragmentAt(name, checksum, k))) == Piece(name, k)
  {
    hide Emitted;
    var s := Piece(name, k);
    var u := PieceUnits(s);
    assert Units(FragmentAt(name, checksum, k)) == u;
    EmittedCodes(s, if |s| == 13 then [] else [0] + seq(12 - |s|, _ => 0xFFFF));
  }

  lemma OrderBits(k: nat)
    requires k < 63
    ensures ((k + 1) as bv8 | 0x40) & 0x40 != 0 && ((k + 1) as bv8 | 0) & 0x40 == 0
  {
    var b := (k + 1) as bv8;
    SmallBits(b);
  }

  lemma SmallBits(b: bv8)
    requires b <= 63
    ensures (b | 0x40) & 0x40 != 0 && (b | 0) & 0x40 == 0
  {}

  lemma PieceJoins(name: string, k: nat)
    requires 13 * k < |name|
    ensures 13 * (k + 1) < |name| ==> Piece(name, k) + name[13 * (k + 1)..] == name[13 * k..]
    ensures 13 * (k + 1) >= |name| ==> Piece(name, k) == name[13 * k..] && k + 1 == Pieces(name)
    ensures k + 1 == Pieces(name) <==> 13 * (k + 1) >= |name|
  {}

  /** With the pieces behind `count` gathered, feeding the others completes the name. */
  lemma {:induction false} FeedRest(name: string, checksum: nat, count: nat, p: Pending)
    requires Ascii(name) && |name| <= NAME_MAX && count < Pieces(name)
    requires p == Pending(name[13 * count..], checksum, true)
    ensures AfterAll(p, FragmentsFrom(name, checksum, count)) == Pending(name, checksum, true)
  {
    hide Emitted, Units;
    if count == 0 {
      assert name[0..] == name;
    } else {
      var k := count - 1;
      var f := FragmentAt(name, checksum, k);
      FragmentEmits(name, checksum, k);
      OrderBits(k);
      PieceJoins(name, k);
      var q := Pending(name[13 * k..], checksum, true);
      assert After(p, LongPart(f, true)) == q;
      FeedRest(name, checksum, k, q);
      FeedFirst(p, LongPart(f, true), FragmentsFrom(name, checksum, k));
    }
  }

  lemma FeedFirst(p: Pending, s: Slot, rest: seq<Slot>)
    ensures AfterAll(p, [s] + rest) == AfterAll(After(p, s), rest)
  {
    AfterAllAppend(p, [s], rest);
    assert [s][..0] == [];
    assert AfterAll(p, [s]) == After(AfterAll(p, []), s);
  }

  /** The fragments of an ASCII name of at most 255 characters, in on-disk order, rebuild
      exactly that name, whatever was pending before. */
  lemma Rebuild(name: string, checksum: nat, p: Pending)
    requires Ascii(name) && 0 < |name| <= NAME_MAX
    ensures AfterAll(p, FragmentsFrom(name, checksum, Pieces(name))) == Pending(name, checksum, true)
  {
    hide Emitted, Units;
    var k := Pieces(name) - 1;
    var f := FragmentAt(name, checksum, k);
    FragmentEmits(name, checksum, k);
    OrderBits(k);
    PieceJoins(name, k);
    var q := Pending(name[13 * k..], checksum, true);
    assert q.name + "" == q.name;
    assert After(p, LongPart(f, true)) == q;
    FeedRest(name, checksum, k, q);
    FeedFirst(p, LongPart(f, true), FragmentsFrom(name, checksum, k));
  }

  /** So an entry stored with a long name is found by that name in any case, and besides
      only by its short name. */
  lemma FoundByLongName(before: seq<Slot>, name: string, s: Slot, element: string)
    requires Ascii(name) && 0 < |name| <= NAME_MAX && s.Short? && ValidSlot(s)
    ensures var p := AfterAll(NOTHING, before + FragmentsFrom(name, Checksum(s.name, 0), Pieces(name)));
      && (Matches(p, s, element) <==> Lowers(element) == Lowers(name) || Lowers(element) == Lowers(Parse(s.name, 0)))
      && Shown(p, s) == name
  {
    hide Parse, Lowers;
    var frags := FragmentsFrom(name, Checksum(s.name, 0), Pieces(name));
    AfterAllAppend(NOTHING, before, frags);
    Rebuild(name, Checksum(s.name, 0), AfterAll(NOTHING, before));
  }
}
