/** Short directory names: eight characters, three more, and two case flags. */
module Names {
  import opened CStrings

  predicate IsLower(c: char) { 'a' <= c <= 'z' }
  predicate IsUpper(c: char) { 'A' <= c <= 'Z' }

  function Upper(c: char): char { if IsLower(c) then c - 32 as char else c }
  function Lower(c: char): char { if IsUpper(c) then c + 32 as char else c }

  /** Case by code points: 26 letters from 65 on, and their lower-case forms 32 further. */
  lemma LettersAre(c: char)
    ensures IsUpper(c) <==> 65 <= c as int < 91
    ensures IsLower(c) <==> 97 <= c as int < 123
    ensures Upper(c) as int == c as int - if 97 <= c as int < 123 then 32 else 0
    ensures Lower(c) as int == c as int + if 65 <= c as int < 91 then 32 else 0
  {}

  function Uppers(s: string): (r: string)
    ensures |r| == |s| && forall i :: 0 <= i < |s| ==> r[i] == Upper(s[i])
  {
    seq(|s|, i requires 0 <= i < |s| => Upper(s[i]))
  }

  function Lowers(s: string): (r: string)
    ensures |r| == |s| && forall i :: 0 <= i < |s| ==> r[i] == Lower(s[i])
  {
    seq(|s|, i requires 0 <= i < |s| => Lower(s[i]))
  }

  // ----- what the code computes -----

  /** Characters before the first dot. */
  function Stem(name: string): (n: nat)
    ensures n <= |name| && '.' !in name[..n] && (n < |name| ==> name[n] == '.')
  {
    if name == [] || name[0] == '.' then 0 else 1 + Stem(name[1..])
  }

  function BaseOf(name: string): string { Cut(name[..Stem(name)], 8) }

  function ExtensionOf(name: string): string {
    if Stem(name) < |name| then Cut(name[Stem(name) + 1..], 3) else ""
  }

  function Padded(s: string, n: nat): (r: string)
    requires |s| <= n
    ensures |r| == n
  {
    s + seq(n - |s|, _ => ' ')
  }

  /** formatName */
  function Format(name: string): (fat: string)
    ensures |fat| == 11
  {
    Padded(Uppers(BaseOf(name)), 8) + Padded(Uppers(ExtensionOf(name)), 3)
  }

  predicate HasLower(s: string) { exists i :: 0 <= i < |s| && IsLower(s[i]) }
  predicate HasUpper(s: string) { exists i :: 0 <= i < |s| && IsUpper(s[i]) }

  /** computeNtCaseFlagsForSfnDisplay */
  function CaseFlags(name: string): bv8 {
    (if HasLower(BaseOf(name)) && !HasUpper(BaseOf(name)) then 0x08 else 0)
    | (if HasLower(ExtensionOf(name)) && !HasUpper(ExtensionOf(name)) then 0x10 else 0)
  }

  /** Characters before the padding. */
  function Field(s: string): (n: nat)
    ensures n <= |s| && ' ' !in s[..n] && (n < |s| ==> s[n] == ' ')
  {
    if s == [] || s[0] == ' ' then 0 else 1 + Field(s[1..])
  }

  function LowerIf(b: bool, s: string): string { if b then Lowers(s) else s }

  /** parseName: what it writes before its terminator, and the string that this is. */
  function Parse(fat: string, flags: bv8): string
    requires |fat| == 11
  {
    Text(Copied(fat, flags))
  }

  function Copied(fat: string, flags: bv8): string
    requires |fat| == 11
  {
    LowerIf(flags & 0x08 != 0, fat[..8][..Field(fat[..8])])
    + if fat[8] == ' ' then "" else "." + LowerIf(flags & 0x10 != 0, fat[8..][..Field(fat[8..])])
  }

  // ----- valid names -----

  predicate NameChars(s: string) { forall i :: 0 <= i < |s| ==> s[i] != ' ' && s[i] != '.' && s[i] != '\0' }

  /** A base of one to eight characters and an extension of at most three. */
  predicate ValidShort(base: string, ext: string) {
    0 < |base| <= 8 && |ext| <= 3 && NameChars(base) && NameChars(ext)
  }

  function Name(base: string, ext: string): string { base + if ext == "" then "" else "." + ext }

  predicate Uniform(s: string) { !(HasLower(s) && HasUpper(s)) }

  lemma {:induction false} StemIs(base: string, tail: string)
    requires '.' !in base && (tail == "" || tail[0] == '.')
    ensures Stem(base + tail) == |base|
  {
    if base == "" {
      assert base + tail == tail;
    } else {
      assert (base + tail)[1..] == base[1..] + tail;
      StemIs(base[1..], tail);
    }
  }

  lemma {:induction false} FieldIs(s: string, tail: string)
    requires ' ' !in s && (tail == "" || tail[0] == ' ')
    ensures Field(s + tail) == |s|
  {
    if s == "" {
      assert s + tail == tail;
    } else {
      assert (s + tail)[1..] == s[1..] + tail;
      FieldIs(s[1..], tail);
    }
  }

  lemma PartsAre(base: string, ext: string)
    requires ValidShort(base, ext)
    ensures BaseOf(Name(base, ext)) == base && ExtensionOf(Name(base, ext)) == ext
  {
    var tail := if ext == "" then "" else "." + ext;
    StemIs(base, tail);
    assert (base + tail)[..|base|] == base;
    if ext != "" { assert (base + tail)[|base| + 1..] == ext; }
  }

  lemma UpperKeeps(s: string)
    requires NameChars(s)
    ensures ' ' !in Uppers(s)
  {
    forall i | 0 <= i < |s| ensures Uppers(s)[i] != ' ' {
      assert Uppers(s)[i] == Upper(s[i]);
    }
  }

  lemma FieldOf(s: string, n: nat)
    requires |s| <= n && ' ' !in s
    ensures Padded(s, n)[..Field(Padded(s, n))] == s
  {
    FieldIs(s, seq(n - |s|, _ => ' '));
  }

  /** The name read back from its formatted form is its upper case, or lower where a flag
      says so. */
  lemma ParseFormat(base: string, ext: string, flags: bv8)
    requires ValidShort(base, ext)
    ensures Parse(Format(Name(base, ext)), flags)
         == Name(LowerIf(flags & 0x08 != 0, Uppers(base)), LowerIf(flags & 0x10 != 0, Uppers(ext)))
  {
    hide Stem, Field;
    PartsAre(base, ext);
    UpperKeeps(base);
    UpperKeeps(ext);
    FieldOf(Uppers(base), 8);
    FieldOf(Uppers(ext), 3);
    var fat := Format(Name(base, ext));
    assert fat[..8] == Padded(Uppers(base), 8) && fat[8..] == Padded(Uppers(ext), 3);
    assert fat[8] == fat[8..][0];
    if ext != "" { assert fat[8] == Uppers(ext)[0] && Uppers(ext)[0] in Uppers(ext); }
    LowerIfValid(flags & 0x08 != 0, base);
    LowerIfValid(flags & 0x10 != 0, ext);
    TextWhole(Name(LowerIf(flags & 0x08 != 0, Uppers(base)), LowerIf(flags & 0x10 != 0, Uppers(ext))));
  }

  // ----- names that collide -----

  /** Without the spaces at the end. */
  function Trim(s: string): (r: string)
    ensures |r| <= |s| && r == s[..|r|]
  {
    if s != "" && s[|s| - 1] == ' ' then Trim(s[..|s| - 1]) else s
  }

  lemma {:induction false} TrimPadded(s: string, n: nat)
    requires |s| <= n
    ensures Trim(Padded(s, n)) == Trim(s)
    decreases n - |s|
  {
    if |s| < n {
      assert Padded(s, n) == Padded(s + " ", n);
      TrimPadded(s + " ", n);
      assert (s + " ")[..|s|] == s;
    } else {
      assert Padded(s, n) == s;
    }
  }

  lemma {:induction false} TrimSpaces(s: string)
    ensures s == Padded(Trim(s), |s|)
  {
    if s != "" && s[|s| - 1] == ' ' {
      TrimSpaces(s[..|s| - 1]);
      assert s == s[..|s| - 1] + " ";
      assert Padded(Trim(s), |s|) == Padded(Trim(s), |s| - 1) + " ";
    }
  }

  /** Two names get the same short form exactly when the first eight characters of their
      bases and the first three of their extensions differ in case and padding only. */
  lemma FormatCollides(a: string, b: string)
    ensures Format(a) == Format(b) <==>
      Trim(Uppers(BaseOf(a))) == Trim(Uppers(BaseOf(b))) && Trim(Uppers(ExtensionOf(a))) == Trim(Uppers(ExtensionOf(b)))
  {
    hide BaseOf, ExtensionOf, Uppers, Padded;
    PartSizes(a);
    PartSizes(b);
    Collide(Uppers(BaseOf(a)), Uppers(BaseOf(b)), 8);
    Collide(Uppers(ExtensionOf(a)), Uppers(ExtensionOf(b)), 3);
    assert Format(a)[..8] == Padded(Uppers(BaseOf(a)), 8) && Format(a)[8..] == Padded(Uppers(ExtensionOf(a)), 3);
    assert Format(b)[..8] == Padded(Uppers(BaseOf(b)), 8) && Format(b)[8..] == Padded(Uppers(ExtensionOf(b)), 3);
  }

  lemma PartSizes(name: string)
    ensures |Uppers(BaseOf(name))| <= 8 && |Uppers(ExtensionOf(name))| <= 3
  {}

  lemma Collide(s: string, t: string, n: nat)
    requires |s| <= n && |t| <= n
    ensures Padded(s, n) == Padded(t, n) <==> Trim(s) == Trim(t)
  {
    TrimPadded(s, n);
    TrimPadded(t, n);
    TrimSpaces(Padded(s, n));
    TrimSpaces(Padded(t, n));
  }

  lemma CaseIs(s: string)
    ensures Lowers(Uppers(s)) == s <==> !HasUpper(s)
    ensures Uppers(s) == s <==> !HasLower(s)
    ensures Uniform(s) <==> LowerIf(HasLower(s) && !HasUpper(s), Uppers(s)) == s
  {
    if HasUpper(s) {
      var i :| 0 <= i < |s| && IsUpper(s[i]);
      assert Lowers(Uppers(s))[i] != s[i];
    }
    if HasLower(s) {
      var i :| 0 <= i < |s| && IsLower(s[i]);
      assert Uppers(s)[i] != s[i];
    }
  }

  lemma NameInjective(base: string, ext: string, base2: string, ext2: string)
    requires ValidShort(base, ext) && ValidShort(base2, ext2)
    ensures Name(base, ext) == Name(base2, ext2) <==> base == base2 && ext == ext2
  {
    PartsAre(base, ext);
    PartsAre(base2, ext2);
  }

  lemma LowerIfValid(b: bool, s: string)
    requires NameChars(s)
    ensures NameChars(LowerIf(b, Uppers(s)))
  {
    var u := Uppers(s);
    forall i | 0 <= i < |s| ensures u[i] != ' ' && u[i] != '.' && u[i] != '\0' { assert u[i] == Upper(s[i]); }
    if b {
      var l := Lowers(u);
      forall i | 0 <= i < |s| ensures l[i] != ' ' && l[i] != '.' && l[i] != '\0' { assert l[i] == Lower(u[i]); }
    }
  }

  /** A valid name is read back as it was written exactly when its base is of one case and
      its extension is. */
  lemma NameRoundTrip(base: string, ext: string)
    requires ValidShort(base, ext)
    ensures var name := Name(base, ext);
      Parse(Format(name), CaseFlags(name)) == name <==> Uniform(base) && Uniform(ext)
  {
    var name := Name(base, ext);
    PartsAre(base, ext);
    ParseFormat(base, ext, CaseFlags(name));
    var lb, le := HasLower(base) && !HasUpper(base), HasLower(ext) && !HasUpper(ext);
    var b: bv8, e: bv8 := if lb then 0x08 else 0, if le then 0x10 else 0;
    assert CaseFlags(name) == b | e;
    FlagBits(lb, le);
    CaseIs(base);
    CaseIs(ext);
    LowerIfValid(lb, base);
    LowerIfValid(le, ext);
    NameInjective(LowerIf(lb, Uppers(base)), LowerIf(le, Uppers(ext)), base, ext);
  }

  lemma FlagBits(lb: bool, le: bool)
    ensures var flags := (if lb then 0x08 as bv8 else 0) | (if le then 0x10 else 0);
      (flags & 0x08 != 0 <==> lb) && (flags & 0x10 != 0 <==> le)
  {}

  lemma LowersUppers(s: string)
    ensures Lowers(Uppers(s)) == Lowers(s)
  {
    forall i | 0 <= i < |s| ensures Lowers(Uppers(s))[i] == Lowers(s)[i] {
      assert Uppers(s)[i] == Upper(s[i]);
    }
  }

  lemma LowersName(base: string, ext: string)
    ensures Lowers(Name(base, ext)) == Name(Lowers(base), Lowers(ext))
  {
    hide Lowers;
    if ext == "" {
      assert base + "" == base;
      assert Lowers(base) + "" == Lowers(base);
    } else {
      LowersAppend(base, "." + ext);
      LowersAppend(".", ext);
      LowersDot();
    }
  }

  lemma LowersAppend(a: string, b: string)
    ensures Lowers(a + b) == Lowers(a) + Lowers(b)
  {}

  lemma LowersDot()
    ensures Lowers(".") == "." && Lowers("") == ""
  {}

  /** Looking a name up finds the entry of every valid name that differs in case only, and
      of no other. */
  lemma NameMatches(asked: string, base: string, ext: string)
    requires ValidShort(base, ext)
    ensures Lowers(asked) == Lowers(Parse(Format(Name(base, ext)), 0)) <==> Lowers(asked) == Lowers(Name(base, ext))
  {
    ParseFormat(base, ext, 0);
    LowersName(base, ext);
    LowersName(Uppers(base), Uppers(ext));
    LowersUppers(base);
    LowersUppers(ext);
    assert 0 as bv8 & 0x08 == 0 && 0 as bv8 & 0x10 == 0;
  }

  // ----- the code -----

  /** Where the extension starts. */
  function ExtensionStart(name: string): (i: nat)
    ensures i <= |name|
  {
    if Stem(name) < |name| then Stem(name) + 1 else Stem(name)
  }

  method SkipToExtension(name: string, from: nat) returns (i: nat)
    requires from <= Stem(name)
    ensures i == ExtensionStart(name)
  {
    hide Stem;
    i := from;
    while i < |name| && name[i] != '.'
      invariant i <= Stem(name)
      decreases |name| - i
    {
      StemAt(name, i);
      i := i + 1;
    }
    StemAt(name, i);
    if i < |name| { i := i + 1; }
  }

  method FormatBase(name: string, fatName: array<char>) returns (i: nat)
    requires fatName.Length == 11 && forall k :: 0 <= k < 11 ==> fatName[k] == ' '
    modifies fatName
    ensures i <= Stem(name) && fatName[..] == Padded(Uppers(BaseOf(name)), 11)
  {
    hide Stem;
    i := 0;
    while i < |name| && name[i] != '.' && i < 8
      invariant 0 <= i <= 8 && i <= Stem(name)
      invariant fatName[..i] == Uppers(name[..i]) && forall k :: i <= k < 11 ==> fatName[k] == ' '
      decreases 8 - i
    {
      StemAt(name, i);
      fatName[i] := Upper(name[i]);
      i := i + 1;
    }
    StemEnd(name, i);
  }

  method FormatExtension(name: string, fatName: array<char>, i: nat)
    requires fatName.Length == 11 && i == ExtensionStart(name)
    requires forall k :: 8 <= k < 11 ==> fatName[k] == ' '
    modifies fatName
    ensures fatName[..8] == old(fatName[..8]) && fatName[8..] == Padded(Uppers(ExtensionOf(name)), 3)
  {
    hide Stem;
    var j := 8;
    while i + (j - 8) < |name| && j < 11
      invariant 8 <= j <= 11 && i + (j - 8) <= |name| && fatName[..8] == old(fatName[..8])
      invariant fatName[8..j] == Uppers(name[i..i + (j - 8)]) && forall k :: j <= k < 11 ==> fatName[k] == ' '
    {
      fatName[j] := Upper(name[i + (j - 8)]);
      assert name[i..i + (j - 8) + 1] == name[i..i + (j - 8)] + [name[i + (j - 8)]];
      j := j + 1;
    }
    assert ExtensionOf(name) == name[i..i + (j - 8)];
  }

  /** FAT32::formatName */
  method FormatName(name: string, fatName: array<char>)
    requires fatName.Length == 11
    modifies fatName
    ensures fatName[..] == Format(name)
  {
    hide Stem, Uppers;
    Blank(fatName);
    var i := FormatBase(name, fatName);
    PaddedFront(Uppers(BaseOf(name)));
    assert fatName[..][8..] == fatName[8..];
    i := SkipToExtension(name, i);
    FormatExtension(name, fatName, i);
    assert fatName[..] == fatName[..8] + fatName[8..];
  }

  lemma PaddedFront(s: string)
    requires |s| <= 8
    ensures Padded(s, 11)[..8] == Padded(s, 8) && forall k :: 8 <= k < 11 ==> Padded(s, 11)[k] == ' '
  {}

  lemma StemAt(name: string, i: nat)
    requires i <= Stem(name)
    ensures i < |name| && name[i] != '.' ==> i < Stem(name)
    ensures (i >= |name| || name[i] == '.') ==> i == Stem(name)
  {
    if i < Stem(name) { assert name[..Stem(name)][i] == name[i] && name[i] in name[..Stem(name)]; }
  }

  lemma StemEnd(name: string, i: nat)
    requires i <= Stem(name) && i <= 8 && (i == 8 || i == |name| || name[i] == '.')
    ensures i == |BaseOf(name)| && BaseOf(name) == name[..i]
  {
    hide Stem;
    StemAt(name, i);
    assert name[..Stem(name)][..i] == name[..i];
  }

  method Blank(fatName: array<char>)
    modifies fatName
    ensures forall k :: 0 <= k < fatName.Length ==> fatName[k] == ' '
  {
    forall k | 0 <= k < fatName.Length {
      fatName[k] := ' ';
    }
  }

  function ExtensionPart(fat: string, flags: bv8): string
    requires |fat| == 11
  {
    if fat[8] == ' ' then "" else "." + LowerIf(flags & 0x10 != 0, fat[8..][..Field(fat[8..])])
  }

  method CopyExtension(fat: string, flags: bv8, out: array<char>, at: nat) returns (j: nat)
    requires |fat| == 11 && at + 4 <= out.Length
    modifies out
    ensures j == at + |ExtensionPart(fat, flags)| <= at + 4 && out[..j] == old(out[..at]) + ExtensionPart(fat, flags)
  {
    hide Field, LowerIf;
    j := at;
    if fat[8] != ' ' {
      out[j] := '.';
      ghost var before := out[..at];
      assert out[..at + 1] == before + ".";
      j := CopyField(fat[8..], flags & 0x10 != 0, out, at + 1);
    }
  }

  /** FAT32::parseName, with the case flags of the entry. */
  method ParseName(fat: string, flags: bv8, out: array<char>)
    requires |fat| == 11 && out.Length >= 13
    modifies out
    ensures CStrings.Text(out[..]) == Parse(fat, flags)
  {
    hide Field, CStrings.Text, LowerIf, ExtensionPart;
    ParseParts(fat, flags);
    var j := CopyField(fat[..8], flags & 0x08 != 0, out, 0);
    assert out[..0] == [];
    j := CopyExtension(fat, flags, out, j);
    assert out[..j] == Copied(fat, flags);
    out[j] := '\0';
    TextFront(out[..], Copied(fat, flags));
  }

  lemma ParseParts(fat: string, flags: bv8)
    requires |fat| == 11
    ensures Copied(fat, flags) == LowerIf(flags & 0x08 != 0, fat[..8][..Field(fat[..8])]) + ExtensionPart(fat, flags)
  {}

  method CopyField(s: string, lower: bool, out: array<char>, at: nat) returns (j: nat)
    requires at + |s| <= out.Length
    modifies out
    ensures var f := LowerIf(lower, s[..Field(s)]); j == at + |f| <= at + |s| && out[..j] == old(out[..at]) + f
  {
    hide Field;
    var i := 0;
    while i < |s| && s[i] != ' '
      invariant 0 <= i <= Field(s) && out[..at + i] == old(out[..at]) + LowerIf(lower, s[..i])
      decreases |s| - i
    {
      FieldAt(s, i);
      var c := s[i];
      if lower && IsUpper(c) { c := c + 32 as char; }
      out[at + i] := c;
      assert s[..i + 1] == s[..i] + [s[i]];
      assert LowerIf(lower, s[..i + 1]) == LowerIf(lower, s[..i]) + [c];
      i := i + 1;
    }
    FieldAt(s, i);
    j := at + i;
  }

  lemma FieldAt(s: string, i: nat)
    requires i <= Field(s)
    ensures i < |s| && s[i] != ' ' ==> i < Field(s)
    ensures (i >= |s| || s[i] == ' ') ==> i == Field(s)
  {
    if i < Field(s) { assert s[..Field(s)][i] == s[i] && s[i] in s[..Field(s)]; }
  }

  /** equalsIgnoreCase */
  method EqualsIgnoreCase(a: string, b: string) returns (eq: bool)
    ensures eq == (Lowers(a) == Lowers(b))
  {
    var i := 0;
    while i < |a| && i < |b|
      invariant 0 <= i <= |a| && i <= |b|
      invariant forall k :: 0 <= k < i ==> Lower(a[k]) == Lower(b[k])
    {
      if Lower(a[i]) != Lower(b[i]) {
        assert Lowers(a)[i] != Lowers(b)[i] || |a| != |b|;
        return false;
      }
      i := i + 1;
    }
    eq := i == |a| && i == |b|;
    if !eq { assert |Lowers(a)| != |Lowers(b)|; }
  }

  /** computeNtCaseFlagsForSfnDisplay, part by part. */
  method FlagsOf(name: string) returns (flags: bv8)
    ensures flags == CaseFlags(name)
  {
    hide Stem;
    var lower, upper, i := false, false, 0;
    while i < |name| && name[i] != '.' && i < 8
      invariant 0 <= i <= 8 && i <= Stem(name)
      invariant lower == HasLower(name[..i]) && upper == HasUpper(name[..i])
      decreases 8 - i
    {
      StemAt(name, i);
      CaseNext(name, 0, i);
      if IsLower(name[i]) { lower := true; } else if IsUpper(name[i]) { upper := true; }
      i := i + 1;
    }
    StemEnd(name, i);
    flags := if lower && !upper then 0x08 else 0;
    var ext := SkipToExtension(name, i);
    i := ext;
    lower, upper := false, false;
    while i < |name| && i - ext < 3
      invariant ext <= i <= |name| && i - ext <= 3
      invariant lower == HasLower(name[ext..i]) && upper == HasUpper(name[ext..i])
    {
      CaseNext(name, ext, i);
      if IsLower(name[i]) { lower := true; } else if IsUpper(name[i]) { upper := true; }
      i := i + 1;
    }
    assert name[ext..][..i - ext] == name[ext..i];
    assert ExtensionOf(name) == name[ext..i];
    if lower && !upper { flags := flags | 0x10; }
    OrZero(flags);
  }

  lemma OrZero(flags: bv8)
    ensures flags | 0 == flags
  {}

  lemma CaseNext(name: string, from: nat, i: nat)
    requires from <= i < |name|
    ensures HasLower(name[from..i + 1]) == (HasLower(name[from..i]) || IsLower(name[i]))
    ensures HasUpper(name[from..i + 1]) == (HasUpper(name[from..i]) || IsUpper(name[i]))
  {
    assert name[from..i + 1] == name[from..i] + [name[i]];
    var s, t := name[from..i], name[from..i + 1];
    forall k | 0 <= k < |s| ensures t[k] == s[k] {}
    assert t[|s|] == name[i];
    if HasLower(s) { var k :| 0 <= k < |s| && IsLower(s[k]); assert IsLower(t[k]); }
    if HasUpper(s) { var k :| 0 <= k < |s| && IsUpper(s[k]); assert IsUpper(t[k]); }
  }
}
