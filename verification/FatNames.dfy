/** 8.3 names: the 11-byte directory form of a file name, and the name shown for a directory entry. */
module FatNames {
  import opened Bytes
  import opened FatVolume

  const SPACE := 32
  const DOT := 46

  /** C strings are their bytes up to, not including, the terminating NUL. */
  predicate IsCString(s: seq<byte>) {
    0 !in s
  }

  function Upper(c: byte): byte {
    if 97 <= c <= 122 then c - 32 else c
  }

  /** The comparison used for names: stops at a NUL byte both sides share. */
  function Strncmp(a: seq<byte>, b: seq<byte>, n: nat): int
    requires n <= |a| && n <= |b|
    decreases n
  {
    if n == 0 then 0
    else if a[0] != 0 && a[0] == b[0] then Strncmp(a[1..], b[1..], n - 1)
    else (a[0] as int) - (b[0] as int)
  }

  /** Against a NUL-free name the comparison decides equality of all `n` bytes. */
  lemma {:induction false} StrncmpDecidesEquality(a: seq<byte>, b: seq<byte>, n: nat)
    requires n <= |a| && n <= |b| && 0 !in b[..n]
    ensures Strncmp(a, b, n) == 0 <==> a[..n] == b[..n]
    decreases n
  {
    if n > 0 {
      assert b[0] == b[..n][0];
      assert b[1..][..n - 1] == b[..n][1..];
      StrncmpDecidesEquality(a[1..], b[1..], n - 1);
      assert a[..n] == [a[0]] + a[1..][..n - 1];
      assert b[..n] == [b[0]] + b[1..][..n - 1];
    }
  }

  /** Index of the first dot, or the length. */
  function DotAt(s: seq<byte>): (d: nat)
    ensures d <= |s| && DOT !in s[..d] && (d < |s| ==> s[d] == DOT)
  {
    if s == [] || s[0] == DOT then 0
    else
      var d := 1 + DotAt(s[1..]);
      assert s[..d] == [s[0]] + s[1..][..d - 1];
      d
  }

  /** The first `n` bytes of `s` in upper case, filled up with spaces. */
  function Field(s: seq<byte>, n: nat): (r: seq<byte>)
    ensures |r| == n
  {
    seq(n, i requires 0 <= i < n => if i < |s| then Upper(s[i]) else SPACE)
  }

  function FatNameOf(filename: seq<byte>): (r: FatName)
  {
    var d := DotAt(filename);
    Field(filename[..d], 8) + Field(if d < |filename| then filename[d + 1..] else [], 3)
  }

  lemma FatNameHasNoNul(filename: seq<byte>)
    requires IsCString(filename)
    ensures 0 !in FatNameOf(filename)
  {
  }

  // ---------- the 11 bytes in numbers ----------

  /** Position `d` is the first dot of the name, or its end. */
  ghost predicate FirstDot(filename: seq<byte>, d: nat) {
    d <= |filename| && 46 !in filename[..d] && (d < |filename| ==> filename[d] == 46)
  }

  /** Byte `k` of the part of `s` from `from` to `stop`, which is followed by blanks. */
  function PartByte(s: seq<byte>, from: nat, stop: nat, k: nat): byte
    requires stop <= |s|
  {
    if from + k < stop then s[from + k] else 32
  }

  /** The code of a letter, as it is or, from 97 to 122, less 32. */
  ghost predicate Raised(c: byte, r: byte) {
    r == if 97 <= c <= 122 then c - 32 else c
  }

  /** A field of the name: the part with small letters raised, filled up with blanks. */
  ghost predicate PartStored(s: seq<byte>, from: nat, stop: nat, field: seq<byte>)
    requires stop <= |s|
  {
    forall k :: 0 <= k < |field| ==> Raised(PartByte(s, from, stop, k), field[k])
  }

  /** Eight bytes for what stands before the first dot and three for what stands behind it. */
  ghost predicate ShortName(filename: seq<byte>, d: nat, name: seq<byte>) {
    && |name| == 11 && FirstDot(filename, d)
    && PartStored(filename, 0, d, name[..8]) && PartStored(filename, d + 1, |filename|, name[8..])
  }

  lemma FatNameInBytes(filename: seq<byte>)
    ensures ShortName(filename, DotAt(filename), FatNameOf(filename))
  {
    var d, name := DotAt(filename), FatNameOf(filename);
    FieldInBytes(filename, 0, d, 8);
    assert name[..8] == Field(filename[..d], 8);
    if d < |filename| {
      FieldInBytes(filename, d + 1, |filename|, 3);
    }
  }

  lemma FieldInBytes(s: seq<byte>, from: nat, stop: nat, n: nat)
    requires from <= stop <= |s|
    ensures PartStored(s, from, stop, Field(s[from..stop], n))
  {
  }

  lemma DotNotBefore(s: seq<byte>, d: nat, e: nat)
    requires d < |s| && e <= |s| && s[d] == 46
    ensures e <= d || 46 in s[..e]
  {
    if d < e {
      assert s[..e][d] == 46;
    }
  }

  lemma FirstDotIs(s: seq<byte>, d: nat)
    requires FirstDot(s, d)
    ensures d == DotAt(s)
  {
    hide DotAt;
    var e := DotAt(s);
    if d < |s| {
      DotNotBefore(s, d, e);
    }
    if e < |s| {
      DotNotBefore(s, e, d);
    }
  }

  /** The same byte, or the small and the capital form of one letter. */
  ghost predicate SameLetter(x: byte, y: byte) {
    x == y || (97 <= x <= 122 && y == x - 32) || (97 <= y <= 122 && x == y - 32)
  }

  lemma RaisedAlike(x: byte, y: byte, r: byte, s: byte)
    requires Raised(x, r) && Raised(y, s)
    ensures r == s <==> SameLetter(x, y)
  {
  }

  /** The first `n` bytes of two parts, filled up with blanks, differ in case only. */
  ghost predicate PartsAlike(a: seq<byte>, fromA: nat, stopA: nat, b: seq<byte>, fromB: nat, stopB: nat, n: nat)
    requires stopA <= |a| && stopB <= |b|
  {
    forall k: nat :: k < n ==> SameLetter(PartByte(a, fromA, stopA, k), PartByte(b, fromB, stopB, k))
  }

  lemma FieldsAlike(a: seq<byte>, fromA: nat, stopA: nat, b: seq<byte>, fromB: nat, stopB: nat,
                    m: seq<byte>, n: seq<byte>)
    requires stopA <= |a| && stopB <= |b| && |m| == |n|
    requires PartStored(a, fromA, stopA, m) && PartStored(b, fromB, stopB, n)
    ensures m == n <==> PartsAlike(a, fromA, stopA, b, fromB, stopB, |m|)
  {
    hide SameLetter, Raised, PartByte;
    forall k | 0 <= k < |m|
      ensures m[k] == n[k] <==> SameLetter(PartByte(a, fromA, stopA, k), PartByte(b, fromB, stopB, k))
    {
      RaisedAlike(PartByte(a, fromA, stopA, k), PartByte(b, fromB, stopB, k), m[k], n[k]);
    }
  }

  /** Two names share their 8.3 form exactly when both parts, cut and filled up, differ in case only. */
  lemma SharedExactlyWhen(a: seq<byte>, da: nat, b: seq<byte>, db: nat)
    requires FirstDot(a, da) && FirstDot(b, db)
    ensures FatNameOf(a) == FatNameOf(b)
      <==> PartsAlike(a, 0, da, b, 0, db, 8) && PartsAlike(a, da + 1, |a|, b, db + 1, |b|, 3)
  {
    hide FatNameOf, PartsAlike, PartStored, DotAt;
    var m, n := FatNameOf(a), FatNameOf(b);
    FirstDotIs(a, da);
    FirstDotIs(b, db);
    FatNameInBytes(a);
    FatNameInBytes(b);
    FieldsAlike(a, 0, da, b, 0, db, m[..8], n[..8]);
    FieldsAlike(a, da + 1, |a|, b, db + 1, |b|, m[8..], n[8..]);
    assert m == m[..8] + m[8..] && n == n[..8] + n[8..];
  }

  /** Names that differ in case only are one file on the disk. */
  lemma CaseIgnored(a: seq<byte>, b: seq<byte>)
    requires |a| == |b| && forall i :: 0 <= i < |a| ==> SameLetter(a[i], b[i])
    ensures FatNameOf(a) == FatNameOf(b)
  {
    hide FatNameOf, DotAt;
    var d := DotAt(a);
    assert FirstDot(a, d);
    assert FirstDot(b, d) by {
      forall i | 0 <= i < d
        ensures b[..d][i] != 46
      {
        assert a[i] in a[..d];
        assert SameLetter(a[i], b[i]);
      }
    }
    SharedExactlyWhen(a, d, b, d);
  }

  lemma FieldsDone(filename: seq<byte>, d: nat, ext: seq<byte>, name: seq<byte>)
    requires |name| == 11 && d == DotAt(filename) && ext == if d < |filename| then filename[d + 1..] else []
    requires forall m :: 0 <= m < 8 ==> name[m] == if m < d then Upper(filename[m]) else SPACE
    requires forall m :: 8 <= m < 11 ==> name[m] == if m - 8 < |ext| then Upper(ext[m - 8]) else SPACE
    ensures name == FatNameOf(filename)
  {
    hide DotAt, Upper, Field;
    BaseIs(filename, d, name);
    ExtIs(ext, name);
    assert name == name[..8] + name[8..];
  }

  lemma BaseIs(filename: seq<byte>, d: nat, name: seq<byte>)
    requires |name| == 11 && d <= |filename|
    requires forall m :: 0 <= m < 8 ==> name[m] == if m < d then Upper(filename[m]) else SPACE
    ensures name[..8] == Field(filename[..d], 8)
  {
    hide Upper, Field;
    FieldIs(filename[..d], name[..8]);
  }

  lemma ExtIs(ext: seq<byte>, name: seq<byte>)
    requires |name| == 11
    requires forall m :: 8 <= m < 11 ==> name[m] == if m - 8 < |ext| then Upper(ext[m - 8]) else SPACE
    ensures name[8..] == Field(ext, 3)
  {
    hide Upper, Field;
    forall m | 0 <= m < 3
      ensures name[8..][m] == if m < |ext| then Upper(ext[m]) else SPACE
    {
      assert name[8..][m] == name[8 + m];
    }
    FieldIs(ext, name[8..]);
  }

  lemma FieldIs(s: seq<byte>, r: seq<byte>)
    requires forall m :: 0 <= m < |r| ==> r[m] == if m < |s| then Upper(s[m]) else SPACE
    ensures r == Field(s, |r|)
  {
    hide Upper;
  }

  /** to_fat_name: fills the 11 bytes in place. */
  method ToFatName(filename: seq<byte>, fatName: array<byte>) returns (ghost dot: nat)
    requires fatName.Length == 11
    modifies fatName
    ensures ShortName(filename, dot, fatName[..])
    ensures fatName[..] == FatNameOf(filename)
  {
    hide FatNameOf, Field, DotAt, Upper, ShortName;
    for k := 0 to 11
      invariant forall m :: 0 <= m < k ==> fatName[m] == SPACE
    {
      fatName[k] := SPACE;
    }
    ghost var d := DotAt(filename);
    var i, j := 0, 0;
    while i < |filename| && filename[i] != DOT && j < 8
      invariant 0 <= i == j <= 8 && i <= d
      invariant forall m :: 0 <= m < 11 ==> fatName[m] == if m < j then Upper(filename[m]) else SPACE
    {
      assert i < d;
      fatName[j] := Upper(filename[i]);
      i, j := i + 1, j + 1;
    }
    while i < |filename| && filename[i] != DOT
      invariant j <= i <= d && (i > j ==> j == 8)
    {
      assert i < d;
      i := i + 1;
    }
    assert i == d;
    ghost var ext := if d < |filename| then filename[d + 1..] else [];
    if i < |filename| && filename[i] == DOT {
      i := i + 1;
      j := 8;
      while i < |filename| && j < 11
        invariant 8 <= j <= 11 && i == d + 1 + (j - 8) <= |filename|
        invariant forall m :: 0 <= m < 8 ==> fatName[m] == if m < d then Upper(filename[m]) else SPACE
        invariant forall m :: 8 <= m < 11 ==> fatName[m] == if m < j then Upper(ext[m - 8]) else SPACE
      {
        assert ext[j - 8] == filename[i];
        fatName[j] := Upper(filename[i]);
        i, j := i + 1, j + 1;
      }
    }
    FieldsDone(filename, d, ext, fatName[..]);
    FatNameInBytes(filename);
    dot := d;
  }

  /** The local array of the callers, filled and read off. */
  method FatNameBuffer(filename: seq<byte>) returns (nm: FatName)
    requires IsCString(filename)
    ensures nm == FatNameOf(filename) && 0 !in nm
  {
    var fatName := new byte[11];
    ghost var dot := ToFatName(filename, fatName);
    FatNameHasNoNul(filename);
    nm := fatName[..];
  }

  // ---------- rendering a directory name ----------

  /** The bytes of `s` other than spaces. */
  function NonSpace(s: seq<byte>): (r: seq<byte>)
    ensures |r| <= |s| && SPACE !in r
    ensures forall b :: b in r ==> b in s
  {
    if s == [] then [] else NonSpace(s[..|s| - 1]) + if s[|s| - 1] == SPACE then [] else [s[|s| - 1]]
  }

  function Rendered(n: FatName): (r: seq<byte>)
    ensures |r| <= 12
  {
    NonSpace(n[..8]) + if n[8] == SPACE then [] else [DOT] + NonSpace(n[8..])
  }

  /** Spaces only fill a field up from the right. */
  ghost predicate Padded(s: seq<byte>) {
    forall i, j :: 0 <= i < j < |s| && s[i] == SPACE ==> s[j] == SPACE
  }

  ghost predicate NoLowerCase(s: seq<byte>) {
    forall i :: 0 <= i < |s| ==> !(97 <= s[i] <= 122)
  }

  /** Blanks only at the ends of both fields, no dot in the base name, upper case. */
  ghost predicate Restorable(n: FatName) {
    Padded(n[..8]) && Padded(n[8..]) && DOT !in n[..8] && NoLowerCase(n)
  }

  /** A restorable name without NUL or slash whose shown form is neither empty nor "..". */
  ghost predicate ValidName(n: FatName) {
    && Restorable(n) && n[0] != DELETED
    && (forall i :: 0 <= i < 11 ==> n[i] != 0 && n[i] != 47)
    && (n[0] == SPACE ==> n[8] != SPACE && (n[8] == DOT ==> n[9] != SPACE))
  }

  lemma NonSpaceNone()
    ensures NonSpace([]) == []
  {
  }

  lemma NonSpaceMore(s: seq<byte>, b: byte)
    ensures NonSpace(s + [b]) == if b == SPACE then NonSpace(s) else NonSpace(s) + [b]
  {
    assert (s + [b])[..|s|] == s;
  }

  /** What the copy loops do with any bytes: each is copied, in order, unless it is a blank. */
  lemma {:induction false} BlanksDropped(a: seq<byte>, b: seq<byte>, c: byte)
    ensures NonSpace(a + b) == NonSpace(a) + NonSpace(b)
    ensures NonSpace([c]) == if c == 32 then [] else [c]
    decreases |b|
  {
    hide NonSpace;
    NonSpaceNone();
    NonSpaceMore([], c);
    assert [] + [c] == [c];
    if b == [] {
      assert a + b == a;
    } else {
      var m := |b| - 1;
      BlanksDropped(a, b[..m], c);
      NonSpaceMore(a + b[..m], b[m]);
      NonSpaceMore(b[..m], b[m]);
      assert a + b == (a + b[..m]) + [b[m]] && b == b[..m] + [b[m]];
    }
  }

  /** The shown form of a name whose parts have `b` and `e` bytes before the blanks. */
  lemma RenderedInBytes(n: FatName, b: nat, e: nat)
    requires b <= 8 && e <= 3 && 32 !in n[..b] && 32 !in n[8..8 + e]
    requires (forall i :: b <= i < 8 ==> n[i] == 32) && (forall i :: 8 + e <= i < 11 ==> n[i] == 32)
    ensures Rendered(n) == n[..b] + if e == 0 then [] else [46] + n[8..8 + e]
  {
    hide NonSpace;
    FrontOnly(n[..8], b);
    FrontOnly(n[8..], e);
    assert n[..8][..b] == n[..b] && n[8..][..e] == n[8..8 + e];
    assert e > 0 ==> n[8] == n[8..8 + e][0];
  }

  lemma FrontOnly(s: seq<byte>, b: nat)
    requires b <= |s| && 32 !in s[..b] && forall i :: b <= i < |s| ==> s[i] == 32
    ensures NonSpace(s) == s[..b]
  {
    AllBlank(s[b..]);
    NoBlank(s[..b]);
    BlanksDropped(s[..b], s[b..], 32);
    assert s == s[..b] + s[b..];
  }

  lemma {:induction false} NoBlank(s: seq<byte>)
    requires 32 !in s
    ensures NonSpace(s) == s
  {
    if s != [] {
      NoBlank(s[..|s| - 1]);
      assert s == s[..|s| - 1] + [s[|s| - 1]];
    }
  }

  lemma {:induction false} NonSpaceOfPadded(s: seq<byte>)
    requires Padded(s)
    ensures NonSpace(s) <= s
    ensures forall i :: |NonSpace(s)| <= i < |s| ==> s[i] == SPACE
  {
    hide NonSpace;
    if s == [] {
      NonSpaceNone();
    } else {
      var m := |s| - 1;
      PaddedFront(s);
      NonSpaceOfPadded(s[..m]);
      NonSpaceMore(s[..m], s[m]);
      assert s == s[..m] + [s[m]];
      if s[m] != SPACE {
        FrontOrSpace(s[..m], NonSpace(s[..m]));
      }
    }
  }

  lemma FrontOrSpace(p: seq<byte>, r: seq<byte>)
    requires r <= p && forall i :: |r| <= i < |p| ==> p[i] == SPACE
    ensures r == p || SPACE in p
  {
    assert |r| == |p| || p[|r|] == SPACE;
  }

  lemma PaddedFront(s: seq<byte>)
    requires Padded(s) && s != []
    ensures Padded(s[..|s| - 1])
    ensures s[|s| - 1] != SPACE ==> SPACE !in s[..|s| - 1]
  {
  }

  lemma FieldRestores(s: seq<byte>)
    requires Padded(s) && NoLowerCase(s)
    ensures Field(NonSpace(s), |s|) == s
  {
    NonSpaceOfPadded(s);
  }

  lemma {:induction false} DotAtFirst(a: seq<byte>, b: seq<byte>)
    requires DOT !in a && (b == [] || b[0] == DOT)
    ensures DotAt(a + b) == |a|
  {
    if a == [] {
      assert a + b == b;
    } else {
      assert (a + b)[1..] == a[1..] + b;
      DotAtFirst(a[1..], b);
    }
  }

  lemma FatNameOfJoined(base: seq<byte>, tail: seq<byte>)
    requires DOT !in base && (tail == [] || tail[0] == DOT)
    ensures FatNameOf(base + tail) == Field(base, 8) + Field(if tail == [] then [] else tail[1..], 3)
  {
    hide DotAt, Field;
    DotAtFirst(base, tail);
    assert (base + tail)[..|base|] == base;
    if tail != [] {
      assert (base + tail)[|base| + 1..] == tail[1..];
    }
  }

  lemma RenderedSplits(n: FatName)
    requires DOT !in n[..8]
    ensures FatNameOf(Rendered(n))
      == Field(NonSpace(n[..8]), 8) + Field(if n[8] == SPACE then [] else NonSpace(n[8..]), 3)
  {
    hide FatNameOf, Field, NonSpace;
    var base, ext := NonSpace(n[..8]), NonSpace(n[8..]);
    if n[8] == SPACE {
      FatNameOfJoined(base, []);
    } else {
      FatNameOfJoined(base, [DOT] + ext);
      assert ([DOT] + ext)[1..] == ext;
    }
  }

  /** What to_fat_name makes of any bytes without blanks. */
  lemma FieldShape(s: seq<byte>, k: nat)
    ensures NoLowerCase(Field(s, k)) && (SPACE !in s ==> Padded(Field(s, k))) && (DOT !in s ==> DOT !in Field(s, k))
  {
    forall i | 0 <= i < k
      ensures Field(s, k)[i] == DOT || Field(s, k)[i] == SPACE ==> i >= |s| || Field(s, k)[i] == s[i]
    {
    }
  }

  lemma FatNameShape(filename: seq<byte>)
    ensures NoLowerCase(FatNameOf(filename)) && DOT !in FatNameOf(filename)[..8]
  {
    var d := DotAt(filename);
    var ext := if d < |filename| then filename[d + 1..] else [];
    FieldShape(filename[..d], 8);
    FieldShape(ext, 3);
    assert FatNameOf(filename)[..8] == Field(filename[..d], 8);
  }

  lemma RestorableRestores(n: FatName)
    requires Restorable(n)
    ensures FatNameOf(Rendered(n)) == n
  {
    var base, ext := n[..8], n[8..];
    FieldRestores(base);
    FieldRestores(ext);
    RenderedSplits(n);
    if n[8] == SPACE {
      assert ext[0] == SPACE;
      assert Field([], 3) == ext;
    }
    assert base + ext == n;
  }

  lemma RestoredIsRestorable(n: FatName)
    requires FatNameOf(Rendered(n)) == n
    ensures Restorable(n)
  {
    FatNameShape(Rendered(n));
    RenderedSplits(n);
    var base, ext := NonSpace(n[..8]), if n[8] == SPACE then [] else NonSpace(n[8..]);
    FieldShape(base, 8);
    FieldShape(ext, 3);
    assert n[..8] == Field(base, 8) && n[8..] == Field(ext, 3);
  }

  /** The shown form of a directory name converts back to its 11 bytes exactly if the name is restorable. */
  lemma NameRoundTrip(n: FatName)
    ensures FatNameOf(Rendered(n)) == n <==> Restorable(n)
  {
    if Restorable(n) {
      RestorableRestores(n);
    }
    if FatNameOf(Rendered(n)) == n {
      RestoredIsRestorable(n);
    }
  }

  /** A name the driver stored is restorable exactly if it has no blank inside its fields. */
  lemma StoredNameRestorable(filename: seq<byte>)
    ensures Restorable(FatNameOf(filename)) <==> Padded(FatNameOf(filename)[..8]) && Padded(FatNameOf(filename)[8..])
  {
    FatNameShape(filename);
  }

  /** "a b" is stored under a name whose shown form "AB" denotes another file. */
  lemma BlankInsideIsLost()
    ensures FatNameOf(Rendered(FatNameOf(Ascii("a b")))) != FatNameOf(Ascii("a b"))
  {
    var n := FatNameOf(Ascii("a b"));
    var s := Ascii("a b");
    assert s[0] == 97 && s[1] == SPACE && s[2] == 98;
    var d := DotAt(s);
    assert DOT !in s;
    assert d == 3;
    assert s[..d] == s;
    assert n[..8][1] == SPACE && n[..8][2] == 66;
    NameRoundTrip(n);
  }

  lemma RenderedBytes(n: FatName, b: byte)
    requires b in Rendered(n)
    ensures b == DOT || b in n
  {
    if b in NonSpace(n[..8]) {
      assert b in n[..8];
    } else if b != DOT {
      assert b in n[8..];
    }
  }

  /** The shown form of a valid name is a C string without slash or lower case that leads back to the name. */
  lemma ShownForm(n: FatName)
    requires ValidName(n)
    ensures FatNameOf(Rendered(n)) == n && NoLowerCase(Rendered(n))
    ensures IsCString(Rendered(n)) && 47 !in Rendered(n) && Rendered(n) != [] && Rendered(n) != [DOT]
    ensures Rendered(n) != [DOT, DOT]
  {
    NameRoundTrip(n);
    ShownFormNotDots(n);
    forall b | b in Rendered(n)
      ensures b != 0 && b != 47 && !(97 <= b <= 122)
    {
      RenderedBytes(n, b);
    }
    forall i | 0 <= i < |Rendered(n)|
      ensures !(97 <= Rendered(n)[i] <= 122)
    {
      assert Rendered(n)[i] in Rendered(n);
    }
  }

  lemma ShownFormNotDots(n: FatName)
    requires ValidName(n)
    ensures Rendered(n) != [] && Rendered(n) != [DOT] && Rendered(n) != [DOT, DOT]
  {
    var base, ext := n[..8], n[8..];
    NonSpaceOfPadded(base);
    NonSpaceOfPadded(ext);
    assert base[0] == n[0] && ext[0] == n[8] && ext[1] == n[9];
    if n[0] != SPACE {
      assert base[0] in base;
      assert NonSpace(base)[0] == n[0] && Rendered(n)[0] == n[0];
    } else {
      AllBlank(base);
      assert Rendered(n) == [DOT] + NonSpace(ext);
      assert Rendered(n)[1] == n[8];
    }
  }

  lemma {:induction false} AllBlank(s: seq<byte>)
    requires forall i :: 0 <= i < |s| ==> s[i] == SPACE
    ensures NonSpace(s) == []
  {
    if s != [] {
      AllBlank(s[..|s| - 1]);
    }
  }

  /** Hence no two valid names are shown alike. */
  lemma RenderingInjective(a: FatName, b: FatName)
    requires ValidName(a) && ValidName(b) && Rendered(a) == Rendered(b)
    ensures a == b
  {
    ShownForm(a);
    ShownForm(b);
  }

  /** Copies the non-blank bytes `from` to `stop` - 1 of the name behind the `at` bytes present. */
  method CopyNonSpace(n: FatName, from: nat, stop: nat, nameStr: array<byte>, at: nat) returns (pos: nat)
    requires from <= stop <= 11 && at + (stop - from) < nameStr.Length
    modifies nameStr
    ensures at <= pos <= at + (stop - from) && nameStr[..pos] == old(nameStr[..at]) + NonSpace(n[from..stop])
  {
    hide NonSpace;
    NonSpaceNone();
    pos := at;
    for j := from to stop
      invariant at <= pos <= at + (j - from) && nameStr[..pos] == old(nameStr[..at]) + NonSpace(n[from..j])
    {
      NonSpaceMore(n[from..j], n[j]);
      assert n[from..j + 1] == n[from..j] + [n[j]];
      if n[j] != SPACE {
        nameStr[pos] := n[j];
        pos := pos + 1;
      }
    }
  }

  /** A dot and the extension, if there is one. */
  method CopyExtension(n: FatName, nameStr: array<byte>, at: nat) returns (pos: nat)
    requires nameStr.Length == 13 && at <= 8
    modifies nameStr
    ensures pos <= 12
    ensures nameStr[..pos] == old(nameStr[..at]) + if n[8] == SPACE then [] else [DOT] + NonSpace(n[8..])
  {
    hide NonSpace;
    pos := at;
    if n[8] != SPACE {
      nameStr[at] := DOT;
      assert nameStr[..at + 1] == old(nameStr[..at]) + [DOT];
      pos := CopyNonSpace(n, 8, 11, nameStr, at + 1);
      assert n[8..11] == n[8..];
    }
  }

  /** The rendering of fat16_populate_vfs: the base name, then a dot and the extension if there is one. */
  method Render(n: FatName) returns (name: seq<byte>)
    ensures name == Rendered(n)
  {
    hide NonSpace;
    var nameStr := new byte[13];
    var pos := CopyNonSpace(n, 0, 8, nameStr, 0);
    assert nameStr[..pos] == NonSpace(n[..8]);
    pos := CopyExtension(n, nameStr, pos);
    nameStr[pos] := 0;
    name := nameStr[..pos];
  }
}
