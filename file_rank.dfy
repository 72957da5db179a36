/** The ranking engine: "strictly less than" comparators over descriptors of
    filesystem objects, the content comparator and their composition. */
module FileRank {
  import opened Lex

  type Byte = bv8

  /** What a tree walk reports about one filesystem object: its path, base
      name, size, last modification time in nanoseconds and its Go file mode.
      The kind of the object is read off the mode, as os.FileMode does. */
  datatype FileInfo = FileInfo(
    path: string,
    name: string,
    size: int,
    modTimeNs: int,
    mode: bv32)

  /** os.ModeDir */
  const ModeDir: bv32 := 0x8000_0000

  /** os.ModeType: directory, symlink, named pipe, socket, device, character
      device and irregular file. */
  const ModeType: bv32 := 0x8F28_0000

  /** FileInfo.IsDir */
  predicate IsDir(f: FileInfo)
  {
    f.mode & ModeDir != 0
  }

  /** FileMode.IsRegular: no type bit is set. */
  predicate IsRegular(f: FileInfo)
  {
    f.mode & ModeType == 0
  }

  /** No object is both a directory and a regular file. */
  lemma DirIsNotRegular(f: FileInfo)
    ensures IsDir(f) ==> !IsRegular(f)
    ensures IsRegular(f) ==> !IsDir(f)
  {
  }

  function CharLess(x: char, y: char): bool { x < y }

  function ByteLess(x: Byte, y: Byte): bool { x < y }

  /** Go's `<` on strings. For names that are valid UTF-8, comparing code
      points gives the same order as comparing the UTF-8 bytes, which is
      what Go does. */
  predicate NameLess(a: string, b: string)
  {
    LexLess(a, b, CharLess)
  }

  /** Strict order on file contents: a proper prefix, or a smaller byte at
      the first difference; length is never consulted on its own. */
  predicate ContentLess(a: seq<Byte>, b: seq<Byte>)
  {
    LexLess(a, b, ByteLess)
  }

  // ---------------------------------------------------------------------
  // The five ready-made comparators

  predicate ByName(left: FileInfo, right: FileInfo)
  {
    NameLess(left.name, right.name)
  }

  predicate ByDir(left: FileInfo, right: FileInfo)
  {
    IsDir(left) && !IsDir(right)
  }

  predicate BySize(left: FileInfo, right: FileInfo)
  {
    IsRegular(left) && IsRegular(right) && left.size < right.size
  }

  /** 10 microseconds, in nanoseconds. */
  const TimeToleranceNs: int := 10_000

  /** `left` was modified before `right`'s time moved back by the tolerance. */
  predicate ByTime(left: FileInfo, right: FileInfo)
  {
    left.modTimeNs < right.modTimeNs - TimeToleranceNs
  }

  /** The rwxrwxrwx bits, as `os.FileMode.Perm` keeps them. */
  const PermMask: bv32 := 0x1FF

  function Perm(mode: bv32): bv32
  {
    mode & PermMask
  }

  predicate ByPerm(left: FileInfo, right: FileInfo)
  {
    Perm(left.mode) < Perm(right.mode)
  }

  // ---------------------------------------------------------------------
  // Properties of the primitives

  ghost predicate StrictPartialOrder(rank: (FileInfo, FileInfo) -> bool)
  {
    (forall a: FileInfo :: !rank(a, a)) &&
    (forall a: FileInfo, b: FileInfo, c: FileInfo :: rank(a, b) && rank(b, c) ==> rank(a, c))
  }

  lemma CharLessIsStrictTotalOrder()
    ensures StrictTotalOrder(CharLess)
  {
  }

  /** Go's string order is a strict total order on names. */
  lemma NameLessIsStrictTotalOrder()
    ensures StrictTotalOrder(NameLess)
  {
    CharLessIsStrictTotalOrder();
    var lifted := (a: string, b: string) => LexLess(a, b, CharLess);
    LexStrictTotalOrder(CharLess);
    assert Irreflexive(lifted) && Transitive(lifted) && Connected(lifted);
    assert forall a: string, b: string :: NameLess(a, b) == lifted(a, b);
  }

  /** ByName is exactly lexicographic order on names, so it is irreflexive,
      transitive, and decides every pair of distinct names one way. */
  lemma ByNameOrdersNames(a: FileInfo, b: FileInfo, c: FileInfo)
    ensures !ByName(a, a)
    ensures ByName(a, b) ==> !ByName(b, a)
    ensures ByName(a, b) && ByName(b, c) ==> ByName(a, c)
    ensures a.name != b.name ==> ByName(a, b) || ByName(b, a)
  {
    LexIrreflexive(a.name, CharLess);
    LexAsymmetric(a.name, b.name, CharLess);
    if ByName(a, b) && ByName(b, c) {
      LexTransitive(a.name, b.name, c.name, CharLess);
    }
    if a.name != b.name {
      LexConnected(a.name, b.name, CharLess);
    }
  }

  /** ByDir: a directory before a non-directory, and false for the
      other three combinations. */
  lemma ByDirCases(a: FileInfo, b: FileInfo)
    ensures IsDir(a) && !IsDir(b) ==> ByDir(a, b) && !ByDir(b, a)
    ensures IsDir(a) == IsDir(b) ==> !ByDir(a, b) && !ByDir(b, a)
    ensures StrictPartialOrder(ByDir)
  {
  }

  /** BySize never ranks a non-regular object, whatever the sizes claim;
      in particular it never ranks a directory. */
  lemma BySizeNeedsRegularFiles(a: FileInfo, b: FileInfo)
    ensures !IsRegular(a) || !IsRegular(b) ==> !BySize(a, b) && !BySize(b, a)
    ensures IsDir(a) || IsDir(b) ==> !BySize(a, b) && !BySize(b, a)
    ensures IsRegular(a) && IsRegular(b) ==> (BySize(a, b) <==> a.size < b.size)
    ensures StrictPartialOrder(BySize)
  {
    DirIsNotRegular(a);
    DirIsNotRegular(b);
  }

  /** ByTime: two times at most 10µs apart never rank in either direction,
      and times further apart rank the earlier one first. */
  lemma ByTimeTolerance(a: FileInfo, b: FileInfo)
    ensures -TimeToleranceNs <= a.modTimeNs - b.modTimeNs <= TimeToleranceNs ==>
              !ByTime(a, b) && !ByTime(b, a)
    ensures a.modTimeNs + TimeToleranceNs < b.modTimeNs ==> ByTime(a, b) && !ByTime(b, a)
    ensures StrictPartialOrder(ByTime)
  {
  }

  /** ByPerm looks at the low nine bits only: setting any higher mode bits
      on either side never changes the verdict. */
  lemma ByPermIgnoresHighBits(a: FileInfo, b: FileInfo, highA: bv32, highB: bv32)
    requires highA & PermMask == 0 && highB & PermMask == 0
    ensures ByPerm(a.(mode := a.mode | highA), b.(mode := b.mode | highB)) == ByPerm(a, b)
    ensures StrictPartialOrder(ByPerm)
  {
  }

  /** A regular file with mode 0644 ranks below one with mode 0755, and a
      directory with mode 0755 (ModeDir | 0755) ranks like the file. */
  lemma ByPermExample(a: FileInfo, b: FileInfo, d: FileInfo)
    requires a.mode == 0x1A4 && b.mode == 0x1ED && d.mode == 0x8000_01ED
    ensures IsRegular(a) && IsRegular(b) && IsDir(d)
    ensures ByPerm(a, d) && !ByPerm(d, a) && !ByPerm(b, d) && !ByPerm(d, b)
    ensures ByPerm(a, b) && !ByPerm(b, a)
  {
  }

  // ---------------------------------------------------------------------
  // The content comparator

  /** The contents that opening each path yields; a path that is missing
      cannot be opened. */
  type Files = map<string, seq<Byte>>

  /** The outcome of one comparator: a strict-less verdict, or a fatal test
      failure (t.Fatal) naming the file that could not be opened. */
  datatype Verdict = Ranked(less: bool) | Fatal(path: string)

  /** The FileRank signature, with the fatal outcome made explicit. */
  type Rank = (FileInfo, FileInfo) -> Verdict

  /** A side-effect-free comparator as a Rank. */
  function Lift(p: (FileInfo, FileInfo) -> bool): Rank
  {
    (left: FileInfo, right: FileInfo) => Ranked(p(left, right))
  }

  /** What the comparator returned by ByContent decides for one pair: the
      left file is opened first, then the right one. */
  function ContentVerdict(files: Files, left: FileInfo, right: FileInfo): Verdict
  {
    if left.path !in files then Fatal(left.path)
    else if right.path !in files then Fatal(right.path)
    else Ranked(ContentLess(files[left.path], files[right.path]))
  }

  /** The factory: the injected failure channel is the Fatal verdict. */
  function ByContent(files: Files): Rank
  {
    (left: FileInfo, right: FileInfo) => ContentVerdict(files, left, right)
  }

  /** The lock-step byte loop: each round reads from the right stream
      first; right exhausted means "not less", left exhausted means "less". */
  method CompareBytes(left: seq<Byte>, right: seq<Byte>) returns (less: bool)
    ensures less == ContentLess(left, right)
  {
    var i := 0;
    while true
      invariant 0 <= i <= |left| && i <= |right|
      invariant ContentLess(left, right) == ContentLess(left[i..], right[i..])
      decreases |right| - i
    {
      if i == |right| {
        return false;
      }
      var rByte := right[i];
      if i == |left| {
        return true;
      }
      var lByte := left[i];
      if lByte == rByte {
        assert left[i..][1..] == left[i + 1..] && right[i..][1..] == right[i + 1..];
        i := i + 1;
        continue;
      }
      return lByte < rByte;
    }
  }

  /** The closure returned by ByContent, applied to one pair. */
  method CompareContent(files: Files, left: FileInfo, right: FileInfo) returns (v: Verdict)
    ensures v == ContentVerdict(files, left, right)
  {
    if left.path !in files {
      return Fatal(left.path);
    }
    if right.path !in files {
      return Fatal(right.path);
    }
    var less := CompareBytes(files[left.path], files[right.path]);
    return Ranked(less);
  }

  /** ContentLess is the prefix-or-first-smaller-byte order, both ways. */
  lemma ContentLessIff(a: seq<Byte>, b: seq<Byte>)
    ensures ContentLess(a, b) <==>
              (|a| < |b| && a == b[..|a|]) ||
              (exists k :: FirstDifferenceAt(a, b, k) && a[k] < b[k])
  {
    LexLessIff(a, b, ByteLess);
  }

  /** Right running out first, or equal contents, is never "less". */
  lemma {:induction false} ContentLessFalseCases(a: seq<Byte>, b: seq<Byte>)
    ensures |b| <= |a| && b == a[..|b|] ==> !ContentLess(a, b)
    ensures !ContentLess(a, a)
  {
    LexIrreflexive(a, ByteLess);
    if |b| <= |a| && b == a[..|b|] && |b| > 0 {
      assert a[0] == b[0];
      assert b[1..] == a[1..][..|b| - 1];
      ContentLessFalseCases(a[1..], b[1..]);
    }
  }

  /** Length is ignored: "aaa" and "aaaa" rank below "ab", "ab" not below "a". */
  lemma ContentIgnoresLength()
    ensures ContentLess([0x61, 0x61, 0x61], [0x61, 0x62])
    ensures ContentLess([0x61, 0x61, 0x61, 0x61], [0x61, 0x62])
    ensures !ContentLess([0x61, 0x62], [0x61])
  {
    var aaa: seq<Byte> := [0x61, 0x61, 0x61];
    var aaaa: seq<Byte> := [0x61, 0x61, 0x61, 0x61];
    var ab: seq<Byte> := [0x61, 0x62];
    var a: seq<Byte> := [0x61];
    assert aaa[1..] == [0x61, 0x61] && ab[1..] == [0x62];
    assert aaaa[1..] == [0x61, 0x61, 0x61];
    assert ab[1..] == [0x62] && a[1..] == [];
  }

  // ---------------------------------------------------------------------
  // Composition

  /** The k-th comparator is the first one that does not answer "not less". */
  ghost predicate DecidesAt(left: FileInfo, right: FileInfo, cmps: seq<Rank>, k: int)
  {
    0 <= k < |cmps| && cmps[k](left, right) != Ranked(false) &&
    forall j :: 0 <= j < k ==> cmps[j](left, right) == Ranked(false)
  }

  /** Less: the comparators in order, stopping at the first "less" (or at a
      fatal failure, which ends the comparison). */
  function Less(left: FileInfo, right: FileInfo, cmps: seq<Rank>): (v: Verdict)
    ensures v == Ranked(false) <==>
              forall k :: 0 <= k < |cmps| ==> cmps[k](left, right) == Ranked(false)
    ensures v != Ranked(false) ==>
              exists k :: DecidesAt(left, right, cmps, k) && cmps[k](left, right) == v
  {
    if |cmps| == 0 then Ranked(false)
    else
      var first := cmps[0](left, right);
      if first == Ranked(false) then
        var rest := Less(left, right, cmps[1..]);
        assert forall k :: 1 <= k < |cmps| ==> cmps[k] == cmps[1..][k - 1];
        assert forall k :: DecidesAt(left, right, cmps[1..], k) ==> DecidesAt(left, right, cmps, k + 1);
        rest
      else
        assert DecidesAt(left, right, cmps, 0);
        first
  }

  /** The range loop with early return that Less runs. */
  method LessLoop(left: FileInfo, right: FileInfo, cmps: seq<Rank>) returns (v: Verdict)
    ensures v == Less(left, right, cmps)
  {
    for i := 0 to |cmps|
      invariant forall j :: 0 <= j < i ==> cmps[j](left, right) == Ranked(false)
    {
      var verdict := cmps[i](left, right);
      if verdict != Ranked(false) {
        assert DecidesAt(left, right, cmps, i);
        DecidesAtUnique(left, right, cmps, i);
        return verdict;
      }
    }
    return Ranked(false);
  }

  /** At most one comparator decides a pair. */
  lemma DecidesAtUnique(left: FileInfo, right: FileInfo, cmps: seq<Rank>, k: int)
    requires DecidesAt(left, right, cmps, k)
    ensures Less(left, right, cmps) == cmps[k](left, right)
  {
    var v := Less(left, right, cmps);
    assert v != Ranked(false);
    forall k' | DecidesAt(left, right, cmps, k') ensures k' == k { }
  }

  /** An empty chain never ranks. */
  lemma LessEmpty(left: FileInfo, right: FileInfo)
    ensures Less(left, right, []) == Ranked(false)
  {
  }

  /** Comparators after the first decisive one are never consulted: any
      suffix may follow it without changing the verdict. */
  lemma LessShortCircuits(left: FileInfo, right: FileInfo, cmps: seq<Rank>, k: int, rest: seq<Rank>)
    requires DecidesAt(left, right, cmps, k)
    ensures Less(left, right, cmps[..k + 1] + rest) == cmps[k](left, right)
  {
    var chain := cmps[..k + 1] + rest;
    assert DecidesAt(left, right, chain, k) by {
      assert forall j :: 0 <= j <= k ==> chain[j] == cmps[j];
    }
    DecidesAtUnique(left, right, chain, k);
  }

  /** The side-effect-free comparators of a chain, as Ranks. */
  function LiftAll(ps: seq<(FileInfo, FileInfo) -> bool>): (cmps: seq<Rank>)
    ensures |cmps| == |ps|
    ensures forall k :: 0 <= k < |ps| ==> cmps[k] == Lift(ps[k])
  {
    seq(|ps|, i requires 0 <= i < |ps| => Lift(ps[i]))
  }

  /** Over side-effect-free comparators, Less is "some comparator says less". */
  lemma LessOfPredicates(left: FileInfo, right: FileInfo, ps: seq<(FileInfo, FileInfo) -> bool>)
    ensures Less(left, right, LiftAll(ps)) == Ranked(exists k :: 0 <= k < |ps| && ps[k](left, right))
  {
    var cmps := LiftAll(ps);
    assert forall k :: 0 <= k < |ps| ==> cmps[k](left, right) == Ranked(ps[k](left, right));
  }

  /** Chaining ByDir then ByName puts every directory before every
      non-directory, and orders two directories by name. */
  lemma DirsThenNames(a: FileInfo, b: FileInfo)
    ensures IsDir(a) && !IsDir(b) ==> Less(a, b, [Lift(ByDir), Lift(ByName)]) == Ranked(true)
    ensures IsDir(a) && IsDir(b) ==>
              Less(a, b, [Lift(ByDir), Lift(ByName)]) == Ranked(NameLess(a.name, b.name))
  {
    var chain := [Lift(ByDir), Lift(ByName)];
    assert chain[1..] == [Lift(ByName)] && chain[1..][1..] == [];
  }
}
