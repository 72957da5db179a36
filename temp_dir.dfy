/** The temporary-directory lifecycle: creating a scratch directory, cloning
    or populating it, switching into it, and tearing it down. The process's
    view of the operating system is a Host object. */
module TempDir {
  import opened FsModel

  datatype Option<T> = None | Some(value: T)

  datatype Error = TempDirFailed | GetwdFailed | ChdirFailed | CopyFailed | CreateFailed

  /** The cleanup function a wrapper returns: change back to a saved working
      directory if there is one, then tear down the tree at `root`. */
  datatype Cleanup = Cleanup(root: Path, restore: Option<Path>)

  /** `(path, cleanup, nil)`, or `("", nil, err)`. */
  datatype Outcome = Ready(path: Path, cleanup: Cleanup) | Failed(err: Error)

  /** How the operating system's answers turn out. */
  datatype Faults = Faults(
    tempName: string,         // the name ioutil.TempDir draws
    tempDirFails: bool,       // ioutil.TempDir fails for a reason of its own
    getwdFails: bool,         // os.Getwd fails
    chdirRefused: set<Path>,  // directories os.Chdir cannot enter
    refuses: set<Path>)       // entries whose mode cannot be changed and that cannot be removed

  /** What TreeCopy or TreeCreate does, as far as this model sees it: the
      entries it adds below the root (relative paths), and whether it then
      reports an error. */
  datatype Population = Population(added: Tree, fails: bool)

  /** ioutil.TempDir succeeds: `tmp` is a directory the process may write
      and the drawn name is not taken. */
  predicate TempDirSucceeds(fs: Tree, tmp: Path, name: string, fails: bool)
  {
    !fails && tmp in fs && fs[tmp].kind == Dir && Writable(fs, tmp) && tmp + [name] !in fs
  }

  function TempRoot(tmp: Path, f: Faults): Path
  {
    tmp + [f.tempName]
  }

  predicate Created(fs: Tree, tmp: Path, f: Faults)
  {
    TempDirSucceeds(fs, tmp, f.tempName, f.tempDirFails)
  }

  /** The filesystem right after ioutil.TempDir made `root` (mode 0700). */
  function WithRoot(fs: Tree, root: Path): Tree
  {
    fs[root := Entry(Dir, Mode0700)]
  }

  predicate Enterable(fs: Tree, p: Path, refused: set<Path>)
  {
    p in fs && fs[p].kind == Dir && p !in refused
  }

  /** The teardown of `root` ends the process: the root is missing, some
      entry of the tree refuses the change, or the directory holding the root
      does not let it be removed. */
  ghost predicate Blocked(fs: Tree, root: Path, refuses: set<Path>)
    requires |root| > 0
  {
    root !in fs ||
    (exists p :: p in fs && AtOrBelow(root, p) && p in refuses) ||
    !Writable(fs, Parent(root))
  }

  /** The walk fails: some visited entry refuses the change, or the root is
      itself a non-directory that cannot be removed. */
  ghost predicate WalkHazard(fs: Tree, root: Path, refuses: set<Path>)
    requires |root| > 0
  {
    (exists p :: p in fs && AtOrBelow(root, p) && p in refuses) ||
    (root in fs && fs[root].kind == File && !Writable(fs, Parent(root)))
  }

  /** `root` is a new name in a directory the process may write. */
  ghost predicate FreshRoot(fs: Tree, root: Path)
  {
    WellFormed(fs) && |root| > 0 && root !in fs &&
    Parent(root) in fs && fs[Parent(root)].kind == Dir && Writable(fs, Parent(root))
  }

  lemma TempDirIsFresh(fs: Tree, tmp: Path, name: string)
    requires WellFormed(fs) && TempDirSucceeds(fs, tmp, name, false)
    ensures FreshRoot(fs, tmp + [name])
  {
    assert Parent(tmp + [name]) == tmp;
  }

  /** Nothing of the old tree lies at or below a fresh root; everything
      grafted lies below it. */
  lemma FreshSeparate(fs: Tree, root: Path, added: Tree)
    requires FreshRoot(fs, root) && WellFormedGraft(added)
    ensures forall p :: p in fs ==> !AtOrBelow(root, p)
    ensures forall p :: p in Graft(root, added) ==> Below(root, p)
  {
    forall p | p in fs ensures !AtOrBelow(root, p) {
      NothingBelowNonDir(fs, root, p);
      if |p| == |root| {
        assert p[..|root|] == p;
      }
    }
    forall p | p in Graft(root, added) ensures Below(root, p) {
      assert p[|root|..] in added;
    }
  }

  /** Each grafted entry lies in the root or in a grafted directory. */
  lemma GraftParents(fs: Tree, root: Path, added: Tree, p: Path)
    requires FreshRoot(fs, root) && WellFormedGraft(added) && p in Graft(root, added)
    ensures Parent(p) == root || (Parent(p) in Graft(root, added) && Graft(root, added)[Parent(p)].kind == Dir)
  {
    var rel := p[|root|..];
    if |rel| > 1 {
      assert Parent(p)[|root|..] == Parent(rel);
    } else {
      assert Parent(p) == p[..|root|];
    }
  }

  lemma GraftedWellFormed(fs: Tree, root: Path, added: Tree)
    requires FreshRoot(fs, root) && WellFormedGraft(added)
    ensures WellFormed(WithRoot(fs, root) + Graft(root, added))
  {
    var g := Graft(root, added);
    var fs1 := WithRoot(fs, root);
    var fs2 := fs1 + g;
    FreshSeparate(fs, root, added);
    forall p | p in fs2 ensures InDirectory(fs2, p) {
      if p in g {
        GraftParents(fs, root, added, p);
      } else if p == root {
        assert Parent(p) !in g;
      } else {
        assert p in fs && InDirectory(fs, p);
        assert |p| > 0 ==> Parent(p) !in g by {
          if |p| > 0 && |Parent(p)| >= |root| {
            assert p[..|root|] == Parent(p)[..|root|];
          }
        }
      }
    }
  }

  lemma GraftedOutside(fs: Tree, root: Path, added: Tree)
    requires FreshRoot(fs, root) && WellFormedGraft(added)
    ensures Outside(WithRoot(fs, root) + Graft(root, added), root) == fs
  {
    FreshSeparate(fs, root, added);
  }

  lemma GraftedBlocked(fs: Tree, root: Path, added: Tree, refuses: set<Path>)
    requires FreshRoot(fs, root) && WellFormedGraft(added)
    ensures Blocked(WithRoot(fs, root) + Graft(root, added), root, refuses) <==>
              root in refuses || exists rel :: rel in added && root + rel in refuses
  {
    var fs2 := WithRoot(fs, root) + Graft(root, added);
    FreshSeparate(fs, root, added);
    assert Writable(fs2, Parent(root));
    if exists p :: p in fs2 && AtOrBelow(root, p) && p in refuses {
      var p :| p in fs2 && AtOrBelow(root, p) && p in refuses;
      if p != root {
        assert p[|root|..] in added;
      }
    }
    if exists rel :: rel in added && root + rel in refuses {
      var rel :| rel in added && root + rel in refuses;
      assert (root + rel)[..|root|] == root;
    }
  }

  /** A freshly made root, possibly populated: the tree stays well formed,
      tearing it down restores the filesystem as it was before the root
      appeared, and the teardown fails exactly when an entry of the new
      tree refuses it. */
  lemma GraftedRoot(fs: Tree, tmp: Path, name: string, added: Tree, refuses: set<Path>)
    requires WellFormed(fs) && TempDirSucceeds(fs, tmp, name, false) && WellFormedGraft(added)
    ensures WellFormed(WithRoot(fs, tmp + [name]) + Graft(tmp + [name], added))
    ensures Outside(WithRoot(fs, tmp + [name]) + Graft(tmp + [name], added), tmp + [name]) == fs
    ensures Blocked(WithRoot(fs, tmp + [name]) + Graft(tmp + [name], added), tmp + [name], refuses) <==>
              tmp + [name] in refuses || exists rel :: rel in added && tmp + [name] + rel in refuses
  {
    TempDirIsFresh(fs, tmp, name);
    GraftedWellFormed(fs, tmp + [name], added);
    GraftedOutside(fs, tmp + [name], added);
    GraftedBlocked(fs, tmp + [name], added, refuses);
  }

  // ---------------------------------------------------------------------
  // The states the teardown passes through

  /** One visit of the walk: a directory gets mode 0700, anything else is
      removed. */
  function Visit(fs: Tree, p: Path): Tree
  {
    if p !in fs then fs
    else if fs[p].kind == Dir then fs[p := Entry(Dir, Mode0700)]
    else fs - {p}
  }

  /** The filesystem once the walk has visited `seen`, in order. */
  function Walked(fs0: Tree, seen: seq<Path>): Tree
  {
    if seen == [] then fs0 else Visit(Walked(fs0, seen[..|seen| - 1]), seen[|seen| - 1])
  }

  /** The filesystem with the entries of `gone` removed. */
  function Without(fs: Tree, gone: seq<Path>): Tree
  {
    if gone == [] then fs else Without(fs, gone[1..]) - {gone[0]}
  }

  /** After the visits, each visited directory has mode 0700 and each
      visited non-directory is gone; nothing else has changed. */
  lemma {:induction false} WalkedFacts(fs0: Tree, seen: seq<Path>)
    ensures forall p :: p in Walked(fs0, seen) <==> p in fs0 && !(p in seen && fs0[p].kind == File)
    ensures forall p :: p in Walked(fs0, seen) ==>
              Walked(fs0, seen)[p] == if p in seen then Entry(Dir, Mode0700) else fs0[p]
  {
    if seen != [] {
      var init, last := seen[..|seen| - 1], seen[|seen| - 1];
      WalkedFacts(fs0, init);
      assert seen == init + [last];
    }
  }

  lemma {:induction false} WithoutFacts(fs: Tree, gone: seq<Path>)
    ensures forall p :: p in Without(fs, gone) <==> p in fs && p !in gone
    ensures forall p :: p in Without(fs, gone) ==> Without(fs, gone)[p] == fs[p]
  {
    if gone != [] {
      WithoutFacts(fs, gone[1..]);
      assert gone == [gone[0]] + gone[1..];
    }
  }

  /** Walking one more entry is one more visit. */
  lemma WalkedStep(fs0: Tree, order: seq<Path>, i: nat)
    requires i < |order|
    ensures Walked(fs0, order[..i + 1]) == Visit(Walked(fs0, order[..i]), order[i])
  {
    assert order[..i + 1][..i] == order[..i];
  }

  /** The walk leaves entries outside its tree alone. */
  lemma WalkedOutside(fs0: Tree, root: Path, order: seq<Path>, i: nat, p: Path)
    requires IsWalk(fs0, root, order) && i <= |order| && !AtOrBelow(root, p)
    ensures p in Walked(fs0, order[..i]) <==> p in fs0
    ensures p in fs0 ==> Walked(fs0, order[..i])[p] == fs0[p]
  {
    WalkedFacts(fs0, order[..i]);
    forall k | 0 <= k < i ensures order[..i][k] != p { }
  }

  /** The entry the walk reaches next is still as it was. */
  lemma WalkedUnvisited(fs0: Tree, root: Path, order: seq<Path>, i: nat)
    requires IsWalk(fs0, root, order) && i < |order|
    ensures order[i] in Walked(fs0, order[..i]) && Walked(fs0, order[..i])[order[i]] == fs0[order[i]]
  {
    WalkedFacts(fs0, order[..i]);
    forall k | 0 <= k < i ensures order[..i][k] != order[i] { }
  }

  /** When the walk reaches an entry other than the root, the directory
      holding it has already been given mode 0700, so the entry can be
      removed from it. */
  lemma WalkedParentWritable(fs0: Tree, root: Path, order: seq<Path>, i: nat)
    requires WellFormed(fs0) && IsWalk(fs0, root, order) && i < |order| && order[i] != root
    ensures Writable(Walked(fs0, order[..i]), Parent(order[i]))
  {
    ParentVisitedFirst(fs0, root, order, i);
    WalkedFacts(fs0, order[..i]);
    assert Mode0700 & OwnerWriteSearch == OwnerWriteSearch;
  }

  /** The walk stops at `p`: it refuses the change, or it is the root, a
      non-directory in a directory that forbids its removal. */
  ghost predicate Hazardous(fs0: Tree, root: Path, refuses: set<Path>, p: Path)
    requires |root| > 0
  {
    p in refuses || (p == root && p in fs0 && fs0[p].kind == File && !Writable(fs0, Parent(root)))
  }

  /** The walk fails exactly when it reaches a hazardous entry. */
  lemma HazardFound(fs0: Tree, root: Path, order: seq<Path>, refuses: set<Path>, i: nat)
    requires |root| > 0 && IsWalk(fs0, root, order) && i < |order| && Hazardous(fs0, root, refuses, order[i])
    ensures WalkHazard(fs0, root, refuses)
  {
    assert order[i] in fs0 && AtOrBelow(root, order[i]);
  }

  lemma NoHazard(fs0: Tree, root: Path, order: seq<Path>, refuses: set<Path>)
    requires |root| > 0 && IsWalk(fs0, root, order)
    requires forall k :: 0 <= k < |order| ==> !Hazardous(fs0, root, refuses, order[k])
    ensures !WalkHazard(fs0, root, refuses)
  {
    if root in fs0 {
      assert AtOrBelow(root, root);
      assert root in order;
    }
  }

  /** What one step of the walk relies on: the entry is still as it was,
      visiting it is one more Visit, it fails exactly when the entry is
      hazardous, and the recorded lists grow by that entry of its kind. */
  lemma WalkStepFacts(fs0: Tree, root: Path, order: seq<Path>, refuses: set<Path>, i: nat)
    requires |root| > 0 && WellFormed(fs0) && IsWalk(fs0, root, order) && i < |order|
    ensures |order[i]| > 0 && order[i] in fs0
    ensures order[i] in Walked(fs0, order[..i]) && Walked(fs0, order[..i])[order[i]] == fs0[order[i]]
    ensures Walked(fs0, order[..i + 1]) == Visit(Walked(fs0, order[..i]), order[i])
    ensures (order[i] !in refuses &&
             (fs0[order[i]].kind == Dir || Writable(Walked(fs0, order[..i]), Parent(order[i]))))
            <==> !Hazardous(fs0, root, refuses, order[i])
    ensures OfKind(order[..i + 1], fs0, Dir) ==
            OfKind(order[..i], fs0, Dir) + (if fs0[order[i]].kind == Dir then [order[i]] else [])
    ensures OfKind(order[..i + 1], fs0, File) ==
            OfKind(order[..i], fs0, File) + (if fs0[order[i]].kind == File then [order[i]] else [])
  {
    var p := order[i];
    assert p in fs0 && AtOrBelow(root, p);
    assert order[..i + 1] == order[..i] + [p];
    WalkedUnvisited(fs0, root, order, i);
    WalkedStep(fs0, order, i);
    OfKindSnoc(order[..i], p, fs0, Dir);
    OfKindSnoc(order[..i], p, fs0, File);
    if p != root {
      WalkedParentWritable(fs0, root, order, i);
    } else {
      WalkedOutside(fs0, root, order, i, Parent(root));
    }
  }

  /** What the countdown loop relies on: below `root` only the recorded
      directories are left, each with mode 0700 and none refusing removal. */
  ghost predicate OnlyDirsLeft(fs: Tree, root: Path, dirs: seq<Path>, refuses: set<Path>)
  {
    Distinct(dirs) && AncestorsFirst(dirs) &&
    (forall k :: 0 <= k < |dirs| ==> AtOrBelow(root, dirs[k]) && dirs[k] !in refuses) &&
    (forall p :: p in fs && AtOrBelow(root, p) <==> p in dirs) &&
    (forall p :: p in fs && AtOrBelow(root, p) ==> fs[p] == Entry(Dir, Mode0700))
  }

  /** A walk that completes leaves exactly that state below the root. */
  lemma WalkedAllBelow(fs0: Tree, root: Path, order: seq<Path>, refuses: set<Path>)
    requires |root| > 0 && WellFormed(fs0) && IsWalk(fs0, root, order)
    requires !WalkHazard(fs0, root, refuses)
    ensures OnlyDirsLeft(Walked(fs0, order), root, OfKind(order, fs0, Dir), refuses)
  {
    var w, dirs := Walked(fs0, order), OfKind(order, fs0, Dir);
    OfKindFacts(order, fs0, Dir);
    WalkedFacts(fs0, order);
    forall k | 0 <= k < |dirs| ensures AtOrBelow(root, dirs[k]) && dirs[k] !in refuses {
      assert dirs[k] in dirs;
    }
    forall p | AtOrBelow(root, p) ensures p in w <==> p in dirs {
      if p in fs0 {
        assert p in order;
      }
    }
    forall p | p in w && AtOrBelow(root, p) ensures w[p] == Entry(Dir, Mode0700) {
      assert p in order;
    }
  }

  /** ... and nothing outside the root has changed. */
  lemma WalkedAllOutside(fs0: Tree, root: Path, order: seq<Path>)
    requires IsWalk(fs0, root, order)
    ensures Outside(Walked(fs0, order), root) == Outside(fs0, root)
  {
    assert order[..|order|] == order;
    forall p | !AtOrBelow(root, p)
      ensures (p in Walked(fs0, order) <==> p in fs0) && (p in fs0 ==> Walked(fs0, order)[p] == fs0[p])
    {
      WalkedOutside(fs0, root, order, |order|, p);
    }
  }

  /** Entries outside the root survive the whole teardown, however far
      the countdown got. */
  lemma TornDownOutside(fs0: Tree, root: Path, order: seq<Path>, dirs: seq<Path>, j: nat, p: Path)
    requires IsWalk(fs0, root, order) && j <= |dirs|
    requires forall k :: 0 <= k < |dirs| ==> AtOrBelow(root, dirs[k])
    requires p in fs0 && !AtOrBelow(root, p)
    ensures p in Without(Walked(fs0, order), dirs[j..])
    ensures Without(Walked(fs0, order), dirs[j..])[p] == fs0[p]
  {
    assert order[..|order|] == order;
    WalkedOutside(fs0, root, order, |order|, p);
    WithoutFacts(Walked(fs0, order), dirs[j..]);
    forall k | 0 <= k < |dirs| - j ensures dirs[j..][k] != p { }
  }

  /** The teardown ends the process exactly when it is blocked: the walk
      stops at a refusing entry or an unremovable root file, or the
      countdown reaches a root whose directory forbids its removal. */
  lemma TeardownVerdict(fs0: Tree, root: Path, order: seq<Path>, refuses: set<Path>)
    requires |root| > 0 && root in fs0 && WellFormed(fs0) && IsWalk(fs0, root, order)
    ensures WalkHazard(fs0, root, refuses) ==> Blocked(fs0, root, refuses)
    ensures !WalkHazard(fs0, root, refuses) ==>
              ((root in OfKind(order, fs0, Dir) && !Writable(Walked(fs0, order), Parent(root))) <==>
               Blocked(fs0, root, refuses))
  {
    OfKindFacts(order, fs0, Dir);
    assert order[..|order|] == order;
    WalkedOutside(fs0, root, order, |order|, Parent(root));
  }

  /** The removal log of a teardown that got past the walk: no repeats,
      nothing after a path above it, and, when the countdown completed,
      exactly the tree. */
  lemma TeardownLog(fs0: Tree, root: Path, order: seq<Path>, left: nat)
    requires WellFormed(fs0) && IsWalk(fs0, root, order) && left <= |OfKind(order, fs0, Dir)|
    ensures Distinct(OfKind(order, fs0, File) + Reversed(OfKind(order, fs0, Dir)[left..]))
    ensures DescendantsFirst(OfKind(order, fs0, File) + Reversed(OfKind(order, fs0, Dir)[left..]))
    ensures left == 0 ==>
              forall p :: p in OfKind(order, fs0, File) + Reversed(OfKind(order, fs0, Dir)[left..]) <==>
                          p in fs0 && AtOrBelow(root, p)
  {
    RemovalLogOrder(fs0, root, order, left);
    var dirs := OfKind(order, fs0, Dir);
    OfKindFacts(order, fs0, File);
    OfKindFacts(order, fs0, Dir);
    if left == 0 {
      assert dirs[0..] == dirs;
      ReversedDescendantsFirst(dirs);
    }
  }

  lemma ConcatAssoc(a: seq<Path>, b: seq<Path>, c: seq<Path>)
    ensures a + b + c == a + (b + c)
  {
  }

  /** What a log holds past a saved prefix. */
  lemma LogTail(log: seq<Path>, log0: seq<Path>, a: seq<Path>, b: seq<Path>)
    requires log == log0 + a + b
    ensures |log0| <= |log| && log[..|log0|] == log0 && log[|log0|..] == a + b
  {
    assert log == log0 + (a + b);
  }

  /** A walk that stopped early: the teardown is blocked, the entries
      outside the root are as they were, and the files removed so far were
      removed deepest first, each once. */
  lemma WalkStopped(fs0: Tree, root: Path, order: seq<Path>, refuses: set<Path>, seen: nat)
    requires |root| > 0 && root in fs0 && WellFormed(fs0) && IsWalk(fs0, root, order)
    requires seen <= |order| && WalkHazard(fs0, root, refuses)
    ensures Blocked(fs0, root, refuses)
    ensures forall p :: p in fs0 && !AtOrBelow(root, p) ==>
              p in Walked(fs0, order[..seen]) && Walked(fs0, order[..seen])[p] == fs0[p]
    ensures Distinct(OfKind(order[..seen], fs0, File)) && DescendantsFirst(OfKind(order[..seen], fs0, File))
  {
    TeardownVerdict(fs0, root, order, refuses);
    PrefixRemovalOrder(fs0, root, order, seen);
    forall p | p in fs0 && !AtOrBelow(root, p)
      ensures p in Walked(fs0, order[..seen]) && Walked(fs0, order[..seen])[p] == fs0[p]
    {
      WalkedOutside(fs0, root, order, seen, p);
    }
  }

  /** A walk that completed leaves what the countdown needs, and the
      countdown is blocked exactly when the teardown is. */
  lemma WalkCompleted(fs0: Tree, root: Path, order: seq<Path>, refuses: set<Path>)
    requires |root| > 0 && root in fs0 && WellFormed(fs0) && IsWalk(fs0, root, order)
    requires !WalkHazard(fs0, root, refuses)
    ensures OnlyDirsLeft(Walked(fs0, order), root, OfKind(order, fs0, Dir), refuses)
    ensures Outside(Walked(fs0, order), root) == Outside(fs0, root)
    ensures (root in OfKind(order, fs0, Dir) && !Writable(Walked(fs0, order), Parent(root))) <==>
            Blocked(fs0, root, refuses)
  {
    WalkedAllBelow(fs0, root, order, refuses);
    WalkedAllOutside(fs0, root, order);
    TeardownVerdict(fs0, root, order, refuses);
  }

  /** After the countdown, however far it got, the entries outside the
      root are as they were. */
  lemma CountdownOutside(fs0: Tree, root: Path, order: seq<Path>, left: nat)
    requires IsWalk(fs0, root, order) && left <= |OfKind(order, fs0, Dir)|
    ensures forall p :: p in fs0 && !AtOrBelow(root, p) ==>
              p in Without(Walked(fs0, order), OfKind(order, fs0, Dir)[left..]) &&
              Without(Walked(fs0, order), OfKind(order, fs0, Dir)[left..])[p] == fs0[p]
  {
    var dirs := OfKind(order, fs0, Dir);
    OfKindFacts(order, fs0, Dir);
    assert forall k :: 0 <= k < |dirs| ==> AtOrBelow(root, dirs[k]) by {
      forall k | 0 <= k < |dirs| ensures AtOrBelow(root, dirs[k]) {
        assert dirs[k] in dirs;
      }
    }
    forall p | p in fs0 && !AtOrBelow(root, p)
      ensures p in Without(Walked(fs0, order), dirs[left..]) && Without(Walked(fs0, order), dirs[left..])[p] == fs0[p]
    {
      TornDownOutside(fs0, root, order, dirs, left, p);
    }
  }

  /** At each step of the countdown, nothing but the directory itself is
      left at or below it. */
  lemma OnlySelfLeft(fs: Tree, root: Path, dirs: seq<Path>, refuses: set<Path>, i: nat, q: Path)
    requires OnlyDirsLeft(fs, root, dirs, refuses) && i < |dirs|
    requires q in Without(fs, dirs[i + 1..]) && AtOrBelow(dirs[i], q)
    ensures q == dirs[i]
  {
    AtOrBelowTransitive(root, dirs[i], q);
    WithoutFacts(fs, dirs[i + 1..]);
    forall k | i < k < |dirs| ensures dirs[k] in dirs[i + 1..] {
      assert dirs[i + 1..][k - i - 1] == dirs[k];
    }
    var k :| 0 <= k < |dirs| && dirs[k] == q;
  }

  /** A countdown that removed every recorded directory leaves exactly
      what lay outside the root. */
  lemma CountdownComplete(fs: Tree, root: Path, dirs: seq<Path>, refuses: set<Path>)
    requires OnlyDirsLeft(fs, root, dirs, refuses)
    ensures Without(fs, dirs) == Outside(fs, root)
  {
    WithoutFacts(fs, dirs);
    assert forall p :: p in Without(fs, dirs) <==> p in Outside(fs, root);
  }

  /** One step of the countdown: os.RemoveAll removes just that directory,
      and it fails only on the root, when the directory holding the root
      forbids it. */
  lemma RemoveStep(fs: Tree, root: Path, dirs: seq<Path>, refuses: set<Path>, i: nat)
    requires |root| > 0 && OnlyDirsLeft(fs, root, dirs, refuses) && i < |dirs|
    ensures dirs[i] in Without(fs, dirs[i + 1..])
    ensures Outside(Without(fs, dirs[i + 1..]), dirs[i]) == Without(fs, dirs[i..])
    ensures (forall q :: q in Without(fs, dirs[i + 1..]) && AtOrBelow(dirs[i], q) ==>
               q !in refuses && Writable(Without(fs, dirs[i + 1..]), Parent(q)))
            <==> (dirs[i] != root || Writable(fs, Parent(root)))
  {
    var w, d := Without(fs, dirs[i + 1..]), dirs[i];
    WithoutFacts(fs, dirs[i + 1..]);
    assert dirs[i..][1..] == dirs[i + 1..];
    assert d in w by {
      forall k | i < k < |dirs| ensures dirs[k] != d { }
    }
    forall q | q in w && AtOrBelow(d, q) ensures q == d {
      OnlySelfLeft(fs, root, dirs, refuses, i, q);
    }
    if d != root {
      ParentAtOrBelow(root, d);
      assert Mode0700 & OwnerWriteSearch == OwnerWriteSearch;
    } else {
      assert Parent(root) !in dirs;
    }
  }

  /** Every entry of `fs0` is still in `fs`, unchanged. */
  ghost predicate Keeps(fs0: Tree, fs: Tree)
  {
    forall p :: p in fs0 ==> p in fs && fs[p] == fs0[p]
  }

  /** When the old tree is what lies outside a root, a change that leaves
      the outside of that root alone keeps the old tree. */
  lemma KeptOutside(fs0: Tree, root: Path, fs1: Tree, fs2: Tree)
    requires Outside(fs1, root) == fs0
    requires forall p :: p in fs1 && !AtOrBelow(root, p) ==> p in fs2 && fs2[p] == fs1[p]
    ensures Keeps(fs0, fs2)
  {
    forall p | p in fs0 ensures p in fs2 && fs2[p] == fs0[p] {
      assert p in Outside(fs1, root);
    }
  }

  class Host {
    var fs: Tree
    var cwd: Path
    /** log.Fatalln, or a panic, has ended the process. */
    var aborted: bool
    /** The paths os.Remove and os.RemoveAll have removed, in order. */
    ghost var removed: seq<Path>

    ghost predicate Valid()
      reads this
    {
      WellFormed(fs)
    }

    constructor (fs0: Tree, cwd0: Path)
      requires WellFormed(fs0)
      ensures Valid() && fs == fs0 && cwd == cwd0 && !aborted && removed == []
    {
      fs, cwd, aborted, removed := fs0, cwd0, false, [];
    }

    // -------------------------------------------------------------------
    // The operating system calls the core makes

    /** os.Chmod */
    method Chmod(p: Path, perm: bv32, refuses: set<Path>) returns (ok: bool)
      modifies this
      ensures ok == (p in old(fs) && p !in refuses)
      ensures fs == if ok then old(fs)[p := Entry(old(fs)[p].kind, perm)] else old(fs)
      ensures cwd == old(cwd) && aborted == old(aborted) && removed == old(removed)
    {
      ok := p in fs && p !in refuses;
      if ok {
        fs := fs[p := Entry(fs[p].kind, perm)];
      }
    }

    /** os.Remove, as the walk uses it: on a non-directory. */
    method Remove(p: Path, refuses: set<Path>) returns (ok: bool)
      requires |p| > 0 && p in fs && fs[p].kind == File
      modifies this
      ensures ok == (p !in refuses && Writable(old(fs), Parent(p)))
      ensures fs == if ok then old(fs) - {p} else old(fs)
      ensures removed == if ok then old(removed) + [p] else old(removed)
      ensures cwd == old(cwd) && aborted == old(aborted)
    {
      ok := p !in refuses && Writable(fs, Parent(p));
      if ok {
        fs := fs - {p};
        removed := removed + [p];
      }
    }

    /** os.RemoveAll: removes `d` and everything below it, unless one of
        those entries refuses or sits in a directory that forbids it. */
    method RemoveAll(d: Path, refuses: set<Path>) returns (ok: bool)
      requires |d| > 0
      modifies this
      ensures ok == forall q :: q in old(fs) && AtOrBelow(d, q) ==>
                                  q !in refuses && Writable(old(fs), Parent(q))
      ensures fs == if ok then Outside(old(fs), d) else old(fs)
      ensures removed == if ok && d in old(fs) then old(removed) + [d] else old(removed)
      ensures cwd == old(cwd) && aborted == old(aborted)
    {
      ok := forall q :: q in fs && AtOrBelow(d, q) ==> q !in refuses && Writable(fs, Parent(q));
      if ok {
        if d in fs {
          removed := removed + [d];
        }
        fs := Outside(fs, d);
      }
    }

    /** os.Getwd */
    method Getwd(fails: bool) returns (wd: Path, ok: bool)
      ensures ok == !fails
      ensures ok ==> wd == cwd
    {
      wd, ok := cwd, !fails;
    }

    /** os.Chdir */
    method Chdir(p: Path, refused: set<Path>) returns (ok: bool)
      modifies this
      ensures ok == Enterable(old(fs), p, refused)
      ensures cwd == if ok then p else old(cwd)
      ensures fs == old(fs) && aborted == old(aborted) && removed == old(removed)
    {
      ok := Enterable(fs, p, refused);
      if ok {
        cwd := p;
      }
    }

    /** ioutil.TempDir(tmp, ""): a fresh directory with mode 0700. */
    method MakeTempDir(tmp: Path, name: string, fails: bool) returns (root: Path, ok: bool)
      modifies this
      ensures ok == TempDirSucceeds(old(fs), tmp, name, fails)
      ensures ok ==> root == tmp + [name] && fs == WithRoot(old(fs), root)
      ensures !ok ==> fs == old(fs)
      ensures cwd == old(cwd) && aborted == old(aborted) && removed == old(removed)
    {
      ok := TempDirSucceeds(fs, tmp, name, fails);
      root := tmp + [name];
      if ok {
        fs := WithRoot(fs, root);
      }
    }

    /** TreeCopy(src, root) or TreeCreate(config): entries appear below
        `root`, then success or failure is reported. */
    method Populate(root: Path, pop: Population) returns (ok: bool)
      modifies this
      ensures fs == old(fs) + Graft(root, pop.added)
      ensures ok == !pop.fails
      ensures cwd == old(cwd) && aborted == old(aborted) && removed == old(removed)
    {
      fs := fs + Graft(root, pop.added);
      ok := !pop.fails;
    }

    // -------------------------------------------------------------------
    // The teardown returned by TempInitDir

    /** The function the walk calls on each entry: a directory gets mode
        0700 and is appended to `dirs`; anything else is removed. */
    method VisitEntry(p: Path, refuses: set<Path>, dirs: seq<Path>) returns (ok: bool, recorded: seq<Path>)
      requires |p| > 0 && p in fs
      modifies this
      ensures ok == (p !in refuses && (old(fs)[p].kind == Dir || Writable(old(fs), Parent(p))))
      ensures fs == if ok then Visit(old(fs), p) else old(fs)
      ensures recorded == if ok && old(fs)[p].kind == Dir then dirs + [p] else dirs
      ensures removed == old(removed) + (if ok && old(fs)[p].kind == File then [p] else [])
      ensures cwd == old(cwd) && aborted == old(aborted)
    {
      recorded := dirs;
      if fs[p].kind == Dir {
        ok := Chmod(p, Mode0700, refuses);
        if ok {
          recorded := dirs + [p];
        }
      } else {
        ok := Remove(p, refuses);
      }
    }

    /** The walk: each directory visited gets mode 0700 and is recorded in
        `dirs`, in visiting order; each other entry is removed when it is
        visited. The walk stops at the first error; `seen` counts the
        entries it has dealt with. */
    method WalkPhase(root: Path, order: seq<Path>, refuses: set<Path>)
      returns (dirs: seq<Path>, ok: bool, ghost seen: nat)
      requires |root| > 0 && WellFormed(fs) && IsWalk(fs, root, order)
      modifies this
      ensures ok <==> !WalkHazard(old(fs), root, refuses)
      ensures seen <= |order| && (ok ==> seen == |order|)
      ensures fs == Walked(old(fs), order[..seen])
      ensures removed == old(removed) + OfKind(order[..seen], old(fs), File)
      ensures ok ==> dirs == OfKind(order, old(fs), Dir)
      ensures cwd == old(cwd) && aborted == old(aborted)
    {
      ghost var fs0, log0 := fs, removed;
      dirs, ok := [], true;
      assert fs == Walked(fs0, order[..0]);
      var i := 0;
      while i < |order|
        invariant 0 <= i <= |order|
        invariant fs == Walked(fs0, order[..i])
        invariant dirs == OfKind(order[..i], fs0, Dir)
        invariant removed == log0 + OfKind(order[..i], fs0, File)
        invariant forall k :: 0 <= k < i ==> !Hazardous(fs0, root, refuses, order[k])
        invariant cwd == old(cwd) && aborted == old(aborted)
      {
        WalkStepFacts(fs0, root, order, refuses, i);
        ok, dirs := VisitEntry(order[i], refuses, dirs);
        if !ok {
          seen := i;
          HazardFound(fs0, root, order, refuses, i);
          return;
        }
        ConcatAssoc(log0, OfKind(order[..i], fs0, File), if fs0[order[i]].kind == File then [order[i]] else []);
        i := i + 1;
      }
      seen := i;
      assert order[..i] == order;
      NoHazard(fs0, root, order, refuses);
    }

    /** The countdown loop: the recorded directories, the last visited
        first, each removed with os.RemoveAll; the first failure ends the
        process. The countdown stopped at `left`. */
    method RemovePhase(root: Path, dirs: seq<Path>, refuses: set<Path>) returns (ghost left: nat)
      requires |root| > 0 && !aborted && OnlyDirsLeft(fs, root, dirs, refuses)
      modifies this
      ensures left <= |dirs| && (!aborted ==> left == 0)
      ensures aborted <==> root in dirs && !Writable(old(fs), Parent(root))
      ensures fs == Without(old(fs), dirs[left..])
      ensures removed == old(removed) + Reversed(dirs[left..])
      ensures !aborted ==> fs == Outside(old(fs), root)
      ensures cwd == old(cwd)
    {
      ghost var fs1 := fs;
      var i := |dirs| - 1;
      assert fs == Without(fs1, dirs[i + 1..]);
      while i >= 0
        invariant -1 <= i < |dirs| && !aborted
        invariant fs == Without(fs1, dirs[i + 1..])
        invariant removed == old(removed) + Reversed(dirs[i + 1..])
        invariant root in dirs[i + 1..] ==> Writable(fs1, Parent(root))
        invariant cwd == old(cwd)
      {
        RemoveStep(fs1, root, dirs, refuses, i);
        assert dirs[i..] == [dirs[i]] + dirs[i + 1..];
        var ok := RemoveAll(dirs[i], refuses);
        if !ok {
          aborted := true;
          return i + 1;
        }
        ConcatAssoc(old(removed), Reversed(dirs[i + 1..]), [dirs[i]]);
        i := i - 1;
      }
      assert dirs[0..] == dirs;
      CountdownComplete(fs1, root, dirs, refuses);
      return 0;
    }

    /** The cleanup function of TempInitDir: make every directory of the
        tree accessible while removing everything else, then remove the
        directories, deepest first. Any failure ends the process. */
    method Teardown(root: Path, refuses: set<Path>)
      requires Valid() && !aborted && |root| > 0
      modifies this
      ensures cwd == old(cwd)
      ensures aborted <==> Blocked(old(fs), root, refuses)
      ensures !aborted ==> fs == Outside(old(fs), root) && Valid()
      ensures forall p :: p in old(fs) && !AtOrBelow(root, p) ==> p in fs && fs[p] == old(fs)[p]
      ensures |old(removed)| <= |removed| && removed[..|old(removed)|] == old(removed)
      ensures Distinct(removed[|old(removed)|..]) && DescendantsFirst(removed[|old(removed)|..])
      ensures !aborted ==> forall p :: p in removed[|old(removed)|..] <==> p in old(fs) && AtOrBelow(root, p)
    {
      if root !in fs {
        // the walk hands the failed Lstat of the root to the callback,
        // which dereferences the missing FileInfo: the process panics
        aborted := true;
        assert removed[|old(removed)|..] == [];
        return;
      }
      ghost var fs0, log0 := fs, removed;
      var order := WalkOrder(fs, root);
      var dirs, ok, seen := WalkPhase(root, order, refuses);
      if !ok {
        aborted := true;
        WalkStopped(fs0, root, order, refuses, seen);
        LogTail(removed, log0, OfKind(order[..seen], fs0, File), []);
        return;
      }
      assert order[..seen] == order;
      WalkCompleted(fs0, root, order, refuses);
      ghost var left := RemovePhase(root, dirs, refuses);
      TeardownLog(fs0, root, order, left);
      CountdownOutside(fs0, root, order, left);
      LogTail(removed, log0, OfKind(order, fs0, File), Reversed(dirs[left..]));
      if !aborted {
        OutsideWellFormed(fs0, root);
      }
    }

    /** Running a cleanup returned by one of the wrappers: change back to
        the saved directory first (its error is discarded), then tear down. */
    method RunCleanup(c: Cleanup, f: Faults)
      requires Valid() && !aborted && |c.root| > 0
      modifies this
      ensures cwd == if c.restore.Some? && Enterable(old(fs), c.restore.value, f.chdirRefused)
                     then c.restore.value else old(cwd)
      ensures aborted <==> Blocked(old(fs), c.root, f.refuses)
      ensures !aborted ==> fs == Outside(old(fs), c.root) && Valid()
      ensures forall p :: p in old(fs) && !AtOrBelow(c.root, p) ==> p in fs && fs[p] == old(fs)[p]
      ensures |old(removed)| <= |removed| && removed[..|old(removed)|] == old(removed)
      ensures Distinct(removed[|old(removed)|..]) && DescendantsFirst(removed[|old(removed)|..])
    {
      if c.restore.Some? {
        var restored := Chdir(c.restore.value, f.chdirRefused);
      }
      Teardown(c.root, f.refuses);
    }

    // -------------------------------------------------------------------
    // The wrappers

    /** TempInitDir */
    method TempInitDir(tmp: Path, f: Faults) returns (r: Outcome)
      requires Valid() && !aborted
      modifies this
      ensures Keeps(old(fs), fs)
      ensures Valid() && !aborted && cwd == old(cwd) && removed == old(removed)
      ensures r.Ready? <==> Created(old(fs), tmp, f)
      ensures r.Ready? ==> r == Ready(TempRoot(tmp, f), Cleanup(TempRoot(tmp, f), None)) &&
                           fs == WithRoot(old(fs), TempRoot(tmp, f))
      ensures r.Failed? ==> r.err == TempDirFailed && fs == old(fs)
    {
      var root, ok := MakeTempDir(tmp, f.tempName, f.tempDirFails);
      if !ok {
        // os.RemoveAll("") removes nothing
        return Failed(TempDirFailed);
      }
      GraftedRoot(old(fs), tmp, f.tempName, map[], f.refuses);
      assert Graft(root, map[]) == map[];
      assert WithRoot(old(fs), root) + map[] == WithRoot(old(fs), root);
      KeptOutside(old(fs), root, fs, fs);
      return Ready(root, Cleanup(root, None));
    }

    /** TempInitChdir */
    method TempInitChdir(tmp: Path, f: Faults) returns (r: Outcome)
      requires Valid() && !aborted
      modifies this
      ensures Keeps(old(fs), fs)
      ensures !aborted ==> Valid()
      ensures r.Ready? <==> Created(old(fs), tmp, f) && !f.getwdFails && TempRoot(tmp, f) !in f.chdirRefused
      ensures r.Ready? ==> r == Ready(old(cwd), Cleanup(TempRoot(tmp, f), Some(old(cwd)))) &&
                           cwd == TempRoot(tmp, f) && fs == WithRoot(old(fs), TempRoot(tmp, f)) && !aborted
      ensures !Created(old(fs), tmp, f) ==>
                r == Failed(TempDirFailed) && fs == old(fs) && cwd == old(cwd) && !aborted
      ensures Created(old(fs), tmp, f) && r.Failed? ==>
                r.err == (if f.getwdFails then GetwdFailed else ChdirFailed) && cwd == old(cwd) &&
                (aborted <==> TempRoot(tmp, f) in f.refuses) && (!aborted ==> fs == old(fs))
    {
      r := TempInitDir(tmp, f);
      if r.Failed? {
        return Failed(r.err);
      }
      var root, cleanup := r.path, r.cleanup;
      GraftedRoot(old(fs), tmp, f.tempName, map[], f.refuses);
      assert Graft(root, map[]) == map[];
      assert fs + map[] == fs;
      ghost var fs1 := fs;
      var wd, ok := Getwd(f.getwdFails);
      if !ok {
        RunCleanup(cleanup, f);
        KeptOutside(old(fs), root, fs1, fs);
        return Failed(GetwdFailed);
      }
      ok := Chdir(root, f.chdirRefused);
      if !ok {
        RunCleanup(cleanup, f);
        KeptOutside(old(fs), root, fs1, fs);
        return Failed(ChdirFailed);
      }
      KeptOutside(old(fs), root, fs1, fs);
      return Ready(wd, Cleanup(root, Some(wd)));
    }

    /** TempCloneDir: the copy made by TreeCopy is `copy`. */
    method TempCloneDir(tmp: Path, f: Faults, copy: Population) returns (r: Outcome)
      requires Valid() && !aborted && WellFormedGraft(copy.added)
      modifies this
      ensures Keeps(old(fs), fs)
      ensures !aborted ==> Valid()
      ensures cwd == old(cwd)
      ensures r.Ready? <==> Created(old(fs), tmp, f) && !copy.fails
      ensures r.Ready? ==> r == Ready(TempRoot(tmp, f), Cleanup(TempRoot(tmp, f), None)) &&
                           fs == WithRoot(old(fs), TempRoot(tmp, f)) + Graft(TempRoot(tmp, f), copy.added) &&
                           !aborted
      ensures !Created(old(fs), tmp, f) ==> r == Failed(TempDirFailed) && fs == old(fs) && !aborted
      ensures Created(old(fs), tmp, f) && copy.fails ==>
                r == Failed(CopyFailed) &&
                (aborted <==> TempRoot(tmp, f) in f.refuses ||
                              exists rel :: rel in copy.added && TempRoot(tmp, f) + rel in f.refuses) &&
                (!aborted ==> fs == old(fs))
    {
      r := TempInitDir(tmp, f);
      if r.Failed? {
        return Failed(r.err);
      }
      var root, cleanup := r.path, r.cleanup;
      GraftedRoot(old(fs), tmp, f.tempName, copy.added, f.refuses);
      var ok := Populate(root, copy);
      ghost var fs1 := fs;
      if !ok {
        RunCleanup(cleanup, f);
        KeptOutside(old(fs), root, fs1, fs);
        return Failed(CopyFailed);
      }
      KeptOutside(old(fs), root, fs1, fs);
      return Ready(root, cleanup);
    }

    /** TempCloneChdir */
    method TempCloneChdir(tmp: Path, f: Faults, copy: Population) returns (r: Outcome)
      requires Valid() && !aborted && WellFormedGraft(copy.added)
      modifies this
      ensures Keeps(old(fs), fs)
      ensures !aborted ==> Valid()
      ensures r.Ready? <==> Created(old(fs), tmp, f) && !copy.fails && !f.getwdFails &&
                            TempRoot(tmp, f) !in f.chdirRefused
      ensures r.Ready? ==> r == Ready(old(cwd), Cleanup(TempRoot(tmp, f), Some(old(cwd)))) &&
                           cwd == TempRoot(tmp, f) && !aborted &&
                           fs == WithRoot(old(fs), TempRoot(tmp, f)) + Graft(TempRoot(tmp, f), copy.added)
      ensures !Created(old(fs), tmp, f) ==>
                r == Failed(TempDirFailed) && fs == old(fs) && cwd == old(cwd) && !aborted
      ensures Created(old(fs), tmp, f) && r.Failed? ==>
                r.err == (if copy.fails then CopyFailed else if f.getwdFails then GetwdFailed else ChdirFailed) &&
                cwd == old(cwd) &&
                (aborted <==> TempRoot(tmp, f) in f.refuses ||
                              exists rel :: rel in copy.added && TempRoot(tmp, f) + rel in f.refuses) &&
                (!aborted ==> fs == old(fs))
    {
      r := TempCloneDir(tmp, f, copy);
      if r.Failed? {
        return Failed(r.err);
      }
      var root, cleanup := r.path, r.cleanup;
      GraftedRoot(old(fs), tmp, f.tempName, copy.added, f.refuses);
      ghost var fs1 := fs;
      var wd, ok := Getwd(f.getwdFails);
      if !ok {
        RunCleanup(cleanup, f);
        KeptOutside(old(fs), root, fs1, fs);
        return Failed(GetwdFailed);
      }
      ok := Chdir(root, f.chdirRefused);
      if !ok {
        RunCleanup(cleanup, f);
        KeptOutside(old(fs), root, fs1, fs);
        return Failed(ChdirFailed);
      }
      KeptOutside(old(fs), root, fs1, fs);
      return Ready(wd, Cleanup(root, Some(wd)));
    }

    /** TempCreateChdir: what TreeCreate builds in the new working
        directory from its configuration is `create`. */
    method TempCreateChdir(tmp: Path, f: Faults, create: Population) returns (r: Outcome)
      requires Valid() && !aborted && WellFormedGraft(create.added)
      modifies this
      ensures Keeps(old(fs), fs)
      ensures !aborted ==> Valid()
      ensures r.Ready? <==> Created(old(fs), tmp, f) && !f.getwdFails &&
                            TempRoot(tmp, f) !in f.chdirRefused && !create.fails
      ensures r.Ready? ==> r == Ready(old(cwd), Cleanup(TempRoot(tmp, f), Some(old(cwd)))) &&
                           cwd == TempRoot(tmp, f) && !aborted &&
                           fs == WithRoot(old(fs), TempRoot(tmp, f)) + Graft(TempRoot(tmp, f), create.added)
      ensures !Created(old(fs), tmp, f) ==>
                r == Failed(TempDirFailed) && fs == old(fs) && cwd == old(cwd) && !aborted
      ensures Created(old(fs), tmp, f) && (f.getwdFails || TempRoot(tmp, f) in f.chdirRefused) ==>
                r == Failed(if f.getwdFails then GetwdFailed else ChdirFailed) && cwd == old(cwd) &&
                (aborted <==> TempRoot(tmp, f) in f.refuses) && (!aborted ==> fs == old(fs))
      ensures Created(old(fs), tmp, f) && !f.getwdFails && TempRoot(tmp, f) !in f.chdirRefused && create.fails ==>
                r == Failed(CreateFailed) &&
                (Enterable(old(fs), old(cwd), f.chdirRefused) ==> cwd == old(cwd)) &&
                (aborted <==> TempRoot(tmp, f) in f.refuses ||
                              exists rel :: rel in create.added && TempRoot(tmp, f) + rel in f.refuses) &&
                (!aborted ==> fs == old(fs))
    {
      r := TempInitChdir(tmp, f);
      if r.Failed? {
        return Failed(r.err);
      }
      var saved, cleanup := r.path, r.cleanup;
      GraftedRoot(old(fs), tmp, f.tempName, create.added, f.refuses);
      TempDirIsFresh(old(fs), tmp, f.tempName);
      FreshSeparate(old(fs), cwd, create.added);
      var ok := Populate(cwd, create);
      ghost var fs1 := fs;
      if !ok {
        RunCleanup(cleanup, f);
        KeptOutside(old(fs), cleanup.root, fs1, fs);
        return Failed(CreateFailed);
      }
      KeptOutside(old(fs), cleanup.root, fs1, fs);
      return Ready(saved, cleanup);
    }
  }
}
