/** An abstract filesystem: a map from absolute paths to entries, with the
    facts about trees, walks and removal orders that the teardown needs. */
module FsModel {
  import opened Lex
  import FileRank

  /** An absolute path, as its list of name components; [] is "/". */
  type Path = seq<string>

  /** Dir, or anything else (regular file, symlink, device, ...). */
  datatype Kind = Dir | File

  datatype Entry = Entry(kind: Kind, perm: bv32)

  type Tree = map<Path, Entry>

  /** rwx------ */
  const Mode0700: bv32 := 0x1C0

  /** -wx------: what removing an entry needs on its parent directory. */
  const OwnerWriteSearch: bv32 := 0xC0

  function Parent(p: Path): Path
    requires |p| > 0
  {
    p[..|p| - 1]
  }

  predicate AtOrBelow(root: Path, p: Path)
  {
    |root| <= |p| && p[..|root|] == root
  }

  predicate Below(root: Path, p: Path)
  {
    |root| < |p| && p[..|root|] == root
  }

  /** `p` is "/" or lies in a directory that exists. */
  ghost predicate InDirectory(fs: Tree, p: Path)
  {
    |p| > 0 ==> Parent(p) in fs && fs[Parent(p)].kind == Dir
  }

  /** Every entry other than "/" lies in a directory that exists. (The
      trigger keeps the solver from climbing from parent to parent on its
      own.) */
  ghost predicate WellFormed(fs: Tree)
  {
    forall p {:trigger InDirectory(fs, p)} :: p in fs ==> InDirectory(fs, p)
  }

  /** Entries may be created in or removed from `d`. */
  predicate Writable(fs: Tree, d: Path)
  {
    d !in fs || fs[d].perm & OwnerWriteSearch == OwnerWriteSearch
  }

  function Subtree(fs: Tree, root: Path): set<Path>
  {
    set p | p in fs && AtOrBelow(root, p)
  }

  /** The filesystem with everything at or below `root` gone. */
  function Outside(fs: Tree, root: Path): (rest: Tree)
    ensures forall p :: p in rest <==> p in fs && !AtOrBelow(root, p)
    ensures forall p :: p in rest ==> rest[p] == fs[p]
  {
    map p | p in fs && !AtOrBelow(root, p) :: fs[p]
  }

  /** A tree described relative to its future root, as a tree copier or
      builder produces it: no entry names the root itself, and every entry
      deeper than one level lies in a directory of the description. */
  ghost predicate WellFormedGraft(added: Tree)
  {
    forall rel :: rel in added ==>
      |rel| > 0 && (|rel| > 1 ==> Parent(rel) in added && added[Parent(rel)].kind == Dir)
  }

  /** A relative description placed under `root`. */
  function Graft(root: Path, added: Tree): (g: Tree)
    ensures forall p :: p in g <==> AtOrBelow(root, p) && p[|root|..] in added
    ensures forall p :: p in g ==> |root| <= |p| && g[p] == added[p[|root|..]]
    ensures forall rel :: rel in added ==> root + rel in g
  {
    assert forall rel :: rel in added ==> (root + rel)[..|root|] == root && (root + rel)[|root|..] == rel;
    assert forall p: Path :: AtOrBelow(root, p) ==> p == root + p[|root|..];
    map rel | rel in added :: root + rel := added[rel]
  }

  // ---------------------------------------------------------------------
  // Orders on paths

  /** Component-wise lexicographic order: the order in which a walk that
      lists each directory in sorted order visits entries (pre-order). */
  predicate PathLess(a: Path, b: Path)
  {
    LexLess(a, b, FileRank.NameLess)
  }

  lemma PathLessTransitive(a: Path, b: Path, c: Path)
    requires PathLess(a, b) && PathLess(b, c)
    ensures PathLess(a, c)
  {
    FileRank.NameLessIsStrictTotalOrder();
    LexTransitive(a, b, c, FileRank.NameLess);
  }

  lemma PathLessConnected(a: Path, b: Path)
    requires a != b
    ensures PathLess(a, b) || PathLess(b, a)
  {
    FileRank.NameLessIsStrictTotalOrder();
    LexConnected(a, b, FileRank.NameLess);
  }

  lemma PathLessIsStrictTotalOrder()
    ensures forall a: Path :: !PathLess(a, a)
    ensures forall a: Path, b: Path, c: Path :: PathLess(a, b) && PathLess(b, c) ==> PathLess(a, c)
    ensures forall a: Path, b: Path :: a != b ==> PathLess(a, b) || PathLess(b, a)
  {
    forall a: Path ensures !PathLess(a, a) {
      LexIrreflexive(a, FileRank.NameLess);
    }
    forall a: Path, b: Path, c: Path | PathLess(a, b) && PathLess(b, c) ensures PathLess(a, c) {
      PathLessTransitive(a, b, c);
    }
    forall a: Path, b: Path | a != b ensures PathLess(a, b) || PathLess(b, a) {
      PathLessConnected(a, b);
    }
  }

  ghost predicate Distinct(s: seq<Path>)
  {
    forall i, j :: 0 <= i < j < |s| ==> s[i] != s[j]
  }

  ghost predicate Sorted(s: seq<Path>)
  {
    forall i, j :: 0 <= i < j < |s| ==> PathLess(s[i], s[j])
  }

  /** A directory comes before everything below it. */
  ghost predicate AncestorsFirst(s: seq<Path>)
  {
    forall i, j :: 0 <= i < |s| && 0 <= j < |s| && Below(s[i], s[j]) ==> i < j
  }

  /** Everything below a path comes before it. */
  ghost predicate DescendantsFirst(s: seq<Path>)
  {
    forall i, j :: 0 <= i < |s| && 0 <= j < |s| && Below(s[i], s[j]) ==> j < i
  }

  /** `order` visits every entry at or below `root` exactly once, each
      directory before its contents. */
  ghost predicate IsWalk(fs: Tree, root: Path, order: seq<Path>)
  {
    Distinct(order) &&
    (forall i :: 0 <= i < |order| ==> order[i] in fs && AtOrBelow(root, order[i])) &&
    (forall p :: p in fs && AtOrBelow(root, p) ==> p in order) &&
    AncestorsFirst(order)
  }

  lemma BelowIsPathLess(a: Path, b: Path)
    requires Below(a, b)
    ensures PathLess(a, b)
  {
    LexPrefix(a, b, FileRank.NameLess);
  }

  /** A sorted sequence has no repeats and lists ancestors first. */
  lemma SortedIsAncestorsFirst(s: seq<Path>)
    requires Sorted(s)
    ensures Distinct(s) && AncestorsFirst(s)
  {
    PathLessIsStrictTotalOrder();
    forall i, j | 0 <= i < |s| && 0 <= j < |s| && Below(s[i], s[j]) ensures i < j {
      BelowIsPathLess(s[i], s[j]);
    }
  }

  /** Every finite non-empty set of paths has a least element. */
  lemma {:induction false} LeastExists(s: set<Path>)
    requires s != {}
    ensures exists m :: m in s && forall q :: q in s && q != m ==> PathLess(m, q)
  {
    var x :| x in s;
    if s != {x} {
      var rest := s - {x};
      LeastExists(rest);
      var m :| m in rest && forall q :: q in rest && q != m ==> PathLess(m, q);
      PathLessConnected(x, m);
      if PathLess(x, m) {
        forall q | q in s && q != x ensures PathLess(x, q) {
          if q != m {
            PathLessTransitive(x, m, q);
          }
        }
      } else {
        assert forall q :: q in s && q != m ==> PathLess(m, q);
      }
    }
  }

  /** The order in which the walk visits `root` and everything below it:
      sorted by PathLess, which is the pre-order of a walk that reads each
      directory's names in sorted order. */
  method WalkOrder(fs: Tree, root: Path) returns (order: seq<Path>)
    ensures IsWalk(fs, root, order)
    ensures Sorted(order)
  {
    var pending := Subtree(fs, root);
    order := [];
    while pending != {}
      invariant pending <= Subtree(fs, root)
      invariant forall i :: 0 <= i < |order| ==> order[i] in Subtree(fs, root) && order[i] !in pending
      invariant forall p :: p in Subtree(fs, root) ==> p in pending || p in order
      invariant Sorted(order)
      invariant forall i, q :: 0 <= i < |order| && q in pending ==> PathLess(order[i], q)
      decreases |pending|
    {
      LeastExists(pending);
      var p :| p in pending && forall q :: q in pending && q != p ==> PathLess(p, q);
      order := order + [p];
      pending := pending - {p};
    }
    SortedIsAncestorsFirst(order);
  }

  // ---------------------------------------------------------------------
  // Trees

  /** A present ancestor of an entry is a directory. */
  lemma {:induction false} AncestorIsDir(fs: Tree, a: Path, q: Path)
    requires WellFormed(fs) && q in fs && Below(a, q)
    ensures a in fs && fs[a].kind == Dir
  {
    assert InDirectory(fs, q);
    var p := Parent(q);
    if p != a {
      assert p[..|a|] == q[..|a|];
      AncestorIsDir(fs, a, p);
    }
  }

  /** Nothing lies below a path that is not a directory of the tree. */
  lemma NothingBelowNonDir(fs: Tree, a: Path, q: Path)
    requires WellFormed(fs) && q in fs && (a !in fs || fs[a].kind != Dir)
    ensures !Below(a, q)
  {
    if Below(a, q) {
      AncestorIsDir(fs, a, q);
    }
  }

  lemma ParentAtOrBelow(root: Path, p: Path)
    requires Below(root, p)
    ensures AtOrBelow(root, Parent(p)) && Below(Parent(p), p)
  {
    assert Parent(p)[..|root|] == p[..|root|];
  }

  lemma AtOrBelowTransitive(a: Path, b: Path, c: Path)
    requires AtOrBelow(a, b) && AtOrBelow(b, c)
    ensures AtOrBelow(a, c)
  {
    assert c[..|b|][..|a|] == c[..|a|];
  }

  /** An entry whose directory lies at or below `root` lies there too. */
  lemma AtOrBelowOfParent(root: Path, p: Path)
    requires |p| > 0
    ensures AtOrBelow(root, Parent(p)) ==> AtOrBelow(root, p)
  {
    if AtOrBelow(root, Parent(p)) {
      assert Parent(p)[..|root|] == p[..|root|];
    }
  }

  /** Removing a whole subtree keeps the tree well formed. */
  lemma OutsideWellFormed(fs: Tree, root: Path)
    requires WellFormed(fs)
    ensures WellFormed(Outside(fs, root))
  {
    forall p | p in Outside(fs, root) ensures InDirectory(Outside(fs, root), p) {
      assert InDirectory(fs, p);
      if |p| > 0 {
        AtOrBelowOfParent(root, p);
      }
    }
  }

  // ---------------------------------------------------------------------
  // Filtering a walk by kind, and reversing

  /** The entries of `s` that are of kind `k` in `fs`, in the order of `s`. */
  function OfKind(s: seq<Path>, fs: Tree, k: Kind): seq<Path>
  {
    if s == [] then []
    else
      var last := s[|s| - 1];
      OfKind(s[..|s| - 1], fs, k) + (if last in fs && fs[last].kind == k then [last] else [])
  }

  /** Extending the walk by one entry extends the filtered list by that
      entry exactly when it is of the kind kept. */
  lemma OfKindSnoc(s: seq<Path>, p: Path, fs: Tree, k: Kind)
    ensures OfKind(s + [p], fs, k) == OfKind(s, fs, k) + (if p in fs && fs[p].kind == k then [p] else [])
  {
    assert (s + [p])[..|s|] == s;
  }

  /** OfKind keeps exactly the entries of that kind, without repeats, and
      never puts a descendant before its ancestor. */
  lemma {:induction false} OfKindFacts(s: seq<Path>, fs: Tree, k: Kind)
    ensures forall x :: x in OfKind(s, fs, k) <==> x in s && x in fs && fs[x].kind == k
    ensures Distinct(s) ==> Distinct(OfKind(s, fs, k))
    ensures AncestorsFirst(s) ==> AncestorsFirst(OfKind(s, fs, k))
  {
    OfKindMembers(s, fs, k);
    if Distinct(s) {
      OfKindDistinct(s, fs, k);
    }
    if AncestorsFirst(s) {
      OfKindAncestorsFirst(s, fs, k);
    }
  }

  lemma {:induction false} OfKindMembers(s: seq<Path>, fs: Tree, k: Kind)
    ensures forall x :: x in OfKind(s, fs, k) <==> x in s && x in fs && fs[x].kind == k
  {
    if s != [] {
      assert s == s[..|s| - 1] + [s[|s| - 1]];
      OfKindMembers(s[..|s| - 1], fs, k);
    }
  }

  lemma {:induction false} OfKindDistinct(s: seq<Path>, fs: Tree, k: Kind)
    requires Distinct(s)
    ensures Distinct(OfKind(s, fs, k))
  {
    if s != [] {
      var init, last := s[..|s| - 1], s[|s| - 1];
      assert s == init + [last];
      assert Distinct(init);
      OfKindDistinct(init, fs, k);
      OfKindMembers(init, fs, k);
      assert last !in init;
    }
  }

  lemma {:induction false} OfKindAncestorsFirst(s: seq<Path>, fs: Tree, k: Kind)
    requires AncestorsFirst(s)
    ensures AncestorsFirst(OfKind(s, fs, k))
  {
    if s != [] {
      var init, last := s[..|s| - 1], s[|s| - 1];
      assert s == init + [last];
      var r, ri := OfKind(s, fs, k), OfKind(init, fs, k);
      assert AncestorsFirst(init) by {
        forall i, j | 0 <= i < |init| && 0 <= j < |init| && Below(init[i], init[j]) ensures i < j {
          assert s[i] == init[i] && s[j] == init[j];
        }
      }
      OfKindAncestorsFirst(init, fs, k);
      if last in fs && fs[last].kind == k {
        OfKindMembers(init, fs, k);
        // no earlier entry of s lies below the last one
        forall j | 0 <= j < |ri| ensures !Below(last, ri[j]) {
          assert ri[j] in init;
          var m :| 0 <= m < |init| && init[m] == ri[j];
          assert s[m] == ri[j] && s[|s| - 1] == last;
        }
        forall i, j | 0 <= i < |r| && 0 <= j < |r| && Below(r[i], r[j]) ensures i < j {
          if i < |ri| && j < |ri| {
            assert r[i] == ri[i] && r[j] == ri[j];
          }
        }
      } else {
        assert r == ri;
      }
    }
  }

  function Reversed(s: seq<Path>): (r: seq<Path>)
    ensures |r| == |s|
  {
    if s == [] then [] else Reversed(s[1..]) + [s[0]]
  }

  lemma {:induction false} ReversedAt(s: seq<Path>, k: nat)
    requires k < |s|
    ensures Reversed(s)[k] == s[|s| - 1 - k]
  {
    if k < |s| - 1 {
      ReversedAt(s[1..], k);
    }
  }

  /** Reversing turns "ancestors first" into "descendants first". */
  lemma ReversedDescendantsFirst(s: seq<Path>)
    requires Distinct(s) && AncestorsFirst(s)
    ensures Distinct(Reversed(s)) && DescendantsFirst(Reversed(s))
    ensures forall x :: x in Reversed(s) <==> x in s
  {
    var r := Reversed(s);
    forall k | 0 <= k < |s| ensures r[k] == s[|s| - 1 - k] {
      ReversedAt(s, k);
    }
    forall x | x in s ensures x in r {
      var m :| 0 <= m < |s| && s[m] == x;
      assert r[|s| - 1 - m] == x;
    }
  }

  /** Non-directories have nothing below them. */
  lemma FilesAreLeaves(fs: Tree, files: seq<Path>, others: seq<Path>)
    requires WellFormed(fs)
    requires forall x :: x in files ==> x in fs && fs[x].kind == File
    requires forall y :: y in others ==> y in fs
    ensures forall a, b :: 0 <= a < |files| && 0 <= b < |others| ==> !Below(files[a], others[b])
  {
    forall a, b | 0 <= a < |files| && 0 <= b < |others| ensures !Below(files[a], others[b]) {
      NothingBelowNonDir(fs, files[a], others[b]);
    }
  }

  /** Leaves first, then directories deepest first: still no repeats, and
      still nothing after a path above it. */
  lemma LeavesThenDirs(files: seq<Path>, rev: seq<Path>)
    requires Distinct(files) && Distinct(rev) && DescendantsFirst(rev)
    requires forall x :: x in files ==> x !in rev
    requires forall a, b :: 0 <= a < |files| && 0 <= b < |files| ==> !Below(files[a], files[b])
    requires forall a, b :: 0 <= a < |files| && 0 <= b < |rev| ==> !Below(files[a], rev[b])
    ensures Distinct(files + rev) && DescendantsFirst(files + rev)
  {
    var log := files + rev;
    assert forall a :: 0 <= a < |files| ==> log[a] == files[a];
    assert forall b :: |files| <= b < |log| ==> log[b] == rev[b - |files|];
    forall a, b | 0 <= a < |log| && 0 <= b < |log| && Below(log[a], log[b]) ensures b < a {
    }
    forall a, b | 0 <= a < b < |log| ensures log[a] != log[b] {
      if a < |files| <= b {
        assert log[a] in files && log[b] in rev;
      }
    }
  }

  /** Entries at or below `root` as the teardown removes them: the
      non-directories in walk order, then the directories from the last
      visited back to position `j`. No path repeats, and nothing is removed
      after a path above it. */
  lemma RemovalLogOrder(fs: Tree, root: Path, order: seq<Path>, j: nat)
    requires WellFormed(fs) && IsWalk(fs, root, order)
    requires j <= |OfKind(order, fs, Dir)|
    ensures Distinct(OfKind(order, fs, File) + Reversed(OfKind(order, fs, Dir)[j..]))
    ensures DescendantsFirst(OfKind(order, fs, File) + Reversed(OfKind(order, fs, Dir)[j..]))
  {
    var files, dirs := OfKind(order, fs, File), OfKind(order, fs, Dir);
    OfKindFacts(order, fs, File);
    OfKindFacts(order, fs, Dir);
    var tail := dirs[j..];
    assert Distinct(tail) && AncestorsFirst(tail) by {
      forall a, b | 0 <= a < |tail| && 0 <= b < |tail| && Below(tail[a], tail[b]) ensures a < b {
        assert tail[a] == dirs[j + a] && tail[b] == dirs[j + b];
      }
    }
    ReversedDescendantsFirst(tail);
    var rev := Reversed(tail);
    FilesAreLeaves(fs, files, files);
    FilesAreLeaves(fs, files, rev);
    LeavesThenDirs(files, rev);
  }
  /** During a walk, the directory holding a visited entry other than the
      root was visited earlier. */
  lemma ParentVisitedFirst(fs: Tree, root: Path, order: seq<Path>, i: nat)
    requires WellFormed(fs) && IsWalk(fs, root, order)
    requires i < |order| && order[i] != root
    ensures Parent(order[i]) in order[..i]
  {
    var p := order[i];
    assert InDirectory(fs, p);
    ParentAtOrBelow(root, p);
    var k :| 0 <= k < |order| && order[k] == Parent(p);
    assert order[..i][k] == Parent(p);
  }

  /** The non-directories among the first `i` visited entries: no repeats,
      and none lies below another. */
  lemma PrefixRemovalOrder(fs: Tree, root: Path, order: seq<Path>, i: nat)
    requires WellFormed(fs) && IsWalk(fs, root, order)
    requires i <= |order|
    ensures Distinct(OfKind(order[..i], fs, File)) && DescendantsFirst(OfKind(order[..i], fs, File))
  {
    var files := OfKind(order[..i], fs, File);
    OfKindFacts(order[..i], fs, File);
    FilesAreLeaves(fs, files, files);
  }
}
