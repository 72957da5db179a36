/** Strict lexicographic order on sequences, parameterised by a strict order
    on the elements. Go's string `<`, the byte loop of the content comparator
    and the visiting order of a directory walk are all instances of it. */
module Lex {

  /** `a` is strictly below `b`: either `a` is a proper prefix of `b`, or the
      first position where they differ holds a smaller element in `a`. */
  predicate LexLess<T(==)>(a: seq<T>, b: seq<T>, less: (T, T) -> bool)
  {
    if |a| == 0 then |b| > 0
    else if |b| == 0 then false
    else if a[0] == b[0] then LexLess(a[1..], b[1..], less)
    else less(a[0], b[0])
  }

  ghost predicate Irreflexive<T(!new)>(less: (T, T) -> bool)
  {
    forall x: T :: !less(x, x)
  }

  ghost predicate Transitive<T(!new)>(less: (T, T) -> bool)
  {
    forall x: T, y: T, z: T :: less(x, y) && less(y, z) ==> less(x, z)
  }

  ghost predicate Connected<T(!new)>(less: (T, T) -> bool)
  {
    forall x: T, y: T :: x != y ==> less(x, y) || less(y, x)
  }

  /** A strict total order: irreflexive, transitive and connected. */
  ghost predicate StrictTotalOrder<T(!new)>(less: (T, T) -> bool)
  {
    Irreflexive(less) && Transitive(less) && Connected(less)
  }

  /** The first index at which `a` and `b` differ is `k`. */
  ghost predicate FirstDifferenceAt<T>(a: seq<T>, b: seq<T>, k: int)
  {
    0 <= k < |a| && k < |b| && a[..k] == b[..k] && a[k] != b[k]
  }

  /** The independent, non-recursive reading of LexLess: a proper prefix,
      or a smaller element at the first difference. */
  lemma {:induction false} LexLessIff<T>(a: seq<T>, b: seq<T>, less: (T, T) -> bool)
    ensures LexLess(a, b, less) <==>
              (|a| < |b| && a == b[..|a|]) ||
              (exists k :: FirstDifferenceAt(a, b, k) && less(a[k], b[k]))
  {
    if |a| == 0 || |b| == 0 {
      if |a| > 0 {
        assert !(|a| < |b|);
        forall k | FirstDifferenceAt(a, b, k) ensures false { }
      } else if |b| == 0 {
        forall k | FirstDifferenceAt(a, b, k) ensures false { }
      }
    } else if a[0] != b[0] {
      assert FirstDifferenceAt(a, b, 0);
      assert !(|a| < |b| && a == b[..|a|]) by {
        if |a| < |b| { assert b[..|a|][0] == b[0]; }
      }
      forall k | 0 < k <= |a| && k <= |b| ensures a[..k] != b[..k] {
        assert a[..k][0] != b[..k][0];
      }
    } else {
      var a', b' := a[1..], b[1..];
      LexLessIff(a', b', less);
      // prefix case shifts by one
      assert (|a'| < |b'| && a' == b'[..|a'|]) <==> (|a| < |b| && a == b[..|a|]) by {
        if |a| < |b| && a == b[..|a|] {
          assert a' == b[..|a|][1..] == b'[..|a'|];
        }
        if |a'| < |b'| && a' == b'[..|a'|] {
          assert a == [a[0]] + a' && b[..|a|] == [b[0]] + b'[..|a'|];
        }
      }
      // a difference at k in the tails is a difference at k + 1 in the whole
      if exists k :: FirstDifferenceAt(a', b', k) && less(a'[k], b'[k]) {
        var k :| FirstDifferenceAt(a', b', k) && less(a'[k], b'[k]);
        assert a[..k + 1] == [a[0]] + a'[..k] && b[..k + 1] == [b[0]] + b'[..k];
        assert FirstDifferenceAt(a, b, k + 1);
      }
      if exists k :: FirstDifferenceAt(a, b, k) && less(a[k], b[k]) {
        var k :| FirstDifferenceAt(a, b, k) && less(a[k], b[k]);
        assert k != 0;
        assert a'[..k - 1] == a[1..k] && b'[..k - 1] == b[1..k];
        assert a[..k][1..] == a[1..k] && b[..k][1..] == b[1..k];
        assert FirstDifferenceAt(a', b', k - 1);
      }
    }
  }

  /** No sequence is below itself, whatever the element order. */
  lemma {:induction false} LexIrreflexive<T>(a: seq<T>, less: (T, T) -> bool)
    ensures !LexLess(a, a, less)
  {
    if |a| > 0 {
      LexIrreflexive(a[1..], less);
    }
  }

  /** A proper prefix is always below the longer sequence. */
  lemma {:induction false} LexPrefix<T>(a: seq<T>, b: seq<T>, less: (T, T) -> bool)
    requires |a| < |b| && a == b[..|a|]
    ensures LexLess(a, b, less)
  {
    if |a| > 0 {
      assert a[0] == b[0];
      assert a[1..] == b[1..][..|a| - 1];
      LexPrefix(a[1..], b[1..], less);
    }
  }

  lemma {:induction false} LexTransitive<T(!new)>(a: seq<T>, b: seq<T>, c: seq<T>, less: (T, T) -> bool)
    requires Irreflexive(less) && Transitive(less)
    requires LexLess(a, b, less) && LexLess(b, c, less)
    ensures LexLess(a, c, less)
  {
    if |a| > 0 && a[0] == b[0] && b[0] == c[0] {
      LexTransitive(a[1..], b[1..], c[1..], less);
    } else if |a| > 0 && a[0] != b[0] && b[0] != c[0] {
      assert less(a[0], b[0]) && less(b[0], c[0]);
      assert less(a[0], c[0]);
      assert a[0] != c[0];
    }
  }

  lemma {:induction false} LexConnected<T(!new)>(a: seq<T>, b: seq<T>, less: (T, T) -> bool)
    requires Connected(less)
    requires a != b
    ensures LexLess(a, b, less) || LexLess(b, a, less)
  {
    if |a| > 0 && |b| > 0 && a[0] == b[0] {
      assert a == [a[0]] + a[1..] && b == [b[0]] + b[1..];
      LexConnected(a[1..], b[1..], less);
    }
  }

  /** Under a strict order on elements, sequences are never below each other
      in both directions. */
  lemma LexAsymmetric<T(!new)>(a: seq<T>, b: seq<T>, less: (T, T) -> bool)
    requires Irreflexive(less) && Transitive(less)
    ensures !(LexLess(a, b, less) && LexLess(b, a, less))
  {
    if LexLess(a, b, less) && LexLess(b, a, less) {
      LexTransitive(a, b, a, less);
      LexIrreflexive(a, less);
    }
  }

  /** Lifting a strict total order on elements gives one on sequences. */
  lemma LexStrictTotalOrder<T(!new)>(less: (T, T) -> bool)
    requires StrictTotalOrder(less)
    ensures StrictTotalOrder((a: seq<T>, b: seq<T>) => LexLess(a, b, less))
  {
    forall a: seq<T> ensures !LexLess(a, a, less) {
      LexIrreflexive(a, less);
    }
    forall a: seq<T>, b: seq<T>, c: seq<T> | LexLess(a, b, less) && LexLess(b, c, less)
      ensures LexLess(a, c, less)
    {
      LexTransitive(a, b, c, less);
    }
    forall a: seq<T>, b: seq<T> | a != b ensures LexLess(a, b, less) || LexLess(b, a, less) {
      LexConnected(a, b, less);
    }
  }
}
