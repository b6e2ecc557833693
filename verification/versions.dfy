/**
 The release segment of a PEP 440 version ("Final releases" in PEP 440) and its
 ordering. A release is a non-empty sequence of numeric components; two releases
 are compared component by component, the shorter one padded with zeros, so that
 1.0 and 1.0.0 are the same release.

 The `packaging` library realises this ordering by dropping trailing zero
 components and comparing what is left as Python tuples; `TrimmedKeyOrder`
 proves the two definitions agree.
 */
module Versions {

  type Release = seq<nat>

  datatype Ordering = Less | Equal | Greater {
    function Flip(): Ordering {
      match this
      case Less => Greater
      case Equal => Equal
      case Greater => Less
    }
  }

  /** Component `i` of `v`, padded with zeros past its end. */
  function At(v: Release, i: nat): nat {
    if i < |v| then v[i] else 0
  }

  function Tail(v: Release): Release {
    if |v| == 0 then [] else v[1..]
  }

  /** Padded lexicographic comparison of two release segments. */
  function Compare(a: Release, b: Release): Ordering
    decreases |a| + |b|
  {
    if |a| == 0 && |b| == 0 then Equal
    else if At(a, 0) < At(b, 0) then Less
    else if At(a, 0) > At(b, 0) then Greater
    else Compare(Tail(a), Tail(b))
  }

  /** `a > b`, as `Version.__gt__` answers it. */
  predicate Newer(a: Release, b: Release) {
    Compare(a, b) == Greater
  }

  /** `a >= b`. */
  predicate AtLeast(a: Release, b: Release) {
    Compare(a, b) != Less
  }

  // ---------------------------------------------------------------------------
  // Reference definition: componentwise, padded with zeros.
  // ---------------------------------------------------------------------------

  ghost predicate SameRelease(a: Release, b: Release) {
    forall i: nat :: At(a, i) == At(b, i)
  }

  /** `a` and `b` agree before component `k` and `a` is smaller at `k`. */
  ghost predicate SmallerAt(a: Release, b: Release, k: nat) {
    At(a, k) < At(b, k) && forall i: nat :: i < k ==> At(a, i) == At(b, i)
  }

  ghost predicate PaddedLess(a: Release, b: Release) {
    exists k: nat :: SmallerAt(a, b, k)
  }

  lemma AtTail(v: Release, i: nat)
    ensures At(Tail(v), i) == At(v, i + 1)
  {
  }

  /** `Compare` says Equal exactly when the padded components all agree. */
  lemma {:induction false} CompareEqual(a: Release, b: Release)
    ensures Compare(a, b) == Equal <==> SameRelease(a, b)
    decreases |a| + |b|
  {
    if |a| == 0 && |b| == 0 {
    } else if At(a, 0) != At(b, 0) {
    } else {
      CompareEqual(Tail(a), Tail(b));
      if SameRelease(a, b) {
        forall i: nat ensures At(Tail(a), i) == At(Tail(b), i) {
          AtTail(a, i);
          AtTail(b, i);
        }
      }
      if SameRelease(Tail(a), Tail(b)) {
        forall i: nat ensures At(a, i) == At(b, i) {
          if i > 0 {
            AtTail(a, i - 1);
            AtTail(b, i - 1);
          }
        }
      }
    }
  }

  /** `Compare` says Less exactly when the first differing padded component of `a` is smaller. */
  lemma {:induction false} CompareLess(a: Release, b: Release)
    ensures Compare(a, b) == Less <==> PaddedLess(a, b)
    decreases |a| + |b|
  {
    if |a| == 0 && |b| == 0 {
      forall k: nat ensures !SmallerAt(a, b, k) {
        assert At(a, k) == 0 && At(b, k) == 0;
      }
    } else if At(a, 0) < At(b, 0) {
      assert SmallerAt(a, b, 0);
    } else if At(a, 0) > At(b, 0) {
      forall k: nat ensures !SmallerAt(a, b, k) {
        assert At(a, 0) != At(b, 0);
      }
    } else {
      CompareLess(Tail(a), Tail(b));
      if PaddedLess(a, b) {
        var k: nat :| SmallerAt(a, b, k);
        assert k > 0;
        ShiftSmallerDown(a, b, k);
      }
      if PaddedLess(Tail(a), Tail(b)) {
        var k: nat :| SmallerAt(Tail(a), Tail(b), k);
        ShiftSmallerUp(a, b, k);
      }
    }
  }

  lemma ShiftSmallerDown(a: Release, b: Release, k: nat)
    requires k > 0 && SmallerAt(a, b, k)
    ensures SmallerAt(Tail(a), Tail(b), k - 1)
  {
    AtTail(a, k - 1);
    AtTail(b, k - 1);
    forall i: nat | i < k - 1 ensures At(Tail(a), i) == At(Tail(b), i) {
      AtTail(a, i);
      AtTail(b, i);
    }
  }

  lemma ShiftSmallerUp(a: Release, b: Release, k: nat)
    requires At(a, 0) == At(b, 0) && SmallerAt(Tail(a), Tail(b), k)
    ensures SmallerAt(a, b, k + 1)
  {
    AtTail(a, k);
    AtTail(b, k);
    forall i: nat | i < k + 1 ensures At(a, i) == At(b, i) {
      if i > 0 {
        AtTail(a, i - 1);
        AtTail(b, i - 1);
      }
    }
  }

  // ---------------------------------------------------------------------------
  // Ordering laws.
  // ---------------------------------------------------------------------------

  /** Swapping the arguments flips the answer; in particular `a >= b` or `b >= a`. */
  lemma {:induction false} CompareFlip(a: Release, b: Release)
    ensures Compare(b, a) == Compare(a, b).Flip()
    decreases |a| + |b|
  {
    if !(|a| == 0 && |b| == 0) && At(a, 0) == At(b, 0) {
      CompareFlip(Tail(a), Tail(b));
    }
  }

  lemma {:induction false} CompareReflexive(a: Release)
    ensures Compare(a, a) == Equal
    decreases |a|
  {
    if |a| > 0 {
      CompareReflexive(Tail(a));
    }
  }

  /** `>=` is transitive, and strictly so when either step is strict. */
  lemma {:induction false} CompareTransitive(a: Release, b: Release, c: Release)
    requires AtLeast(a, b) && AtLeast(b, c)
    ensures AtLeast(a, c)
    ensures Newer(a, b) || Newer(b, c) ==> Newer(a, c)
    decreases |a| + |b| + |c|
  {
    if |a| == 0 && |b| == 0 {
      if |c| > 0 && At(b, 0) == At(c, 0) {
        assert Tail(a) == a && Tail(b) == b;
        CompareTransitive(Tail(a), Tail(b), Tail(c));
      }
    } else if At(a, 0) == At(b, 0) && At(b, 0) == At(c, 0) {
      if |b| == 0 && |c| == 0 {
        assert Tail(b) == b && Tail(c) == c;
      }
      CompareTransitive(Tail(a), Tail(b), Tail(c));
    }
  }

  // ---------------------------------------------------------------------------
  // The `packaging` key: trailing zeros dropped, then Python tuple order.
  // ---------------------------------------------------------------------------

  /** The release with its trailing zero components removed. */
  function Trim(v: Release): (t: Release)
    ensures |t| <= |v| && t == v[..|t|]
    ensures forall i :: |t| <= i < |v| ==> v[i] == 0
    ensures |t| == 0 || t[|t| - 1] != 0
  {
    if |v| > 0 && v[|v| - 1] == 0 then Trim(v[..|v| - 1]) else v
  }

  /** Python's `<` on two tuples of integers: first difference decides, a proper prefix is smaller. */
  predicate TupleLess(a: Release, b: Release)
    decreases |a|
  {
    if |a| == 0 then |b| > 0
    else if |b| == 0 then false
    else if a[0] != b[0] then a[0] < b[0]
    else TupleLess(a[1..], b[1..])
  }

  predicate Trimmed(v: Release) {
    |v| == 0 || v[|v| - 1] != 0
  }

  /**
   Comparing padded releases is comparing their trimmed forms as tuples:
   `Version("1.0") == Version("1.0.0")` and `Version("1.2") < Version("1.10")`.
   */
  lemma TrimmedKeyOrder(a: Release, b: Release)
    ensures Compare(a, b) == Equal <==> Trim(a) == Trim(b)
    ensures Compare(a, b) == Less <==> TupleLess(Trim(a), Trim(b))
  {
    SameAsTrim(a);
    SameAsTrim(b);
    CompareRespectsSame(a, Trim(a), b);
    CompareRespectsSame(b, Trim(b), Trim(a));
    CompareFlip(Trim(a), b);
    CompareFlip(Trim(a), Trim(b));
    TrimmedCompare(Trim(a), Trim(b));
  }

  lemma SameAsTrim(v: Release)
    ensures SameRelease(v, Trim(v))
  {
  }

  /** `Compare` only looks at padded components. */
  lemma {:induction false} CompareRespectsSame(a: Release, a': Release, b: Release)
    requires SameRelease(a, a')
    ensures Compare(a, b) == Compare(a', b)
    decreases |a| + |a'| + |b|
  {
    assert At(a, 0) == At(a', 0);
    forall i: nat ensures At(Tail(a), i) == At(Tail(a'), i) {
      AtTail(a, i);
      AtTail(a', i);
    }
    if |a| == 0 && |b| == 0 && |a'| > 0 {
      assert Tail(a) == a && Tail(b) == b;
      CompareRespectsSame(Tail(a), Tail(a'), Tail(b));
    } else if |a'| == 0 && |b| == 0 && |a| > 0 {
      assert Tail(a') == a' && Tail(b) == b;
      CompareRespectsSame(Tail(a), Tail(a'), Tail(b));
    } else if !(|a| == 0 && |b| == 0) && !(|a'| == 0 && |b| == 0) && At(a, 0) == At(b, 0) {
      CompareRespectsSame(Tail(a), Tail(a'), Tail(b));
    }
  }

  /** On trimmed releases `Compare` is equality plus Python tuple order. */
  lemma {:induction false} TrimmedCompare(x: Release, y: Release)
    requires Trimmed(x) && Trimmed(y)
    ensures Compare(x, y) == Equal <==> x == y
    ensures Compare(x, y) == Less <==> TupleLess(x, y)
    decreases |x| + |y|
  {
    if |x| == 0 && |y| == 0 {
    } else if |x| == 0 {
      EmptyBelowTrimmed(y);
    } else if |y| == 0 {
      EmptyBelowTrimmed(x);
      CompareFlip(x, y);
    } else if x[0] != y[0] {
    } else {
      TrimmedCompare(x[1..], y[1..]);
      if x[1..] == y[1..] {
        assert x == [x[0]] + x[1..] && y == [y[0]] + y[1..];
      }
    }
  }

  /** A non-empty trimmed release is above the empty one. */
  lemma {:induction false} EmptyBelowTrimmed(y: Release)
    requires |y| > 0 && Trimmed(y)
    ensures Compare([], y) == Less
    decreases |y|
  {
    if y[0] == 0 {
      assert |y| > 1;
      assert Tail([]) == [];
      EmptyBelowTrimmed(y[1..]);
    }
  }
}
