/** The comparison operators of `nexus::vector<T>`. Equality compares sizes
    and then elements pointwise; `<` is `std::lexicographical_compare` over the
    live elements with the element order `lt`; `!=`, `<=`, `>` and `>=` are
    derived from `==` and `<`. Capacities play no part. */
module Relational {
  import opened Storage

  /** `lt` is a strict total order on `T`. */
  ghost predicate StrictTotalOrder<T(!new)>(lt: (T, T) -> bool) {
    && (forall x :: !lt(x, x))
    && (forall x, y, z :: lt(x, y) && lt(y, z) ==> lt(x, z))
    && (forall x, y :: x != y ==> lt(x, y) || lt(y, x))
  }

  /** `operator==`: equal sizes, then every pair of elements equal. */
  function Equal<T(==)>(lhs: Vector<T>, rhs: Vector<T>): (b: bool)
    requires lhs.Valid() && rhs.Valid()
    ensures b <==> lhs.Contents() == rhs.Contents()
  {
    lhs.size == rhs.size && forall i :: 0 <= i < lhs.size ==> lhs.slots[i] == rhs.slots[i]
  }

  /** `operator!=`. */
  function NotEqual<T(==)>(lhs: Vector<T>, rhs: Vector<T>): (b: bool)
    requires lhs.Valid() && rhs.Valid()
    ensures b <==> lhs.Contents() != rhs.Contents()
  {
    !Equal(lhs, rhs)
  }

  /** `std::lexicographical_compare`, one step per element: when either
      sequence is exhausted, `a` is less exactly when only `a` is; otherwise
      `a`'s element coming first means less, `b`'s element coming first
      means not less, and neither moves on to the next pair. Whatever `lt`
      is, a `true` answer comes from `a` running out first or from a position
      where `a`'s element comes first. */
  function LexCompare<T>(a: seq<T>, b: seq<T>, lt: (T, T) -> bool): (r: bool)
    ensures |a| == 0 ==> (r <==> |b| > 0)
    ensures r ==> |b| > 0
    ensures r ==> |a| < |b| || exists k :: 0 <= k < |a| && k < |b| && lt(a[k], b[k])
    decreases |a|
  {
    if |a| == 0 || |b| == 0 then |a| == 0 && |b| != 0
    else if lt(a[0], b[0]) then true
    else if lt(b[0], a[0]) then false
    else
      var r := LexCompare(a[1..], b[1..], lt);
      assert r && |a| >= |b| ==> exists k :: 0 <= k < |a| && k < |b| && lt(a[k], b[k]) by {
        if r && |a| >= |b| {
          var k :| 0 <= k < |a| - 1 && k < |b| - 1 && lt(a[1..][k], b[1..][k]);
          assert lt(a[k + 1], b[k + 1]);
        }
      }
      r
  }

  /** Lexicographic order stated directly: `a` is a proper prefix of `b`, or
      the first position where they differ holds a smaller element in `a`. */
  ghost predicate LexLess<T>(a: seq<T>, b: seq<T>, lt: (T, T) -> bool) {
    || (|a| < |b| && a == b[..|a|])
    || exists k :: 0 <= k < |a| && k < |b| && a[..k] == b[..k] && lt(a[k], b[k])
  }

  /** `operator<`: for a strict total order on the elements, the
      lexicographic order of the live elements. */
  function Less<T(!new)>(lhs: Vector<T>, rhs: Vector<T>, lt: (T, T) -> bool): (r: bool)
    requires lhs.Valid() && rhs.Valid()
    ensures StrictTotalOrder(lt) ==> (r <==> LexLess(lhs.Contents(), rhs.Contents(), lt))
  {
    OrderedComparison(lhs.Contents(), rhs.Contents(), lt);
    LexCompare(lhs.Contents(), rhs.Contents(), lt)
  }

  /** `operator<=`: not `rhs < lhs`, which for a strict total order on the
      elements means `lhs < rhs` or `lhs == rhs`. */
  function LessEq<T(!new)>(lhs: Vector<T>, rhs: Vector<T>, lt: (T, T) -> bool): (r: bool)
    requires lhs.Valid() && rhs.Valid()
    ensures StrictTotalOrder(lt) ==> (r <==> Less(lhs, rhs, lt) || lhs.Contents() == rhs.Contents())
  {
    OrderedComparison(lhs.Contents(), rhs.Contents(), lt);
    !Less(rhs, lhs, lt)
  }

  /** `operator>`: `rhs < lhs`, which for a strict total order on the elements
      is the lexicographic order with the operands exchanged. */
  function Greater<T(!new)>(lhs: Vector<T>, rhs: Vector<T>, lt: (T, T) -> bool): (r: bool)
    requires lhs.Valid() && rhs.Valid()
    ensures StrictTotalOrder(lt) ==> (r <==> LexLess(rhs.Contents(), lhs.Contents(), lt))
  {
    Less(rhs, lhs, lt)
  }

  /** `operator>=`: not `lhs < rhs`, which for a strict total order on the
      elements means `lhs > rhs` or `lhs == rhs`. */
  function GreaterEq<T(!new)>(lhs: Vector<T>, rhs: Vector<T>, lt: (T, T) -> bool): (r: bool)
    requires lhs.Valid() && rhs.Valid()
    ensures StrictTotalOrder(lt) ==> (r <==> Greater(lhs, rhs, lt) || lhs.Contents() == rhs.Contents())
  {
    OrderedComparison(lhs.Contents(), rhs.Contents(), lt);
    !Less(lhs, rhs, lt)
  }

  /** What the comparison lemmas give when `lt` is a strict total order. */
  lemma OrderedComparison<T(!new)>(a: seq<T>, b: seq<T>, lt: (T, T) -> bool)
    ensures StrictTotalOrder(lt) ==> (LexCompare(a, b, lt) <==> LexLess(a, b, lt))
    ensures StrictTotalOrder(lt) ==> (LexCompare(b, a, lt) <==> LexLess(b, a, lt))
    ensures StrictTotalOrder(lt) && a == b ==> !LexCompare(a, b, lt) && !LexCompare(b, a, lt)
    ensures StrictTotalOrder(lt) && a != b ==> (LexCompare(a, b, lt) <==> !LexCompare(b, a, lt))
  {
    if StrictTotalOrder(lt) {
      LexCompareIsLexLess(a, b, lt);
      LexCompareIsLexLess(b, a, lt);
      LexCompareTrichotomy(a, b, lt);
    }
  }

  /** The step-by-step comparison decides exactly the lexicographic order. */
  lemma {:induction false} LexCompareIsLexLess<T(!new)>(a: seq<T>, b: seq<T>, lt: (T, T) -> bool)
    requires StrictTotalOrder(lt)
    ensures LexCompare(a, b, lt) <==> LexLess(a, b, lt)
    decreases |a|
  {
    if |a| == 0 || |b| == 0 {
      if |a| == 0 {
        assert |b| > 0 ==> a == b[..|a|];
      }
    } else if lt(a[0], b[0]) {
      assert a[..0] == b[..0];
    } else if lt(b[0], a[0]) {
      // No common prefix is longer than zero, and at zero `b` comes first.
      assert a[0] != b[0];
      forall k | 0 < k <= |a| && k <= |b|
        ensures a[..k] != b[..k]
      {
        assert a[..k][0] == a[0] && b[..k][0] == b[0];
      }
      assert a[..|a|] == a;
    } else {
      assert a[0] == b[0];
      var a', b' := a[1..], b[1..];
      LexCompareIsLexLess(a', b', lt);
      if |a'| < |b'| && a' == b'[..|a'|] {
        assert a == b[..|a|];
      }
      if |a| < |b| && a == b[..|a|] {
        assert a' == b'[..|a'|];
      }
      if k' :| 0 <= k' < |a'| && k' < |b'| && a'[..k'] == b'[..k'] && lt(a'[k'], b'[k']) {
        assert a[..k' + 1] == [a[0]] + a'[..k'];
        assert b[..k' + 1] == [b[0]] + b'[..k'];
        assert a[..k' + 1] == b[..k' + 1] && lt(a[k' + 1], b[k' + 1]);
      }
      if k :| 0 <= k < |a| && k < |b| && a[..k] == b[..k] && lt(a[k], b[k]) {
        assert k != 0;
        assert a'[..k - 1] == a[..k][1..];
        assert b'[..k - 1] == b[..k][1..];
        assert a'[..k - 1] == b'[..k - 1] && lt(a'[k - 1], b'[k - 1]);
      }
    }
  }

  /** For a strict total order, equal sequences are not less either way, and
      of two different sequences exactly one is less than the other. */
  lemma {:induction false} LexCompareTrichotomy<T(!new)>(a: seq<T>, b: seq<T>, lt: (T, T) -> bool)
    requires StrictTotalOrder(lt)
    ensures a == b ==> !LexCompare(a, b, lt) && !LexCompare(b, a, lt)
    ensures a != b ==> (LexCompare(a, b, lt) <==> !LexCompare(b, a, lt))
    decreases |a|
  {
    if |a| > 0 && |b| > 0 {
      if lt(b[0], a[0]) || lt(a[0], b[0]) {
        assert !(lt(b[0], a[0]) && lt(a[0], b[0]));
      } else {
        assert a[0] == b[0];
        LexCompareTrichotomy(a[1..], b[1..], lt);
        assert a == b <==> a[1..] == b[1..] by {
          if a[1..] == b[1..] {
            assert a == [a[0]] + a[1..] && b == [b[0]] + b[1..];
          }
        }
      }
    }
  }

  /** For a strict total order on the elements, exactly one of `lhs < rhs`,
      `lhs == rhs` and `lhs > rhs` holds. */
  lemma Trichotomy<T(!new)>(lhs: Vector<T>, rhs: Vector<T>, lt: (T, T) -> bool)
    requires lhs.Valid() && rhs.Valid() && StrictTotalOrder(lt)
    ensures Less(lhs, rhs, lt) ==> !Equal(lhs, rhs) && !Greater(lhs, rhs, lt)
    ensures Equal(lhs, rhs) ==> !Less(lhs, rhs, lt) && !Greater(lhs, rhs, lt)
    ensures Less(lhs, rhs, lt) || Equal(lhs, rhs) || Greater(lhs, rhs, lt)
  {
    LexCompareTrichotomy(lhs.Contents(), rhs.Contents(), lt);
  }

  /** For a strict total order on the elements, the derived operators mean
      what their names say. */
  lemma DerivedOperators<T(!new)>(lhs: Vector<T>, rhs: Vector<T>, lt: (T, T) -> bool)
    requires lhs.Valid() && rhs.Valid() && StrictTotalOrder(lt)
    ensures LessEq(lhs, rhs, lt) <==> Less(lhs, rhs, lt) || Equal(lhs, rhs)
    ensures GreaterEq(lhs, rhs, lt) <==> Greater(lhs, rhs, lt) || Equal(lhs, rhs)
    ensures Greater(lhs, rhs, lt) <==> Less(rhs, lhs, lt)
    ensures NotEqual(lhs, rhs) <==> !Equal(lhs, rhs)
  {
    LexCompareTrichotomy(lhs.Contents(), rhs.Contents(), lt);
  }

  /** `operator<` is the lexicographic order of the live elements. */
  lemma LessIsLexicographic<T(!new)>(lhs: Vector<T>, rhs: Vector<T>, lt: (T, T) -> bool)
    requires lhs.Valid() && rhs.Valid() && StrictTotalOrder(lt)
    ensures Less(lhs, rhs, lt) <==> LexLess(lhs.Contents(), rhs.Contents(), lt)
  {
    LexCompareIsLexLess(lhs.Contents(), rhs.Contents(), lt);
  }

  /** The usual order on integers, as an element order. */
  function IntLess(x: int, y: int): bool {
    x < y
  }

  /** Integer vectors ordered by `<`: `[1,2,3] < [1,2,4]`, `[1,2] < [1,2,3]`,
      and `[1,2,3] == [1,2,3]` whatever the capacities. */
  lemma IntegerExamples()
    ensures Less(Vector([1, 2, 3], 3), Vector([1, 2, 4], 3), IntLess)
    ensures Less(Vector([1, 2, 9, 9], 2), Vector([1, 2, 3], 3), IntLess)
    ensures Equal(Vector([1, 2, 3], 3), Vector([1, 2, 3, 0], 3))
    ensures !Less(Vector([1, 2, 3], 3), Vector([1, 2, 3], 3), IntLess)
  {
    assert Vector([1, 2, 3], 3).Contents() == [1, 2, 3];
    assert Vector([1, 2, 4], 3).Contents() == [1, 2, 4];
    assert Vector([1, 2, 9, 9], 2).Contents() == [1, 2];
    assert Vector([1, 2, 3, 0], 3).Contents() == [1, 2, 3];
    assert [1, 2, 3][1..] == [2, 3] && [2, 3][1..] == [3] && [3][1..] == [];
    assert [1, 2, 4][1..] == [2, 4] && [2, 4][1..] == [4];
    assert [1, 2][1..] == [2] && [2][1..] == [];
    assert LexCompare([3], [4], IntLess);
    assert LexCompare([2, 3], [2, 4], IntLess);
    assert LexCompare([], [3], IntLess);
    assert LexCompare([2], [2, 3], IntLess);
    assert !LexCompare([], [], IntLess);
    assert !LexCompare([3], [3], IntLess);
    assert !LexCompare([2, 3], [2, 3], IntLess);
  }
}
