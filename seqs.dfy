/**
 * `Array.prototype.filter` and removal of one index, the two list
 * operations every screen of the application uses, with the facts the rest
 * of the model needs: membership, order preservation and lengths.
 */
module Seqs {

  /** `s.filter(p)`: the elements satisfying `p`, in their original order. */
  function Filter<T>(s: seq<T>, p: T -> bool): (r: seq<T>)
    ensures |r| <= |s|
    ensures forall x | x in r :: x in s && p(x)
    ensures forall x | x in s && p(x) :: x in r
    decreases |s|
  {
    if s == [] then [] else (if p(s[0]) then [s[0]] else []) + Filter(s[1..], p)
  }

  /** Filtering distributes over concatenation. */
  lemma {:induction false} FilterAppend<T>(a: seq<T>, b: seq<T>, p: T -> bool)
    ensures Filter(a + b, p) == Filter(a, p) + Filter(b, p)
    decreases |a|
  {
    if a == [] {
      assert a + b == b;
    } else {
      assert (a + b)[0] == a[0];
      assert (a + b)[1..] == a[1..] + b;
      FilterAppend(a[1..], b, p);
      var h := if p(a[0]) then [a[0]] else [];
      calc {
        Filter(a + b, p);
        h + Filter(a[1..] + b, p);
        h + (Filter(a[1..], p) + Filter(b, p));
        (h + Filter(a[1..], p)) + Filter(b, p);
      }
    }
  }

  lemma FilterSingleton<T>(x: T, p: T -> bool)
    ensures Filter([x], p) == if p(x) then [x] else []
  {
    assert [x][1..] == [];
  }

  /** Filtering a non-empty list: its front, then its last element. */
  lemma FilterSnoc<T>(s: seq<T>, p: T -> bool)
    requires s != []
    ensures Filter(s, p) == Filter(s[..|s| - 1], p) + Filter([s[|s| - 1]], p)
  {
    var n := |s| - 1;
    var init, last := s[..n], [s[n]];
    assert s == init + last;
    FilterAppend(init, last, p);
  }

  /** A filter that keeps everything is the identity. */
  lemma {:induction false} FilterAll<T>(s: seq<T>, p: T -> bool)
    requires forall x | x in s :: p(x)
    ensures Filter(s, p) == s
    decreases |s|
  {
    if s != [] {
      FilterAll(s[1..], p);
    }
  }

  /** A filter that keeps nothing gives the empty list. */
  lemma {:induction false} FilterNone<T>(s: seq<T>, p: T -> bool)
    requires forall x | x in s :: !p(x)
    ensures Filter(s, p) == []
    decreases |s|
  {
    if s != [] {
      FilterNone(s[1..], p);
    }
  }

  /** A filter and its complement split the length of the list between them. */
  lemma {:induction false} FilterComplementLength<T>(s: seq<T>, p: T -> bool, q: T -> bool)
    requires forall x | x in s :: q(x) == !p(x)
    ensures |Filter(s, p)| + |Filter(s, q)| == |s|
    decreases |s|
  {
    if s != [] {
      FilterComplementLength(s[1..], p, q);
    }
  }

  function Shift(ix: seq<nat>): (r: seq<nat>)
    ensures |r| == |ix| && forall k | 0 <= k < |ix| :: r[k] == ix[k] + 1
  {
    seq(|ix|, k requires 0 <= k < |ix| => ix[k] + 1)
  }

  lemma ShiftMember(ix: seq<nat>, i: nat)
    requires i > 0
    ensures i in Shift(ix) <==> i - 1 in ix
  {
    if i - 1 in ix {
      var k :| 0 <= k < |ix| && ix[k] == i - 1;
      assert Shift(ix)[k] == i;
    }
  }

  /** The indices of `s` whose elements satisfy `p`, in increasing order. */
  function Positions<T>(s: seq<T>, p: T -> bool): seq<nat>
    decreases |s|
  {
    if s == [] then [] else (if p(s[0]) then [0] else []) + Shift(Positions(s[1..], p))
  }

  /** Unfolds `Positions` once: the first index if kept, then the rest shifted by one. */
  lemma PositionsCons<T>(s: seq<T>, p: T -> bool)
    requires s != []
    ensures Positions(s, p) == (if p(s[0]) then [0] else []) + Shift(Positions(s[1..], p))
  {
  }

  /** The kept indices are in range. */
  lemma {:induction false} PositionsInRange<T>(s: seq<T>, p: T -> bool)
    ensures forall k | 0 <= k < |Positions(s, p)| :: Positions(s, p)[k] < |s|
    decreases |s|
  {
    if s != [] {
      PositionsInRange(s[1..], p);
      PositionsCons(s, p);
      var sh := Shift(Positions(s[1..], p));
      assert forall k | 0 <= k < |sh| :: sh[k] < |s|;
    }
  }

  /** Shifting keeps a strictly increasing list strictly increasing, and above 0. */
  lemma ShiftIncreasing(ix: seq<nat>)
    requires forall k, l | 0 <= k < l < |ix| :: ix[k] < ix[l]
    ensures forall k | 0 <= k < |Shift(ix)| :: 0 < Shift(ix)[k]
    ensures forall k, l | 0 <= k < l < |Shift(ix)| :: Shift(ix)[k] < Shift(ix)[l]
  {
  }

  /** The kept indices are in range and strictly increasing. */
  lemma {:induction false} PositionsIncreasing<T>(s: seq<T>, p: T -> bool)
    ensures forall k | 0 <= k < |Positions(s, p)| :: Positions(s, p)[k] < |s|
    ensures forall k, l | 0 <= k < l < |Positions(s, p)| :: Positions(s, p)[k] < Positions(s, p)[l]
    decreases |s|
  {
    PositionsInRange(s, p);
    if s != [] {
      var ix' := Positions(s[1..], p);
      PositionsIncreasing(s[1..], p);
      PositionsCons(s, p);
      ShiftIncreasing(ix');
      var sh := Shift(ix');
      if p(s[0]) {
        var ix := [0] + sh;
        forall k, l | 0 <= k < l < |ix| ensures ix[k] < ix[l] {
          assert ix[l] == sh[l - 1];
          if k > 0 { assert ix[k] == sh[k - 1]; }
        }
      }
    }
  }

  /** The kept indices are exactly the positions whose element satisfies `p`. */
  lemma {:induction false} PositionsExact<T>(s: seq<T>, p: T -> bool)
    ensures forall i | 0 <= i < |s| :: p(s[i]) <==> i in Positions(s, p)
    decreases |s|
  {
    if s != [] {
      var ix' := Positions(s[1..], p);
      PositionsExact(s[1..], p);
      var h: seq<nat> := if p(s[0]) then [0] else [];
      var ix := h + Shift(ix');
      assert ix == Positions(s, p);
      forall i | 0 <= i < |s| ensures p(s[i]) <==> i in ix {
        if i > 0 {
          assert s[i] == s[1..][i - 1];
          ShiftMember(ix', i);
          assert 0 !in Shift(ix');
        }
      }
    }
  }

  /** Unfolds `Filter` once. */
  lemma FilterCons<T>(s: seq<T>, p: T -> bool)
    requires s != []
    ensures Filter(s, p) == (if p(s[0]) then [s[0]] else []) + Filter(s[1..], p)
  {
  }

  /** The k-th kept element is `s` at the k-th kept index. */
  lemma {:induction false} FilterAtPositions<T>(s: seq<T>, p: T -> bool)
    ensures |Positions(s, p)| == |Filter(s, p)|
    ensures forall k | 0 <= k < |Positions(s, p)| ::
              Positions(s, p)[k] < |s| && Filter(s, p)[k] == s[Positions(s, p)[k]]
    decreases |s|
  {
    if s != [] {
      var t := s[1..];
      FilterAtPositions(t, p);
      PositionsCons(s, p);
      FilterCons(s, p);
      var ix', f' := Positions(t, p), Filter(t, p);
      var sh := Shift(ix');
      if p(s[0]) {
        var ix, f := [0] + sh, [s[0]] + f';
        forall k | 0 <= k < |ix| ensures ix[k] < |s| && f[k] == s[ix[k]] {
          if k > 0 {
            assert ix[k] == ix'[k - 1] + 1 && f[k] == f'[k - 1];
            assert t[ix'[k - 1]] == s[ix'[k - 1] + 1];
          }
        }
      } else {
        forall k | 0 <= k < |sh| ensures sh[k] < |s| && f'[k] == s[sh[k]] {
          assert t[ix'[k]] == s[ix'[k] + 1];
        }
      }
    }
  }

  /**
   * `r` lists, in their original order, exactly the elements of `s` at the
   * positions `ix` where `p` holds.
   */
  predicate SelectsInOrder<T(==)>(r: seq<T>, s: seq<T>, p: T -> bool, ix: seq<nat>) {
    && |ix| == |r|
    && (forall k | 0 <= k < |ix| :: ix[k] < |s| && r[k] == s[ix[k]])
    && (forall k, l | 0 <= k < l < |ix| :: ix[k] < ix[l])
    && (forall i | 0 <= i < |s| :: p(s[i]) <==> i in ix)
  }

  /** A filter keeps exactly the satisfying elements, in order. */
  lemma FilterSelectsInOrder<T>(s: seq<T>, p: T -> bool)
    ensures SelectsInOrder(Filter(s, p), s, p, Positions(s, p))
  {
    PositionsIncreasing(s, p);
    PositionsExact(s, p);
    FilterAtPositions(s, p);
  }

  /** `s` without the element at index `i`; an index past the end removes nothing. */
  function RemoveAt<T>(s: seq<T>, i: nat): (r: seq<T>)
    ensures |r| == if i < |s| then |s| - 1 else |s|
    ensures forall k | 0 <= k < |r| :: r[k] == s[if k < i then k else k + 1]
  {
    if i < |s| then s[..i] + s[i + 1..] else s
  }

  /** Removing one index keeps every other element, and keeps it once. */
  lemma RemoveAtMultiset<T>(s: seq<T>, i: nat)
    requires i < |s|
    ensures multiset(RemoveAt(s, i)) + multiset{s[i]} == multiset(s)
  {
    assert s == s[..i] + [s[i]] + s[i + 1..];
  }
}
