/**
 Sets of chunk numbers as range_collections keeps them: the sorted boundaries at which membership
 changes, starting from outside. The library is not part of this model; its union, intersection and
 complement are written out here and proved to act pointwise.
 */
module ChunkRanges {

  /** Strictly increasing. */
  ghost predicate Canonical(bs: seq<nat>) {
    forall i, j :: 0 <= i < j < |bs| ==> bs[i] < bs[j]
  }

  /** Whether `x` is in, when membership below the first boundary is `inside`. */
  predicate In(bs: seq<nat>, inside: bool, x: nat) {
    if bs == [] || x < bs[0] then inside else In(bs[1..], !inside, x)
  }

  predicate Contains(bs: seq<nat>, x: nat) {
    In(bs, false, x)
  }

  datatype SetOp = Union | Intersection

  function Apply(op: SetOp, p: bool, q: bool): bool {
    match op
    case Union => p || q
    case Intersection => p && q
  }

  function NextBoundary(a: seq<nat>, b: seq<nat>): nat
    requires a != [] || b != []
  {
    if a == [] then b[0] else if b == [] then a[0] else if a[0] <= b[0] then a[0] else b[0]
  }

  predicate StartsAt(bs: seq<nat>, x: nat) {
    bs != [] && bs[0] == x
  }

  function Past(bs: seq<nat>, x: nat): seq<nat> {
    if StartsAt(bs, x) then bs[1..] else bs
  }

  /** A sweep over the boundaries of both sets, keeping those at which the combination changes. */
  function Merge(op: SetOp, a: seq<nat>, b: seq<nat>, inA: bool, inB: bool): seq<nat>
    decreases |a| + |b|
  {
    if a == [] && b == [] then []
    else
      var x := NextBoundary(a, b);
      var inA', inB' := inA != StartsAt(a, x), inB != StartsAt(b, x);
      var rest := Merge(op, Past(a, x), Past(b, x), inA', inB');
      if Apply(op, inA', inB') == Apply(op, inA, inB) then rest else [x] + rest
  }

  function FromRange(start: nat, end: nat): seq<nat> {
    if start < end then [start, end] else []
  }

  function Complement(bs: seq<nat>): seq<nat> {
    if StartsAt(bs, 0) then bs[1..] else [0] + bs
  }

  /** All of `all` that is not in `bs`. */
  function Missing(bs: seq<nat>): seq<nat> {
    Merge(Intersection, [0], Complement(bs), false, false)
  }

  // ---------------------------------------------------------------- meaning

  ghost predicate AllFrom(bs: seq<nat>, low: nat) {
    forall i :: 0 <= i < |bs| ==> bs[i] >= low
  }

  lemma PrefixIsCanonical(bs: seq<nat>, n: nat)
    requires Canonical(bs) && n <= |bs|
    ensures Canonical(bs[..n])
  {
    assert forall i :: 0 <= i < n ==> bs[..n][i] == bs[i];
  }

  lemma PastIsAbove(bs: seq<nat>, x: nat)
    requires Canonical(bs) && AllFrom(bs, x)
    ensures Canonical(Past(bs, x)) && AllFrom(Past(bs, x), x + 1)
  {
    if StartsAt(bs, x) {
      assert forall i :: 0 <= i < |bs[1..]| ==> bs[1..][i] == bs[i + 1] > bs[0];
    } else if bs != [] {
      assert forall i :: 0 < i < |bs| ==> bs[i] > bs[0];
    }
  }

  lemma NextIsFirst(a: seq<nat>, b: seq<nat>, low: nat)
    requires Canonical(a) && Canonical(b) && (a != [] || b != [])
    requires AllFrom(a, low) && AllFrom(b, low)
    ensures var x := NextBoundary(a, b); x >= low && AllFrom(a, x) && AllFrom(b, x)
  {
    assert forall i :: 0 < i < |a| ==> a[i] > a[0];
    assert forall i :: 0 < i < |b| ==> b[i] > b[0];
  }

  lemma PrependIsCanonical(x: nat, rest: seq<nat>, low: nat)
    requires Canonical(rest) && AllFrom(rest, x + 1) && low <= x
    ensures Canonical([x] + rest) && AllFrom([x] + rest, low) && AllFrom(rest, low)
  {
  }

  lemma {:induction false} MergeIsCanonical(op: SetOp, a: seq<nat>, b: seq<nat>, inA: bool, inB: bool, low: nat)
    requires Canonical(a) && Canonical(b) && AllFrom(a, low) && AllFrom(b, low)
    ensures Canonical(Merge(op, a, b, inA, inB)) && AllFrom(Merge(op, a, b, inA, inB), low)
    decreases |a| + |b|
  {
    if a != [] || b != [] {
      var x := NextBoundary(a, b);
      NextIsFirst(a, b, low);
      PastIsAbove(a, x);
      PastIsAbove(b, x);
      var inA', inB' := inA != StartsAt(a, x), inB != StartsAt(b, x);
      MergeIsCanonical(op, Past(a, x), Past(b, x), inA', inB', x + 1);
      PrependIsCanonical(x, Merge(op, Past(a, x), Past(b, x), inA', inB'), low);
    }
  }

  lemma BelowAll(bs: seq<nat>, inside: bool, x: nat)
    requires AllFrom(bs, x + 1)
    ensures In(bs, inside, x) == inside
  {
  }

  lemma InPast(bs: seq<nat>, inside: bool, next: nat, x: nat)
    requires AllFrom(bs, next) && x >= next
    ensures In(bs, inside, x) == In(Past(bs, next), inside != StartsAt(bs, next), x)
  {
  }

  /** Union and intersection act pointwise. */
  lemma {:induction false} MergeMeaning(op: SetOp, a: seq<nat>, b: seq<nat>, inA: bool, inB: bool, x: nat)
    requires Canonical(a) && Canonical(b)
    ensures In(Merge(op, a, b, inA, inB), Apply(op, inA, inB), x) == Apply(op, In(a, inA, x), In(b, inB, x))
    decreases |a| + |b|
  {
    if a != [] || b != [] {
      var next := NextBoundary(a, b);
      var inA', inB' := inA != StartsAt(a, next), inB != StartsAt(b, next);
      NextIsFirst(a, b, 0);
      PastIsAbove(a, next);
      PastIsAbove(b, next);
      MergeIsCanonical(op, a, b, inA, inB, next);
      if x < next {
        BelowAll(Merge(op, a, b, inA, inB), Apply(op, inA, inB), x);
        BelowAll(a, inA, x);
        BelowAll(b, inB, x);
      } else {
        MergeMeaning(op, Past(a, next), Past(b, next), inA', inB', x);
        InPast(a, inA, next, x);
        InPast(b, inB, next, x);
      }
    }
  }

  lemma UnionMeaning(a: seq<nat>, b: seq<nat>, x: nat)
    requires Canonical(a) && Canonical(b)
    ensures Canonical(Merge(Union, a, b, false, false))
    ensures Contains(Merge(Union, a, b, false, false), x) <==> Contains(a, x) || Contains(b, x)
  {
    MergeIsCanonical(Union, a, b, false, false, 0);
    MergeMeaning(Union, a, b, false, false, x);
  }

  lemma RangeMeaning(start: nat, end: nat, x: nat)
    ensures Canonical(FromRange(start, end))
    ensures Contains(FromRange(start, end), x) <==> start <= x < end
  {
    if start < end {
      var bs := [start, end];
      assert bs[1..] == [end] && bs[1..][1..] == [];
      assert In(bs[1..], true, x) == (x < end);
    }
  }

  lemma {:induction false} OppositeStart(bs: seq<nat>, inside: bool, x: nat)
    ensures In(bs, !inside, x) == !In(bs, inside, x)
  {
    if bs != [] && x >= bs[0] {
      OppositeStart(bs[1..], !inside, x);
    }
  }

  lemma ComplementMeaning(bs: seq<nat>, x: nat)
    requires Canonical(bs)
    ensures Canonical(Complement(bs))
    ensures Contains(Complement(bs), x) <==> !Contains(bs, x)
  {
    if StartsAt(bs, 0) {
      OppositeStart(bs[1..], false, x);
    } else {
      assert ([0] + bs)[1..] == bs;
      OppositeStart(bs, false, x);
    }
  }

  /** What is missing is exactly what is not there. */
  lemma MissingMeaning(bs: seq<nat>, x: nat)
    requires Canonical(bs)
    ensures Canonical(Missing(bs))
    ensures Contains(Missing(bs), x) <==> !Contains(bs, x)
  {
    ComplementMeaning(bs, x);
    MergeIsCanonical(Intersection, [0], Complement(bs), false, false, 0);
    MergeMeaning(Intersection, [0], Complement(bs), false, false, x);
    assert [0][1..] == [];
    assert Contains([0], x);
  }

  // ---------------------------------------------------------------- canonical lists are unique

  lemma FirstBoundaryShows(bs: seq<nat>, inside: bool)
    requires Canonical(bs) && bs != []
    ensures In(bs, inside, bs[0]) == !inside
  {
    BelowAll(bs[1..], !inside, bs[0]);
  }

  ghost predicate AlikeAt(a: seq<nat>, b: seq<nat>, inside: bool, x: nat) {
    In(a, inside, x) == In(b, inside, x)
  }

  ghost predicate SameSet(a: seq<nat>, b: seq<nat>, inside: bool) {
    forall x: nat :: AlikeAt(a, b, inside, x)
  }

  lemma SameSetTail(a: seq<nat>, b: seq<nat>, inside: bool)
    requires Canonical(a) && Canonical(b) && a != [] && b != [] && a[0] == b[0]
    requires SameSet(a, b, inside)
    ensures SameSet(a[1..], b[1..], !inside)
  {
    var a', b', outside := a[1..], b[1..], !inside;
    forall x: nat
      ensures AlikeAt(a', b', outside, x)
    {
      assert AlikeAt(a, b, inside, x);
      if x < a[0] {
        BelowAll(a[1..], !inside, x);
        BelowAll(b[1..], !inside, x);
      }
    }
  }

  /** Two canonical lists that denote the same set are the same list. */
  lemma {:induction false} CanonicalIsUnique(a: seq<nat>, b: seq<nat>, inside: bool)
    requires Canonical(a) && Canonical(b) && SameSet(a, b, inside)
    ensures a == b
  {
    if a != [] {
      FirstBoundaryShows(a, inside);
      assert AlikeAt(a, b, inside, a[0]);
      assert In(b, inside, a[0]) == !inside;
      assert b != [] && b[0] <= a[0];
    }
    if b != [] {
      FirstBoundaryShows(b, inside);
      assert AlikeAt(a, b, inside, b[0]);
      assert In(a, inside, b[0]) == !inside;
      assert a != [] && a[0] <= b[0];
    }
    if a != [] {
      SameSetTail(a, b, inside);
      CanonicalIsUnique(a[1..], b[1..], !inside);
      assert a == [a[0]] + a[1..] && b == [b[0]] + b[1..];
    }
  }
}
