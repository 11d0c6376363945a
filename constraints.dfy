/** The placement rule both coaster programs apply to a candidate coaster
    against the coasters already placed (`check_coaster_constraints` in
    new_puzzle_costers.py and in puzzleshape.py). A candidate is admissible
    when three conditions hold:
    1. shared gap: the hole of some placed coaster holds, deeper than the
       tolerance, both a vertex of the candidate's outer boundary and a
       vertex of its inner boundary;
    2. clear vertices: no vertex of the candidate lies inside a placed ring
       or closer than the tolerance to its boundary;
    3. at most one significant overlap: fewer than two placed rings meet the
       candidate's ring in more than the threshold area. */
module Constraints {
  import opened Geometry

  /** Point p lies inside the hole of the coaster at s, further than tol
      from the hole's boundary. */
  predicate DeepInHole(g: Shapes, s: Placement, p: Point, tol: real)
  {
    g.holeContains(s, p) && g.holeBoundaryDist(s, p) > tol
  }

  predicate SomeDeep(g: Shapes, s: Placement, pts: seq<Point>, tol: real)
  {
    exists i :: 0 <= i < |pts| && DeepInHole(g, s, pts[i], tol)
  }

  /** Condition 1. */
  predicate SharedGap(g: Shapes, existing: seq<Placement>, outerPts: seq<Point>, innerPts: seq<Point>, tol: real)
  {
    exists s :: s in existing && SomeDeep(g, s, outerPts, tol) && SomeDeep(g, s, innerPts, tol)
  }

  /** Point p lies inside the ring at s or within tol of its boundary. */
  predicate TooClose(g: Shapes, s: Placement, p: Point, tol: real)
  {
    g.ringContains(s, p) || g.ringBoundaryDist(s, p) < tol
  }

  /** Condition 2. */
  predicate VerticesClear(g: Shapes, existing: seq<Placement>, pts: seq<Point>, tol: real)
  {
    forall s, p :: s in existing && p in pts ==> !TooClose(g, s, p, tol)
  }

  predicate Heavy(g: Shapes, cand: Placement, s: Placement, thr: real)
  {
    g.interArea(cand, s) > thr
  }

  /** How many placed rings meet the candidate's ring in more than thr. */
  function OverlapCount(g: Shapes, cand: Placement, existing: seq<Placement>, thr: real): nat
  {
    if |existing| == 0 then 0
    else OverlapCount(g, cand, existing[..|existing| - 1], thr)
         + (if Heavy(g, cand, existing[|existing| - 1], thr) then 1 else 0)
  }

  /** All three conditions (condition 3 is the count staying below two). */
  predicate Admissible(g: Shapes, cand: Placement, existing: seq<Placement>,
                       outerPts: seq<Point>, innerPts: seq<Point>, tol: real, thr: real)
  {
    && SharedGap(g, existing, outerPts, innerPts, tol)
    && VerticesClear(g, existing, outerPts + innerPts, tol)
    && OverlapCount(g, cand, existing, thr) < 2
  }

  /** The three flag loops of `check_coaster_constraints`, each stopping at
      its first decisive coaster or vertex, given the candidate's outer and
      inner vertex lists. The answer is exactly admissibility. */
  method Check(g: Shapes, cand: Placement, existing: seq<Placement>,
               outerPts: seq<Point>, innerPts: seq<Point>, tol: real, thr: real)
    returns (ok: bool)
    ensures ok <==> Admissible(g, cand, existing, outerPts, innerPts, tol, thr)
  {
    // condition 1: shared gap
    var cond1 := false;
    for e := 0 to |existing|
      invariant !cond1
      invariant forall e' :: 0 <= e' < e ==>
        !(SomeDeep(g, existing[e'], outerPts, tol) && SomeDeep(g, existing[e'], innerPts, tol))
    {
      var s := existing[e];
      for a := 0 to |outerPts|
        invariant !cond1
        invariant forall a' :: 0 <= a' < a ==> !(DeepInHole(g, s, outerPts[a'], tol) && SomeDeep(g, s, innerPts, tol))
      {
        if g.holeContains(s, outerPts[a]) && g.holeBoundaryDist(s, outerPts[a]) > tol {
          for b := 0 to |innerPts|
            invariant !cond1
            invariant forall b' :: 0 <= b' < b ==> !DeepInHole(g, s, innerPts[b'], tol)
          {
            if g.holeContains(s, innerPts[b]) && g.holeBoundaryDist(s, innerPts[b]) > tol {
              cond1 := true;
              break;
            }
          }
        }
        if cond1 {
          break;
        }
      }
      if cond1 {
        assert s in existing;
        break;
      }
    }
    assert cond1 <==> SharedGap(g, existing, outerPts, innerPts, tol);

    // condition 2: no candidate vertex in or near a placed ring
    var cond2 := true;
    var pts := outerPts + innerPts;
    for e := 0 to |existing|
      invariant cond2
      invariant forall e', i :: 0 <= e' < e && 0 <= i < |pts| ==> !TooClose(g, existing[e'], pts[i], tol)
    {
      var s := existing[e];
      for i := 0 to |pts|
        invariant cond2
        invariant forall i' :: 0 <= i' < i ==> !TooClose(g, s, pts[i'], tol)
      {
        if g.ringContains(s, pts[i]) || g.ringBoundaryDist(s, pts[i]) < tol {
          assert s in existing && pts[i] in pts;
          cond2 := false;
          break;
        }
      }
      if !cond2 {
        break;
      }
    }
    if cond2 {
      forall s, p | s in existing && p in pts
        ensures !TooClose(g, s, p, tol)
      {
        var e :| 0 <= e < |existing| && existing[e] == s;
        var i :| 0 <= i < |pts| && pts[i] == p;
      }
    }
    assert cond2 <==> VerticesClear(g, existing, pts, tol);

    // condition 3: fewer than two significant overlaps
    var cond3 := true;
    var count := 0;
    for e := 0 to |existing|
      invariant cond3 && count < 2
      invariant count == OverlapCount(g, cand, existing[..e], thr)
    {
      assert existing[..e + 1][..e] == existing[..e];
      if g.interArea(cand, existing[e]) > thr {
        count := count + 1;
      }
      if count >= 2 {
        CountOfPrefix(g, cand, existing, thr, e + 1);
        cond3 := false;
        break;
      }
    }
    assert existing[..|existing|] == existing;

    ok := cond1 && cond2 && cond3;
  }

  /** A prefix never has more significant overlaps than the whole list. */
  lemma {:induction false} CountOfPrefix(g: Shapes, cand: Placement, s: seq<Placement>, thr: real, i: nat)
    requires i <= |s|
    ensures OverlapCount(g, cand, s[..i], thr) <= OverlapCount(g, cand, s, thr)
    decreases |s| - i
  {
    if i < |s| {
      var t := s[..|s| - 1];
      assert t[..i] == s[..i];
      CountOfPrefix(g, cand, t, thr, i);
    } else {
      assert s[..i] == s;
    }
  }

  /** Counting distributes over concatenation. */
  lemma {:induction false} CountOfConcat(g: Shapes, cand: Placement, a: seq<Placement>, b: seq<Placement>, thr: real)
    ensures OverlapCount(g, cand, a + b, thr) == OverlapCount(g, cand, a, thr) + OverlapCount(g, cand, b, thr)
    decreases |b|
  {
    if |b| == 0 {
      assert a + b == a;
    } else {
      var b' := b[..|b| - 1];
      assert (a + b)[..|a + b| - 1] == a + b';
      CountOfConcat(g, cand, a, b', thr);
    }
  }

  /** Taking one coaster out of the list lowers the count by its own
      contribution. */
  lemma CountWithout(g: Shapes, cand: Placement, b: seq<Placement>, thr: real, j: nat)
    requires j < |b|
    ensures OverlapCount(g, cand, b, thr)
            == OverlapCount(g, cand, b[..j] + b[j + 1..], thr) + (if Heavy(g, cand, b[j], thr) then 1 else 0)
  {
    assert b == (b[..j] + [b[j]]) + b[j + 1..];
    CountOfConcat(g, cand, b[..j] + [b[j]], b[j + 1..], thr);
    CountOfConcat(g, cand, b[..j], b[j + 1..], thr);
    assert (b[..j] + [b[j]])[..j] == b[..j];
  }

  /** The count depends only on which coasters are placed, with their
      multiplicities, not on the order they are listed in. */
  lemma {:induction false} CountOrderIndependent(g: Shapes, cand: Placement, a: seq<Placement>, b: seq<Placement>, thr: real)
    requires multiset(a) == multiset(b)
    ensures OverlapCount(g, cand, a, thr) == OverlapCount(g, cand, b, thr)
    decreases |a|
  {
    if |a| == 0 {
      assert |b| == |multiset(b)| == 0;
    } else {
      var x := a[|a| - 1];
      var a' := a[..|a| - 1];
      assert a == a' + [x];
      assert x in multiset(b);
      var j :| 0 <= j < |b| && b[j] == x;
      var b' := b[..j] + b[j + 1..];
      assert b == b[..j] + [x] + b[j + 1..];
      assert multiset(a') == multiset(a) - multiset{x};
      assert multiset(b') == multiset(b) - multiset{x};
      CountOrderIndependent(g, cand, a', b', thr);
      CountWithout(g, cand, b, thr, j);
    }
  }

  /** The verdict does not depend on the order of the placed coasters: the
      early exits of the loops only cut the search short. */
  lemma AdmissibleOrderIndependent(g: Shapes, cand: Placement, a: seq<Placement>, b: seq<Placement>,
                                   outerPts: seq<Point>, innerPts: seq<Point>, tol: real, thr: real)
    requires multiset(a) == multiset(b)
    ensures Admissible(g, cand, a, outerPts, innerPts, tol, thr) == Admissible(g, cand, b, outerPts, innerPts, tol, thr)
  {
    assert forall s :: s in a <==> s in b by {
      forall s
        ensures s in a <==> s in b
      {
        assert s in a <==> s in multiset(a);
        assert s in b <==> s in multiset(b);
      }
    }
    CountOrderIndependent(g, cand, a, b, thr);
  }

  /** With nothing placed there is no hole to share, so nothing is
      admissible. */
  lemma NothingPlacedRejects(g: Shapes, cand: Placement, outerPts: seq<Point>, innerPts: seq<Point>, tol: real, thr: real)
    ensures !Admissible(g, cand, [], outerPts, innerPts, tol, thr)
  {
  }

  /** A candidate without inner vertices never shares a gap. */
  lemma NoInnerVerticesRejects(g: Shapes, cand: Placement, existing: seq<Placement>, outerPts: seq<Point>, tol: real, thr: real)
    ensures !Admissible(g, cand, existing, outerPts, [], tol, thr)
  {
  }

  /** Two distinct placed coasters that both overlap the candidate by more
      than the threshold make it inadmissible. */
  lemma TwoOverlapsReject(g: Shapes, cand: Placement, existing: seq<Placement>,
                          outerPts: seq<Point>, innerPts: seq<Point>, tol: real, thr: real, i: nat, j: nat)
    requires i < j < |existing|
    requires Heavy(g, cand, existing[i], thr) && Heavy(g, cand, existing[j], thr)
    ensures !Admissible(g, cand, existing, outerPts, innerPts, tol, thr)
  {
    var s := existing;
    assert s[..i + 1][..i] == s[..i];
    assert s[..j + 1][..j] == s[..j];
    assert s[..j][..i + 1] == s[..i + 1];
    CountOfPrefix(g, cand, s[..j], thr, i + 1);
    CountOfPrefix(g, cand, s, thr, j + 1);
  }

  /** A candidate vertex inside a placed ring, or nearer than tol to its
      boundary, makes the candidate inadmissible. */
  lemma CloseVertexRejects(g: Shapes, cand: Placement, existing: seq<Placement>,
                           outerPts: seq<Point>, innerPts: seq<Point>, tol: real, thr: real, s: Placement, p: Point)
    requires s in existing && (p in outerPts || p in innerPts)
    requires g.ringContains(s, p) || g.ringBoundaryDist(s, p) < tol
    ensures !Admissible(g, cand, existing, outerPts, innerPts, tol, thr)
  {
    assert p in outerPts + innerPts;
  }
}
