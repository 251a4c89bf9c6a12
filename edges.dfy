/**
 The boundary classifier of eden.py: the occupied points of the scan square
 split into interior points (nansum of the neighbours equal to 4) and edge
 points (every other occupied point).
 */
module Edges {
  import opened Grid

  /** The nansum test of find_edges. */
  predicate IsInterior(M: map<Point, int>, p: Point) {
    NanSum(NearPoint(p.0, p.1, M)) == 4
  }

  /** The two dictionaries of find_edges: edge points and interior points. */
  datatype Split = Split(edges: map<Point, int>, interior: map<Point, int>)

  /** The dictionaries after visiting the points of ps in turn: an occupied point
      goes to interior when its neighbours' nansum is 4, and to edges otherwise. */
  function Classify(M: map<Point, int>, ps: seq<Point>): (r: Split)
    requires forall p :: p in ps ==> p in M
    ensures forall p :: p in r.interior ==> p in ps && M[p] == 1 && r.interior[p] == 1
    ensures forall p :: p in r.edges ==> p in ps && M[p] == 1 && r.edges[p] == 1
    decreases |ps|
  {
    if ps == [] then Split(map[], map[])
    else
      var s, p := Classify(M, ps[..|ps| - 1]), ps[|ps| - 1];
      if M[p] != 1 then s
      else if NanSum(NearPoint(p.0, p.1, M)) == 4 then Split(s.edges, s.interior[p := M[p]])
      else Split(s.edges[p := M[p]], s.interior)
  }

  /** Whatever the order and repetitions of ps, the interior holds exactly the
      occupied interior points of ps and the edges the other occupied points of ps,
      each with value 1. */
  lemma {:induction false} ClassifyExactly(M: map<Point, int>, ps: seq<Point>)
    requires forall p :: p in ps ==> p in M
    ensures forall p :: p in Classify(M, ps).interior <==> p in ps && M[p] == 1 && IsInterior(M, p)
    ensures forall p :: p in Classify(M, ps).edges <==> p in ps && M[p] == 1 && !IsInterior(M, p)
    ensures forall p :: p in Classify(M, ps).interior ==> Classify(M, ps).interior[p] == 1
    ensures forall p :: p in Classify(M, ps).edges ==> Classify(M, ps).edges[p] == 1
    decreases |ps|
  {
    if ps != [] {
      var init, x := ps[..|ps| - 1], ps[|ps| - 1];
      ClassifyExactly(M, init);
      assert ps == init + [x];
      ClassifyAppend(M, init, x);
      forall p ensures p in ps <==> p in init || p == x {
      }
    }
  }

  lemma ClassifyAppend(M: map<Point, int>, ps: seq<Point>, p: Point)
    requires forall q :: q in ps + [p] ==> q in M
    ensures Classify(M, ps + [p]) == (var s := Classify(M, ps);
      if M[p] != 1 then s
      else if NanSum(NearPoint(p.0, p.1, M)) == 4 then Split(s.edges, s.interior[p := M[p]])
      else Split(s.edges[p := M[p]], s.interior))
  {
    assert (ps + [p])[..|ps|] == ps;
  }

  /** Scans the square of bound 3n and returns (edge_set, interior), each mapping
      its points to their (occupied) value. */
  method FindEdges(M: map<Point, int>, n: nat) returns (edges: map<Point, int>, interior: map<Point, int>)
    requires forall p :: InSquare(p, 3 * n) ==> p in M
    ensures forall p :: p in interior <==> InSquare(p, 3 * n) && M[p] == 1 && IsInterior(M, p)
    ensures forall p :: p in edges <==> InSquare(p, 3 * n) && M[p] == 1 && !IsInterior(M, p)
    ensures forall p :: p in interior ==> interior[p] == 1
    ensures forall p :: p in edges ==> edges[p] == 1
    ensures edges.Keys !! interior.Keys
    ensures edges.Keys + interior.Keys == set p | p in M && InSquare(p, 3 * n) && M[p] == 1
  {
    interior, edges := map[], map[];
    var b := 3 * n;
    for i := 0 to b
      invariant forall p :: p in Rows(i, b) ==> p in M
      invariant Split(edges, interior) == Classify(M, Rows(i, b))
    {
      PrefixWithin(b, i, b - 1, 4);
      RowEnd(b, i);
      for j := 0 to b
        invariant forall p :: p in Rows(i, b) + Row(i, j) ==> p in M
        invariant Split(edges, interior) == Classify(M, Rows(i, b) + Row(i, j))
      {
        var q := QuadSet(i, j);
        PrefixWithin(b, i, j, 4);
        PrefixStart(b, i, j);
        for k := 0 to 4
          invariant Split(edges, interior) == Classify(M, Prefix(b, i, j, k))
        {
          PrefixWithin(b, i, j, k + 1);
          PrefixStep(b, i, j, k);
          ClassifyAppend(M, Prefix(b, i, j, k), q[k]);
          var v := M[q[k]];
          var a, c := q[k].0, q[k].1;
          if v == 1 {
            var pointList := NearPoint(a, c, M);
            if NanSum(pointList) == 4 {
              interior := interior[q[k] := M[q[k]]];
            } else {
              edges := edges[q[k] := M[q[k]]];
            }
          }
        }
        PrefixColumnEnd(b, i, j);
      }
      RowEnd(b, i);
    }
    OrderCovers(b);
    ClassifyExactly(M, Order(b));
  }
}
