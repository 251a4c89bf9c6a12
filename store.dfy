/**
 The lattice store of eden.py (a dictionary from coordinates to 0/1) as a
 mutable object, with the operations that change it in place: building the
 base store, one growth epoch, and a whole run.
 */
module Store {
  import opened Grid
  import opened Growth

  /** The base store for n epochs: every point of the square |x|, |y| < 4n, each 0. */
  function Base(n: nat): (M: map<Point, int>)
    ensures forall p :: p in M <==> InSquare(p, 4 * n)
    ensures forall p :: p in M ==> M[p] == 0
  {
    map x: int, y: int | -(4 * n) < x < 4 * n && -(4 * n) < y < 4 * n :: (x, y) := 0
  }

  /** The base store with the origin seeded. */
  function Seeded(n: nat): (M: map<Point, int>)
    ensures forall p :: p in M <==> InSquare(p, 4 * n) || p == (0, 0)
  {
    Base(n)[(0, 0) := 1]
  }

  /** The store after writing 0 at each point of ps in turn. */
  function Zeros(ps: seq<Point>): map<Point, int>
    decreases |ps|
  {
    if ps == [] then map[] else Zeros(ps[..|ps| - 1])[ps[|ps| - 1] := 0]
  }

  lemma {:induction false} ZerosHolds(ps: seq<Point>)
    ensures forall p :: p in Zeros(ps) <==> p in ps
    ensures forall p :: p in Zeros(ps) ==> Zeros(ps)[p] == 0
    decreases |ps|
  {
    if ps != [] {
      var init := ps[..|ps| - 1];
      ZerosHolds(init);
      assert ps == init + [ps[|ps| - 1]];
    }
  }

  lemma ZerosAppend(ps: seq<Point>, p: Point)
    ensures Zeros(ps + [p]) == Zeros(ps)[p := 0]
  {
    assert (ps + [p])[..|ps|] == ps;
  }

  /** Writing 0 along the scan of bound 4n gives the base store. */
  lemma ZerosBase(n: nat)
    ensures Zeros(Order(4 * n)) == Base(n)
  {
    ZerosHolds(Order(4 * n));
    OrderCovers(4 * n);
  }

  class Lattice {
    var cells: map<Point, int>

    /** Fills the square of bound 4n with 0, one quad_set at a time. */
    constructor CreateBase(n: nat)
      ensures cells == Base(n)
    {
      var M: map<Point, int> := map[];
      var b := 4 * n;
      for i := 0 to b
        invariant M == Zeros(Rows(i, b))
      {
        RowEnd(b, i);
        for j := 0 to b
          invariant M == Zeros(Rows(i, b) + Row(i, j))
        {
          var q := QuadSet(i, j);
          PrefixStart(b, i, j);
          for k := 0 to 4
            invariant M == Zeros(Prefix(b, i, j, k))
          {
            PrefixStep(b, i, j, k);
            ZerosAppend(Prefix(b, i, j, k), q[k]);
            M := M[q[k] := 0];
          }
          PrefixColumnEnd(b, i, j);
        }
        RowEnd(b, i);
      }
      ZerosBase(n);
      cells := M;
    }

    /** One epoch, in place: every point of the scan of bound 3n that holds 0 when
        it is visited is rewritten by UpdatePoint of its current neighbours, so a
        point sees the writes made earlier in the same pass, and an axis point still
        0 is tried again on each repeated visit. */
    method UpdateModel(n: nat, prob: real, rolls: nat -> real, drawn: nat) returns (drawn': nat)
      requires forall p :: InSquare(p, 3 * n) ==> p in cells
      modifies this
      ensures Scan(cells, drawn') == Epoch(Scan(old(cells), drawn), n, prob, rolls)
      ensures cells.Keys == old(cells).Keys
      ensures forall p :: p in old(cells) && old(cells)[p] != 0 ==> cells[p] == old(cells)[p]
      ensures forall p :: p in old(cells) && !InSquare(p, 3 * n) ==> cells[p] == old(cells)[p]
      ensures Binary(old(cells)) ==> Binary(cells)
      ensures Supported(old(cells)) ==> Supported(cells)
    {
      ghost var s0 := Scan(cells, drawn);
      var d := drawn;
      var b := 3 * n;
      for i := 0 to b
        invariant forall p :: p in Rows(i, b) ==> p in s0.cells
        invariant Scan(cells, d) == Sweep(s0, Rows(i, b), prob, rolls)
      {
        PrefixWithin(b, i, b - 1, 4);
        RowEnd(b, i);
        for j := 0 to b
          invariant forall p :: p in Rows(i, b) + Row(i, j) ==> p in s0.cells
          invariant Scan(cells, d) == Sweep(s0, Rows(i, b) + Row(i, j), prob, rolls)
        {
          var q := QuadSet(i, j);
          PrefixWithin(b, i, j, 4);
          PrefixStart(b, i, j);
          for k := 0 to 4
            invariant Scan(cells, d) == Sweep(s0, Prefix(b, i, j, k), prob, rolls)
          {
            PrefixWithin(b, i, j, k + 1);
            PrefixStep(b, i, j, k);
            SweepAppend(s0, Prefix(b, i, j, k), q[k], prob, rolls);
            ghost var before := Scan(cells, d);
            var a, c := q[k].0, q[k].1;
            var p := cells[q[k]];
            if p == 0 {
              var g := UpdatePoint(NearPoint(a, c, cells), prob, rolls, d);
              cells := cells[q[k] := g.value];
              d := g.next;
            }
            assert Scan(cells, d) == Visit(before, q[k], prob, rolls);
          }
          PrefixColumnEnd(b, i, j);
        }
        RowEnd(b, i);
      }
      drawn' := d;
      OrderCovers(b);
      SweepKeepsNonZero(s0, Order(b), prob, rolls);
      SweepUntouched(s0, Order(b), prob, rolls);
      if Binary(s0.cells) {
        SweepBinary(s0, Order(b), prob, rolls);
      }
      if Supported(s0.cells) {
        SweepSupported(s0, Order(b), prob, rolls);
      }
    }
  }

  /** Builds the base store, seeds the origin and runs n epochs. */
  method RunModel(n: nat, prob: real, rolls: nat -> real) returns (L: Lattice, drawn: nat)
    ensures fresh(L)
    ensures Scan(L.cells, drawn) == Epochs(Scan(Seeded(n), 0), n, n, prob, rolls)
    ensures forall p :: p in L.cells <==> InSquare(p, 4 * n) || p == (0, 0)
    ensures RunInvariant(L.cells, n)
  {
    L := new Lattice.CreateBase(n);
    L.cells := L.cells[(0, 0) := 1];
    drawn := 0;
    ghost var s0 := Scan(Seeded(n), 0);
    assert forall p :: InSquare(p, 3 * n) ==> p in s0.cells;
    for i := 0 to n
      invariant Scan(L.cells, drawn) == Epochs(s0, n, i, prob, rolls)
    {
      drawn := L.UpdateModel(n, prob, rolls, drawn);
    }
    RunModelFacts(n, prob, rolls);
  }

  /** What every run keeps: the origin is 1, the store is 0/1, every occupied
      point other than the origin has an occupied neighbour, and nothing outside
      the scan square of bound 3n is occupied except the origin. */
  predicate RunInvariant(M: map<Point, int>, n: nat) {
    && (0, 0) in M && M[(0, 0)] == 1
    && Binary(M)
    && Supported(M)
    && forall p :: p in M && M[p] == 1 ==> p == (0, 0) || InSquare(p, 3 * n)
  }

  lemma {:induction false} EpochsKeepInvariant(n: nat, k: nat, prob: real, rolls: nat -> real)
    ensures RunInvariant(Epochs(Scan(Seeded(n), 0), n, k, prob, rolls).cells, n)
  {
    var s := Scan(Seeded(n), 0);
    if k == 0 {
      assert forall p :: p in s.cells && s.cells[p] == 1 ==> p == (0, 0);
    } else {
      EpochsKeepInvariant(n, k - 1, prob, rolls);
      var u := Epochs(s, n, k - 1, prob, rolls);
      OrderCovers(3 * n);
      SweepKeepsNonZero(u, Order(3 * n), prob, rolls);
      SweepUntouched(u, Order(3 * n), prob, rolls);
      SweepBinary(u, Order(3 * n), prob, rolls);
      SweepSupported(u, Order(3 * n), prob, rolls);
    }
  }

  /** After RunModel(n) the origin is occupied, the keys are those of the base store
      plus the origin (the same set once n >= 1; for n == 0 the base is empty and the
      seed adds the origin), and the run invariant holds. */
  lemma RunModelFacts(n: nat, prob: real, rolls: nat -> real)
    ensures var M := Epochs(Scan(Seeded(n), 0), n, n, prob, rolls).cells;
      && (forall p :: p in M <==> InSquare(p, 4 * n) || p == (0, 0))
      && M[(0, 0)] == 1
      && RunInvariant(M, n)
  {
    EpochsKeepInvariant(n, n, prob, rolls);
  }

  /** With prob <= 0 (and rolls from [0, 1)) a run grows nothing: only the origin
      is occupied. */
  lemma {:induction false} NoGrowthRun(n: nat, k: nat, prob: real, rolls: nat -> real)
    requires prob <= 0.0
    requires forall i: nat :: 0.0 <= rolls(i)
    ensures Epochs(Scan(Seeded(n), 0), n, k, prob, rolls).cells == Seeded(n)
  {
    if k > 0 {
      NoGrowthRun(n, k - 1, prob, rolls);
      var u := Epochs(Scan(Seeded(n), 0), n, k - 1, prob, rolls);
      OrderCovers(3 * n);
      SweepNoGrowth(u, Order(3 * n), prob, rolls);
    }
  }

  lemma OrderThreeRows()
    ensures Order(3) == Row(0, 3) + Row(1, 3) + Row(2, 3)
  {
    assert Rows(1, 3) == Row(0, 3);
    assert Rows(2, 3) == Rows(1, 3) + Row(1, 3);
  }

  lemma RowZeroThree()
    ensures Row(0, 3) == QuadSet(0, 0) + QuadSet(0, 1) + QuadSet(0, 2)
  {
    assert Row(0, 1) == QuadSet(0, 0);
    assert Row(0, 2) == Row(0, 1) + QuadSet(0, 1);
  }

  lemma Regroup<T>(a: seq<T>, b: seq<T>, c: seq<T>, d: seq<T>, x: T, y: T)
    ensures (a + ([x] + b) + ([y] + c)) + d == a + [x] + b + [y] + (c + d)
  {
  }

  /** The scan of bound 3 starts (0, 0) four times, then (0, 1), ..., then (0, 2). */
  lemma OrderThreeStart()
    ensures Order(3) == QuadSet(0, 0) + [(0, 1)] + QuadSet(0, 1)[1..] + [(0, 2)] + (QuadSet(0, 2)[1..] + (Row(1, 3) + Row(2, 3)))
  {
    OrderThreeRows();
    RowZeroThree();
    var q1, q2 := QuadSet(0, 1), QuadSet(0, 2);
    assert q1 == [(0, 1)] + q1[1..];
    assert q2 == [(0, 2)] + q2[1..];
    assert Order(3) == (QuadSet(0, 0) + q1 + q2) + (Row(1, 3) + Row(2, 3));
    Regroup(QuadSet(0, 0), q1[1..], q2[1..], Row(1, 3) + Row(2, 3), (0, 1), (0, 2));
  }

  /** A sweep that ends at a 0 point t, with t not visited before and one of its
      neighbours occupied, leaves t occupied when every roll succeeds. */
  lemma SweepReaches(s: Scan, P: seq<Point>, t: Point, d: int, prob: real, rolls: nat -> real)
    requires forall p :: p in P + [t] ==> p in s.cells
    requires t !in P && s.cells[t] == 0
    requires 0 <= d < 4 && Neighbour(t, d) in s.cells && s.cells[Neighbour(t, d)] == 1
    requires forall k: nat :: rolls(k) < prob
    ensures Sweep(s, P + [t], prob, rolls).cells[t] == 1
  {
    SweepAppend(s, P, t, prob, rolls);
    SweepKeepsNonZero(s, P, prob, rolls);
    SweepUntouched(s, P, prob, rolls);
    VisitCertain(Sweep(s, P, prob, rolls), t, d, prob, rolls);
  }

  /** A sweep that passes (0, 1) and later (0, 2), starting from a store where only
      the origin of the three is occupied, ends with (0, 2) occupied when every roll
      succeeds. */
  lemma ChainOfTwo(s0: Scan, P1: seq<Point>, P2: seq<Point>, P3: seq<Point>, prob: real, rolls: nat -> real)
    requires forall p :: p in P1 + [(0, 1)] + P2 + [(0, 2)] + P3 ==> p in s0.cells
    requires (0, 0) in s0.cells && s0.cells[(0, 0)] == 1 && s0.cells[(0, 1)] == 0 && s0.cells[(0, 2)] == 0
    requires (0, 1) !in P1 && (0, 2) !in P1 && (0, 2) !in P2
    requires forall k: nat :: rolls(k) < prob
    ensures Sweep(s0, P1 + [(0, 1)] + P2 + [(0, 2)] + P3, prob, rolls).cells[(0, 2)] == 1
  {
    var A, B := P1 + [(0, 1)], P2 + [(0, 2)];
    assert P1 + [(0, 1)] + P2 + [(0, 2)] == A + B;
    SweepReaches(s0, P1, (0, 1), 3, prob, rolls);
    var s1 := Sweep(s0, A, prob, rolls);
    SweepUntouched(s0, A, prob, rolls);
    SweepReaches(s1, P2, (0, 2), 3, prob, rolls);
    SweepConcat(s0, A, B, prob, rolls);
    var s2 := Sweep(s0, A + B, prob, rolls);
    SweepKeepsNonZero(s2, P3, prob, rolls);
    SweepConcat(s0, A + B, P3, prob, rolls);
  }

  /** In the seeded store of one epoch no neighbour of (0, 2) is occupied. */
  lemma SeedFarFromTwo()
    ensures forall d :: 0 <= d < 4 ==> Neighbour((0, 2), d) in Seeded(1) && Seeded(1)[Neighbour((0, 2), d)] == 0
  {
  }

  /** The update is in place: with n = 1 and every roll below prob, one epoch
      occupies (0, 2), two steps from the seed, because (0, 1) is occupied earlier
      in the same pass. An update reading a frozen copy of the store would leave
      (0, 2) at 0, since none of its neighbours is occupied when the epoch starts. */
  lemma InPlaceReachesDistanceTwo(prob: real, rolls: nat -> real)
    requires forall k: nat :: rolls(k) < prob
    ensures Epoch(Scan(Seeded(1), 0), 1, prob, rolls).cells[(0, 2)] == 1
  {
    OrderCovers(3);
    OrderThreeStart();
    var P2 := QuadSet(0, 1)[1..];
    var P3 := QuadSet(0, 2)[1..] + (Row(1, 3) + Row(2, 3));
    ChainOfTwo(Scan(Seeded(1), 0), QuadSet(0, 0), P2, P3, prob, rolls);
  }
}
