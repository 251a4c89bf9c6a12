/**
 The stochastic growth rule of eden.py and the in-place scan it drives.

 The random source is a stream `rolls: nat -> real` (the successive values of
 `rand.random()`) read through a cursor: a state that has drawn `d` rolls
 reads `rolls(d)` next. The growth probability `prob` is a parameter.
 */
module Growth {
  import opened Grid

  /** The outcome of UpdatePoint: the new value of the point and the cursor after
      the rolls it drew. */
  datatype Draw = Draw(value: int, next: nat)

  /** The number of occupied readings among the first k of nb: the number of rolls
      drawn before neighbour k is tried, if none of them succeeded. */
  function OnesBefore(nb: seq<Reading>, k: nat): (c: nat)
    requires k <= |nb|
    ensures c <= k
  {
    if k == 0 then 0 else OnesBefore(nb, k - 1) + (if IsOne(nb[k - 1]) then 1 else 0)
  }

  /** Neighbour k is occupied and the roll drawn for it is below prob. */
  predicate Succeeds(nb: seq<Reading>, k: nat, prob: real, rolls: nat -> real, next: nat)
    requires k < |nb|
  {
    IsOne(nb[k]) && rolls(next + OnesBefore(nb, k)) < prob
  }

  /** Tries the right, top, left and bottom neighbours in that order; an occupied
      neighbour draws one roll, and the first roll below prob makes the point 1. */
  function UpdatePoint(nb: seq<Reading>, prob: real, rolls: nat -> real, next: nat): (g: Draw)
    requires |nb| == 4
    ensures g.value == 0 || g.value == 1
    ensures next <= g.next <= next + 4
  {
    var c0 := next;
    if IsOne(nb[0]) && rolls(c0) < prob then Draw(1, c0 + 1)
    else
      var c1 := if IsOne(nb[0]) then c0 + 1 else c0;
      if IsOne(nb[1]) && rolls(c1) < prob then Draw(1, c1 + 1)
      else
        var c2 := if IsOne(nb[1]) then c1 + 1 else c1;
        if IsOne(nb[2]) && rolls(c2) < prob then Draw(1, c2 + 1)
        else
          var c3 := if IsOne(nb[2]) then c2 + 1 else c2;
          if IsOne(nb[3]) && rolls(c3) < prob then Draw(1, c3 + 1)
          else Draw(0, if IsOne(nb[3]) then c3 + 1 else c3)
  }

  /** UpdatePoint against the order-of-trials reading of the rule: the point becomes
      1 exactly when some occupied neighbour's roll is below prob; the first such
      neighbour (in the order right, top, left, bottom) ends the trials, having drawn
      one roll per occupied neighbour up to and including it; otherwise one roll is
      drawn per occupied neighbour and the point stays 0. */
  lemma UpdatePointSpec(nb: seq<Reading>, prob: real, rolls: nat -> real, next: nat)
    requires |nb| == 4
    ensures var g := UpdatePoint(nb, prob, rolls, next);
      && (g.value == 1 <==> exists k :: 0 <= k < 4 && Succeeds(nb, k, prob, rolls, next))
      && (g.value == 1 ==> exists k :: 0 <= k < 4 && Succeeds(nb, k, prob, rolls, next)
                                   && g.next == next + OnesBefore(nb, k) + 1
                                   && forall k' :: 0 <= k' < k ==> !Succeeds(nb, k', prob, rolls, next))
      && (g.value == 0 ==> g.next == next + OnesBefore(nb, 4))
  {
    assert OnesBefore(nb, 1) == if IsOne(nb[0]) then 1 else 0;
    assert OnesBefore(nb, 2) == OnesBefore(nb, 1) + if IsOne(nb[1]) then 1 else 0;
    assert OnesBefore(nb, 3) == OnesBefore(nb, 2) + if IsOne(nb[2]) then 1 else 0;
    assert OnesBefore(nb, 4) == OnesBefore(nb, 3) + if IsOne(nb[3]) then 1 else 0;
    var g := UpdatePoint(nb, prob, rolls, next);
    if Succeeds(nb, 0, prob, rolls, next) {
      assert g.next == next + OnesBefore(nb, 0) + 1;
    } else if Succeeds(nb, 1, prob, rolls, next) {
      assert g.next == next + OnesBefore(nb, 1) + 1;
    } else if Succeeds(nb, 2, prob, rolls, next) {
      assert g.next == next + OnesBefore(nb, 2) + 1;
    } else if Succeeds(nb, 3, prob, rolls, next) {
      assert g.next == next + OnesBefore(nb, 3) + 1;
    } else {
      assert g.value == 0;
    }
  }

  /** With no occupied neighbour the point stays 0 and no roll is drawn. */
  lemma NoOccupiedNeighbour(nb: seq<Reading>, prob: real, rolls: nat -> real, next: nat)
    requires |nb| == 4
    requires forall k :: 0 <= k < 4 ==> !IsOne(nb[k])
    ensures UpdatePoint(nb, prob, rolls, next) == Draw(0, next)
  {
    assert OnesBefore(nb, 1) == 0 && OnesBefore(nb, 2) == 0 && OnesBefore(nb, 3) == 0;
    UpdatePointSpec(nb, prob, rolls, next);
  }

  /** A point becomes 1 only with an occupied neighbour. */
  lemma GrowsFromNeighbour(nb: seq<Reading>, prob: real, rolls: nat -> real, next: nat)
    requires |nb| == 4
    requires UpdatePoint(nb, prob, rolls, next).value == 1
    ensures exists k :: 0 <= k < 4 && IsOne(nb[k])
  {
    UpdatePointSpec(nb, prob, rolls, next);
    var k :| 0 <= k < 4 && Succeeds(nb, k, prob, rolls, next);
  }

  /** The scan state: the store and the cursor into the roll stream. */
  datatype Scan = Scan(cells: map<Point, int>, drawn: nat)

  /** One visit of the update loop at point p: a point holding 0 is rewritten with
      UpdatePoint of its neighbours as they are at that moment; any other value is
      left alone. */
  function Visit(s: Scan, p: Point, prob: real, rolls: nat -> real): (t: Scan)
    requires p in s.cells
    ensures t.cells.Keys == s.cells.Keys
    ensures forall q :: q in s.cells && q != p ==> t.cells[q] == s.cells[q]
  {
    if s.cells[p] == 0 then
      var g := UpdatePoint(NearPoint(p.0, p.1, s.cells), prob, rolls, s.drawn);
      Scan(s.cells[p := g.value], g.next)
    else s
  }

  /** The visits of ps, in order, each seeing the writes of the ones before it. */
  function Sweep(s: Scan, ps: seq<Point>, prob: real, rolls: nat -> real): (t: Scan)
    requires forall p :: p in ps ==> p in s.cells
    ensures t.cells.Keys == s.cells.Keys
    decreases |ps|
  {
    if ps == [] then s
    else Visit(Sweep(s, ps[..|ps| - 1], prob, rolls), ps[|ps| - 1], prob, rolls)
  }

  lemma SweepAppend(s: Scan, ps: seq<Point>, p: Point, prob: real, rolls: nat -> real)
    requires forall q :: q in ps + [p] ==> q in s.cells
    ensures Sweep(s, ps + [p], prob, rolls) == Visit(Sweep(s, ps, prob, rolls), p, prob, rolls)
  {
    assert (ps + [p])[..|ps|] == ps;
  }

  /** Sweeping a + b is sweeping a, then b. */
  lemma {:induction false} SweepConcat(s: Scan, a: seq<Point>, b: seq<Point>, prob: real, rolls: nat -> real)
    requires forall p :: p in a + b ==> p in s.cells
    ensures Sweep(s, a + b, prob, rolls) == Sweep(Sweep(s, a, prob, rolls), b, prob, rolls)
    decreases |b|
  {
    if b == [] {
      assert a + b == a;
    } else {
      var b' := b[..|b| - 1];
      assert (a + b)[..|a + b| - 1] == a + b';
      SweepConcat(s, a, b', prob, rolls);
    }
  }

  /** When every roll is below prob, a visited 0 with an occupied neighbour becomes 1. */
  lemma VisitCertain(s: Scan, p: Point, d: int, prob: real, rolls: nat -> real)
    requires p in s.cells && s.cells[p] == 0
    requires forall k: nat :: rolls(k) < prob
    requires 0 <= d < 4 && Neighbour(p, d) in s.cells && s.cells[Neighbour(p, d)] == 1
    ensures Visit(s, p, prob, rolls).cells[p] == 1
  {
    var nb := NearPoint(p.0, p.1, s.cells);
    UpdatePointSpec(nb, prob, rolls, s.drawn);
    assert Succeeds(nb, d, prob, rolls, s.drawn);
  }

  /** One epoch: the sweep over the scan of bound 3n. */
  function Epoch(s: Scan, n: nat, prob: real, rolls: nat -> real): (t: Scan)
    requires forall p :: InSquare(p, 3 * n) ==> p in s.cells
    ensures t.cells.Keys == s.cells.Keys
  {
    OrderCovers(3 * n);
    Sweep(s, Order(3 * n), prob, rolls)
  }

  /** k epochs of bound 3n. */
  function Epochs(s: Scan, n: nat, k: nat, prob: real, rolls: nat -> real): (t: Scan)
    requires forall p :: InSquare(p, 3 * n) ==> p in s.cells
    ensures t.cells.Keys == s.cells.Keys
  {
    if k == 0 then s else Epoch(Epochs(s, n, k - 1, prob, rolls), n, prob, rolls)
  }

  /** A visit keeps the store 0/1. */
  lemma {:induction false} SweepBinary(s: Scan, ps: seq<Point>, prob: real, rolls: nat -> real)
    requires forall p :: p in ps ==> p in s.cells
    requires Binary(s.cells)
    ensures Binary(Sweep(s, ps, prob, rolls).cells)
    decreases |ps|
  {
    if ps != [] {
      SweepBinary(s, ps[..|ps| - 1], prob, rolls);
    }
  }

  /** A sweep never changes a point that is not 0, in particular never one that is 1. */
  lemma {:induction false} SweepKeepsNonZero(s: Scan, ps: seq<Point>, prob: real, rolls: nat -> real)
    requires forall p :: p in ps ==> p in s.cells
    ensures forall q :: q in s.cells && s.cells[q] != 0 ==> Sweep(s, ps, prob, rolls).cells[q] == s.cells[q]
    decreases |ps|
  {
    if ps != [] {
      SweepKeepsNonZero(s, ps[..|ps| - 1], prob, rolls);
    }
  }

  /** A sweep changes only the points it visits. */
  lemma {:induction false} SweepUntouched(s: Scan, ps: seq<Point>, prob: real, rolls: nat -> real)
    requires forall p :: p in ps ==> p in s.cells
    ensures forall q :: q in s.cells && q !in ps ==> Sweep(s, ps, prob, rolls).cells[q] == s.cells[q]
    decreases |ps|
  {
    if ps != [] {
      SweepUntouched(s, ps[..|ps| - 1], prob, rolls);
    }
  }

  /** The cursor only moves forward. */
  lemma {:induction false} SweepDraws(s: Scan, ps: seq<Point>, prob: real, rolls: nat -> real)
    requires forall p :: p in ps ==> p in s.cells
    ensures s.drawn <= Sweep(s, ps, prob, rolls).drawn
    decreases |ps|
  {
    if ps != [] {
      SweepDraws(s, ps[..|ps| - 1], prob, rolls);
    }
  }

  /** Some neighbour of p is present and occupied. */
  predicate HasOccupiedNeighbour(M: map<Point, int>, p: Point) {
    exists d :: 0 <= d < 4 && Neighbour(p, d) in M && M[Neighbour(p, d)] == 1
  }

  /** Every occupied point other than the origin has an occupied neighbour. */
  predicate Supported(M: map<Point, int>) {
    forall p :: p in M && M[p] == 1 && p != (0, 0) ==> HasOccupiedNeighbour(M, p)
  }

  /** Growth happens only next to occupied points: a sweep keeps a store Supported. */
  lemma {:induction false} SweepSupported(s: Scan, ps: seq<Point>, prob: real, rolls: nat -> real)
    requires forall p :: p in ps ==> p in s.cells
    requires Supported(s.cells)
    ensures Supported(Sweep(s, ps, prob, rolls).cells)
    decreases |ps|
  {
    if ps != [] {
      var ps' := ps[..|ps| - 1];
      var x := ps[|ps| - 1];
      SweepSupported(s, ps', prob, rolls);
      var u := Sweep(s, ps', prob, rolls);
      var t := Visit(u, x, prob, rolls);
      assert t == Sweep(s, ps, prob, rolls);
      forall p | p in t.cells && t.cells[p] == 1 && p != (0, 0)
        ensures HasOccupiedNeighbour(t.cells, p)
      {
        if u.cells[x] == 0 {
          if p == x {
            var nb := NearPoint(x.0, x.1, u.cells);
            GrowsFromNeighbour(nb, prob, rolls, u.drawn);
            var d :| 0 <= d < 4 && IsOne(nb[d]);
            assert Neighbour(x, d) in t.cells && t.cells[Neighbour(x, d)] == 1;
          } else {
            var d :| 0 <= d < 4 && Neighbour(p, d) in u.cells && u.cells[Neighbour(p, d)] == 1;
            assert Neighbour(p, d) in t.cells && t.cells[Neighbour(p, d)] == 1;
          }
        }
      }
    }
  }

  /** With prob <= 0 and rolls from [0, 1) no roll succeeds, so a sweep changes no value. */
  lemma {:induction false} SweepNoGrowth(s: Scan, ps: seq<Point>, prob: real, rolls: nat -> real)
    requires forall p :: p in ps ==> p in s.cells
    requires prob <= 0.0
    requires forall k: nat :: 0.0 <= rolls(k)
    ensures Sweep(s, ps, prob, rolls).cells == s.cells
    decreases |ps|
  {
    if ps != [] {
      SweepNoGrowth(s, ps[..|ps| - 1], prob, rolls);
      var u := Sweep(s, ps[..|ps| - 1], prob, rolls);
      var x := ps[|ps| - 1];
      if u.cells[x] == 0 {
        var g := UpdatePoint(NearPoint(x.0, x.1, u.cells), prob, rolls, u.drawn);
        assert g.value == 0;
        assert u.cells[x := 0] == u.cells;
      }
    }
  }
}
