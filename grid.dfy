/**
 The integer lattice of the Eden growth model: coordinates, the square
 regions the store and the scans cover, the order in which every scan of
 eden.py visits the lattice, and the three-valued neighbour lookup.
 */
module Grid {

  /** A lattice coordinate (x, y); the key type of the store. */
  type Point = (int, int)

  function Abs(x: int): int { if x < 0 then -x else x }

  /** The open square |x| < b, |y| < b. */
  predicate InSquare(p: Point, b: int) {
    -b < p.0 < b && -b < p.1 < b
  }

  /** The four sign variants of (i, j), in the order (i, j), (-i, j), (-i, -j), (i, -j).
      For i == 0 or j == 0 some of them coincide. */
  function QuadSet(i: int, j: int): (q: seq<Point>)
    ensures |q| == 4
  {
    [(i, j), (-i, j), (-i, -j), (i, -j)]
  }

  /** quad_set(i, j) holds every sign variant of (i, j), and nothing else. */
  lemma QuadSetExactly(i: int, j: int, p: Point)
    ensures p in QuadSet(i, j) <==> (p.0 == i || p.0 == -i) && (p.1 == j || p.1 == -j)
  {
    var q := QuadSet(i, j);
    if p in q {
      var k :| 0 <= k < 4 && q[k] == p;
    }
  }

  /** The points visited by one row of a scan: quad_set(i, j) for j = 0, 1, ..., w - 1. */
  function Row(i: nat, w: nat): seq<Point>
  {
    if w == 0 then [] else Row(i, w - 1) + QuadSet(i, w - 1)
  }

  /** The points visited by the rows i = 0, 1, ..., h - 1 of a scan of width w. */
  function Rows(h: nat, w: nat): seq<Point>
  {
    if h == 0 then [] else Rows(h - 1, w) + Row(h - 1, w)
  }

  /** The visiting order of the nested loops `for i in range(b): for j in range(b):
      for k in quad_set(i, j)`, duplicates included. */
  function Order(b: nat): (o: seq<Point>)
    ensures |o| == 4 * b * b
  {
    RowsLength(b, b);
    Rows(b, b)
  }

  lemma {:induction false} RowLength(i: nat, w: nat)
    ensures |Row(i, w)| == 4 * w
  {
    if w > 0 {
      RowLength(i, w - 1);
    }
  }

  /** A scan of h rows of width w makes 4hw visits. */
  lemma {:induction false} RowsLength(h: nat, w: nat)
    ensures |Rows(h, w)| == 4 * h * w
  {
    if h > 0 {
      RowsLength(h - 1, w);
      RowLength(h - 1, w);
      assert 4 * h * w == 4 * (h - 1) * w + 4 * w;
    }
  }

  lemma InConcat<T>(a: seq<T>, b: seq<T>, x: T)
    ensures x in a + b <==> x in a || x in b
  {
  }

  /** Row i of width w holds the points with |x| == i and |y| < w. */
  lemma {:induction false} RowCovers(i: nat, w: nat, p: Point)
    ensures p in Row(i, w) <==> (p.0 == i || -p.0 == i) && p.1 < w && -p.1 < w
  {
    if w > 0 {
      var a, b := Row(i, w - 1), QuadSet(i, w - 1);
      assert Row(i, w) == a + b;
      RowCovers(i, w - 1, p);
      QuadSetExactly(i, w - 1, p);
      InConcat(a, b, p);
    }
  }

  lemma RowsStep(a: seq<Point>, b: seq<Point>, h: nat, w: nat, p: Point)
    requires h > 0
    requires p in a <==> p.0 < h - 1 && -p.0 < h - 1 && p.1 < w && -p.1 < w
    requires p in b <==> (p.0 == h - 1 || -p.0 == h - 1) && p.1 < w && -p.1 < w
    ensures p in a + b <==> p.0 < h && -p.0 < h && p.1 < w && -p.1 < w
  {
  }

  /** The first h rows of width w hold the points with |x| < h and |y| < w. */
  lemma {:induction false} RowsCover(h: nat, w: nat, p: Point)
    ensures p in Rows(h, w) <==> p.0 < h && -p.0 < h && p.1 < w && -p.1 < w
  {
    if h > 0 {
      RowsCover(h - 1, w, p);
      RowCovers(h - 1, w, p);
      RowsStep(Rows(h - 1, w), Row(h - 1, w), h, w, p);
    }
  }

  /** A scan of bound b visits exactly the points of the square |x|, |y| < b. */
  lemma OrderCovers(b: nat)
    ensures forall p: Point :: p in Order(b) <==> InSquare(p, b)
  {
    forall p: Point ensures p in Order(b) <==> InSquare(p, b) {
      RowsCover(b, b, p);
    }
  }

  /** The points a scan of bound b has visited when it is at row i, column j,
      entry k of quad_set(i, j). */
  function Prefix(b: nat, i: nat, j: nat, k: nat): seq<Point>
    requires k <= 4
  {
    Rows(i, b) + Row(i, j) + QuadSet(i, j)[..k]
  }

  lemma PrefixStart(b: nat, i: nat, j: nat)
    ensures Prefix(b, i, j, 0) == Rows(i, b) + Row(i, j)
  {
    assert QuadSet(i, j)[..0] == [];
  }

  /** The scan advances one entry of quad_set(i, j) at a time ... */
  lemma PrefixStep(b: nat, i: nat, j: nat, k: nat)
    requires k < 4
    ensures Prefix(b, i, j, k + 1) == Prefix(b, i, j, k) + [QuadSet(i, j)[k]]
  {
    var q := QuadSet(i, j);
    assert q[..k + 1] == q[..k] + [q[k]];
  }

  /** ... a whole quad_set completes column j of row i ... */
  lemma PrefixColumnEnd(b: nat, i: nat, j: nat)
    ensures Prefix(b, i, j, 4) == Rows(i, b) + Row(i, j + 1)
  {
    assert QuadSet(i, j)[..4] == QuadSet(i, j);
  }

  /** ... and a whole row of b columns completes row i. */
  lemma RowEnd(b: nat, i: nat)
    ensures Rows(i, b) + Row(i, 0) == Rows(i, b)
    ensures Rows(i, b) + Row(i, b) == Rows(i + 1, b)
  {
  }

  /** Every prefix of a scan stays within the square it scans. */
  lemma PrefixWithin(b: nat, i: nat, j: nat, k: nat)
    requires i < b && j < b && k <= 4
    ensures forall p :: p in Prefix(b, i, j, k) ==> InSquare(p, b)
  {
    forall p | p in Prefix(b, i, j, k) ensures InSquare(p, b) {
      RowsCover(i, b, p);
      RowCovers(i, j, p);
      QuadSetExactly(i, j, p);
      assert p in Rows(i, b) || p in Row(i, j) || p in QuadSet(i, j);
    }
  }

  /** What a neighbour lookup yields: the stored value, or "unknown" (NaN in the
      source) for a key absent from the store. */
  datatype Reading = Known(value: int) | Unknown

  /** Compares like `x == 1` in the source: an unknown reading is never 1. */
  predicate IsOne(r: Reading) { r.Known? && r.value == 1 }

  /** The neighbour of p in direction d: 0 right, 1 top, 2 left, 3 bottom. */
  function Neighbour(p: Point, d: int): (q: Point)
    requires 0 <= d < 4
    ensures Abs(q.0 - p.0) + Abs(q.1 - p.1) == 1
  {
    match d
    case 0 => (p.0 + 1, p.1)
    case 1 => (p.0, p.1 + 1)
    case 2 => (p.0 - 1, p.1)
    case _ => (p.0, p.1 - 1)
  }

  /** The dictionary lookup guarded by try/except: a missing key reads as unknown. */
  function Get(M: map<Point, int>, q: Point): (r: Reading)
    ensures r.Unknown? <==> q !in M
    ensures q in M ==> r.value == M[q]
  {
    if q in M then Known(M[q]) else Unknown
  }

  /** The readings of the right, top, left and bottom neighbours of (i, j). */
  function NearPoint(i: int, j: int, M: map<Point, int>): (nb: seq<Reading>)
    ensures |nb| == 4
    ensures forall d :: 0 <= d < 4 ==> (nb[d].Unknown? <==> Neighbour((i, j), d) !in M)
    ensures forall d :: 0 <= d < 4 && Neighbour((i, j), d) in M ==> nb[d] == Known(M[Neighbour((i, j), d)])
  {
    [Get(M, (i + 1, j)), Get(M, (i, j + 1)), Get(M, (i - 1, j)), Get(M, (i, j - 1))]
  }

  /** With a store holding the square of bound 4n, every neighbour lookup made
      by a scan of bound 3n finds its key, provided n >= 1 (for n == 0 such a scan
      visits nothing). */
  lemma NearPointInScope(M: map<Point, int>, n: nat, p: Point)
    requires forall q: Point :: InSquare(q, 4 * n) ==> q in M
    requires InSquare(p, 3 * n)
    ensures forall d :: 0 <= d < 4 ==> NearPoint(p.0, p.1, M)[d].Known?
  {
    forall d | 0 <= d < 4 ensures NearPoint(p.0, p.1, M)[d].Known? {
      assert InSquare(Neighbour(p, d), 4 * n);
    }
  }

  /** np.nansum of four readings: the sum of the known values, unknown ones skipped. */
  function NanSum(nb: seq<Reading>): (s: int)
    requires |nb| == 4
    ensures (forall d :: 0 <= d < 4 ==> nb[d].Unknown?) ==> s == 0
    ensures (forall d :: 0 <= d < 4 ==> nb[d].Unknown? || 0 <= nb[d].value <= 1) ==> 0 <= s <= 4
  {
    Val(nb[0]) + Val(nb[1]) + Val(nb[2]) + Val(nb[3])
  }

  function Val(r: Reading): int { if r.Known? then r.value else 0 }

  /** Every stored value is 0 or 1. */
  predicate Binary(M: map<Point, int>) {
    forall p :: p in M ==> M[p] == 0 || M[p] == 1
  }

  /** On a 0/1 store the nansum of the neighbours is 4 exactly when all four
      neighbours are present and occupied: an unknown neighbour never makes a
      point interior. */
  lemma NanSumFour(M: map<Point, int>, p: Point)
    requires Binary(M)
    ensures NanSum(NearPoint(p.0, p.1, M)) == 4
        <==> forall d :: 0 <= d < 4 ==> Neighbour(p, d) in M && M[Neighbour(p, d)] == 1
  {
    var nb := NearPoint(p.0, p.1, M);
    forall d | 0 <= d < 4 ensures 0 <= Val(nb[d]) <= 1 && (Val(nb[d]) == 1 <==> IsOne(nb[d])) {
    }
  }
}
