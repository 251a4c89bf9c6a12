/**
 The radius estimator of eden.py: disks about the origin cut out of the store,
 the test that a disk holds no 0, and the two fixed-iteration halving searches
 for an inner radius (Rin) and an outer radius (Rout).

 The source computes the starting radius as int(sqrt(2) * n + 1); here it is
 the integer parameter R. The enumeration bound int(sqrt(2) * r) + 1 of
 circle_set is replaced by floor(r) + 1: both exceed every coordinate of the
 disk of radius r, so both enumerations collect the same disk. Radii are exact
 reals: every step R / 2^i is dyadic.
 */
module Radius {
  import opened Grid

  datatype Option<T> = None | Some(value: T)

  /** a^2 + b^2 <= r^2. */
  predicate InDisk(p: Point, r: real) {
    (p.0 * p.0 + p.1 * p.1) as real <= r * r
  }

  /** The points of the store in the disk of radius r, with their values. */
  ghost function Disk(M: map<Point, int>, r: real): map<Point, int>
  {
    map p | p in M && InDisk(p, r) :: M[p]
  }

  /** No value of C is 0. */
  predicate NoVacancy(C: map<Point, int>) {
    forall c :: c in C ==> C[c] != 0
  }

  /** The points of S that hold 1 in C. */
  ghost function OnesIn(C: map<Point, int>, S: set<Point>): set<Point>
  {
    set p | p in S && p in C && C[p] == 1
  }

  ghost function Ones(C: map<Point, int>): set<Point>
  {
    OnesIn(C, C.Keys)
  }

  function Pow2(i: nat): (r: nat)
    ensures r >= 1
  {
    if i == 0 then 1 else 2 * Pow2(i - 1)
  }

  /** The step R / 2^i of the i-th search iteration. */
  function Step(R: nat, i: nat): (s: real)
    ensures s >= 0.0
  {
    (R as real) / (Pow2(i) as real)
  }

  lemma StepHalves(R: nat, i: nat)
    ensures Step(R, i) == 2.0 * Step(R, i + 1)
  {
    var P := Pow2(i) as real;
    assert Pow2(i + 1) as real == 2.0 * P;
    calc {
      2.0 * Step(R, i + 1);
      2.0 * ((R as real) / (2.0 * P));
      (R as real) / P;
    }
  }

  lemma SquareMono(a: nat, x: int)
    requires a <= x
    ensures a * a <= x * x
  {
    assert a * a <= a * x <= x * x;
  }

  lemma RealSquareLess(r: real, B: real)
    requires 0.0 <= r < B
    ensures r * r < B * B
  {
    var d := B - r;
    assert B * B == r * r + 2.0 * r * d + d * d;
    assert r * d >= 0.0 && d * d > 0.0;
  }

  lemma SquareAsReal(a: int)
    ensures (a * a) as real == (a as real) * (a as real)
  {
  }

  /** An enumeration bound above r reaches every point of the disk of radius r. */
  lemma DiskWithinBound(r: real, bound: nat, p: Point)
    requires 0.0 <= r < bound as real
    requires InDisk(p, r)
    ensures InSquare(p, bound)
  {
    var x, y := Abs(p.0), Abs(p.1);
    assert x * x == p.0 * p.0 && y * y == p.1 * p.1;
    RealSquareLess(r, bound as real);
    SquareAsReal(bound);
    var s := p.0 * p.0 + p.1 * p.1;
    assert (s as real) < (bound * bound) as real;
    assert s < bound * bound;
    if x >= bound {
      SquareMono(bound, x);
    }
    if y >= bound {
      SquareMono(bound, y);
    }
  }

  /** The enumeration bound of circle_set: a bound above r. */
  function EnumBound(r: real): (bound: nat)
    requires r >= 0.0
    ensures r < bound as real
  {
    r.Floor + 1
  }

  /** The points (a, b) with a^2 + b^2 <= r^2 among the sign variants of the
      enumeration 0 <= i, j < EnumBound(r), each with its value in M. */
  method CircleSet(M: map<Point, int>, r: real) returns (C: map<Point, int>)
    requires r >= 0.0
    requires forall p :: InDisk(p, r) ==> p in M
    ensures forall p :: p in C <==> InDisk(p, r)
    ensures forall p :: p in C ==> C[p] == M[p]
    ensures C == Disk(M, r)
  {
    var bound := EnumBound(r);
    C := map[];
    for i := 0 to bound
      invariant forall p :: p in C <==> p in Rows(i, bound) && InSquare(p, bound) && InDisk(p, r)
      invariant forall p :: p in C ==> p in M && C[p] == M[p]
    {
      PrefixWithin(bound, i, bound - 1, 4);
      RowEnd(bound, i);
      for j := 0 to bound
        invariant forall p :: p in C <==> p in Rows(i, bound) + Row(i, j) && InSquare(p, bound) && InDisk(p, r)
        invariant forall p :: p in C ==> p in M && C[p] == M[p]
      {
        var q := QuadSet(i, j);
        PrefixWithin(bound, i, j, 4);
        PrefixStart(bound, i, j);
        for k := 0 to 4
          invariant forall p :: p in C <==> p in Prefix(bound, i, j, k) && InSquare(p, bound) && InDisk(p, r)
          invariant forall p :: p in C ==> p in M && C[p] == M[p]
        {
          PrefixStep(bound, i, j, k);
          var a, b := q[k].0, q[k].1;
          if ((a * a + b * b) as real) <= r * r {
            C := C[q[k] := M[q[k]]];
          }
        }
        PrefixColumnEnd(bound, i, j);
      }
    }
    OrderCovers(bound);
    forall p | InDisk(p, r) ensures InSquare(p, bound) {
      DiskWithinBound(r, bound, p);
    }
  }

  /** check_rin: false as soon as some value of C is 0. */
  method CheckRin(C: map<Point, int>) returns (ok: bool)
    ensures ok <==> NoVacancy(C)
  {
    var rest := C.Keys;
    while rest != {}
      invariant rest <= C.Keys
      invariant forall c :: c in C && c !in rest ==> C[c] != 0
      decreases |rest|
    {
      var c :| c in rest;
      if C[c] == 0 {
        return false;
      }
      rest := rest - {c};
    }
    return true;
  }

  /** The count loop of Rout: the number of values of C equal to 1. */
  method CountOccupied(C: map<Point, int>) returns (count: nat)
    ensures count == |Ones(C)|
  {
    count := 0;
    var rest := C.Keys;
    while rest != {}
      invariant rest <= C.Keys
      invariant count + |OnesIn(C, rest)| == |Ones(C)|
      decreases |rest|
    {
      var c :| c in rest;
      if C[c] == 1 {
        assert OnesIn(C, rest) == OnesIn(C, rest - {c}) + {c};
        count := count + 1;
      } else {
        assert OnesIn(C, rest) == OnesIn(C, rest - {c});
      }
      rest := rest - {c};
    }
  }

  /** The sum of the values M holds at the keys ks. */
  ghost function SumOn(M: map<Point, int>, ks: set<Point>): int
    requires ks <= M.Keys
  {
    if ks == {} then 0 else var k :| k in ks; M[k] + SumOn(M, ks - {k})
  }

  /** The sum does not depend on the element taken out first. */
  lemma {:induction false} SumOnRemove(M: map<Point, int>, ks: set<Point>, k: Point)
    requires ks <= M.Keys && k in ks
    ensures SumOn(M, ks) == M[k] + SumOn(M, ks - {k})
    decreases |ks|
  {
    var j :| j in ks && SumOn(M, ks) == M[j] + SumOn(M, ks - {j});
    if j != k {
      SumOnRemove(M, ks - {j}, k);
      SumOnRemove(M, ks - {k}, j);
      assert ks - {j} - {k} == ks - {k} - {j};
    }
  }

  /** On a 0/1 store the sum of the values is the number of occupied points. */
  lemma {:induction false} SumOfBinary(M: map<Point, int>, ks: set<Point>)
    requires ks <= M.Keys
    requires Binary(M)
    ensures SumOn(M, ks) == |OnesIn(M, ks)|
    decreases |ks|
  {
    if ks != {} {
      var k :| k in ks;
      SumOnRemove(M, ks, k);
      SumOfBinary(M, ks - {k});
      if M[k] == 1 {
        assert OnesIn(M, ks) == OnesIn(M, ks - {k}) + {k};
      } else {
        assert OnesIn(M, ks) == OnesIn(M, ks - {k});
      }
    }
  }

  /** np.sum of the values of M. */
  method SumValues(M: map<Point, int>) returns (m: int)
    ensures m == SumOn(M, M.Keys)
  {
    m := 0;
    var rest := M.Keys;
    while rest != {}
      invariant rest <= M.Keys
      invariant m + SumOn(M, rest) == SumOn(M, M.Keys)
      decreases |rest|
    {
      var k :| k in rest;
      SumOnRemove(M, rest, k);
      m := m + M[k];
      rest := rest - {k};
    }
  }

  /** The test of Rin at radius r: the disk holds no 0. */
  ghost predicate Inscribed(M: map<Point, int>, r: real) {
    NoVacancy(Disk(M, r))
  }

  /** The test of Rout at radius r: the disk holds as many 1s as the whole store sums to. */
  ghost predicate Encloses(M: map<Point, int>, r: real) {
    |Ones(Disk(M, r))| == SumOn(M, M.Keys)
  }

  /** On a 0/1 store the Rout test passes exactly when every occupied point of the
      store lies in the disk. */
  lemma EnclosesIff(M: map<Point, int>, r: real)
    requires Binary(M)
    ensures Encloses(M, r) <==> forall p :: p in M && M[p] == 1 ==> InDisk(p, r)
  {
    SumOfBinary(M, M.Keys);
    var D := Disk(M, r);
    var inner, all := Ones(D), Ones(M);
    assert inner <= all;
    if forall p :: p in M && M[p] == 1 ==> InDisk(p, r) {
      forall p | p in all ensures p in inner {
        assert p in D && D[p] == 1;
      }
      assert all == inner;
    } else {
      var p :| p in M && M[p] == 1 && !InDisk(p, r);
      assert p in all - inner;
      assert |all| == |inner| + |all - inner|;
    }
  }

  /** The radius Rin tries after testing r in iteration i. */
  ghost function RinNext(M: map<Point, int>, R: nat, r: real, i: nat): real {
    if Inscribed(M, r) then r + Step(R, i) else r - Step(R, i)
  }

  /** rs is the sequence of radii Rin tests: it starts at R, and each radius
      follows from the one before by RinNext. */
  ghost predicate RinTrace(M: map<Point, int>, R: nat, rs: seq<real>) {
    (|rs| > 0 ==> rs[0] == R as real) &&
    forall k :: 0 <= k < |rs| - 1 ==> rs[k + 1] == RinNext(M, R, rs[k], k + 1)
  }

  /** The radius Rout tries after testing r in iteration i. */
  ghost function RoutNext(M: map<Point, int>, R: nat, r: real, i: nat): real {
    if Encloses(M, r) then r - Step(R, i) else r + Step(R, i)
  }

  /** rs is the list of radii Rout builds: it starts at R, and each radius
      follows from the one before by RoutNext. */
  ghost predicate RoutTrace(M: map<Point, int>, R: nat, rs: seq<real>) {
    |rs| > 0 && rs[0] == R as real &&
    forall k :: 0 <= k < |rs| - 1 ==> rs[k + 1] == RoutNext(M, R, rs[k], k + 1)
  }

  /** The k-th radius of rs lies in [R / 2^k, 2R - R / 2^k]: below 2R, and
      positive, whenever R > 0. */
  predicate Within(rs: seq<real>, R: nat) {
    forall k :: 0 <= k < |rs| ==> Step(R, k) <= rs[k] <= 2.0 * R as real - Step(R, k)
  }

  /** The lookups the searches can make: the origin and every point strictly
      inside the circle of radius 2R. */
  ghost predicate SearchDomain(M: map<Point, int>, R: nat) {
    (0, 0) in M && forall p: Point :: p.0 * p.0 + p.1 * p.1 < 4 * R * R ==> p in M
  }

  /** A radius within the bounds of some iteration has its whole disk in a
      store that holds the search domain. */
  lemma TestedDiskInStore(M: map<Point, int>, R: nat, k: nat, r: real)
    requires SearchDomain(M, R)
    requires Step(R, k) <= r <= 2.0 * R as real - Step(R, k)
    ensures forall p :: InDisk(p, r) ==> p in M
  {
    forall p | InDisk(p, r) ensures p in M {
      var s := p.0 * p.0 + p.1 * p.1;
      assert p.0 * p.0 >= 0 && p.1 * p.1 >= 0;
      if R == 0 {
        assert r == 0.0;
        assert s == 0;
        assert p.0 == 0 && p.1 == 0;
      } else {
        assert Step(R, k) > 0.0;
        var B := 2.0 * R as real;
        RealSquareLess(r, B);
        assert (4 * R * R) as real == B * B;
        assert (s as real) < (4 * R * R) as real;
      }
    }
  }

  /** A coordinate whose square is below (4n)^2 lies strictly between -4n and 4n. */
  lemma CoordinateBelow(x: int, n: nat)
    requires x * x < 16 * n * n
    ensures -(4 * n) < x < 4 * n
  {
    var b := 4 * n;
    assert b * b == 16 * n * n;
    if x >= b {
      SquareMono(b, x);
    } else if -x >= b {
      SquareMono(b, -x);
    }
  }

  /** A store holding the square of bound 4n and the origin (the keys RunModel(n)
      leaves) holds the search domain of every R <= 2n. */
  lemma SquareStoreHoldsSearchDomain(M: map<Point, int>, n: nat, R: nat)
    requires forall p :: InSquare(p, 4 * n) ==> p in M
    requires (0, 0) in M
    requires R <= 2 * n
    ensures SearchDomain(M, R)
  {
    SquareMono(R, 2 * n);
    assert 4 * R * R <= 16 * n * n;
    forall p: Point | p.0 * p.0 + p.1 * p.1 < 4 * R * R ensures p in M {
      var x, y := p.0, p.1;
      assert x * x >= 0 && y * y >= 0;
      CoordinateBelow(x, n);
      CoordinateBelow(y, n);
    }
  }

  lemma WithinExtend(rs: seq<real>, R: nat, r: real)
    requires Within(rs, R)
    requires Step(R, |rs|) <= r <= 2.0 * R as real - Step(R, |rs|)
    ensures Within(rs + [r], R)
  {
    var t := rs + [r];
    forall k | 0 <= k < |t| ensures Step(R, k) <= t[k] <= 2.0 * R as real - Step(R, k) {
      if k < |rs| {
        assert t[k] == rs[k];
      }
    }
  }

  lemma RinTraceExtend(M: map<Point, int>, R: nat, rs: seq<real>, r: real)
    requires RinTrace(M, R, rs)
    requires |rs| == 0 ==> r == R as real
    requires |rs| > 0 ==> r == RinNext(M, R, rs[|rs| - 1], |rs|)
    ensures RinTrace(M, R, rs + [r])
  {
    var t := rs + [r];
    forall k | 0 <= k < |t| - 1 ensures t[k + 1] == RinNext(M, R, t[k], k + 1) {
      if k + 1 < |rs| {
        assert t[k + 1] == rs[k + 1] && t[k] == rs[k];
      }
    }
  }

  lemma RoutTraceExtend(M: map<Point, int>, R: nat, rs: seq<real>, r: real)
    requires RoutTrace(M, R, rs)
    requires r == RoutNext(M, R, rs[|rs| - 1], |rs|)
    ensures RoutTrace(M, R, rs + [r])
  {
    var t := rs + [r];
    forall k | 0 <= k < |t| - 1 ensures t[k + 1] == RoutNext(M, R, t[k], k + 1) {
      if k + 1 < |rs| {
        assert t[k + 1] == rs[k + 1] && t[k] == rs[k];
      }
    }
  }

  /** The radius after a step of iteration i stays in [Step(R, i), 2R - Step(R, i)]. */
  lemma StepStaysWithin(R: nat, i: nat, r: real)
    requires i >= 1
    requires Step(R, i - 1) <= r <= 2.0 * R as real - Step(R, i - 1)
    ensures Step(R, i) <= r + Step(R, i) <= 2.0 * R as real - Step(R, i)
    ensures Step(R, i) <= r - Step(R, i) <= 2.0 * R as real - Step(R, i)
  {
    StepHalves(R, i - 1);
  }

  /** The inner radius search. Starting at R it tests radius r (no 0 in the disk),
      records r, and moves r up by R / 2^i after a pass and down after a failure,
      for i = 1 .. precision - 1; then it returns the most recently tested radius
      that passed, or None if none did. */
  method Rin(M: map<Point, int>, R: nat, precision: int := 6) returns (res: Option<real>, ghost tested: seq<real>)
    requires SearchDomain(M, R)
    ensures |tested| == if precision >= 1 then precision - 1 else 0
    ensures RinTrace(M, R, tested)
    ensures Within(tested, R)
    ensures res.None? <==> forall k :: 0 <= k < |tested| ==> !Inscribed(M, tested[k])
    ensures res.Some? ==> exists k :: 0 <= k < |tested| && tested[k] == res.value && Inscribed(M, res.value)
                                   && forall k' :: k < k' < |tested| ==> !Inscribed(M, tested[k'])
  {
    var r: real := R as real;
    var rList: seq<real> := [];
    var i := 1;
    while i < precision
      invariant 1 <= i <= if precision >= 1 then precision else 1
      invariant |rList| == i - 1
      invariant Step(R, i - 1) <= r <= 2.0 * R as real - Step(R, i - 1)
      invariant RinTrace(M, R, rList) && Within(rList, R)
      invariant |rList| == 0 ==> r == R as real
      invariant |rList| > 0 ==> r == RinNext(M, R, rList[|rList| - 1], |rList|)
    {
      TestedDiskInStore(M, R, i - 1, r);
      var C := CircleSet(M, r);
      RinTraceExtend(M, R, rList, r);
      WithinExtend(rList, R, r);
      rList := rList + [r];
      var ok := CheckRin(C);
      StepStaysWithin(R, i, r);
      if ok {
        r := r + (R as real) / (Pow2(i) as real);
      } else {
        r := r - (R as real) / (Pow2(i) as real);
      }
      i := i + 1;
    }
    tested := rList;
    var j := 1;
    while j < precision
      invariant 1 <= j <= |rList| + 1
      invariant forall k :: |rList| - j < k < |rList| ==> !Inscribed(M, rList[k])
    {
      var rj := rList[|rList| - j];
      TestedDiskInStore(M, R, |rList| - j, rj);
      var C := CircleSet(M, rj);
      var ok := CheckRin(C);
      if ok {
        return Some(rj), tested;
      }
      j := j + 1;
    }
    res := None;
  }

  /** The outer radius search. Starting at R it tests radius r (the disk holds all
      the occupied points, counted against the sum of the store's values) and
      appends r - R / 2^i after a pass and r + R / 2^i after a failure, for
      i = 1 .. precision - 1. Both of its return branches give the last appended
      radius. */
  method Rout(M: map<Point, int>, R: nat, precision: int := 5) returns (r: real, ghost radii: seq<real>)
    requires SearchDomain(M, R)
    ensures |radii| == if precision >= 1 then precision else 1
    ensures RoutTrace(M, R, radii)
    ensures Within(radii, R)
    ensures r == radii[|radii| - 1]
  {
    var m := SumValues(M);
    var rList: seq<real> := [R as real];
    var includes := false;
    r := R as real;
    var i := 1;
    while i < precision
      invariant 1 <= i <= if precision >= 1 then precision else 1
      invariant |rList| == i
      invariant Step(R, i - 1) <= rList[i - 1] <= 2.0 * R as real - Step(R, i - 1)
      invariant RoutTrace(M, R, rList) && Within(rList, R)
      invariant includes ==> r == rList[|rList| - 1]
    {
      r := rList[|rList| - 1];
      TestedDiskInStore(M, R, i - 1, r);
      var C := CircleSet(M, r);
      var count := CountOccupied(C);
      StepStaysWithin(R, i, r);
      if count == m {
        r := r - (R as real) / (Pow2(i) as real);
        RoutTraceExtend(M, R, rList, r);
        WithinExtend(rList, R, r);
        rList := rList + [r];
        includes := true;
      } else {
        r := r + (R as real) / (Pow2(i) as real);
        RoutTraceExtend(M, R, rList, r);
        WithinExtend(rList, R, r);
        rList := rList + [r];
        includes := false;
      }
      i := i + 1;
    }
    radii := rList;
    if includes == false {
      r := rList[|rList| - 1];
    }
  }
}
