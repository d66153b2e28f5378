/** Fitting a polynomial to a number series by finite differences
    (findPolynomialFromSeries.js). The program holds exact fractions; they
    are `real` here. A polynomial is its coefficient list with the leading
    coefficient first and the constant term last. */
module PolySeries {
  import opened Wrappers

  // ---------------------------------------------------------------------
  // Polynomials and their values
  // ---------------------------------------------------------------------

  function Power(x: real, k: nat): real
  {
    if k == 0 then 1.0 else x * Power(x, k - 1)
  }

  /** Σ over `j` of `p[j] · x^(|p|-1-j)`: the value of `p` at `x`. */
  function Eval(p: seq<real>, x: real): real
  {
    if |p| == 0 then 0.0 else p[0] * Power(x, |p| - 1) + Eval(p[1..], x)
  }

  /** The algebra of one Horner step, on plain numbers. */
  lemma Regroup(a: real, x: real, pw: real, rest: real, c: real)
    ensures a * (x * pw) + (x * rest + c) == x * (a * pw + rest) + c
  {
  }

  lemma EvalCons(p: seq<real>, x: real)
    requires |p| > 0
    ensures Eval(p, x) == p[0] * Power(x, |p| - 1) + Eval(p[1..], x)
  {
  }

  /** Appending a constant term multiplies the old polynomial by `x`. */
  lemma {:induction false} EvalSnoc(q: seq<real>, c: real, x: real)
    ensures Eval(q + [c], x) == x * Eval(q, x) + c
    decreases |q|
  {
    if |q| == 0 {
      assert q + [c] == [c];
      EvalCons([c], x);
    } else {
      var e := q + [c];
      assert e[0] == q[0] && e[1..] == q[1..] + [c];
      EvalSnoc(q[1..], c, x);
      EvalCons(e, x);
      EvalCons(q, x);
      Regroup(q[0], x, Power(x, |q| - 1), Eval(q[1..], x), c);
    }
  }

  /** A JavaScript array of fractions with identity, which `horner` pops. */
  class FractionList {
    var items: seq<real>

    constructor (s: seq<real>)
      ensures items == s
    {
      items := s;
    }
  }

  /** `horner`: evaluates the polynomial held in `poly` at `n` by popping
      its constant term and recursing on what is left, so that afterwards
      only the leading coefficient remains in the caller's array. */
  method Horner(poly: FractionList, n: real) returns (r: real)
    requires |poly.items| >= 1
    modifies poly
    decreases |poly.items|
    ensures r == Eval(old(poly.items), n)
    ensures poly.items == old(poly.items)[..1]
  {
    var l := |poly.items| - 1;
    if l == 0 {
      r := poly.items[0];
      return;
    }
    var whole := poly.items;
    var p := poly.items[l];
    poly.items := poly.items[..l];
    var rest := Horner(poly, n);
    assert whole[..l] + [p] == whole;
    EvalSnoc(whole[..l], p, n);
    r := p + rest * n;
  }

  /** [P(1), …, P(n)], empty when `n` is not positive. */
  function SeriesOf(p: seq<real>, n: int): (s: seq<real>)
    ensures |s| == (if n < 0 then 0 else n)
  {
    seq(if n < 0 then 0 else n, i => Eval(p, (i + 1) as real))
  }

  /** `generatePolySeries`: the values of `arr` at 1, …, n, each computed by
      `horner` on a fresh copy, so the caller's coefficients survive. An
      empty coefficient list makes `horner` recurse without end, hence the
      precondition whenever there is a value to compute. */
  method GeneratePolySeries(arr: seq<real>, n: int) returns (a: seq<real>)
    requires |arr| >= 1 || n <= 0
    ensures |a| == (if n < 0 then 0 else n)
    ensures forall i :: 0 <= i < |a| ==> a[i] == Eval(arr, (i + 1) as real)
  {
    a := [];
    var i := 1;
    while i <= n
      invariant 1 <= i <= (if n < 0 then 0 else n) + 1 && |a| == i - 1
      invariant forall k :: 0 <= k < |a| ==> a[k] == Eval(arr, (k + 1) as real)
    {
      var copy := new FractionList(arr);
      var v := Horner(copy, i as real);
      a := a + [v];
      i := i + 1;
    }
  }

  // ---------------------------------------------------------------------
  // Factorials
  // ---------------------------------------------------------------------

  function Fact(n: nat): (f: nat)
    ensures f >= 1
  {
    if n == 0 then 1 else n * Fact(n - 1)
  }

  /** `generateFactorials`: 0!, 1!, …, n! (just [1] when `n` < 1). */
  method GenerateFactorials(n: int) returns (arr: seq<nat>)
    ensures |arr| == (if n < 1 then 1 else n + 1)
    ensures forall i :: 0 <= i < |arr| ==> arr[i] == Fact(i)
  {
    arr := [1];
    var i := 1;
    while i <= n
      invariant 1 <= i <= (if n < 1 then 0 else n) + 1 && |arr| == i
      invariant forall k :: 0 <= k < |arr| ==> arr[k] == Fact(k)
    {
      arr := arr + [i * arr[i - 1]];
      i := i + 1;
    }
  }

  // ---------------------------------------------------------------------
  // Finite differences
  // ---------------------------------------------------------------------

  /** Consecutive differences `s[i+1] - s[i]`. */
  function Diff(s: seq<real>): (d: seq<real>)
    ensures |d| == (if |s| == 0 then 0 else |s| - 1)
    decreases |s|
  {
    if |s| <= 1 then [] else [s[1] - s[0]] + Diff(s[1..])
  }

  lemma {:induction false} DiffAt(s: seq<real>, i: int)
    requires 0 <= i < |s| - 1
    decreases |s|
    ensures Diff(s)[i] == s[i + 1] - s[i]
  {
    if i > 0 {
      DiffAt(s[1..], i - 1);
    }
  }

  /** Extending a series extends its differences by the new step. */
  lemma {:induction false} DiffSnoc(s: seq<real>, x: real)
    requires |s| >= 1
    decreases |s|
    ensures Diff(s + [x]) == Diff(s) + [x - s[|s| - 1]]
  {
    if |s| > 1 {
      assert (s + [x])[1..] == s[1..] + [x];
      DiffSnoc(s[1..], x);
    }
  }

  /** The `k`-th difference series. */
  function Diffs(s: seq<real>, k: nat): seq<real>
  {
    if k == 0 then s else Diff(Diffs(s, k - 1))
  }

  /** Taking `j` more differences of the first difference series. */
  lemma {:induction false} DiffsShift(s: seq<real>, j: nat)
    ensures Diffs(Diff(s), j) == Diffs(s, j + 1)
  {
    if j > 0 {
      DiffsShift(s, j - 1);
    }
  }

  /** Every entry equals the one before it. */
  predicate Constant(s: seq<real>)
  {
    forall i :: 1 <= i < |s| ==> s[i] == s[i - 1]
  }

  lemma ConstantSnoc(s: seq<real>, x: real)
    ensures Constant(s + [x]) <==> Constant(s) && (|s| == 0 || x == s[|s| - 1])
  {
    var t := s + [x];
    if Constant(s) && (|s| == 0 || x == s[|s| - 1]) {
      forall i | 1 <= i < |t|
        ensures t[i] == t[i - 1]
      {
        if i < |s| {
          assert t[i] == s[i] && t[i - 1] == s[i - 1];
        }
      }
    }
    if Constant(t) {
      forall i | 1 <= i < |s|
        ensures s[i] == s[i - 1]
      {
        assert t[i] == s[i] && t[i - 1] == s[i - 1];
      }
      if |s| > 0 {
        assert t[|s|] == x && t[|s| - 1] == s[|s| - 1];
        assert t[|s|] == t[|s| - 1];
      }
    }
  }

  /** The first entry, or zero for an empty series (a fraction built from
      `undefined` is zero). */
  function Head(s: seq<real>): real
  {
    if |s| > 0 then s[0] else 0.0
  }

  /** The answer `findDegree(s, deg)` gives: nothing for an empty series,
      otherwise the first entry of the first difference series that is
      constant, with its depth counted from `deg`. */
  function DegreeOf(s: seq<real>, deg: int): Option<(real, int)>
    decreases |s|
  {
    if |s| == 0 then None
    else if Constant(Diff(s)) then Some((Head(Diff(s)), deg))
    else DegreeOf(Diff(s), deg + 1)
  }

  /** `findDegree`: builds the difference series and checks, pair by pair,
      that it is constant; recurses on it otherwise. */
  method FindDegree(arr: seq<real>, deg: int) returns (r: Option<(real, int)>)
    decreases |arr|
    ensures r == DegreeOf(arr, deg)
  {
    if |arr| == 0 {
      return None;
    }
    var arr2: seq<real> := [];
    var acc := true;
    for i := 1 to |arr|
      invariant arr2 == Diff(arr[..i])
      invariant acc == Constant(arr2)
    {
      assert arr[..i + 1] == arr[..i] + [arr[i]];
      DiffSnoc(arr[..i], arr[i]);
      ConstantSnoc(arr2, arr[i] - arr[i - 1]);
      arr2 := arr2 + [arr[i] - arr[i - 1]];
      if i != 1 {
        acc := acc && arr2[i - 1] == arr2[i - 2];
      }
    }
    assert arr[..|arr|] == arr;
    if acc {
      return Some((Head(arr2), deg));
    }
    r := FindDegree(arr2, deg + 1);
  }

  /** What `findDegree` promises, first half: it fails exactly on the
      empty series; otherwise it reports a depth `k` (counted from `deg`)
      whose `k`-th difference series is constant, and the coefficient is
      that series' first entry. */
  lemma {:induction false} DegreeOfFound(s: seq<real>, deg: int)
    decreases |s|
    ensures DegreeOf(s, deg).None? <==> |s| == 0
    ensures DegreeOf(s, deg).Some? ==>
      var d := DegreeOf(s, deg).value.1;
      deg <= d < deg + |s| &&
      Constant(Diffs(s, d - deg + 1)) &&
      DegreeOf(s, deg).value.0 == Head(Diffs(s, d - deg + 1))
  {
    if |s| == 0 {
    } else if Constant(Diff(s)) {
      assert Diffs(s, 1) == Diff(Diffs(s, 0)) == Diff(s);
    } else {
      DegreeOfFound(Diff(s), deg + 1);
      DiffsShift(s, DegreeOf(s, deg).value.1 - deg);
    }
  }

  /** Second half: no shallower difference series is constant, so the
      reported depth is the first one that is. */
  lemma {:induction false} DegreeOfFirst(s: seq<real>, deg: int, j: nat)
    requires DegreeOf(s, deg).Some?
    requires 1 <= j <= DegreeOf(s, deg).value.1 - deg
    decreases |s|
    ensures !Constant(Diffs(s, j))
  {
    DiffsShift(s, j - 1);
    if j > 1 {
      DegreeOfFirst(Diff(s), deg + 1, j - 1);
    }
  }

  /** An arithmetic progression of at least two terms has degree one, and
      its step is the coefficient found. */
  lemma ArithmeticDegree(a: real, b: real, n: nat)
    requires n >= 2
    ensures DegreeOf(seq(n, i => a + b * (i as real)), 1) == Some((b, 1))
  {
    var s := seq(n, i => a + b * (i as real));
    forall i | 0 <= i < n - 1
      ensures Diff(s)[i] == b
    {
      DiffAt(s, i);
      assert s[i + 1] - s[i] == b * ((i + 1) as real) - b * (i as real);
    }
    assert Constant(Diff(s));
  }

  // ---------------------------------------------------------------------
  // Prefix sums
  // ---------------------------------------------------------------------

  function Sum(s: seq<real>): real
  {
    if |s| == 0 then 0.0 else Sum(s[..|s| - 1]) + s[|s| - 1]
  }

  /** Entry `i` is the sum of the first `i + 1` entries. */
  function PrefixSums(s: seq<real>): (p: seq<real>)
    ensures |p| == |s|
  {
    seq(|s|, i requires 0 <= i < |s| => Sum(s[..i + 1]))
  }

  /** Differencing the prefix sums gives back the series without its first
      term, so summing raises the degree that `findDegree` reports. */
  lemma DiffPrefixSums(s: seq<real>)
    requires |s| >= 1
    ensures Diff(PrefixSums(s)) == s[1..]
  {
    forall i | 0 <= i < |s| - 1
      ensures Diff(PrefixSums(s))[i] == s[i + 1]
    {
      DiffAt(PrefixSums(s), i);
      assert s[..i + 2][..i + 1] == s[..i + 1];
    }
  }

  // ---------------------------------------------------------------------
  // The fitting loop of `findPolynomial`
  // ---------------------------------------------------------------------

  const NotIterable := "TypeError: false is not iterable"
  const DivisionByZero := "Division by Zero"

  /** The loop's variables: the coefficients found so far, their count `l`,
      the last degree, the residual series and the round counter `_i`. */
  datatype FitState = FitState(poly: seq<real>, l: int, degree: int, test: seq<real>, count: nat)

  function Zeros(n: nat): (z: seq<real>)
    ensures |z| == n && forall i :: 0 <= i < n ==> z[i] == 0.0
  {
    seq(n, _ => 0.0)
  }

  /** What is left of the series once the polynomial's values are taken off. */
  function Residual(series: seq<real>, poly: seq<real>): (t: seq<real>)
    ensures |t| == |series|
  {
    seq(|series|, i requires 0 <= i < |series| => series[i] - Eval(poly, (i + 1) as real))
  }

  /** Sets entry `i` when it is an index of `s`; a negative index names a
      property of the array object, not an entry, so the entries stay. */
  function SetAt(s: seq<real>, i: int, v: real): (r: seq<real>)
    ensures |r| == |s|
  {
    if 0 <= i < |s| then s[i := v] else s
  }

  /** One round of the loop body after the counter test: find the degree of
      the residual, take the coefficient (divided by the degree's
      factorial, missing beyond 10!), place it and recompute the residual. */
  function Round(series: seq<real>, st: FitState): Result<FitState>
  {
    var fd := DegreeOf(st.test, 1);
    if fd.None? then Err(NotIterable)
    else
      var same := st.degree == fd.value.1;
      var c := if same then Head(st.test) else fd.value.0;
      var t := if same then fd.value.1 - 1 else fd.value.1;
      if t < 0 || t > 10 then Err(DivisionByZero)
      else
        var coef := c / (Fact(t) as real);
        var poly := if |st.poly| == 0 then Zeros(t + 1)[0 := coef]
                    else SetAt(st.poly, st.l - t - 1, coef);
        var l := if |st.poly| == 0 then t + 1 else st.l;
        Ok(FitState(poly, l, t, Residual(series, poly), st.count))
  }

  /** The `do … while (degree)` loop from a state: the counter is bumped
      first and the twentieth bump gives up. */
  function Rounds(series: seq<real>, st: FitState): Result<FitState>
    requires st.count < 20
    decreases 20 - st.count
  {
    var k := st.count + 1;
    if k == 20 then Ok(st.(count := k))
    else
      match Round(series, st.(count := k))
      case Err(e) => Err(e)
      case Ok(nx) => if nx.degree == 0 then Ok(nx) else Rounds(series, nx)
  }

  function Start(series: seq<real>): FitState
  {
    FitState([], 0, 999, series, 0)
  }

  /** The outcome of `findPolynomial` on a series. */
  function Fit(series: seq<real>): Result<FitState>
  {
    Rounds(series, Start(series))
  }

  /** The shape a state has once at least one round has run. */
  predicate Placed(series: seq<real>, st: FitState)
  {
    |st.poly| == st.l >= 1 && st.test == Residual(series, st.poly)
  }

  lemma RoundShape(series: seq<real>, st: FitState)
    requires |st.test| == |series|
    requires |st.poly| == 0 || |st.poly| == st.l
    requires Round(series, st).Ok?
    ensures Placed(series, Round(series, st).value)
    ensures Round(series, st).value.count == st.count
  {
  }

  /** A round fails only on an empty residual or a degree past 10. */
  lemma RoundFails(series: seq<real>, st: FitState)
    requires Round(series, st).Err?
    ensures |st.test| == 0 <==> Round(series, st).msg == NotIterable
    ensures Round(series, st).msg == NotIterable || Round(series, st).msg == DivisionByZero
  {
    DegreeOfFound(st.test, 1);
  }

  lemma {:induction false} RoundsMeaning(series: seq<real>, st: FitState)
    requires st.count < 20
    requires |st.test| == |series|
    requires st.count == 0 ==> |st.poly| == 0
    requires st.count > 0 ==> Placed(series, st)
    decreases 20 - st.count
    ensures var r := Rounds(series, st);
      r.Ok? ==> Placed(series, r.value) && st.count < r.value.count <= 20 &&
                (r.value.count < 20 ==> r.value.degree == 0)
    ensures var r := Rounds(series, st);
      r.Err? ==> (r.msg == NotIterable && |series| == 0) || r.msg == DivisionByZero
  {
    var k := st.count + 1;
    if k < 20 {
      var s1 := st.(count := k);
      match Round(series, s1)
      case Err(e) =>
        RoundFails(series, s1);
      case Ok(nx) =>
        RoundShape(series, s1);
        if nx.degree != 0 {
          RoundsMeaning(series, nx);
        }
    }
  }

  /** What `findPolynomial` promises: it fails only on an empty series
      (no degree to destructure) or on a degree past the factorial table;
      otherwise it has placed a coefficient list, stopped after at most 19
      rounds, and either reached degree zero or gave up at the cap, with the
      residual of the last round in hand. */
  lemma FitMeaning(series: seq<real>)
    ensures Fit(series).Ok? ==>
      var st := Fit(series).value;
      |st.poly| >= 1 && st.test == Residual(series, st.poly) &&
      1 <= st.count <= 20 && (st.count < 20 ==> st.degree == 0)
    ensures Fit(series).Err? ==>
      (Fit(series).msg == NotIterable && |series| == 0) || Fit(series).msg == DivisionByZero
    ensures |series| == 0 ==> Fit(series) == Err(NotIterable)
  {
    RoundsMeaning(series, Start(series));
  }

  /** A zero residual means the coefficients found reproduce the series. */
  lemma FitExact(series: seq<real>)
    requires Fit(series).Ok?
    requires forall i :: 0 <= i < |Fit(series).value.test| ==> Fit(series).value.test[i] == 0.0
    ensures SeriesOf(Fit(series).value.poly, |series|) == series
  {
    FitMeaning(series);
    var st := Fit(series).value;
    forall i | 0 <= i < |series|
      ensures SeriesOf(st.poly, |series|)[i] == series[i]
    {
      assert st.test[i] == series[i] - Eval(st.poly, (i + 1) as real);
    }
  }

  /** The loop that takes the polynomial's values off the series, entry by
      entry, over the residual array. */
  method Subtract(series: seq<real>, testArr: seq<real>, polyArr: seq<real>) returns (t: seq<real>)
    requires |testArr| == |series| == |polyArr|
    ensures |t| == |series|
    ensures forall i :: 0 <= i < |t| ==> t[i] == series[i] - polyArr[i]
  {
    t := testArr;
    for i := 0 to |polyArr|
      invariant |t| == |series|
      invariant forall k :: 0 <= k < i ==> t[k] == series[k] - polyArr[k]
    {
      t := t[i := series[i] - polyArr[i]];
    }
  }

  /** One pass of the loop body of `findPolynomial` after the counter
      test, on the loop's variables held in `st`. */
  method PlayRound(series: seq<real>, st: FitState, factorials: seq<nat>) returns (r: Result<FitState>)
    requires |st.test| == |series|
    requires |factorials| == 11 && forall i :: 0 <= i < 11 ==> factorials[i] == Fact(i)
    ensures r == Round(series, st)
  {
    var fd := FindDegree(st.test, 1);
    if fd.None? {
      return Err(NotIterable);
    }
    var coefficient := fd.value.0;
    var tempDeg := fd.value.1;
    if st.degree == tempDeg {
      tempDeg := tempDeg - 1;
      coefficient := Head(st.test);
    }
    var degree := tempDeg;
    if degree < 0 || degree > 10 {
      // factorials[degree] is undefined, which divides by zero
      return Err(DivisionByZero);
    }
    coefficient := coefficient / (factorials[degree] as real);
    var poly := st.poly;
    var l := st.l;
    if |poly| == 0 {
      poly := Zeros(degree + 1);
      l := degree + 1;
      poly := poly[0 := coefficient];
    } else {
      poly := SetAt(poly, l - degree - 1, coefficient);
    }
    var polyArr := GeneratePolySeries(poly, |series|);
    var testArr := Subtract(series, st.test, polyArr);
    assert testArr == Residual(series, poly);
    r := Ok(FitState(poly, l, degree, testArr, st.count));
  }

  /** The `do … while (degree)` loop of `findPolynomial` on its local
      variables: the round counter is bumped first, the twentieth bump
      gives up, and a round that reaches degree zero ends the loop. */
  method FitLoop(series: seq<real>) returns (r: Result<FitState>)
    ensures r == Fit(series)
  {
    var factorials := GenerateFactorials(10);
    var st := Start(series);
    while true
      invariant st.count < 20 && |st.test| == |series|
      invariant Rounds(series, st) == Fit(series)
      decreases 20 - st.count
    {
      st := st.(count := st.count + 1);
      if st.count == 20 {
        return Ok(st);
      }
      var next := PlayRound(series, st, factorials);
      if next.Err? {
        return next;
      }
      st := next.value;
      if st.degree == 0 {
        return Ok(st);
      }
    }
  }

  /** A series together with the polynomial found for it. */
  class Series {
    var poly: seq<real>
    var series: seq<real>

    constructor Init(p: seq<real>, s: seq<real>)
      ensures poly == p && series == s
    {
      poly := p;
      series := s;
    }

    /** `findPolynomial`: fits coefficients to `series` round by round and
        keeps them in `poly`; `gaveUp` stands for the message logged when
        the round cap is hit. A thrown error leaves `poly` as it was. */
    method FindPolynomial() returns (o: Outcome, gaveUp: bool)
      modifies this
      ensures series == old(series)
      ensures o.Pass? <==> Fit(series).Ok?
      ensures o.Pass? ==> poly == Fit(series).value.poly && (gaveUp <==> Fit(series).value.count == 20)
      ensures o.Fail? ==> o.msg == Fit(series).msg && poly == old(poly)
    {
      var r := FitLoop(series);
      if r.Err? {
        return Fail(r.msg), false;
      }
      gaveUp := r.value.count == 20;
      poly := r.value.poly;
      o := Pass;
    }

    /** `findSummationPoly`: replaces the series by its running sums, in
        place, then fits a polynomial to them. */
    method FindSummationPoly() returns (o: Outcome)
      modifies this
      ensures series == PrefixSums(old(series))
      ensures o.Pass? <==> Fit(series).Ok?
      ensures o.Pass? ==> poly == Fit(series).value.poly
      ensures o.Fail? ==> poly == old(poly)
    {
      if |series| == 0 {
        // generatePolySeries() with no arguments yields an empty array
        series := [];
      }
      ghost var s0 := series;
      var l := |series|;
      if l > 0 {
        assert Sum(s0[..1]) == Sum(s0[..1][..0]) + s0[0];
      }
      var i := 1;
      while i < l
        invariant 1 <= i && (l > 0 ==> i <= l) && |series| == l == |s0|
        invariant poly == old(poly)
        invariant forall k :: 0 <= k < i && k < l ==> series[k] == Sum(s0[..k + 1])
        invariant forall k :: i <= k < l ==> series[k] == s0[k]
      {
        assert s0[..i + 1][..i] == s0[..i];
        series := series[i := series[i] + series[i - 1]];
        i := i + 1;
      }
      assert series == PrefixSums(s0);
      var gaveUp;
      o, gaveUp := FindPolynomial();
    }

    /** `expandSeries`: the first `n` values of the polynomial, fitting one
        first when none is held; the series is replaced by them. */
    method ExpandSeries(n: int) returns (r: Result<seq<real>>)
      modifies this
      ensures |old(poly)| > 0 ==> r.Ok? && poly == old(poly)
      ensures |old(poly)| == 0 ==>
        (r.Ok? <==> Fit(old(series)).Ok?) &&
        (r.Ok? ==> poly == Fit(old(series)).value.poly) &&
        (r.Err? ==> r.msg == Fit(old(series)).msg)
      ensures r.Ok? ==> r.value == series == SeriesOf(poly, n)
      ensures r.Err? ==> series == old(series)
    {
      if |series| == 0 {
        // generatePolySeries() with no arguments yields an empty array
        series := [];
      }
      if |poly| == 0 {
        var o, gaveUp := FindPolynomial();
        if o.Fail? {
          return Err(o.msg);
        }
        FitMeaning(series);
      }
      series := GeneratePolySeries(poly, n);
      r := Ok(series);
    }
  }

  /** The constructor: a 'polynomial' holds coefficients, a 'series' holds
      terms; any other kind throws. */
  method NewSeries(arr: seq<real>, kind: string) returns (r: Result<Series>)
    ensures kind == "polynomial" ==> r.Ok? && r.value.poly == arr && r.value.series == []
    ensures kind == "series" ==> r.Ok? && r.value.poly == [] && r.value.series == arr
    ensures kind != "polynomial" && kind != "series" ==> r == Err("Invalid type")
  {
    if kind == "polynomial" {
      var s := new Series.Init(arr, []);
      return Ok(s);
    } else if kind == "series" {
      var s := new Series.Init([], arr);
      return Ok(s);
    }
    return Err("Invalid type");
  }
}
