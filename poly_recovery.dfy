/** Why `findPolynomial` recovers a polynomial from its own series: every
    round of the fit removes the top term of the residual, found by finite
    differences, so a polynomial of degree at most 10 sampled at enough
    points is fitted exactly, well before the round cap.

    The proof works on ascending coefficient lists (`a[j]` is the
    coefficient of x^j), where one forward difference has a short
    recursive form; `Rev` connects them to the leading-first lists of
    `PolySeries`. */
module PolyRecovery {
  import opened Wrappers
  import opened PolySeries

  // ---------------------------------------------------------------------
  // Ascending coefficient lists
  // ---------------------------------------------------------------------

  /** The coefficient of x^j, zero past the end of the list. */
  function Coef(a: seq<real>, j: int): real
  {
    if 0 <= j < |a| then a[j] else 0.0
  }

  function Tail(a: seq<real>): seq<real>
  {
    if |a| == 0 then [] else a[1..]
  }

  /** The value at `x`, by Horner's rule from the constant term. */
  function Val(a: seq<real>, x: real): real
    decreases |a|
  {
    if |a| == 0 then 0.0 else a[0] + x * Val(a[1..], x)
  }

  /** Coefficient-wise sum. */
  function Add(a: seq<real>, b: seq<real>): seq<real>
    decreases |a| + |b|
  {
    if |a| == 0 && |b| == 0 then [] else [Coef(a, 0) + Coef(b, 0)] + Add(Tail(a), Tail(b))
  }

  /** Coefficient-wise difference. */
  function Sub(a: seq<real>, b: seq<real>): seq<real>
    decreases |a| + |b|
  {
    if |a| == 0 && |b| == 0 then [] else [Coef(a, 0) - Coef(b, 0)] + Sub(Tail(a), Tail(b))
  }

  lemma TailCoef(a: seq<real>, j: int)
    requires j >= 0
    ensures Coef(Tail(a), j) == Coef(a, j + 1)
  {
  }

  lemma {:induction false} AddCoef(a: seq<real>, b: seq<real>, j: int)
    decreases |a| + |b|
    ensures Coef(Add(a, b), j) == Coef(a, j) + Coef(b, j)
  {
    if (|a| > 0 || |b| > 0) && j > 0 {
      AddCoef(Tail(a), Tail(b), j - 1);
      TailCoef(a, j - 1);
      TailCoef(b, j - 1);
    }
  }

  lemma {:induction false} SubCoef(a: seq<real>, b: seq<real>, j: int)
    decreases |a| + |b|
    ensures Coef(Sub(a, b), j) == Coef(a, j) - Coef(b, j)
  {
    if (|a| > 0 || |b| > 0) && j > 0 {
      SubCoef(Tail(a), Tail(b), j - 1);
      TailCoef(a, j - 1);
      TailCoef(b, j - 1);
    }
  }

  lemma ValTail(a: seq<real>, x: real)
    ensures Val(a, x) == Coef(a, 0) + x * Val(Tail(a), x)
  {
  }

  /** A list whose coefficients are all zero has value zero. */
  lemma {:induction false} ValZero(a: seq<real>, x: real)
    requires forall j :: j >= 0 ==> Coef(a, j) == 0.0
    decreases |a|
    ensures Val(a, x) == 0.0
  {
    if |a| > 0 {
      forall j | j >= 0
        ensures Coef(a[1..], j) == 0.0
      {
        TailCoef(a, j);
      }
      ValZero(a[1..], x);
      assert Coef(a, 0) == 0.0;
    }
  }

  /** A list with no term above the constant has the constant as value. */
  lemma ValConst(a: seq<real>, x: real)
    requires forall j :: j >= 1 ==> Coef(a, j) == 0.0
    ensures Val(a, x) == Coef(a, 0)
  {
    if |a| > 0 {
      forall j | j >= 0
        ensures Coef(a[1..], j) == 0.0
      {
        TailCoef(a, j);
      }
      ValZero(a[1..], x);
    }
  }

  /** Lists with the same coefficients have the same values. */
  lemma {:induction false} ValCoefEq(a: seq<real>, b: seq<real>, x: real)
    requires forall j :: j >= 0 ==> Coef(a, j) == Coef(b, j)
    decreases |a| + |b|
    ensures Val(a, x) == Val(b, x)
  {
    if |a| > 0 || |b| > 0 {
      forall j | j >= 0
        ensures Coef(Tail(a), j) == Coef(Tail(b), j)
      {
        TailCoef(a, j);
        TailCoef(b, j);
      }
      ValCoefEq(Tail(a), Tail(b), x);
      ValTail(a, x);
      ValTail(b, x);
      assert Coef(a, 0) == Coef(b, 0);
    }
  }

  // ---------------------------------------------------------------------
  // Values at natural points
  // ---------------------------------------------------------------------

  /** `t · x` as repeated addition, so that the difference lemmas stay
      linear. */
  function Times(t: nat, x: real): real
  {
    if t == 0 then 0.0 else x + Times(t - 1, x)
  }

  lemma TimesNonZero(t: nat, x: real)
    requires t >= 1 && x != 0.0
    ensures Times(t, x) != 0.0
  {
    TimesIsMul(t, x);
  }

  lemma {:induction false} TimesIsMul(t: nat, x: real)
    ensures Times(t, x) == (t as real) * x
  {
    if t > 0 {
      TimesIsMul(t - 1, x);
      assert (t as real) * x == x + ((t - 1) as real) * x;
    }
  }

  lemma {:induction false} TimesSub(t: nat, u: real, w: real)
    ensures Times(t, u - w) == Times(t, u) - Times(t, w)
  {
    if t > 0 {
      TimesSub(t - 1, u, w);
    }
  }

  lemma {:induction false} TimesAdd(t: nat, u: real, w: real)
    ensures Times(t, u + w) == Times(t, u) + Times(t, w)
  {
    if t > 0 {
      TimesAdd(t - 1, u, w);
    }
  }

  /** `Val` at a natural point, with the products written as `Times`. */
  function ValAt(a: seq<real>, t: nat): real
  {
    if |a| == 0 then 0.0 else a[0] + Times(t, ValAt(a[1..], t))
  }

  lemma {:induction false} ValAtIsVal(a: seq<real>, t: nat)
    ensures ValAt(a, t) == Val(a, t as real)
  {
    if |a| > 0 {
      ValAtIsVal(a[1..], t);
      TimesIsMul(t, ValAt(a[1..], t));
    }
  }

  lemma ValAtTail(a: seq<real>, t: nat)
    ensures ValAt(a, t) == Coef(a, 0) + Times(t, ValAt(Tail(a), t))
  {
    if |a| == 0 {
      TimesAdd(t, 0.0, 0.0);
    }
  }

  lemma AddUnfold(a: seq<real>, b: seq<real>)
    requires |a| > 0 || |b| > 0
    ensures Coef(Add(a, b), 0) == Coef(a, 0) + Coef(b, 0) && Tail(Add(a, b)) == Add(Tail(a), Tail(b))
  {
  }

  lemma SubUnfold(a: seq<real>, b: seq<real>)
    requires |a| > 0 || |b| > 0
    ensures Coef(Sub(a, b), 0) == Coef(a, 0) - Coef(b, 0) && Tail(Sub(a, b)) == Sub(Tail(a), Tail(b))
  {
  }

  lemma {:induction false} AddVal(a: seq<real>, b: seq<real>, t: nat)
    decreases |a| + |b|
    ensures ValAt(Add(a, b), t) == ValAt(a, t) + ValAt(b, t)
  {
    if |a| > 0 || |b| > 0 {
      AddUnfold(a, b);
      AddVal(Tail(a), Tail(b), t);
      ValAtTail(a, t);
      ValAtTail(b, t);
      ValAtTail(Add(a, b), t);
      TimesAdd(t, ValAt(Tail(a), t), ValAt(Tail(b), t));
    }
  }

  lemma {:induction false} SubVal(a: seq<real>, b: seq<real>, t: nat)
    decreases |a| + |b|
    ensures ValAt(Sub(a, b), t) == ValAt(a, t) - ValAt(b, t)
  {
    if |a| > 0 || |b| > 0 {
      SubUnfold(a, b);
      SubVal(Tail(a), Tail(b), t);
      ValAtTail(a, t);
      ValAtTail(b, t);
      ValAtTail(Sub(a, b), t);
      TimesSub(t, ValAt(Tail(a), t), ValAt(Tail(b), t));
    }
  }



  // ---------------------------------------------------------------------
  // The forward difference P(x + 1) - P(x)
  // ---------------------------------------------------------------------

  /** With `a = c + x·a'` and `d'` the difference of `a'`, the difference
      of `a` is `a' + d' + x·d'`. */
  function Delta(a: seq<real>): seq<real>
    decreases |a|
  {
    if |a| <= 1 then []
    else
      var d := Delta(a[1..]);
      Add(a[1..], Add(d, [0.0] + d))
  }

  lemma DeltaUnfold(a: seq<real>)
    requires |a| > 1
    ensures Delta(a) == Add(a[1..], Add(Delta(a[1..]), [0.0] + Delta(a[1..])))
  {
  }
  /** One unfolding of Delta, evaluated at t. */
  lemma ValDeltaUnfold(a: seq<real>, t: nat)
    requires |a| > 1
    ensures ValAt(Delta(a), t) == ValAt(a[1..], t) + (ValAt(Delta(a[1..]), t) + (0.0 + Times(t, ValAt(Delta(a[1..]), t))))
  {
    var a', d := a[1..], Delta(a[1..]);
    var z := [0.0] + d;
    DeltaUnfold(a);
    AddVal(a', Add(d, z), t);
    AddVal(d, z, t);
    assert z[1..] == d;
  }

  /** The difference of a polynomial's values at consecutive naturals is
      the value of its `Delta`. */
  lemma {:induction false} ValDelta(a: seq<real>, t: nat)
    decreases |a|
    ensures ValAt(Delta(a), t) == ValAt(a, t + 1) - ValAt(a, t)
  {
    if |a| <= 1 {
      ValConst(a, t as real);
      ValConst(a, (t + 1) as real);
      ValAtIsVal(a, t);
      ValAtIsVal(a, t + 1);
    } else {
      var a' := a[1..];
      ValDelta(a', t);
      ValDeltaUnfold(a, t);
      TimesSub(t, ValAt(a', t + 1), ValAt(a', t));
    }
  }


  lemma ShiftCoef(d: seq<real>, j: int)
    ensures Coef([0.0] + d, j) == if j >= 1 then Coef(d, j - 1) else 0.0
  {
  }

  /** A list with no term above x^t differences to one with no term at
      or above x^t. */
  lemma {:induction false} DeltaHigh(a: seq<real>, t: nat)
    requires forall j :: j > t ==> Coef(a, j) == 0.0
    decreases |a|
    ensures forall j :: j >= t ==> Coef(Delta(a), j) == 0.0
  {
    if |a| > 1 {
      var a' := a[1..];
      var d := Delta(a');
      var t' := if t == 0 then 0 else t - 1;
      forall j | j > t'
        ensures Coef(a', j) == 0.0
      {
        TailCoef(a, j);
      }
      DeltaHigh(a', t');
      forall j | j >= t
        ensures Coef(Delta(a), j) == 0.0
      {
        DeltaCoefAt(a, d, j);
        TailCoef(a, j);
      }
    }
  }

  /** No term above x^t. */
  ghost predicate High(a: seq<real>, t: int)
  {
    forall j :: j > t ==> Coef(a, j) == 0.0
  }

  lemma HighTail(a: seq<real>, t: nat)
    requires t >= 1 && High(a, t)
    ensures High(Tail(a), t - 1)
  {
    forall j | j > t - 1
      ensures Coef(Tail(a), j) == 0.0
    {
      TailCoef(a, j);
    }
  }

  /** The x^(t-1) coefficient of the difference is `t` times the top
      coefficient x^t. */
  lemma {:induction false} DeltaTop(a: seq<real>, t: nat)
    requires t >= 1 && High(a, t)
    decreases |a|
    ensures Coef(Delta(a), t - 1) == Times(t, Coef(a, t))
  {
    if |a| > 1 {
      var a' := a[1..];
      var d := Delta(a');
      HighTail(a, t);
      assert Tail(a) == a';
      if t >= 2 {
        DeltaTop(a', t - 1);
      }
      TailCoef(a, t - 1);
      DeltaHigh(a', t - 1);
      DeltaCoefAt(a, d, t - 1);
    } else {
      assert Coef(a, t) == 0.0;
      assert Delta(a) == [];
      TimesIsMul(t, 0.0);
    }
  }

  lemma DeltaCoefAt(a: seq<real>, d: seq<real>, j: int)
    requires |a| > 1 && d == Delta(a[1..])
    ensures Coef(Delta(a), j) == Coef(a[1..], j) + (Coef(d, j) + (if j >= 1 then Coef(d, j - 1) else 0.0))
  {
    AddCoef(a[1..], Add(d, [0.0] + d), j);
    AddCoef(d, [0.0] + d, j);
    ShiftCoef(d, j);
  }

  // ---------------------------------------------------------------------
  // Sampled series and finite differences
  // ---------------------------------------------------------------------

  /** [P(1), …, P(n)] for an ascending list. */
  function S(a: seq<real>, n: nat): (s: seq<real>)
    ensures |s| == n
  {
    seq(n, i requires 0 <= i < n => ValAt(a, i + 1))
  }

  predicate AllZero(s: seq<real>)
  {
    forall i :: 0 <= i < |s| ==> s[i] == 0.0
  }

  /** Differencing the samples samples the difference. */
  lemma DiffS(a: seq<real>, n: nat)
    requires n >= 1
    ensures Diff(S(a, n)) == S(Delta(a), n - 1)
  {
    var s, ds := S(a, n), S(Delta(a), n - 1);
    forall i | 0 <= i < n - 1
      ensures Diff(s)[i] == ds[i]
    {
      DiffAt(s, i);
      ValDelta(a, i + 1);
    }
  }

  /** Samples that are all zero have differences that are all zero. */
  lemma DiffAllZero(a: seq<real>, n: nat)
    requires n >= 1 && AllZero(S(a, n))
    ensures AllZero(S(Delta(a), n - 1))
  {
    var s, ds := S(a, n), S(Delta(a), n - 1);
    DiffS(a, n);
    forall i | 0 <= i < n - 1
      ensures ds[i] == 0.0
    {
      DiffAt(s, i);
    }
  }

  /** Constant samples have differences that are all zero. */
  lemma DiffConstant(a: seq<real>, n: nat)
    requires n >= 1 && Constant(S(a, n))
    ensures AllZero(S(Delta(a), n - 1))
  {
    var s, ds := S(a, n), S(Delta(a), n - 1);
    DiffS(a, n);
    forall i | 0 <= i < n - 1
      ensures ds[i] == 0.0
    {
      DiffAt(s, i);
    }
  }

  /** The samples of a constant are that constant. */
  lemma SConst(a: seq<real>, n: nat)
    requires forall j :: j >= 1 ==> Coef(a, j) == 0.0
    ensures forall i :: 0 <= i < n ==> S(a, n)[i] == Coef(a, 0)
  {
    var s := S(a, n);
    forall i | 0 <= i < n
      ensures s[i] == Coef(a, 0)
    {
      ValConst(a, (i + 1) as real);
      ValAtIsVal(a, i + 1);
    }
  }

  /** A polynomial of exact degree `e` is not zero at all of `e + 1`
      consecutive points. */
  lemma {:induction false} NotAllZero(a: seq<real>, e: nat, n: nat)
    requires n >= e + 1 && Coef(a, e) != 0.0
    requires forall j :: j > e ==> Coef(a, j) == 0.0
    decreases e
    ensures !AllZero(S(a, n))
  {
    if e == 0 {
      SConst(a, n);
      assert S(a, n)[0] == Coef(a, 0);
    } else {
      DeltaHigh(a, e);
      DeltaTop(a, e);
      TimesNonZero(e, Coef(a, e));
      NotAllZero(Delta(a), e - 1, n - 1);
      if AllZero(S(a, n)) {
        DiffAllZero(a, n);
        assert false;
      }
    }
  }

  /** Nor is it constant there, when `e` is at least 1. */
  lemma NotConstant(a: seq<real>, e: nat, n: nat)
    requires e >= 1 && n >= e + 1 && Coef(a, e) != 0.0
    requires forall j :: j > e ==> Coef(a, j) == 0.0
    ensures !Constant(S(a, n))
  {
    DeltaHigh(a, e);
    DeltaTop(a, e);
    TimesNonZero(e, Coef(a, e));
    NotAllZero(Delta(a), e - 1, n - 1);
    if Constant(S(a, n)) {
      DiffConstant(a, n);
      assert false;
    }
  }

  lemma {:induction false} TimesPlus(a: nat, b: nat, c: real)
    ensures Times(a + b, c) == Times(a, c) + Times(b, c)
  {
    if a > 0 {
      TimesPlus(a - 1, b, c);
    }
  }

  lemma {:induction false} TimesTimes(e: nat, f: nat, c: real)
    ensures Times(e * f, c) == Times(f, Times(e, c))
  {
    if f > 0 {
      assert e * f == e * (f - 1) + e;
      TimesTimes(e, f - 1, c);
      TimesPlus(e * (f - 1), e, c);
    }
  }

  lemma FactStep(e: nat, c: real, y: real)
    requires e >= 1 && y == Times(e, c)
    ensures Times(Fact(e - 1), y) == Times(Fact(e), c)
  {
    TimesTimes(e, Fact(e - 1), c);
  }


  /** One step of `findDegree`'s recursion. */
  lemma DegreeOfStep(s: seq<real>, deg: int)
    requires |s| > 0
    ensures DegreeOf(s, deg) ==
            if Constant(Diff(s)) then Some((Head(Diff(s)), deg)) else DegreeOf(Diff(s), deg + 1)
  {
  }

  /** The difference of a polynomial of exact degree `e >= 1` has exact
      degree `e - 1`, with `e` times the top coefficient. */
  lemma DeltaExact(a: seq<real>, e: nat)
    requires e >= 1 && Coef(a, e) != 0.0 && High(a, e)
    ensures High(Delta(a), e - 1)
    ensures Coef(Delta(a), e - 1) == Times(e, Coef(a, e)) != 0.0
  {
    DeltaHigh(a, e);
    DeltaTop(a, e);
    TimesNonZero(e, Coef(a, e));
  }

  /** `findDegree` goes on to the differences when they are not constant. */
  lemma DegreeOfRecurse(a: seq<real>, n: nat, deg: int)
    requires n >= 1 && !Constant(S(Delta(a), n - 1))
    ensures DegreeOf(S(a, n), deg) == DegreeOf(S(Delta(a), n - 1), deg + 1)
  {
    DiffS(a, n);
    DegreeOfStep(S(a, n), deg);
  }

  /** `findDegree` stops at constant differences, with their first entry. */
  lemma DegreeOfStop(a: seq<real>, n: nat, deg: int)
    requires n >= 1 && Constant(S(Delta(a), n - 1))
    ensures DegreeOf(S(a, n), deg) == Some((Head(S(Delta(a), n - 1)), deg))
  {
    DiffS(a, n);
    DegreeOfStep(S(a, n), deg);
  }

  /** The base case of `DegreeOfTop`: a polynomial of degree 1. */
  lemma DegreeOfLinear(a: seq<real>, e: nat, n: nat, deg: int)
    requires e == 1 && n >= 2 && High(a, e)
    ensures DegreeOf(S(a, n), deg) == Some((Times(Fact(e), Coef(a, e)), deg + e - 1))
  {
    var da := Delta(a);
    DeltaHigh(a, e);
    DeltaTop(a, e);
    assert Times(e, Coef(a, e)) == Coef(a, e) + Times(0, Coef(a, e));
    SConst(da, n - 1);
    assert Constant(S(da, n - 1));
    DegreeOfStop(a, n, deg);
    assert Fact(e) == 1;
    assert Times(1, Coef(a, e)) == Coef(a, e) + Times(0, Coef(a, e));
  }

  /** `findDegree` on the samples of a polynomial of exact degree `e >= 1`
      at `e + 1` or more points: the degree `e` and the coefficient
      `e!` times the top coefficient. */
  lemma {:induction false} DegreeOfTop(a: seq<real>, e: nat, n: nat, deg: int)
    requires e >= 1 && n >= e + 1 && Coef(a, e) != 0.0 && High(a, e)
    decreases e
    ensures DegreeOf(S(a, n), deg) == Some((Times(Fact(e), Coef(a, e)), deg + e - 1))
  {
    if e == 1 {
      DegreeOfLinear(a, e, n, deg);
    } else {
      DeltaExact(a, e);
      DegreeOfTop(Delta(a), e - 1, n - 1, deg + 1);
      DegreeOfHigher(a, e, n, deg);
    }
  }

  /** The step of `DegreeOfTop` from the differences' degree. */
  lemma DegreeOfHigher(a: seq<real>, e: nat, n: nat, deg: int)
    requires e >= 2 && n >= e + 1 && High(Delta(a), e - 1)
    requires Coef(Delta(a), e - 1) == Times(e, Coef(a, e)) != 0.0
    requires DegreeOf(S(Delta(a), n - 1), deg + 1) ==
             Some((Times(Fact(e - 1), Coef(Delta(a), e - 1)), deg + e - 1))
    ensures DegreeOf(S(a, n), deg) == Some((Times(Fact(e), Coef(a, e)), deg + e - 1))
  {
    NotConstant(Delta(a), e - 1, n - 1);
    DegreeOfRecurse(a, n, deg);
    FactStep(e, Coef(a, e), Coef(Delta(a), e - 1));
  }

  /** `findDegree` on the samples of a constant: degree `deg`, coefficient
      zero. */
  lemma DegreeOfFlat(a: seq<real>, n: nat, deg: int)
    requires n >= 1
    requires forall j :: j >= 1 ==> Coef(a, j) == 0.0
    ensures DegreeOf(S(a, n), deg) == Some((0.0, deg))
  {
    var s, da := S(a, n), Delta(a);
    DiffS(a, n);
    DeltaHigh(a, 0);
    forall j | j >= 1
      ensures Coef(da, j) == 0.0
    {
    }
    SConst(da, n - 1);
    DegreeOfStep(s, deg);
    assert Constant(S(da, n - 1));
  }

  /** The index of the highest non-zero coefficient, 0 when there is none
      above the constant. */
  function Top(a: seq<real>): (e: nat)
    decreases |a|
    ensures forall j :: j > e ==> Coef(a, j) == 0.0
    ensures e >= 1 ==> Coef(a, e) != 0.0
  {
    if |a| <= 1 then 0
    else if a[|a| - 1] != 0.0 then |a| - 1
    else
      var e := Top(a[..|a| - 1]);
      assert forall j :: j > e ==> Coef(a, j) == 0.0 by {
        forall j | j > e
          ensures Coef(a, j) == 0.0
        {
          if j < |a| - 1 {
            assert Coef(a[..|a| - 1], j) == a[j];
          }
        }
      }
      e
  }

  // ---------------------------------------------------------------------
  // Leading-first lists
  // ---------------------------------------------------------------------

  /** The ascending list of a leading-first one. */
  function Rev(p: seq<real>): (r: seq<real>)
    ensures |r| == |p|
  {
    if |p| == 0 then [] else Rev(p[1..]) + [p[0]]
  }

  lemma {:induction false} RevCoef(p: seq<real>, j: int)
    ensures Coef(Rev(p), j) == if 0 <= j < |p| then p[|p| - 1 - j] else 0.0
  {
    if |p| > 0 && 0 <= j < |p| - 1 {
      RevCoef(p[1..], j);
    }
  }

  lemma SnocAlgebra(a0: real, x: real, v: real, c: real, w: real)
    ensures a0 + x * (v + c * w) == (a0 + x * v) + c * (x * w)
  {
  }

  lemma {:induction false} ValSnoc(a: seq<real>, c: real, x: real)
    decreases |a|
    ensures Val(a + [c], x) == Val(a, x) + c * Power(x, |a|)
  {
    if |a| > 0 {
      assert (a + [c])[1..] == a[1..] + [c];
      ValSnoc(a[1..], c, x);
      SnocAlgebra(a[0], x, Val(a[1..], x), c, Power(x, |a| - 1));
    } else {
      assert Val([c], x) == c + x * Val([], x);
    }
  }

  /** `Eval` of a leading-first list is `Val` of its reversal. */
  lemma {:induction false} EvalVal(p: seq<real>, x: real)
    decreases |p|
    ensures Eval(p, x) == Val(Rev(p), x)
  {
    if |p| > 0 {
      EvalVal(p[1..], x);
      ValSnoc(Rev(p[1..]), p[0], x);
    }
  }

  lemma SeriesAsS(p: seq<real>, n: nat)
    ensures SeriesOf(p, n) == S(Rev(p), n)
  {
    forall i | 0 <= i < n
      ensures SeriesOf(p, n)[i] == S(Rev(p), n)[i]
    {
      EvalVal(p, (i + 1) as real);
      ValAtIsVal(Rev(p), i + 1);
    }
  }

  /** The residual of a fit is the sampled difference of the two lists. */
  lemma ResidualAsS(p: seq<real>, poly: seq<real>, n: nat)
    ensures Residual(SeriesOf(p, n), poly) == S(Sub(Rev(p), Rev(poly)), n)
  {
    forall i | 0 <= i < n
      ensures Residual(SeriesOf(p, n), poly)[i] == S(Sub(Rev(p), Rev(poly)), n)[i]
    {
      ResidualAt(p, poly, i);
    }
  }

  lemma ResidualAt(p: seq<real>, poly: seq<real>, i: nat)
    ensures Eval(p, (i + 1) as real) - Eval(poly, (i + 1) as real) == ValAt(Sub(Rev(p), Rev(poly)), i + 1)
  {
    var x := (i + 1) as real;
    EvalVal(p, x);
    EvalVal(poly, x);
    ValAtIsVal(Rev(p), i + 1);
    ValAtIsVal(Rev(poly), i + 1);
    SubVal(Rev(p), Rev(poly), i + 1);
  }


  /** Placing coefficient `c` at x^t of a leading-first list. */
  lemma SetAtRev(poly: seq<real>, t: nat, c: real, j: int)
    requires t < |poly|
    ensures Coef(Rev(SetAt(poly, |poly| - t - 1, c)), j) == if j == t then c else Coef(Rev(poly), j)
  {
    RevCoef(SetAt(poly, |poly| - t - 1, c), j);
    RevCoef(poly, j);
  }

  /** The first list placed: `c` at x^t and zeros below. */
  lemma ZerosRev(t: nat, c: real, j: int)
    ensures Coef(Rev(Zeros(t + 1)[0 := c]), j) == if j == t then c else 0.0
  {
    RevCoef(Zeros(t + 1)[0 := c], j);
  }

  lemma DivCancel(f: nat, x: real, c: real)
    requires f >= 1 && c == Times(f, x)
    ensures c / (f as real) == x
  {
    TimesIsMul(f, x);
  }

  // ---------------------------------------------------------------------
  // The rounds of the fit on a polynomial's series
  // ---------------------------------------------------------------------

  /** A state of the fit of `SeriesOf(p, n)` after `count` rounds at
      degree `t`: the coefficients from x^t up agree with `p`, those below
      are still zero, and `count + t` leaves room for the rounds to come. */
  ghost predicate Tracking(p: seq<real>, d: nat, n: nat, st: FitState)
  {
    Placed(SeriesOf(p, n), st) && 0 <= st.degree < st.l &&
    (st.degree <= d || st.degree <= 1) &&
    1 <= st.count && st.count + st.degree <= 11 &&
    (forall j :: j >= st.degree ==> Coef(Rev(st.poly), j) == Coef(Rev(p), j)) &&
    (forall j :: 0 <= j < st.degree ==> Coef(Rev(st.poly), j) == 0.0)
  }

  /** The hypothesis on the series: `p` has no term above x^d, `d` is in
      the factorial table, and there are at least `d + 1` terms. */
  predicate Fittable(p: seq<real>, d: nat, n: int)
  {
    d <= 10 && n >= d + 1 && forall j :: 0 <= j < |p| - 1 - d ==> p[j] == 0.0
  }

  lemma FittableCoef(p: seq<real>, d: nat, n: int)
    requires Fittable(p, d, n)
    ensures forall j :: j > d ==> Coef(Rev(p), j) == 0.0
  {
    forall j | j > d
      ensures Coef(Rev(p), j) == 0.0
    {
      RevCoef(p, j);
    }
  }

  /** The residual of a tracked state, coefficient by coefficient. */
  lemma ResidualCoef(p: seq<real>, d: nat, n: nat, st: FitState, j: int)
    requires Tracking(p, d, n, st)
    ensures Coef(Sub(Rev(p), Rev(st.poly)), j) == Coef(Rev(p), j) - Coef(Rev(st.poly), j)
  {
    SubCoef(Rev(p), Rev(st.poly), j);
  }

  /** The first round: the top term of `p` (or degree 1 with coefficient
      zero when `p` is a constant) is placed. */
  lemma FirstRound(p: seq<real>, d: nat, n: nat)
    requires Fittable(p, d, n)
    ensures var r := Round(SeriesOf(p, n), Start(SeriesOf(p, n)).(count := 1));
            r.Ok? && Tracking(p, d, n, r.value) && r.value.degree >= 1
  {
    FittableCoef(p, d, n);
    SeriesAsS(p, n);
    if Top(Rev(p)) >= 1 {
      FirstRoundTop(p, d, n);
    } else {
      FirstRoundFlat(p, d, n);
    }
  }

  /** A round on an empty list at a new degree `k` starts a list of
      `k + 1` terms with `coef` at the front. */
  lemma RoundFirst(series: seq<real>, st: FitState, c0: real, k: int, coef: real)
    requires |st.poly| == 0 && DegreeOf(st.test, 1) == Some((c0, k))
    requires st.degree != k && 0 <= k <= 10 && coef == c0 / (Fact(k) as real)
    ensures var poly := Zeros(k + 1)[0 := coef];
            Round(series, st) == Ok(FitState(poly, k + 1, k, Residual(series, poly), st.count))
  {
  }

  /** The list the first round builds tracks `p`. */
  lemma FirstTracked(p: seq<real>, d: nat, n: nat, k: nat, poly: seq<real>)
    requires d <= 10 && n >= d + 1 && 1 <= k && (k <= d || k <= 1) && High(Rev(p), k)
    requires poly == Zeros(k + 1)[0 := Coef(Rev(p), k)]
    ensures Tracking(p, d, n, FitState(poly, k + 1, k, Residual(SeriesOf(p, n), poly), 1))
  {
    forall j
      ensures Coef(Rev(poly), j) == if j == k then Coef(Rev(p), k) else 0.0
    {
      ZerosRev(k, Coef(Rev(p), k), j);
    }
  }

  /** The first round on a non-constant polynomial places its top term. */
  lemma FirstRoundTop(p: seq<real>, d: nat, n: nat)
    requires Fittable(p, d, n) && SeriesOf(p, n) == S(Rev(p), n)
    requires forall j :: j > d ==> Coef(Rev(p), j) == 0.0
    requires Top(Rev(p)) >= 1
    ensures var r := Round(SeriesOf(p, n), Start(SeriesOf(p, n)).(count := 1));
            r.Ok? && Tracking(p, d, n, r.value) && r.value.degree >= 1
  {
    var series := SeriesOf(p, n);
    var A := Rev(p);
    var e := Top(A);
    DegreeOfTop(A, e, n, 1);
    var c := Coef(A, e);
    DivCancel(Fact(e), c, Times(Fact(e), c));
    var s0 := FitState([], 0, 999, series, 1);
    assert s0 == Start(series).(count := 1);
    RoundFirst(series, s0, Times(Fact(e), c), e, c);
    FirstTracked(p, d, n, e, Zeros(e + 1)[0 := c]);
  }

  /** The first round on a constant polynomial reports degree 1 and places
      nothing. */
  lemma FirstRoundFlat(p: seq<real>, d: nat, n: nat)
    requires Fittable(p, d, n) && SeriesOf(p, n) == S(Rev(p), n)
    requires forall j :: j > d ==> Coef(Rev(p), j) == 0.0
    requires Top(Rev(p)) == 0
    ensures var r := Round(SeriesOf(p, n), Start(SeriesOf(p, n)).(count := 1));
            r.Ok? && Tracking(p, d, n, r.value) && r.value.degree >= 1
  {
    var series := SeriesOf(p, n);
    var A := Rev(p);
    DegreeOfFlat(A, n, 1);
    assert 0.0 / (Fact(1) as real) == 0.0;
    var s0 := FitState([], 0, 999, series, 1);
    assert s0 == Start(series).(count := 1);
    RoundFirst(series, s0, 0.0, 1, 0.0);
    FirstTracked(p, d, n, 1, Zeros(2)[0 := 0.0]);
  }



  /** A round whose residual has a new degree `k`: the coefficient is the
      first constant difference divided by k!. */
  lemma RoundNew(series: seq<real>, st: FitState, c0: real, k: int, coef: real)
    requires |st.poly| > 0 && DegreeOf(st.test, 1) == Some((c0, k))
    requires st.degree != k && 0 <= k <= 10 && coef == c0 / (Fact(k) as real)
    ensures var poly := SetAt(st.poly, st.l - k - 1, coef);
            Round(series, st) == Ok(FitState(poly, st.l, k, Residual(series, poly), st.count))
  {
  }

  /** A round at degree 1 whose residual is again of degree 1 (a constant):
      the constant is placed and the degree becomes 0. */
  lemma RoundSame(series: seq<real>, st: FitState, c0: real)
    requires |st.poly| > 0 && DegreeOf(st.test, 1) == Some((c0, 1)) && st.degree == 1
    ensures var poly := SetAt(st.poly, st.l - 1, Head(st.test));
            Round(series, st) == Ok(FitState(poly, st.l, 0, Residual(series, poly), st.count))
  {
    var fd := DegreeOf(st.test, 1);
    assert fd.value.1 == 1;
    assert Fact(0) as real == 1.0;
    var coef := Head(st.test) / (Fact(0) as real);
    assert coef == Head(st.test);
    var poly := SetAt(st.poly, st.l - 0 - 1, coef);
    assert Round(series, st) == Ok(FitState(poly, st.l, 0, Residual(series, poly), st.count));
  }

  /** Placing `A`'s coefficient of x^e into a list that agrees with `A`
      from x^t up and is zero below: it then agrees from x^e up, when `A`
      has no terms strictly between, and is zero below x^e. */
  lemma Place(A: seq<real>, q: seq<real>, t: nat, e: nat, poly: seq<real>)
    requires e < t < |q| && poly == SetAt(q, |q| - e - 1, Coef(A, e))
    requires forall j :: j >= t ==> Coef(Rev(q), j) == Coef(A, j)
    requires forall j :: 0 <= j < t ==> Coef(Rev(q), j) == 0.0
    requires forall j :: e < j < t ==> Coef(A, j) == 0.0
    ensures forall j :: j >= e ==> Coef(Rev(poly), j) == Coef(A, j)
    ensures forall j :: 0 <= j < e ==> Coef(Rev(poly), j) == 0.0
  {
    forall j | j >= e
      ensures Coef(Rev(poly), j) == Coef(A, j)
    {
      SetAtRev(q, e, Coef(A, e), j);
    }
    forall j | 0 <= j < e
      ensures Coef(Rev(poly), j) == 0.0
    {
      SetAtRev(q, e, Coef(A, e), j);
    }
  }

  /** Placing `p`'s coefficient of x^e keeps a state tracked, when `p` has
      no terms strictly between x^e and the old degree. */
  lemma TrackingAfter(p: seq<real>, d: nat, n: nat, st: FitState, e: nat, poly: seq<real>)
    requires Tracking(p, d, n, st) && e < st.degree && (e <= d || e <= 1)
    requires forall j :: e < j < st.degree ==> Coef(Rev(p), j) == 0.0
    requires poly == SetAt(st.poly, st.l - e - 1, Coef(Rev(p), e))
    ensures Tracking(p, d, n, FitState(poly, st.l, e, Residual(SeriesOf(p, n), poly), st.count + 1))
  {
    Place(Rev(p), st.poly, st.degree, e, poly);
  }

  /** The residual of a tracked state: its samples are the residual
      series, it has no term at or above x^t, and below x^t it is `p`. */
  lemma ResidualTracked(p: seq<real>, d: nat, n: nat, st: FitState)
    requires Tracking(p, d, n, st)
    ensures st.test == S(Sub(Rev(p), Rev(st.poly)), n)
    ensures forall j :: j >= st.degree ==> Coef(Sub(Rev(p), Rev(st.poly)), j) == 0.0
    ensures forall j :: 0 <= j < st.degree ==> Coef(Sub(Rev(p), Rev(st.poly)), j) == Coef(Rev(p), j)
  {
    ResidualAsS(p, st.poly, n);
    forall j
      ensures Coef(Sub(Rev(p), Rev(st.poly)), j) == Coef(Rev(p), j) - Coef(Rev(st.poly), j)
    {
      ResidualCoef(p, d, n, st, j);
    }
  }

  lemma RoundTracked(p: seq<real>, d: nat, n: nat, s1: FitState, nx: FitState, t: int)
    requires Round(SeriesOf(p, n), s1) == Ok(nx) && Tracking(p, d, n, nx) && nx.degree < t
    ensures var r := Round(SeriesOf(p, n), s1);
            r.Ok? && Tracking(p, d, n, r.value) && r.value.degree < t
  {
  }

  /** A round on the samples of a residual `R` with top term x^e, e >= 1,
      places that term. */
  lemma RoundTop(series: seq<real>, s1: FitState, R: seq<real>, e: nat, n: nat, poly: seq<real>)
    requires |s1.poly| > 0 && s1.test == S(R, n) && s1.degree != e
    requires 1 <= e <= 10 && n >= e + 1 && High(R, e) && Coef(R, e) != 0.0
    requires poly == SetAt(s1.poly, s1.l - e - 1, Coef(R, e))
    ensures Round(series, s1) == Ok(FitState(poly, s1.l, e, Residual(series, poly), s1.count))
  {
    var c0 := Times(Fact(e), Coef(R, e));
    DegreeOfTop(R, e, n, 1);
    DivCancel(Fact(e), Coef(R, e), c0);
    RoundNew(series, s1, c0, e, Coef(R, e));
  }

  /** A later round whose residual has a top term x^e with e >= 1. */
  lemma NextTop(p: seq<real>, d: nat, n: nat, st: FitState, R: seq<real>, e: nat)
    requires d <= 10 && n >= d + 1 && Tracking(p, d, n, st) && st.degree >= 1
    requires st.test == S(R, n)
    requires forall j :: j >= st.degree ==> Coef(R, j) == 0.0
    requires forall j :: 0 <= j < st.degree ==> Coef(R, j) == Coef(Rev(p), j)
    requires 1 <= e && High(R, e) && Coef(R, e) != 0.0
    ensures var r := Round(SeriesOf(p, n), st.(count := st.count + 1));
            r.Ok? && Tracking(p, d, n, r.value) && r.value.degree < st.degree
  {
    var x := Coef(R, e);
    var s1 := FitState(st.poly, st.l, st.degree, st.test, st.count + 1);
    assert s1 == st.(count := st.count + 1);
    var poly := SetAt(st.poly, st.l - e - 1, x);
    RoundTop(SeriesOf(p, n), s1, R, e, n, poly);
    assert x == Coef(Rev(p), e);
    forall j | e < j < st.degree
      ensures Coef(Rev(p), j) == 0.0
    {
      assert Coef(R, j) == 0.0;
    }
    TrackingAfter(p, d, n, st, e, poly);
    RoundTracked(p, d, n, s1, FitState(poly, st.l, e, Residual(SeriesOf(p, n), poly), st.count + 1), st.degree);
  }

  /** A round at degree 1 on the samples of a constant residual places
      the constant. */
  lemma RoundConstant(series: seq<real>, s1: FitState, R: seq<real>, n: nat, poly: seq<real>)
    requires |s1.poly| > 0 && s1.test == S(R, n) && n >= 1 && High(R, 0) && s1.degree == 1
    requires poly == SetAt(s1.poly, s1.l - 1, Coef(R, 0))
    ensures Round(series, s1) == Ok(FitState(poly, s1.l, 0, Residual(series, poly), s1.count))
  {
    DegreeOfFlat(R, n, 1);
    ValConst(R, 1.0);
    ValAtIsVal(R, 1);
    assert Head(s1.test) == ValAt(R, 1);
    RoundSame(series, s1, 0.0);
  }

  /** A round at degree 2 or more on the samples of a constant residual
      places a zero at x^1. */
  lemma RoundFlat(series: seq<real>, s1: FitState, R: seq<real>, n: nat, poly: seq<real>)
    requires |s1.poly| > 0 && s1.test == S(R, n) && n >= 1 && High(R, 0) && s1.degree >= 2
    requires poly == SetAt(s1.poly, s1.l - 2, 0.0)
    ensures Round(series, s1) == Ok(FitState(poly, s1.l, 1, Residual(series, poly), s1.count))
  {
    DegreeOfFlat(R, n, 1);
    assert 0.0 / (Fact(1) as real) == 0.0;
    RoundNew(series, s1, 0.0, 1, 0.0);
  }

  /** A later round at degree 1 whose residual is a constant: the constant
      term of `p` is placed. */
  lemma NextConstant(p: seq<real>, d: nat, n: nat, st: FitState, R: seq<real>)
    requires d <= 10 && n >= d + 1 && Tracking(p, d, n, st) && st.degree == 1
    requires st.test == S(R, n)
    requires Coef(R, 0) == Coef(Rev(p), 0) && High(R, 0)
    ensures var r := Round(SeriesOf(p, n), st.(count := st.count + 1));
            r.Ok? && Tracking(p, d, n, r.value) && r.value.degree < st.degree
  {
    var s1 := FitState(st.poly, st.l, st.degree, st.test, st.count + 1);
    assert s1 == st.(count := st.count + 1);
    var poly := SetAt(st.poly, st.l - 1, Coef(R, 0));
    RoundConstant(SeriesOf(p, n), s1, R, n, poly);
    TrackingAfter(p, d, n, st, 0, poly);
    RoundTracked(p, d, n, s1, FitState(poly, st.l, 0, Residual(SeriesOf(p, n), poly), st.count + 1), st.degree);
  }

  /** A later round at degree 2 or more whose residual is a constant: `p`
      has no term from x^1 to below the degree, and a zero is placed at
      x^1. */
  lemma NextFlat(p: seq<real>, d: nat, n: nat, st: FitState, R: seq<real>)
    requires d <= 10 && n >= d + 1 && Tracking(p, d, n, st) && st.degree >= 2
    requires st.test == S(R, n)
    requires forall j :: 0 <= j < st.degree ==> Coef(R, j) == Coef(Rev(p), j)
    requires High(R, 0)
    ensures var r := Round(SeriesOf(p, n), st.(count := st.count + 1));
            r.Ok? && Tracking(p, d, n, r.value) && r.value.degree < st.degree
  {
    var s1 := FitState(st.poly, st.l, st.degree, st.test, st.count + 1);
    assert s1 == st.(count := st.count + 1);
    var poly := SetAt(st.poly, st.l - 2, 0.0);
    RoundFlat(SeriesOf(p, n), s1, R, n, poly);
    forall j | 1 <= j < st.degree
      ensures Coef(Rev(p), j) == 0.0
    {
      assert Coef(R, j) == 0.0;
    }
    TrackingAfter(p, d, n, st, 1, poly);
    RoundTracked(p, d, n, s1, FitState(poly, st.l, 1, Residual(SeriesOf(p, n), poly), st.count + 1), st.degree);
  }

  /** A later round at degree `t >= 1`: the residual has no term at or
      above x^t; its top term is placed, or, when it is a constant, the
      degree steps down to 1 and then to 0 with the constant placed. */
  lemma NextRound(p: seq<real>, d: nat, n: nat, st: FitState)
    requires Fittable(p, d, n) && Tracking(p, d, n, st) && st.degree >= 1
    ensures var r := Round(SeriesOf(p, n), st.(count := st.count + 1));
            r.Ok? && Tracking(p, d, n, r.value) && r.value.degree < st.degree
  {
    var R := Sub(Rev(p), Rev(st.poly));
    ResidualTracked(p, d, n, st);
    var e := Top(R);
    if e >= 1 {
      NextTop(p, d, n, st, R, e);
    } else if st.degree == 1 {
      NextConstant(p, d, n, st, R);
    } else {
      NextFlat(p, d, n, st, R);
    }
  }

  /** One unfolding of the loop from a state below the round cap. */
  lemma RoundsStep(series: seq<real>, st: FitState, nx: FitState)
    requires st.count < 19 && Round(series, st.(count := st.count + 1)) == Ok(nx)
    ensures Rounds(series, st) == if nx.degree == 0 then Ok(nx) else Rounds(series, nx)
  {
  }

  /** From a tracked state the loop runs to degree 0 without hitting the
      round cap. */
  lemma {:induction false} RoundsFinish(p: seq<real>, d: nat, n: nat, st: FitState)
    requires Fittable(p, d, n) && Tracking(p, d, n, st) && st.degree >= 1
    decreases st.degree
    ensures var r := Rounds(SeriesOf(p, n), st);
            r.Ok? && Tracking(p, d, n, r.value) && r.value.degree == 0
  {
    NextRound(p, d, n, st);
    var nx := Round(SeriesOf(p, n), st.(count := st.count + 1)).value;
    RoundsStep(SeriesOf(p, n), st, nx);
    if nx.degree != 0 {
      RoundsFinish(p, d, n, nx);
    }
  }

  /** What `findPolynomial` is for: on the series of a polynomial of degree
      at most 10 with at least one more term than that degree, the fit
      succeeds before the round cap, reaches degree 0 with a zero residual,
      and the coefficients found are the polynomial itself, in that they
      take the same value at every point. */
  lemma FitRecovers(p: seq<real>, d: nat, n: int)
    requires Fittable(p, d, n)
    ensures Fit(SeriesOf(p, n)).Ok?
    ensures var st := Fit(SeriesOf(p, n)).value;
            st.count < 20 && st.degree == 0 && AllZero(st.test) &&
            forall x :: Eval(st.poly, x) == Eval(p, x)
  {
    var series := SeriesOf(p, n);
    FirstRound(p, d, n);
    var nx := Round(series, Start(series).(count := 1)).value;
    RoundsFinish(p, d, n, nx);
    var st := Fit(series).value;
    TrackedZero(p, d, n, st);
    TrackedEqual(p, d, n, st);
  }

  /** A tracked state at degree 0 has a residual that is all zero. */
  lemma TrackedZero(p: seq<real>, d: nat, n: nat, st: FitState)
    requires Tracking(p, d, n, st) && st.degree == 0
    ensures AllZero(st.test)
  {
    ResidualAsS(p, st.poly, n);
    var R := Sub(Rev(p), Rev(st.poly));
    forall j | j >= 0
      ensures Coef(R, j) == 0.0
    {
      ResidualCoef(p, d, n, st, j);
    }
    forall i | 0 <= i < n
      ensures st.test[i] == 0.0
    {
      ValZero(R, (i + 1) as real);
      ValAtIsVal(R, i + 1);
    }
  }

  /** A tracked state at degree 0 holds a list equal to `p` as a function. */
  lemma TrackedEqual(p: seq<real>, d: nat, n: nat, st: FitState)
    requires Tracking(p, d, n, st) && st.degree == 0
    ensures forall x :: Eval(st.poly, x) == Eval(p, x)
  {
    forall x
      ensures Eval(st.poly, x) == Eval(p, x)
    {
      EvalVal(st.poly, x);
      EvalVal(p, x);
      ValCoefEq(Rev(st.poly), Rev(p), x);
    }
  }

}
