/** The field laws of GF(256), from the table of powers. */
module GfField {
  import opened Gf256

  lemma XtimeNonzero(a: bv8)
    requires a != 0
    ensures Xtime(a) != 0
  {
  }

  lemma {:induction false} AlphaNonzero(n: nat)
    ensures Alpha(n) != 0
  {
    hide Xtime;
    if n > 0 {
      AlphaNonzero(n - 1);
      XtimeNonzero(Alpha(n - 1));
    }
  }

  lemma AlphaAt255()
    ensures Alpha(255) == 1
  {
    ExpIsAlpha(254);
    ExpEnds();
    assert Xtime(0x8e) == 1;
  }

  lemma {:induction false} AlphaPeriod(n: nat)
    ensures Alpha(n) == Alpha(n % 255)
    decreases n
  {
    hide Xtime;
    if n >= 255 {
      AlphaAt255();
      TimesTimes(1, 255, n - 255);
      AlphaPeriod(n - 255);
      assert n % 255 == (n - 255) % 255;
    }
  }

  lemma AlphaShift(i: nat, j: nat, k: nat)
    requires Alpha(i) == Alpha(j)
    ensures Alpha((i + k) % 255) == Alpha((j + k) % 255)
  {
    hide Xtime, Times;
    TimesTimes(1, i, k);
    TimesTimes(1, j, k);
    AlphaPeriod(i + k);
    AlphaPeriod(j + k);
  }

  /** alpha has order exactly 255: multiplying by the inverse of alpha^i would give a smaller one. */
  lemma AlphaDistinct(i: nat, j: nat)
    requires i < j < i + 255
    ensures Alpha(i) != Alpha(j)
  {
    hide Alpha, ExpAt;
    PeriodArith(i, j);
    ExpIsAlpha(0);
    ExpEnds();
    ExpIsAlpha(j - i);
    if Alpha(i) == Alpha(j) { AlphaShift(i, j, 254 * i); }
  }

  lemma PeriodArith(i: nat, j: nat)
    requires i < j < i + 255
    ensures (i + 254 * i) % 255 == 0 && (j + 254 * i) % 255 == j - i
  {
  }

  /** Multiplication: by the power of alpha that b is. */
  function Mul(a: bv8, b: bv8): bv8 {
    if b == 0 then 0 else Times(a, LogAt(b))
  }

  /** What the tables compute: the exponent table at the sum of logarithms modulo 255. */
  lemma ExpOfSum(a: bv8, k: nat)
    requires a != 0
    ensures LogAt(a) < 255 && ExpAt((LogAt(a) + k) % 255) == Times(a, k)
  {
    hide LogAt, ExpAt, Xtime, Times;
    LogIsLog(a);
    TimesTimes(1, LogAt(a), k);
    AlphaPeriod(LogAt(a) + k);
    ExpIsAlpha((LogAt(a) + k) % 255);
  }

  lemma TimesAlpha(i: nat, n: nat)
    ensures Times(Alpha(i), n) == Alpha(i + n)
  {
    TimesTimes(1, i, n);
  }

  /** Multiplying by alpha^n is multiplying n times by x. */
  lemma MulAlpha(a: bv8, n: nat)
    ensures Mul(a, Alpha(n)) == Times(a, n)
  {
    hide LogAt, Xtime, Times;
    AlphaNonzero(n);
    LogIsLog(Alpha(n));
    var m := LogAt(Alpha(n));
    if a == 0 {
      TimesZero(m);
      TimesZero(n);
    } else {
      LogIsLog(a);
      var i := LogAt(a);
      TimesAlpha(i, m);
      TimesAlpha(m, i);
      TimesAlpha(i, n);
      TimesAlpha(n, i);
      assert i + m == m + i && i + n == n + i;
    }
  }

  lemma MulComm(a: bv8, b: bv8)
    ensures Mul(a, b) == Mul(b, a)
  {
    hide LogAt, Xtime, Times;
    LogIsLog(a);
    LogIsLog(b);
    if a == 0 || b == 0 {
      TimesZero(LogAt(a));
      TimesZero(LogAt(b));
    } else {
      TimesAlpha(LogAt(a), LogAt(b));
      TimesAlpha(LogAt(b), LogAt(a));
      assert LogAt(a) + LogAt(b) == LogAt(b) + LogAt(a);
    }
  }

  lemma MulAddLeft(a: bv8, b: bv8, c: bv8)
    ensures Mul(Add(a, b), c) == Add(Mul(a, c), Mul(b, c))
  {
    hide LogAt, Times, Add;
    TimesAdd(a, b, LogAt(c));
    AddLaws(0, 0);
  }

  lemma MulAddRight(a: bv8, b: bv8, c: bv8)
    ensures Mul(a, Add(b, c)) == Add(Mul(a, b), Mul(a, c))
  {
    hide Mul, Add;
    MulComm(a, Add(b, c));
    MulComm(a, b);
    MulComm(a, c);
    MulAddLeft(b, c, a);
  }

  lemma MulUnits(a: bv8)
    ensures Mul(a, 1) == a && Mul(1, a) == a && Mul(a, 0) == 0 && Mul(0, a) == 0
  {
    hide LogAt, Xtime;
    MulAlpha(a, 0);
    MulComm(a, 1);
    TimesZero(LogAt(a));
  }

  lemma MulNonzero(a: bv8, b: bv8)
    requires a != 0 && b != 0
    ensures Mul(a, b) != 0
  {
    hide LogAt, Xtime, Times;
    LogIsLog(a);
    LogIsLog(b);
    TimesAlpha(LogAt(a), LogAt(b));
    AlphaNonzero(LogAt(a) + LogAt(b));
  }

  lemma MulAssoc(a: bv8, b: bv8, c: bv8)
    ensures Mul(Mul(a, b), c) == Mul(a, Mul(b, c))
  {
    hide LogAt, Xtime, Times, Mul;
    MulUnits(a);
    MulUnits(b);
    MulUnits(c);
    if b != 0 && c != 0 {
      LogIsLog(b);
      LogIsLog(c);
      var j, k := LogAt(b), LogAt(c);
      MulAlpha(a, j);
      MulAlpha(Mul(a, b), k);
      MulAlpha(b, k);
      TimesAlpha(j, k);
      MulAlpha(a, j + k);
      TimesTimes(a, j, k);
    } else {
      MulUnits(Mul(b, c));
      MulUnits(Mul(a, b));
    }
  }
}
