/** A real added to itself a number of times: multiplication kept linear for induction. */
module RepeatedSums {

  /** `m` copies of `x` added up; defined by addition alone. */
  function Times(m: nat, x: real): real
  {
    if m == 0 then 0.0 else Times(m - 1, x) + x
  }

  lemma {:induction false} TimesIsProduct(m: nat, x: real)
    ensures Times(m, x) == (m as real) * x
  {
    if m > 0 {
      TimesIsProduct(m - 1, x);
      assert (m as real) * x == ((m - 1) as real) * x + x;
    }
  }

  lemma {:induction false} TimesAdds(m: nat, x: real, y: real)
    ensures Times(m, x + y) == Times(m, x) + Times(m, y)
  {
    if m > 0 {
      TimesAdds(m - 1, x, y);
    }
  }

  lemma {:induction false} TimesMonotone(m: nat, x: real, y: real)
    requires x <= y
    ensures Times(m, x) <= Times(m, y)
  {
    if m > 0 {
      TimesMonotone(m - 1, x, y);
    }
  }

  lemma {:induction false} TimesZero(m: nat)
    ensures Times(m, 0.0) == 0.0
  {
    if m > 0 {
      TimesZero(m - 1);
    }
  }
}
