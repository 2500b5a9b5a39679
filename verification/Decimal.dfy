/** Decimal notation, most significant digit first. */
module Decimal {

  type digit = d: int | 0 <= d < 10

  function ValueOf(ds: seq<digit>): nat {
    if ds == [] then 0 else 10 * ValueOf(ds[..|ds| - 1]) + ds[|ds| - 1]
  }

  /** No superfluous leading zero. */
  predicate Canonical(ds: seq<digit>) {
    ds != [] && (|ds| > 1 ==> ds[0] != 0)
  }

  function Digits(n: nat): (ds: seq<digit>)
    ensures Canonical(ds) && ValueOf(ds) == n
    ensures n > 0 ==> ds[0] != 0
  {
    if n < 10 then [n] else Digits(n / 10) + [n % 10]
  }

  lemma {:induction false} DigitsOfValue(ds: seq<digit>)
    requires Canonical(ds)
    ensures Digits(ValueOf(ds)) == ds
    ensures |ds| > 1 || ds[0] > 0 ==> ValueOf(ds) > 0
  {
    if |ds| > 1 {
      var init := ds[..|ds| - 1];
      DigitsOfValue(init);
      assert ValueOf(ds) / 10 == ValueOf(init) && ValueOf(ds) % 10 == ds[|ds| - 1];
    } else {
      assert ds == [ds[0]] && ds[..0] == [];
    }
  }
}
