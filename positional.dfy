/**
 * Big-endian positional notation in an arbitrary base: the arithmetic shared by
 * the base58btc encoder (bytes are base-256 digits, the output base-58 digits).
 */
module Positional {

  predicate IsDigits(ds: seq<int>, base: nat) {
    forall i :: 0 <= i < |ds| ==> 0 <= ds[i] < base
  }

  /** The number that the big-endian digits `ds` denote in `base`. */
  function Value(ds: seq<int>, base: nat): nat
    requires IsDigits(ds, base)
    decreases |ds|
  {
    if ds == [] then 0 else Value(ds[..|ds| - 1], base) * base + ds[|ds| - 1]
  }

  /** The shortest big-endian digits of `n`: empty for zero, never a leading zero digit. */
  function Digits(n: nat, base: nat): (r: seq<int>)
    requires base >= 2
    ensures IsDigits(r, base)
    ensures n == 0 <==> r == []
    ensures n > 0 ==> r[0] != 0
    decreases n
  {
    if n == 0 then [] else Digits(n / base, base) + [n % base]
  }

  lemma DivModUnique(q: nat, d: int, base: nat)
    requires base >= 2 && 0 <= d < base
    ensures (q * base + d) / base == q && (q * base + d) % base == d
  {
    var n := q * base + d;
    var q', r' := n / base, n % base;
    assert n == q' * base + r' && 0 <= r' < base;
    if q' < q {
      assert (q - q') * base == q * base - q' * base;
      AtLeastBase(q - q', base);
    } else if q < q' {
      assert (q' - q) * base == q' * base - q * base;
      AtLeastBase(q' - q, base);
    }
  }

  lemma AtLeastBase(k: int, base: nat)
    requires k >= 1
    ensures k * base >= base
  {
    assert k * base == (k - 1) * base + base;
  }

  /** Reading back the digits of `n` gives `n`. */
  lemma {:induction false} ValueOfDigits(n: nat, base: nat)
    requires base >= 2
    ensures Value(Digits(n, base), base) == n
    decreases n
  {
    if n > 0 {
      var q, r := n / base, n % base;
      DivSmaller(n, base);
      var p := Digits(q, base);
      assert Value(Digits(n, base), base) == Value(p, base) * base + r by {
        var ds := Digits(n, base);
        assert ds == p + [r];
        assert ds[..|ds| - 1] == p;
      }
      ValueOfDigits(q, base);
      DivMod(n, base);
    }
  }

  lemma DivMod(n: nat, base: nat)
    requires base >= 2
    ensures (n / base) * base + n % base == n
  {
  }

  lemma DivSmaller(n: nat, base: nat)
    requires base >= 2 && n > 0
    ensures n / base < n
  {
    var q := n / base;
    DivMod(n, base);
    assert q * base == q * 2 + q * (base - 2);
  }

  lemma {:induction false} ValuePositive(ds: seq<int>, base: nat)
    requires base >= 2 && IsDigits(ds, base)
    requires ds != [] && ds[0] != 0
    ensures Value(ds, base) > 0
    decreases |ds|
  {
    if |ds| > 1 {
      var p := ds[..|ds| - 1];
      assert p[0] == ds[0];
      ValuePositive(p, base);
      assert Value(p, base) * base >= Value(p, base);
    }
  }

  /** Digits without a leading zero are the shortest digits of their value. */
  lemma {:induction false} DigitsOfValue(ds: seq<int>, base: nat)
    requires base >= 2 && IsDigits(ds, base)
    requires ds == [] || ds[0] != 0
    ensures Digits(Value(ds, base), base) == ds
    decreases |ds|
  {
    if ds != [] {
      var p := ds[..|ds| - 1];
      var d := ds[|ds| - 1];
      var n := Value(ds, base);
      if p != [] {
        assert p[0] == ds[0];
        ValuePositive(ds, base);
      } else {
        assert ds == [d];
      }
      DivModUnique(Value(p, base), d, base);
      DigitsOfValue(p, base);
      assert ds == p + [d];
    }
  }
}
