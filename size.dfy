/** `format_file_size`: a byte count shown in the largest unit among Б, КБ, МБ, ГБ, ТБ, ПБ
    that keeps the number below 1024, with two decimals. */
module SizeFormat {
  import opened Wrappers
  import opened Text

  /** The units the loop tries, in order; ПБ is what is left after five divisions. */
  const Units: seq<string> := ["Б", "КБ", "МБ", "ГБ", "ТБ"]
  const LastUnit: string := "ПБ"

  function UnitName(k: nat): string
    requires k <= 5
  {
    if k < 5 then Units[k] else LastUnit
  }

  /** What the function hands to the `:.2f` conversion: the scaled size and its unit. The
      scaled size is the exact quotient of the byte count by a power of 1024. */
  datatype SizeLabel = SizeLabel(value: real, unit: string)

  /** The unit for `n` bytes, counted by repeated integer division by 1024. */
  function UnitIndex(n: nat): (k: nat)
    ensures k <= 5
    decreases n
  {
    if n < 1024 then 0
    else
      var k := 1 + UnitIndex(n / 1024);
      if k > 5 then 5 else k
  }

  /** Integer division by 1024 and powers of 1024: `n / 1024 < 1024^m` exactly when
      `n < 1024^(m+1)`. */
  lemma DivPower(n: nat, m: nat)
    ensures n / 1024 < Power(1024, m) <==> n < Power(1024, m + 1)
  {
    var q, r := n / 1024, n % 1024;
    assert n == 1024 * q + r && r < 1024;
    assert Power(1024, m + 1) == 1024 * Power(1024, m);
    if q < Power(1024, m) {
      assert q + 1 <= Power(1024, m);
      assert 1024 * (q + 1) <= 1024 * Power(1024, m);
    } else {
      assert 1024 * q >= 1024 * Power(1024, m);
    }
  }

  /** The chosen unit is the first `k` below five with `n < 1024^(k+1)`; when there is none
      it is ПБ. */
  lemma {:induction false} UnitIndexFirst(n: nat)
    ensures UnitIndex(n) < 5 ==> n < Power(1024, UnitIndex(n) + 1)
    ensures forall j :: 1 <= j <= UnitIndex(n) ==> Power(1024, j) <= n
    decreases n
  {
    if n >= 1024 {
      var q := n / 1024;
      UnitIndexFirst(q);
      var k := UnitIndex(n);
      if UnitIndex(q) < 5 {
        DivPower(n, UnitIndex(q) + 1);
      }
      forall j | 1 <= j <= k
        ensures Power(1024, j) <= n
      {
        if j == 1 {
        } else {
          assert Power(1024, j - 1) <= q;
          DivPower(n, j - 1);
        }
      }
    }
  }

  /** No other unit has that property: the unit is fixed by the size. */
  lemma UnitIndexUnique(n: nat, k: nat)
    requires k <= 5
    requires k < 5 ==> n < Power(1024, k + 1)
    requires Reached(n, k)
    ensures UnitIndex(n) == k
  {
    UnitIndexFirst(n);
  }

  /** The label `format_file_size(n)` formats. */
  function LabelOf(n: nat): SizeLabel
  {
    var k := UnitIndex(n);
    SizeLabel((n as real) / (Power(1024, k) as real), UnitName(k))
  }

  /** Where the scaled size stands against 1024 tells where the byte count stands against
      1024 times the scale; the scaled size is the exact quotient. */
  lemma RealScale(size: real, scale: real, n: real)
    requires scale > 0.0 && size * scale == n
    ensures size < 1024.0 <==> n < 1024.0 * scale
    ensures size == n / scale
    ensures (size / 1024.0) * (1024.0 * scale) == n
  {
    if size < 1024.0 {
      assert (1024.0 - size) * scale > 0.0;
    } else {
      assert (size - 1024.0) * scale >= 0.0;
    }
  }

  /** The same for a whole scale and a whole byte count. */
  lemma ScaleCompare(size: real, scale: nat, n: nat)
    requires scale > 0 && size * (scale as real) == n as real
    ensures size < 1024.0 <==> n < 1024 * scale
    ensures size == (n as real) / (scale as real)
    ensures (size / 1024.0) * ((1024 * scale) as real) == n as real
  {
    RealScale(size, scale as real, n as real);
    assert (1024 * scale) as real == 1024.0 * (scale as real);
  }

  /** Every unit up to `k` has been passed: `1024^j <= n` for each `1 <= j <= k`. */
  predicate Reached(n: nat, k: nat)
  {
    forall j :: 1 <= j <= k ==> Power(1024, j) <= n
  }

  /** The loop stops at unit `k` when the size scaled by `1024^k` is below 1024: `k` is then
      the unit of the label and the scaled size its value. */
  lemma StopAt(n: nat, k: nat, scale: nat, size: real)
    requires k < 5 && scale == Power(1024, k) && scale > 0
    requires size * (scale as real) == n as real
    requires Reached(n, k) && size < 1024.0
    ensures LabelOf(n) == SizeLabel(size, Units[k])
  {
    ScaleCompare(size, scale, n);
    PowerNext(k);
    UnitIndexUnique(n, k);
  }

  /** Otherwise it moves to unit `k + 1`, whose power of 1024 is still at most the size. */
  lemma MoveOn(n: nat, k: nat, scale: nat, size: real)
    requires k < 5 && scale == Power(1024, k) && scale > 0
    requires size * (scale as real) == n as real
    requires Reached(n, k) && size >= 1024.0
    ensures (size / 1024.0) * ((1024 * scale) as real) == n as real
    ensures 1024 * scale == Power(1024, k + 1) && Reached(n, k + 1)
  {
    ScaleCompare(size, scale, n);
    PowerNext(k);
  }

  /** `format_file_size(size_bytes)`: divides by 1024 until the size is below 1024 or the
      five units are spent. */
  method FormatFileSize(n: nat) returns (shown: SizeLabel)
    ensures shown == LabelOf(n)
  {
    var size: real := n as real;
    var k := 0;
    ghost var scale: nat := 1;
    while k < 5
      invariant k <= 5 && scale == Power(1024, k) && scale > 0
      invariant size * (scale as real) == n as real
      invariant Reached(n, k)
    {
      if size < 1024.0 {
        StopAt(n, k, scale, size);
        return SizeLabel(size, Units[k]);
      }
      MoveOn(n, k, scale, size);
      size := size / 1024.0;
      k, scale := k + 1, 1024 * scale;
    }
    UnitIndexUnique(n, 5);
    ScaleCompare(size, scale, n);
    shown := SizeLabel(size, LastUnit);
  }

  /** `f"{v:.2f} {unit}"` where the value is a whole number: its digits, ".00", a space and
      the unit. Other values are not rendered by this model. */
  function WholeText(l: SizeLabel): (r: Option<string>)
    ensures r.Some? ==> l.value == l.value.Floor as real && l.value >= 0.0
  {
    if l.value == l.value.Floor as real && l.value >= 0.0 then
      Some(Numeral(l.value.Floor, 10) + ".00 " + l.unit)
    else None
  }

  /** Below 1024 bytes the size is shown in Б, as the plain count with ".00". */
  lemma SmallSize(n: nat)
    requires n < 1024
    ensures LabelOf(n) == SizeLabel(n as real, "Б")
    ensures WholeText(LabelOf(n)) == Some(Numeral(n, 10) + ".00 Б")
  {
    assert UnitIndex(n) == 0;
    assert Power(1024, 0) == 1;
    assert LabelOf(n).value == n as real;
    assert (n as real).Floor == n;
    assert Numeral(n, 10) + ".00 " + "Б" == Numeral(n, 10) + ".00 Б";
  }

  /** 500 bytes show as "500.00 Б". */
  lemma SizeExample500()
    ensures WholeText(LabelOf(500)) == Some("500.00 Б")
  {
    SmallSize(500);
    assert Numeral(5, 10) == "5";
    assert Numeral(50, 10) == "50";
    assert Numeral(500, 10) == "500";
    assert "500" + ".00 Б" == "500.00 Б";
  }

  /** 2048 bytes show as "2.00 КБ". */
  lemma SizeExample2048()
    ensures WholeText(LabelOf(2048)) == Some("2.00 КБ")
  {
    assert UnitIndex(2048) == 1 by {
      assert 2048 / 1024 == 2;
      assert UnitIndex(2) == 0;
    }
    assert Power(1024, 1) == 1024;
    assert LabelOf(2048) == SizeLabel(2.0, "КБ");
    assert (2.0).Floor == 2;
    assert Numeral(2, 10) == "2";
    assert "2" + ".00 " + "КБ" == "2.00 КБ";
  }

  /** 1073741824 bytes show as "1.00 ГБ". */
  lemma SizeExampleGiB()
    ensures WholeText(LabelOf(1073741824)) == Some("1.00 ГБ")
  {
    assert UnitIndex(1073741824) == 3 by {
      assert 1073741824 / 1024 == 1048576 && 1048576 / 1024 == 1024 && 1024 / 1024 == 1;
      assert UnitIndex(1) == 0;
      assert UnitIndex(1024) == 1;
      assert UnitIndex(1048576) == 2;
    }
    assert Power(1024, 3) == 1073741824 by {
      assert Power(1024, 1) == 1024;
      assert Power(1024, 2) == 1048576;
    }
    assert LabelOf(1073741824) == SizeLabel(1.0, "ГБ");
    assert (1.0).Floor == 1;
    assert Numeral(1, 10) == "1";
    assert "1" + ".00 " + "ГБ" == "1.00 ГБ";
  }

  /** From 1 КБ on, below 1 ПБ, the shown number lies in [1, 1024). */
  lemma ScaledRange(n: nat)
    requires 1024 <= n && UnitIndex(n) < 5
    ensures 1.0 <= LabelOf(n).value < 1024.0
  {
    var p := Power(1024, UnitIndex(n));
    assert 0 < p <= n < 1024 * p by {
      UnitBounds(n);
    }
    QuotientRange(n as real, p as real);
  }

  /** Below ПБ the unit's power of 1024 is at most the size and more than a 1024th of it. */
  lemma UnitBounds(n: nat)
    requires 1024 <= n && UnitIndex(n) < 5
    ensures 0 < Power(1024, UnitIndex(n)) <= n < 1024 * Power(1024, UnitIndex(n))
  {
    var k := UnitIndex(n);
    UnitIndexFirst(n);
    PowerPositive(k);
    assert 1 <= k;
    assert Power(1024, k + 1) == 1024 * Power(1024, k);
  }

  lemma QuotientRange(n: real, p: real)
    requires 0.0 < p <= n < 1024.0 * p
    ensures 1.0 <= n / p < 1024.0
  {
    var v := n / p;
    assert v * p == n;
    RealScale(v, p, n);
    AtLeastOne(v, p, n);
  }

  lemma AtLeastOne(v: real, p: real, n: real)
    requires p > 0.0 && v * p == n && p <= n
    ensures v >= 1.0
  {
    assert (v - 1.0) * p == n - p;
  }

  lemma PowerNext(k: nat)
    ensures Power(1024, k + 1) == 1024 * Power(1024, k)
  {
  }

  lemma PowerPositive(k: nat)
    ensures Power(1024, k) > 0
  {
    if k > 0 {
      PowerPositive(k - 1);
    }
  }
}
