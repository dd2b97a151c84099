/** Human-readable sizes: `formatSize` of pkg/cli/backup/backup.go. */
module SizeFormat {

  const UNIT := 1024
  const UNITS := "KMGTPE"
  const MAX_INT64 := 0x7fff_ffff_ffff_ffff

  /** The number is printed as it is, or divided by `div` and followed by a unit. */
  datatype Size = Bytes(n: int) | Scaled(n: int, div: int, prefix: char)

  function Power(exp: nat): nat {
    if exp == 0 then 1 else UNIT * Power(exp - 1)
  }

  lemma {:induction false} PowerMonotonic(a: nat, b: nat)
    requires a <= b
    ensures Power(a) <= Power(b)
  {
    if a == b {
    } else {
      PowerMonotonic(a, b - 1);
    }
  }

  lemma SeventhPowerTooBig()
    ensures Power(7) > MAX_INT64
  {
    assert Power(7) == UNIT * Power(6);
    assert Power(6) == UNIT * Power(5);
    assert Power(5) == UNIT * Power(4);
    assert Power(4) == UNIT * Power(3) == UNIT * UNIT * UNIT * UNIT;
  }

  /** `formatSize`, for every int64: the divisor is the largest power of 1024 not above the size. */
  method FormatSize(bytes: int) returns (size: Size)
    requires -MAX_INT64 - 1 <= bytes <= MAX_INT64
    ensures bytes < UNIT ==> size == Bytes(bytes)
    ensures bytes >= UNIT ==> exists exp: nat :: exp <= 5 && size == Scaled(bytes, Power(exp + 1), UNITS[exp])
                                && Power(exp + 1) <= bytes < Power(exp + 2)
  {
    if bytes < UNIT {
      return Bytes(bytes);
    }
    var div, exp := UNIT, 0;
    var n := bytes / UNIT;
    assert Power(1) == UNIT * Power(0);
    while n >= UNIT
      invariant 0 <= exp <= 5 && div == Power(exp + 1) <= bytes
      invariant n * div <= bytes < (n + 1) * div && n >= 1
      decreases n
    {
      NextUnit(bytes, n, div);
      assert Power(exp + 2) == UNIT * div;
      if exp == 5 {
        SeventhPowerTooBig();
      }
      div := div * UNIT;
      exp := exp + 1;
      n := n / UNIT;
    }
    assert Power(exp + 2) == UNIT * div;
    assert (n + 1) * div <= UNIT * div;
    size := Scaled(bytes, div, UNITS[exp]);
  }

  lemma NextUnit(bytes: int, n: int, div: nat)
    requires n >= UNIT && n * div <= bytes < (n + 1) * div
    ensures (n / UNIT) * (div * UNIT) <= bytes < (n / UNIT + 1) * (div * UNIT)
    ensures div * UNIT <= bytes
  {
    var m := n / UNIT;
    Scale(UNIT * m, n, div);
    Scale(n + 1, UNIT * m + UNIT, div);
    Scale(UNIT, UNIT * m, div);
    assert m * (div * UNIT) == (UNIT * m) * div;
    assert (m + 1) * (div * UNIT) == (UNIT * m + UNIT) * div;
  }

  lemma Scale(a: int, b: int, c: nat)
    requires a <= b
    ensures a * c <= b * c
  {
  }
}
