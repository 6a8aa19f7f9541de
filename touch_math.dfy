/** The integer helpers of the touch path: max1187x_sqrt, the pressure
    scale of report_down, the reversed-axis coordinate arithmetic and the
    platform-data range check validate_pdata. */
module TouchMath {
  import opened Words

  const PressureZMinToSqrt := 2
  const PressureSqrtMax := 181
  const LcdXMin := 480
  const LcdYMin := 240
  const LcdSizeMax := 0x7FFF
  const NumSensorMax := 40

  // ---------------------------------------------------------------------
  // max1187x_sqrt

  /** g is the integer square root of num, rounded down. */
  predicate IsFloorSqrt(num: int, g: int)
  {
    0 <= g && g * g <= num < (g + 1) * (g + 1)
  }

  /** r is the square root of num rounded to nearest, where "nearest" is
      measured between the squares: of the two squares around num, the
      closer one wins and a tie goes to the lower. */
  predicate IsRoundedSqrt(num: int, r: int)
  {
    || (IsFloorSqrt(num, r) && num - r * r <= (r + 1) * (r + 1) - num)
    || (r >= 1 && IsFloorSqrt(num, r - 1) && num - (r - 1) * (r - 1) > r * r - num)
  }

  function Pow2(k: nat): (p: nat)
    ensures p >= 1
  {
    if k == 0 then 1 else 2 * Pow2(k - 1)
  }

  lemma SquareMonotone(a: int, b: int)
    requires 0 <= a <= b
    ensures a * a <= b * b
  {
    assert a * a <= a * b <= b * b;
  }

  lemma {:induction false} FloorSqrtUnique(num: int, g1: int, g2: int)
    requires IsFloorSqrt(num, g1) && IsFloorSqrt(num, g2)
    ensures g1 == g2
  {
    if g1 < g2 {
      SquareMonotone(g1 + 1, g2);
    } else if g2 < g1 {
      SquareMonotone(g2 + 1, g1);
    }
  }

  /** The rounded square root of a number is unique. */
  lemma {:induction false} RoundedSqrtUnique(num: int, r1: int, r2: int)
    requires IsRoundedSqrt(num, r1) && IsRoundedSqrt(num, r2)
    ensures r1 == r2
  {
    if IsFloorSqrt(num, r1) && IsFloorSqrt(num, r2) {
      FloorSqrtUnique(num, r1, r2);
    } else if IsFloorSqrt(num, r1) && IsFloorSqrt(num, r2 - 1) {
      FloorSqrtUnique(num, r1, r2 - 1);
    } else if IsFloorSqrt(num, r1 - 1) && IsFloorSqrt(num, r2) {
      FloorSqrtUnique(num, r1 - 1, r2);
    } else {
      FloorSqrtUnique(num, r1 - 1, r2 - 1);
    }
  }

  /** The shortcut for 0 and 1 returns what the rounding would give. */
  lemma SmallShortcutAgrees(num: int)
    requires 0 <= num < PressureZMinToSqrt
    ensures IsRoundedSqrt(num, num)
  {
  }

  lemma MulMonotone(x: int, y: int, b: int)
    requires x <= y && b >= 0
    ensures x * b <= y * b
  {
  }

  /** guess, a multiple q of the bit 2 * m, and guess + m are multiples
      of m. */
  lemma HalveBit(guess: int, q: int, m: int)
    requires guess == q * (2 * m)
    ensures guess == (2 * q) * m && guess + m == (2 * q + 1) * m
  {
  }

  /** After the search: rounding up happens exactly when the next square is
      strictly closer, and the result never exceeds 256. */
  lemma RoundFloor(num: int, g: int)
    requires 0 <= num <= 0xFFFF && IsFloorSqrt(num, g)
    ensures num - g * g <= (g + 1) * (g + 1) - num ==> IsRoundedSqrt(num, g) && g <= 256
    ensures num - g * g > (g + 1) * (g + 1) - num ==> IsRoundedSqrt(num, g + 1) && g + 1 <= 256
  {
    if g > 255 {
      SquareMonotone(256, g);
    }
  }

  /** max1187x_sqrt, for the 16-bit values the driver passes it: numbers
      below 2 are returned as they are; otherwise a bit-by-bit search from
      bit 15 down finds the root rounded down, which is then rounded to
      nearest. `guess ^ mask` only ever sets a bit that is clear in guess
      and clears it again, so it is written here as + and -. */
  method Sqrt(num: int) returns (r: int)
    requires 0 <= num <= 0xFFFF
    ensures num < PressureZMinToSqrt ==> r == num
    ensures num >= PressureZMinToSqrt ==> IsRoundedSqrt(num, r)
    ensures 0 <= r <= 256
  {
    if num < PressureZMinToSqrt {
      return num;
    }
    var mask := 0x8000;
    var guess := 0;
    // guess is always q times bit, the bit above mask
    ghost var k := 16;
    ghost var bit := 0x1_0000;
    ghost var q := 0;
    assert Pow2(15) == 0x8000;
    assert Pow2(16) == bit;
    while mask != 0
      invariant 0 <= k <= 16 && bit == Pow2(k)
      invariant mask == (if k == 0 then 0 else bit / 2)
      invariant q >= 0 && guess == q * bit
      invariant guess * guess <= num < (guess + bit) * (guess + bit)
      decreases k
    {
      HalveBit(guess, q, mask);
      guess := guess + mask;
      var prod := guess * guess;
      if num < prod {
        guess := guess - mask;
        q := 2 * q;
      } else {
        q := 2 * q + 1;
      }
      bit := mask;
      mask := mask / 2;
      k := k - 1;
    }
    RoundFloor(num, guess);
    if guess != 0xFFFF {
      var prod := guess * guess;
      if num - prod > prod + 2 * guess + 1 - num {
        guess := guess + 1;
      }
    }
    r := guess;
  }

  // ---------------------------------------------------------------------
  // Pressure

  /** The pressure report_down sends: 181 >> 2 plus the rounded root of
      the raw pressure, capped at 181. */
  method ScalePressure(z: Word) returns (p: int)
    ensures PressureSqrtMax / 4 <= p <= PressureSqrtMax
    ensures z >= PressureZMinToSqrt ==> exists s :: IsRoundedSqrt(z, s) && p == Min(PressureSqrtMax / 4 + s, PressureSqrtMax)
    ensures z < PressureZMinToSqrt ==> p == PressureSqrtMax / 4 + z
  {
    var s := Sqrt(z);
    p := PressureSqrtMax / 4 + s;
    if p > PressureSqrtMax {
      p := PressureSqrtMax;
    }
  }

  /** The rounded root grows with its argument, so the scaled pressure
      never drops when the raw pressure rises. */
  lemma {:induction false} RoundedSqrtMonotone(n1: int, r1: int, n2: int, r2: int)
    requires 0 <= n1 <= n2
    requires IsRoundedSqrt(n1, r1) && IsRoundedSqrt(n2, r2)
    ensures r1 <= r2
  {
    if r1 > r2 {
      // r2 <= r1 - 1; compare n1 and n2 against the midpoint between squares
      var g1 := if IsFloorSqrt(n1, r1) then r1 else r1 - 1;
      var g2 := if IsFloorSqrt(n2, r2) then r2 else r2 - 1;
      if g1 > g2 {
        SquareMonotone(g2 + 1, g1);
      }
    }
  }

  // ---------------------------------------------------------------------
  // Reversed axes

  /** A coordinate mirrored on an axis whose extent is
      marginLo + size + marginHi; the result is stored in a u16. */
  function Reverse(c: Word, marginLo: nat, size: nat, marginHi: nat): (m: Word)
    ensures (m + c) % 0x1_0000 == (marginLo + size + marginHi - 1) % 0x1_0000
  {
    U16(marginLo + size + marginHi - 1 - c)
  }

  /** A coordinate inside the axis maps to its mirror image inside the
      axis. */
  lemma ReverseInside(c: Word, marginLo: nat, size: nat, marginHi: nat)
    requires c < marginLo + size + marginHi <= 0x1_0000
    ensures Reverse(c, marginLo, size, marginHi) == marginLo + size + marginHi - 1 - c
    ensures Reverse(c, marginLo, size, marginHi) < marginLo + size + marginHi
  {
  }

  /** Mirroring twice gives the coordinate back, even when the axis is
      longer than 16 bits or the coordinate lies outside it. */
  lemma ReverseTwice(c: Word, marginLo: nat, size: nat, marginHi: nat)
    ensures Reverse(Reverse(c, marginLo, size, marginHi), marginLo, size, marginHi) == c
  {
    var t := marginLo + size + marginHi - 1;
    var m := (t - c) % 0x1_0000;
    assert (t - m) % 0x1_0000 == c by {
      var q := (t - c) / 0x1_0000;
      assert t - c == q * 0x1_0000 + m;
      assert t - m == c + q * 0x1_0000;
    }
  }

  // ---------------------------------------------------------------------
  // validate_pdata

  /** The platform data fields validate_pdata looks at. */
  datatype Pdata = Pdata(gpioTirq: nat, gpioPwrEn: nat, lcdX: nat, lcdY: nat,
                         numSensorX: nat, numSensorY: nat)

  /** validate_pdata: 0 for acceptable platform data, -ENXIO when it is
      missing or out of range. A missing power-enable GPIO is only logged. */
  function ValidatePdata(p: Option<Pdata>): (r: int)
    ensures r == 0 || r == -ENXIO
  {
    if p.None? then -ENXIO
    else
      var d := p.value;
      if d.gpioTirq == 0 then -ENXIO
      else if d.lcdX < LcdXMin || d.lcdX > LcdSizeMax then -ENXIO
      else if d.lcdY < LcdYMin || d.lcdY > LcdSizeMax then -ENXIO
      else if d.numSensorX == 0 || d.numSensorX > NumSensorMax then -ENXIO
      else if d.numSensorY == 0 || d.numSensorY > NumSensorMax then -ENXIO
      else 0
  }

  /** Accepted platform data makes the sensor cell sizes of report_down
      (lcd size divided by sensor count) well defined and at least 12 and
      6 pixels, and keeps the screen inside 15 bits. */
  lemma AcceptedPdataCells(p: Option<Pdata>)
    requires ValidatePdata(p) == 0
    ensures p.Some? && p.value.numSensorX > 0 && p.value.numSensorY > 0
    ensures p.value.lcdX / p.value.numSensorX >= LcdXMin / NumSensorMax
    ensures p.value.lcdY / p.value.numSensorY >= LcdYMin / NumSensorMax
    ensures p.value.lcdX <= LcdSizeMax && p.value.lcdY <= LcdSizeMax
  {
    var d := p.value;
    MulMonotone(d.numSensorX, NumSensorMax, LcdXMin / NumSensorMax);
    DivAtLeast(d.lcdX, d.numSensorX, LcdXMin / NumSensorMax);
    MulMonotone(d.numSensorY, NumSensorMax, LcdYMin / NumSensorMax);
    DivAtLeast(d.lcdY, d.numSensorY, LcdYMin / NumSensorMax);
  }

  lemma DivAtLeast(a: nat, b: nat, q: nat)
    requires 0 < b && b * q <= a
    ensures a / b >= q
  {
    var d := a / b;
    if d < q {
      MulMonotone(d + 1, q, b);
    }
  }

  /** The power-enable GPIO does not affect the verdict. */
  lemma PwrEnOnlyLogged(d: Pdata, gpio: nat)
    ensures ValidatePdata(Some(d)) == ValidatePdata(Some(d.(gpioPwrEn := gpio)))
  {
  }
}
