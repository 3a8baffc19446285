/**
 * The size literals `_KiB`.. `_PiB` and `_kB`.. `_PB`, and
 * `time::unix_epoch`. A literal operator takes an `unsigned long long` and
 * multiplies in `uint64_t`, so the product wraps modulo 2^64.
 */
module Units {
  import opened Bits

  const Modulus: nat := 0x1_0000_0000_0000_0000

  lemma ModulusIsPow2()
    ensures Modulus == Pow2(64)
  {
    Pow2Values();
  }

  /** `uint64_t(value) * factor`. */
  function Scale(value: nat, factor: nat): (r: nat)
    requires value < Modulus
    ensures r < Modulus
    ensures value * factor < Modulus ==> r == value * factor
  {
    (value * factor) % Modulus
  }

  /** Wrapping modulo 2^64 keeps a multiple of a factor that divides 2^64. */
  lemma WrapKeepsMultiple(value: nat, factor: nat)
    requires 0 < factor && Modulus % factor == 0
    ensures ((value * factor) % Modulus) % factor == 0
  {
    var k := Modulus / factor;
    var x := value * factor;
    var q, r := x / Modulus, x % Modulus;
    assert Modulus == factor * k;
    assert x == Modulus * q + r;
    assert Modulus * q == factor * (k * q);
    assert r == factor * (value - k * q);
    DivModUnique(r, factor, value - k * q, 0);
  }

  // IEC: powers of 1024

  function KiB(value: nat): (r: nat)
    requires value < Modulus
    ensures r < Modulus && (value * 1024 < Modulus ==> r == value * 1024)
    ensures r % 1024 == 0
  {
    WrapKeepsMultiple(value, 1024);
    Scale(value, 1024)
  }

  function MiB(value: nat): (r: nat)
    requires value < Modulus
    ensures r < Modulus && (value * 1048576 < Modulus ==> r == value * 1048576)
    ensures r % 1048576 == 0
  {
    WrapKeepsMultiple(value, 1048576);
    Scale(value, 1048576)
  }

  function GiB(value: nat): (r: nat)
    requires value < Modulus
    ensures r < Modulus && (value * 1073741824 < Modulus ==> r == value * 1073741824)
    ensures r % 1073741824 == 0
  {
    WrapKeepsMultiple(value, 1073741824);
    Scale(value, 1073741824)
  }

  function TiB(value: nat): (r: nat)
    requires value < Modulus
    ensures r < Modulus && (value * 1099511627776 < Modulus ==> r == value * 1099511627776)
    ensures r % 1099511627776 == 0
  {
    WrapKeepsMultiple(value, 1099511627776);
    Scale(value, 1099511627776)
  }

  function PiB(value: nat): (r: nat)
    requires value < Modulus
    ensures r < Modulus && (value * 1125899906842624 < Modulus ==> r == value * 1125899906842624)
    ensures r % 1125899906842624 == 0
  {
    WrapKeepsMultiple(value, 1125899906842624);
    Scale(value, 1125899906842624)
  }


  // SI: powers of 1000

  function KB(value: nat): (r: nat)
    requires value < Modulus
    ensures r < Modulus && (value * 1000 < Modulus ==> r == value * 1000)
  {
    Scale(value, 1000)
  }

  function MB(value: nat): (r: nat)
    requires value < Modulus
    ensures r < Modulus && (value * 1000000 < Modulus ==> r == value * 1000000)
  {
    Scale(value, 1000000)
  }

  function GB(value: nat): (r: nat)
    requires value < Modulus
    ensures r < Modulus && (value * 1000000000 < Modulus ==> r == value * 1000000000)
  {
    Scale(value, 1000000000)
  }

  function TB(value: nat): (r: nat)
    requires value < Modulus
    ensures r < Modulus && (value * 1000000000000 < Modulus ==> r == value * 1000000000000)
  {
    Scale(value, 1000000000000)
  }

  function PB(value: nat): (r: nat)
    requires value < Modulus
    ensures r < Modulus && (value * 1000000000000000 < Modulus ==> r == value * 1000000000000000)
  {
    Scale(value, 1000000000000000)
  }


  /** The IEC factors are 2^10, 2^20, 2^30, 2^40 and 2^50. */
  lemma IecFactors()
    ensures 1024 == Pow2(10) && 1048576 == Pow2(20) && 1073741824 == Pow2(30)
    ensures 1099511627776 == Pow2(40) && 1125899906842624 == Pow2(50)
  {
    Pow2Values();
    Pow2Add(8, 2);
    Pow2Add(16, 4);
    Pow2Add(24, 6);
    Pow2Add(48, 2);
  }

  /**
   * An IEC literal is a left shift of the 64-bit word: the value by 10k bits,
   * losing the top 10k bits.
   */
  lemma IecIsShift(value: nat)
    requires value < Modulus
    ensures KiB(value) == ShiftLeft(value, 10, 64) == (value % Pow2(54)) * Pow2(10)
    ensures MiB(value) == ShiftLeft(value, 20, 64) == (value % Pow2(44)) * Pow2(20)
    ensures GiB(value) == ShiftLeft(value, 30, 64) == (value % Pow2(34)) * Pow2(30)
    ensures TiB(value) == ShiftLeft(value, 40, 64) == (value % Pow2(24)) * Pow2(40)
    ensures PiB(value) == ShiftLeft(value, 50, 64) == (value % Pow2(14)) * Pow2(50)
  {
    IecFactors();
    ModulusIsPow2();
    ShiftLeftMod(value, 10, 64);
    ShiftLeftMod(value, 20, 64);
    ShiftLeftMod(value, 30, 64);
    ShiftLeftMod(value, 40, 64);
    ShiftLeftMod(value, 50, 64);
  }

  /** `1_KiB` through `1_PiB` are 2^10 through 2^50, and `16384_PiB` wraps to 0. */
  lemma IecUnits()
    ensures KiB(1) == Pow2(10) && MiB(1) == Pow2(20) && GiB(1) == Pow2(30)
    ensures TiB(1) == Pow2(40) && PiB(1) == Pow2(50)
    ensures PiB(16384) == 0
  {
    IecFactors();
    assert 16384 * 1125899906842624 == Modulus;
  }

  /** Where nothing wraps, each IEC unit is 1024 of the one before. */
  lemma IecSteps(value: nat)
    requires value < Modulus
    ensures value * 1048576 < Modulus ==> MiB(value) == 1024 * KiB(value)
    ensures value * 1073741824 < Modulus ==> GiB(value) == 1024 * MiB(value)
    ensures value * 1099511627776 < Modulus ==> TiB(value) == 1024 * GiB(value)
    ensures value * 1125899906842624 < Modulus ==> PiB(value) == 1024 * TiB(value)
  {
  }

  /** Where nothing wraps, each SI unit is 1000 of the one before. */
  lemma SiSteps(value: nat)
    requires value < Modulus
    ensures value * 1000000 < Modulus ==> MB(value) == 1000 * KB(value)
    ensures value * 1000000000 < Modulus ==> GB(value) == 1000 * MB(value)
    ensures value * 1000000000000 < Modulus ==> TB(value) == 1000 * GB(value)
    ensures value * 1000000000000000 < Modulus ==> PB(value) == 1000 * TB(value)
  {
  }

  /** The lengths of `std::chrono::years`, `months` and `days`, in seconds. */
  const YearSeconds: nat := 31556952
  const MonthSeconds: nat := 2629746
  const DaySeconds: nat := 86400

  /** `unix_epoch`: 1970 years, one month and one day, in seconds. */
  function UnixEpoch(): (r: nat)
    ensures r == 62169911586
  {
    1970 * YearSeconds + MonthSeconds + DaySeconds
  }

  /** The chrono lengths are the average Gregorian ones: 365.2425 days a year, a twelfth of that a month. */
  lemma ChronoLengths()
    ensures YearSeconds * 10000 == 3652425 * DaySeconds
    ensures MonthSeconds * 12 == YearSeconds
  {
  }
}
