/**
 * The KNX datapoint type 9.001 (2-octet float, section 3.10 of KNX System
 * Specification 03.07.02) as the gateway packs and unpacks it in
 * src/dpt_9001.py: bit 15 is the sign, bits 14-11 the exponent E and bits
 * 10-0 the mantissa M (two's complement together with the sign bit); the
 * value is 0.01 * M * 2^E.  Values are handled in hundredths, which makes
 * every decoded value an exact integer.
 */
module Dpt9001 {
  import opened Wrappers
  import opened PyData

  /** TypeError of pack_dpt9001 / unpack_dpt9001, and DPT9001Error. */
  datatype DptError = NotANumber | NotAnInteger | OutOfRange

  /** The range check of pack_dpt9001, on the value itself. */
  const MaxValue: real := 670760.96
  const MinValue: real := -671088.64

  /** The same bounds in hundredths: 2047 * 2^15 and -2048 * 2^15. */
  const MaxHundredths: int := 67076096
  const MinHundredths: int := -67108864

  function Pow2(k: nat): (p: int)
    ensures p >= 1
  {
    if k == 0 then 1 else 2 * Pow2(k - 1)
  }

  /** The mantissa fits in 11 bits plus sign. */
  predicate FitsMantissa(m: int) { -2048 <= m <= 2047 }

  /** Python's `int(x)` on a float: truncation toward zero. */
  function TruncToInt(x: real): (n: int)
    ensures x >= 0.0 ==> n as real <= x < n as real + 1.0
    ensures x < 0.0 ==> n as real - 1.0 < x <= n as real
  {
    if x >= 0.0 then x.Floor else -((-x).Floor)
  }

  /** `int(value * 100)`: exact for an int, truncated for a float. */
  function Hundredths(v: Value): int
    requires IsNumber(v)
  {
    if v.VFloat? then TruncToInt(v.r * 100.0) else AsInt(v) * 100
  }

  /**
   * The normalisation loop of pack_dpt9001: halve with floor division
   * (Python's `//`, which is Dafny's `/` for a positive divisor) while the
   * mantissa does not fit, counting the halvings in the exponent.
   */
  function Normalize(c: int): (r: (int, nat))
    ensures FitsMantissa(r.0)
    decreases Abs(c)
  {
    if FitsMantissa(c) then (c, 0)
    else
      var n := Normalize(c / 2);
      (n.0, n.1 + 1)
  }

  /** The 16-bit word with the sign bit, a 4-bit exponent and the mantissa's 11 low bits. */
  function Word(m: int, e: nat): (w: int)
    requires FitsMantissa(m) && e < 16
    ensures 0 <= w < 65536
  {
    (if m < 0 then 32768 else 0) + e * 2048 + (if m < 0 then m + 2048 else m)
  }

  /** pack_dpt9001 as a specification: the exponent is masked with `& 0x0F`. */
  function Encode(value: Value): (r: Result<int, DptError>)
    ensures r.Failure? <==> !IsNumber(value) || AsReal(value) > MaxValue || AsReal(value) < MinValue
    ensures r.Failure? ==> (r.error == NotANumber <==> !IsNumber(value))
    ensures r.Failure? ==> r.error != NotAnInteger
    ensures r.Success? ==> 0 <= r.value < 65536
  {
    if !IsNumber(value) then Failure(NotANumber)
    else if AsReal(value) > MaxValue || AsReal(value) < MinValue then Failure(OutOfRange)
    else
      var n := Normalize(Hundredths(value));
      Success(Word(n.0, n.1 % 16))
  }

  // The fields unpack_dpt9001 extracts.  Python's `x >> 8` and `x & 0xFF`
  // on an int are floor division by 256 and the non-negative remainder, for
  // negative x as well, which is what Dafny's `/` and `%` compute.

  function HighByte(raw: int): int { (raw / 256) % 256 }

  function LowByte(raw: int): int { raw % 256 }

  /** `((h & 0x07) << 8) | l`, less 2048 when `h & 0x80` is set. */
  function Mantissa(raw: int): (m: int)
    ensures FitsMantissa(m)
  {
    var h := HighByte(raw);
    var bits := (h % 8) * 256 + LowByte(raw);
    if h >= 128 then bits - 2048 else bits
  }

  /** `(h >> 3) & 0x0F`. */
  function Exponent(raw: int): (e: nat)
    ensures e < 16
  {
    (HighByte(raw) / 8) % 16
  }

  /**
   * `mantissa * 0.01 * (1 << exponent)` in hundredths.  It is an integer, so
   * the final `round(..., 2)` changes nothing in exact arithmetic.
   */
  function DecodeHundredths(raw: int): int
  {
    Mantissa(raw) * Pow2(Exponent(raw))
  }

  /** unpack_dpt9001 as a specification, in hundredths. */
  function Unpack(value: Value): (r: Result<int, DptError>)
    ensures r.Failure? <==> !IsInt(value)
    ensures r.Failure? ==> r.error == NotAnInteger
  {
    if !IsInt(value) then Failure(NotAnInteger) else Success(DecodeHundredths(AsInt(value)))
  }

  // ---------------------------------------------------------------------
  // pack_dpt9001 as written: a halving loop and a two-byte buffer.

  /** Python's `a | b` on non-negative ints, one bit at a time from the lowest. */
  function BitOr(a: nat, b: nat): nat
    decreases a + b
  {
    if a == 0 then b
    else if b == 0 then a
    else 2 * BitOr(a / 2, b / 2) + (if a % 2 == 1 || b % 2 == 1 then 1 else 0)
  }

  lemma {:induction false} BitOrCommutes(a: nat, b: nat)
    ensures BitOr(a, b) == BitOr(b, a)
    decreases a + b
  {
    if a != 0 && b != 0 {
      BitOrCommutes(a / 2, b / 2);
    }
  }

  /** With no bits in common, `|` is `+`: `b` lies below bit `k` and `q * 2^k` above it. */
  lemma {:induction false} BitOrDisjoint(q: nat, b: nat, k: nat)
    requires b < Pow2(k)
    ensures BitOr(q * Pow2(k), b) == q * Pow2(k) + b
    decreases k
  {
    var a := q * Pow2(k);
    if k > 0 && a != 0 && b != 0 {
      var half := q * Pow2(k - 1);
      assert a == 2 * half by {
        assert Pow2(k) == 2 * Pow2(k - 1);
      }
      assert a / 2 == half && a % 2 == 0;
      BitOrDisjoint(q, b / 2, k - 1);
      assert BitOr(a, b) == 2 * BitOr(half, b / 2) + b % 2;
    }
  }

  lemma SplitMantissa(m: int)
    requires 0 <= m < 2048
    ensures 0 <= m / 256 < 8 && (m / 256) % 8 == m / 256 && m == (m / 256) * 256 + m % 256
  {
  }

  method Pack(value: Value) returns (r: Result<int, DptError>)
    ensures r == Encode(value)
  {
    if !IsNumber(value) {
      return Failure(NotANumber);
    }
    if AsReal(value) > MaxValue || AsReal(value) < MinValue {
      return Failure(OutOfRange);
    }
    var signedMantissa := Hundredths(value);
    var exp: nat := 0;
    while signedMantissa > 2047 || signedMantissa < -2048
      invariant Normalize(Hundredths(value)) == (Normalize(signedMantissa).0, Normalize(signedMantissa).1 + exp)
      decreases Abs(signedMantissa)
    {
      signedMantissa := signedMantissa / 2;
      exp := exp + 1;
    }
    assert Normalize(Hundredths(value)) == (signedMantissa, exp);
    var word := PackWord(signedMantissa, exp);
    r := Success(word);
  }

  /**
   * The buffer half of pack_dpt9001: the exponent, the sign bit and the
   * mantissa's high three bits go into the first byte, its low eight bits
   * into the second, and the two bytes are read back big-endian.
   */
  method PackWord(mantissa: int, exp: nat) returns (word: int)
    requires FitsMantissa(mantissa)
    ensures word == Word(mantissa, exp % 16)
  {
    var signedMantissa := mantissa;
    var buffer := new nat[2];
    var e4 := exp % 16;
    buffer[0] := e4 * 8;
    if signedMantissa < 0 {
      signedMantissa := signedMantissa + 2048;
      assert Pow2(7) == 128;
      BitOrDisjoint(1, buffer[0], 7);
      BitOrCommutes(buffer[0], 128);
      buffer[0] := BitOr(buffer[0], 0x80);
    }
    ghost var sign := if mantissa < 0 then 16 else 0;
    assert buffer[0] == (e4 + sign) * 8;
    SplitMantissa(signedMantissa);
    assert Pow2(3) == 8;
    BitOrDisjoint(e4 + sign, (signedMantissa / 256) % 8, 3);
    buffer[0] := BitOr(buffer[0], (signedMantissa / 256) % 8);
    buffer[1] := signedMantissa % 256;
    WordParts(mantissa, e4, signedMantissa);
    word := buffer[0] * 256 + buffer[1];
  }

  /** The two bytes, read big-endian, are the word of the mantissa and exponent. */
  lemma WordParts(m: int, e: nat, u: int)
    requires FitsMantissa(m) && e < 16 && u == (if m < 0 then m + 2048 else m)
    ensures (e * 8 + (if m < 0 then 128 else 0) + u / 256) * 256 + u % 256 == Word(m, e)
  {
    var sign := if m < 0 then 128 else 0;
    assert (e * 8 + sign + u / 256) * 256 == e * 2048 + sign * 256 + (u / 256) * 256;
  }

  // ---------------------------------------------------------------------
  // Arithmetic used by the properties below.

  lemma MulAtLeast(d: int, k: int)
    requires d > 0 && k >= 1
    ensures d * k >= d
  {
  }

  lemma DivUnique(c: int, d: int, q: int, r: int)
    requires d > 0 && c == d * q + r && 0 <= r < d
    ensures c / d == q && c % d == r
  {
    var q', r' := c / d, c % d;
    assert c == d * q' + r';
    if q > q' {
      MulAtLeast(d, q - q');
      assert false;
    } else if q < q' {
      MulAtLeast(d, q' - q);
      assert false;
    }
  }

  lemma DivDiv(c: int, a: int, b: int)
    requires a > 0 && b > 0
    ensures c / a / b == c / (a * b)
  {
    var q, r := c / a, c % a;
    var q2, r2 := q / b, q % b;
    assert c == a * q + r;
    assert q == b * q2 + r2;
    assert a * q == a * (b * q2) + a * r2;
    assert a * (b * q2) == (a * b) * q2;
    assert a * r2 <= a * (b - 1) by {
      MulAtLeast(a, (b - 1 - r2) + 1);
      assert a * (b - 1 - r2 + 1) == a * (b - r2);
    }
    assert a * (b - 1) == a * b - a;
    DivUnique(c, a * b, q2, a * r2 + r);
  }

  lemma DivBounds(c: int, p: int, lo: int, hi: int)
    requires p > 0 && lo * p <= c < hi * p
    ensures lo <= c / p < hi
  {
    var q := c / p;
    assert c == p * q + c % p;
    if q < lo {
      MulAtLeast(p, lo - q);
      assert false;
    }
    if q >= hi {
      MulAtLeast(p, q - hi + 1);
      assert false;
    }
  }

  lemma {:induction false} Pow2Monotone(a: nat, b: nat)
    requires a <= b
    ensures Pow2(a) <= Pow2(b)
  {
    if a < b {
      Pow2Monotone(a, b - 1);
    }
  }

  // ---------------------------------------------------------------------
  // Properties of the codec.

  /**
   * Normalisation computes floor(c / 2^e) with e the least number of
   * halvings after which the mantissa fits.
   */
  lemma {:induction false} NormalizeIsLeastShift(c: int)
    ensures Normalize(c).0 == c / Pow2(Normalize(c).1)
    ensures forall k: nat :: k < Normalize(c).1 ==> !FitsMantissa(c / Pow2(k))
    decreases Abs(c)
  {
    if !FitsMantissa(c) {
      NormalizeIsLeastShift(c / 2);
      var e := Normalize(c / 2).1;
      DivDiv(c, 2, Pow2(e));
      forall k: nat | k < Normalize(c).1 ensures !FitsMantissa(c / Pow2(k)) {
        if k > 0 {
          DivDiv(c, 2, Pow2(k - 1));
        }
      }
    }
  }

  /** A value within 2048 * 2^k in magnitude needs at most k halvings. */
  lemma ExponentBound(c: int, k: nat)
    requires -2048 * Pow2(k) <= c < 2048 * Pow2(k)
    ensures Normalize(c).1 <= k
  {
    NormalizeIsLeastShift(c);
    DivBounds(c, Pow2(k), -2048, 2048);
  }

  /** Every value inside the range check truncates into the hundredths range. */
  lemma HundredthsInRange(value: Value)
    requires IsNumber(value) && MinValue <= AsReal(value) <= MaxValue
    ensures MinHundredths <= Hundredths(value) <= MaxHundredths
  {
  }

  /** The exponent of every accepted value is at most 15, so `exp & 0x0F` drops nothing. */
  lemma EncodeExponentFits(value: Value)
    requires Encode(value).Success?
    ensures Normalize(Hundredths(value)).1 <= 15
  {
    HundredthsInRange(value);
    assert Pow2(15) == 32768;
    ExponentBound(Hundredths(value), 15);
  }

  /** Unpacking a packed word gives back the sign, the exponent and the mantissa. */
  lemma WordFields(m: int, e: nat)
    requires FitsMantissa(m) && e < 16
    ensures Mantissa(Word(m, e)) == m && Exponent(Word(m, e)) == e
  {
    var bits := if m < 0 then m + 2048 else m;
    var w := Word(m, e);
    var h := (if m < 0 then 128 else 0) + e * 8 + bits / 256;
    DivUnique(w, 256, h, bits % 256);
    assert HighByte(w) == h && LowByte(w) == bits % 256;
    DivUnique(h, 8, (if m < 0 then 16 else 0) + e, bits / 256);
  }

  lemma MulMonotone(a: int, b: int, k: int)
    requires k >= 0 && a <= b
    ensures a * k <= b * k
  {
  }

  /** floor(c / p) * p is the multiple of p just at or below c. */
  lemma FloorMultiple(c: int, p: int)
    requires p > 0
    ensures (c / p) * p <= c < (c / p) * p + p
  {
    assert c == p * (c / p) + c % p;
  }

  /** Dropping the low bits loses at most 1/1024 of the value. */
  lemma TruncationError(c: int)
    ensures var e := Normalize(c).1;
            (c - (c / Pow2(e)) * Pow2(e)) * 1024 <= Abs(c)
  {
    NormalizeIsLeastShift(c);
    var e := Normalize(c).1;
    var p := Pow2(e);
    FloorMultiple(c, p);
    var err := c - (c / p) * p;
    if e > 0 {
      var p1 := Pow2(e - 1);
      assert p == 2 * p1;
      assert !FitsMantissa(c / p1);
      FloorMultiple(c, p1);
      MulMonotone(err, p - 1, 1024);
      if c >= 0 {
        MulMonotone(2048, c / p1, p1);
      } else {
        MulMonotone(c / p1, -2049, p1);
      }
    }
  }

  /** The word of a normalised value decodes to mantissa * 2^exponent. */
  lemma DecodeWord(m: int, e: nat)
    requires FitsMantissa(m) && e < 16
    ensures DecodeHundredths(Word(m, e)) == m * Pow2(e)
  {
    WordFields(m, e);
  }

  /**
   * The round trip: decoding the packed word gives floor(c / 2^e) * 2^e,
   * where c is the value in hundredths and e its exponent; the error is
   * below 2^e hundredths and at most 1/1024 of the value, and values whose
   * hundredths fit in the mantissa come back exactly.
   */
  lemma RoundTrip(value: Value)
    requires Encode(value).Success?
    ensures var c := Hundredths(value);
            var e := Normalize(c).1;
            var d := DecodeHundredths(Encode(value).value);
            && d == (c / Pow2(e)) * Pow2(e)
            && d <= c < d + Pow2(e)
            && (c - d) * 1024 <= Abs(c)
            && (FitsMantissa(c) ==> d == c)
  {
    var c := Hundredths(value);
    var n := Normalize(c);
    EncodeExponentFits(value);
    assert n.1 % 16 == n.1;
    assert Encode(value).value == Word(n.0, n.1);
    DecodeWord(n.0, n.1);
    NormalizeIsLeastShift(c);
    FloorMultiple(c, Pow2(n.1));
    TruncationError(c);
  }

  /** Every word decodes inside the range pack_dpt9001 accepts. */
  lemma ScaledMantissaBounds(m: int, p: int)
    requires -2048 <= m <= 2047 && 1 <= p <= 32768
    ensures -2048 * 32768 <= m * p <= 2047 * 32768
  {
    MulMonotone(m, 2047, p);
    MulMonotone(-2048, m, p);
    MulMonotone(p, 32768, 2047);
    MulMonotone(p, 32768, 2048);
    assert 2047 * p == p * 2047 && -2048 * p == -(p * 2048);
  }

  lemma DecodeRange(raw: int)
    ensures MinHundredths <= DecodeHundredths(raw) <= MaxHundredths
  {
    var e := Exponent(raw);
    Pow2Monotone(e, 15);
    assert Pow2(15) == 32768;
    ScaledMantissaBounds(Mantissa(raw), Pow2(e));
  }


  /** unpack_dpt9001 reads only the low 16 bits of its argument. */
  lemma DecodeLow16(raw: int)
    ensures DecodeHundredths(raw) == DecodeHundredths(raw % 65536)
  {
    var q := raw / 65536;
    var low := raw % 65536;
    assert raw == 65536 * q + low;
    assert low == 256 * (low / 256) + low % 256;
    assert 0 <= low / 256 < 256 && 0 <= low % 256 < 256;
    assert raw == 256 * (256 * q + low / 256) + low % 256;
    DivUnique(raw, 256, 256 * q + low / 256, low % 256);
    DivUnique(256 * q + low / 256, 256, q, low / 256);
    DivUnique(low, 256, low / 256, low % 256);
    assert HighByte(raw) == low / 256 == HighByte(low);
    assert LowByte(raw) == LowByte(low);
  }

  /** The examples the project's own unit tests use. */
  lemma EncodeTemperature()
    ensures Encode(VFloat(21.5)) == Success(3123) && DecodeHundredths(3123) == 2150
  {
    assert Hundredths(VFloat(21.5)) == 2150 by {
      assert 21.5 * 100.0 == 2150.0;
    }
    assert Normalize(2150) == (1075, 1);
    assert Word(1075, 1) == 3123;
    WordFields(1075, 1);
  }

  lemma DecodeExtremeWords()
    ensures DecodeHundredths(0x7FFF) == MaxHundredths
    ensures DecodeHundredths(0xFFFF) == -32768
  {
    assert HighByte(0x7FFF) == 127 && LowByte(0x7FFF) == 255;
    assert Mantissa(0x7FFF) == 2047 && Exponent(0x7FFF) == 15;
    assert HighByte(0xFFFF) == 255 && LowByte(0xFFFF) == 255;
    assert Mantissa(0xFFFF) == -1 && Exponent(0xFFFF) == 15;
    assert Pow2(15) == 32768;
  }

  lemma EncodeRejects()
    ensures Encode(VFloat(700000.0)) == Failure(OutOfRange)
    ensures Encode(VFloat(-700000.0)) == Failure(OutOfRange)
    ensures Encode(VStr("invalid")) == Failure(NotANumber)
    ensures Unpack(VStr("invalid")) == Failure(NotAnInteger)
  {
  }

  lemma EncodeZero()
    ensures Encode(VInt(0)) == Success(0) && DecodeHundredths(0) == 0
  {
    assert Hundredths(VInt(0)) == 0;
  }
}
