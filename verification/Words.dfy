/** Eight-byte integers: Rust's `to_be_bytes`, `from_be_bytes`, `to_le_bytes`, `from_le_bytes`. */
module Words {
  import opened ByteStrings

  const U64_LIMIT := 0x1_0000_0000_0000_0000
  const U64_MAX: U64 := U64_LIMIT - 1

  type U64 = n: int | 0 <= n < 0x1_0000_0000_0000_0000

  // 256 to the power `len`.
  function Capacity(len: nat): (c: nat)
    ensures c > 0
  {
    if len == 0 then 1 else 256 * Capacity(len - 1)
  }

  lemma CapacityOfEight()
    ensures Capacity(8) == U64_LIMIT
  {
    assert Capacity(2) == 0x1_0000;
    assert Capacity(4) == 0x1_0000_0000;
    assert Capacity(6) == 0x1_0000_0000_0000;
  }

  // ---- big-endian: most significant byte first ----

  function BigEndian(n: nat, len: nat): (b: Bytes)
    requires n < Capacity(len)
    ensures |b| == len
  {
    if len == 0 then [] else BigEndian(n / 256, len - 1) + [n % 256]
  }

  function FromBigEndian(b: Bytes): (n: nat)
    ensures n < Capacity(|b|)
  {
    if b == [] then 0 else 256 * FromBigEndian(b[..|b| - 1]) + b[|b| - 1]
  }

  lemma {:induction false} BigEndianRoundTrip(n: nat, len: nat)
    requires n < Capacity(len)
    ensures FromBigEndian(BigEndian(n, len)) == n
  {
    if len > 0 {
      BigEndianRoundTrip(n / 256, len - 1);
      var b := BigEndian(n, len);
      assert b[..|b| - 1] == BigEndian(n / 256, len - 1);
    }
  }

  lemma {:induction false} FromBigEndianRoundTrip(b: Bytes)
    ensures BigEndian(FromBigEndian(b), |b|) == b
  {
    if b != [] {
      var init, last := b[..|b| - 1], b[|b| - 1];
      FromBigEndianRoundTrip(init);
      LastDigit(FromBigEndian(init), last);
      assert b == init + [last];
    }
  }

  lemma LastDigit(m: nat, d: nat)
    requires d < 256
    ensures (256 * m + d) / 256 == m && (256 * m + d) % 256 == d
  {
  }

  /** Byte order on big-endian strings of one length is numeric order. */
  lemma {:induction false} BigEndianOrder(m: nat, n: nat, len: nat)
    requires m < Capacity(len) && n < Capacity(len)
    ensures Less(BigEndian(m, len), BigEndian(n, len)) <==> m < n
  {
    if len > 0 {
      var a, b := BigEndian(m / 256, len - 1), BigEndian(n / 256, len - 1);
      LessAtLast(a, b, m % 256, n % 256);
      BigEndianOrder(m / 256, n / 256, len - 1);
      DigitOrder(m, n);
      if a == b {
        BigEndianRoundTrip(m / 256, len - 1);
        BigEndianRoundTrip(n / 256, len - 1);
      }
    }
  }

  lemma DigitOrder(m: nat, n: nat)
    ensures m < n <==> m / 256 < n / 256 || (m / 256 == n / 256 && m % 256 < n % 256)
  {
  }

  // ---- little-endian: least significant byte first ----

  function LittleEndian(n: nat, len: nat): (b: Bytes)
    requires n < Capacity(len)
    ensures |b| == len
  {
    if len == 0 then [] else [n % 256] + LittleEndian(n / 256, len - 1)
  }

  function FromLittleEndian(b: Bytes): (n: nat)
    ensures n < Capacity(|b|)
  {
    if b == [] then 0 else b[0] + 256 * FromLittleEndian(b[1..])
  }

  lemma {:induction false} LittleEndianRoundTrip(n: nat, len: nat)
    requires n < Capacity(len)
    ensures FromLittleEndian(LittleEndian(n, len)) == n
  {
    if len > 0 {
      LittleEndianRoundTrip(n / 256, len - 1);
      assert LittleEndian(n, len)[1..] == LittleEndian(n / 256, len - 1);
    }
  }

  // ---- digits ----

  // Digit `i` of `n` in base 256, the least significant being digit zero.
  function Digit(n: nat, i: nat): nat {
    n / Capacity(i) % 256
  }

  lemma DigitShift(n: nat, i: nat)
    ensures Digit(n / 256, i) == Digit(n, i + 1)
  {
    var c := Capacity(i);
    DivideTwice(n, c);
  }

  lemma DivideTwice(n: nat, c: nat)
    requires c > 0
    ensures n / 256 / c == n / (256 * c)
  {
    var q, r := n / 256 / c, n / 256 % c;
    assert n == 256 * (c * q + r) + n % 256;
    assert n == (256 * c) * q + (256 * r + n % 256);
    assert 0 <= 256 * r + n % 256 < 256 * c;
    Quotient(n, 256 * c, q, 256 * r + n % 256);
  }

  lemma Quotient(n: nat, d: nat, q: nat, r: nat)
    requires d > 0 && r < d && n == d * q + r
    ensures n / d == q
  {
    var p, m := n / d, n % d;
    assert d * p + m == d * q + r;
    if p < q {
      NextMultiple(d, p, q);
    } else if q < p {
      NextMultiple(d, q, p);
    }
  }

  lemma {:induction false} NextMultiple(d: nat, p: nat, q: nat)
    requires p < q
    ensures d * q >= d * p + d
  {
    if p + 1 == q {
      assert d * (p + 1) == d * p + d;
    } else {
      NextMultiple(d, p, q - 1);
      assert d * q == d * (q - 1) + d;
    }
  }

  lemma {:induction false} BigEndianDigits(n: nat, len: nat, i: nat)
    requires n < Capacity(len) && i < len
    ensures BigEndian(n, len)[len - 1 - i] == Digit(n, i)
  {
    if i == 0 {
      assert Capacity(0) == 1;
    } else {
      BigEndianDigits(n / 256, len - 1, i - 1);
      DigitShift(n, i - 1);
    }
  }

  lemma {:induction false} LittleEndianDigits(n: nat, len: nat, i: nat)
    requires n < Capacity(len) && i < len
    ensures LittleEndian(n, len)[i] == Digit(n, i)
  {
    if i == 0 {
      assert Capacity(0) == 1;
    } else {
      LittleEndianDigits(n / 256, len - 1, i - 1);
      DigitShift(n, i - 1);
    }
  }

  // ---- the eight-byte instances ----

  function ToBe(n: U64): (b: Bytes)
    ensures |b| == 8
  {
    CapacityOfEight();
    BigEndian(n, 8)
  }

  function FromBe(b: Bytes): U64
    requires |b| == 8
  {
    CapacityOfEight();
    FromBigEndian(b)
  }

  function ToLe(n: U64): (b: Bytes)
    ensures |b| == 8
  {
    CapacityOfEight();
    LittleEndian(n, 8)
  }

  /** `u64_from_bytes`: a stored integer of any other length reads as zero. */
  function U64FromBytes(b: Bytes): U64 {
    if |b| == 8 then CapacityOfEight(); FromLittleEndian(b) else 0
  }

  /** The two key directions are inverse, and keys sort as their integers do. */
  lemma BeIsomorphism(m: U64, n: U64)
    ensures FromBe(ToBe(n)) == n
    ensures Less(ToBe(m), ToBe(n)) <==> m < n
    ensures ToBe(m) == ToBe(n) <==> m == n
  {
    CapacityOfEight();
    BigEndianRoundTrip(m, 8);
    BigEndianRoundTrip(n, 8);
    BigEndianOrder(m, n, 8);
  }

  lemma BeOnto(b: Bytes)
    requires |b| == 8
    ensures ToBe(FromBe(b)) == b
  {
    FromBigEndianRoundTrip(b);
  }

  /** Both are the eight base-256 digits of the integer, most and least significant first. */
  lemma ByteOrders(n: U64, i: nat)
    requires i < 8
    ensures ToLe(n)[i] == Digit(n, i) && ToBe(n)[7 - i] == Digit(n, i)
  {
    CapacityOfEight();
    BigEndianDigits(n, 8, i);
    LittleEndianDigits(n, 8, i);
  }

  lemma {:induction false} FromLittleEndianRoundTrip(b: Bytes)
    ensures LittleEndian(FromLittleEndian(b), |b|) == b
  {
    if b != [] {
      FromLittleEndianRoundTrip(b[1..]);
      LastDigit(FromLittleEndian(b[1..]), b[0]);
      assert b == [b[0]] + b[1..];
    }
  }

  /** Every eight stored bytes are those of the integer read from them; any other number of bytes reads as zero. */
  lemma StoredInteger(b: Bytes)
    ensures if |b| == 8 then ToLe(U64FromBytes(b)) == b else U64FromBytes(b) == 0
  {
    if |b| == 8 {
      CapacityOfEight();
      FromLittleEndianRoundTrip(b);
    }
  }

  lemma LeRoundTrip(n: U64)
    ensures U64FromBytes(ToLe(n)) == n
  {
    CapacityOfEight();
    LittleEndianRoundTrip(n, 8);
  }
}
