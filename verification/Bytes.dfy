/** Bytes, little-endian words in pages, and the bit tests the kernel makes on 64-bit words. */
module Bytes {
  import opened Arithmetic

  type byte = b: int | 0 <= b < 0x100

  const WORD_LIMIT: nat := 0x1_0000_0000_0000_0000

  type uint64 = n: int | 0 <= n < 0x1_0000_0000_0000_0000

  /** x + y in 64 bits. */
  function Add64(x: nat, y: nat): (r: uint64)
    ensures x + y < WORD_LIMIT ==> r == x + y
  {
    (x + y) % WORD_LIMIT
  }

  /** x - y in 64 bits. */
  function Sub64(x: uint64, y: uint64): uint64 {
    if x >= y then x - y else x - y + WORD_LIMIT
  }

  // ---- words in memory ----

  /** The value of bytes stored least significant first. */
  function Decode(s: seq<byte>): nat {
    if s == [] then 0 else s[0] as int + 0x100 * Decode(s[1..])
  }

  function Encode(value: nat, n: nat): (s: seq<byte>)
    ensures |s| == n
  {
    if n == 0 then [] else [value % 0x100] + Encode(value / 0x100, n - 1)
  }

  /** The value has at most n bytes. */
  predicate HasBytes(value: nat, n: nat) {
    if n == 0 then value == 0 else HasBytes(value / 0x100, n - 1)
  }

  lemma {:induction false} DecodeEncode(value: nat, n: nat)
    requires HasBytes(value, n)
    ensures Decode(Encode(value, n)) == value
  {
    if n > 0 {
      DecodeEncode(value / 0x100, n - 1);
      assert Encode(value, n)[1..] == Encode(value / 0x100, n - 1);
    }
  }

  lemma SmallValuesFit(value: nat)
    requires value < 0x1_0000_0000
    ensures HasBytes(value, 8)
  {
    var v1, v2, v3 := value / 0x100, value / 0x1_0000, value / 0x100_0000;
    assert v1 / 0x100 == v2 && v2 / 0x100 == v3 && v3 / 0x100 == 0;
    assert HasBytes(0, 4) by { assert HasBytes(0, 1) && HasBytes(0, 2) && HasBytes(0, 3); }
    assert HasBytes(v3, 5) && HasBytes(v2, 6) && HasBytes(v1, 7);
  }

  // ---- masks ----

  /** Bitwise and. */
  function And(a: nat, b: nat): nat {
    if a == 0 || b == 0 then 0 else 2 * And(a / 2, b / 2) + (a % 2) * (b % 2)
  }

  predicate PowerOfTwo(a: nat) {
    a == 1 || (a > 1 && a % 2 == 0 && PowerOfTwo(a / 2))
  }

  lemma SquareOfBit(b: nat)
    requires b < 2
    ensures b * b == b
  {
    assert b == 0 || b == 1;
  }

  lemma {:induction false} AndWithSelf(a: nat)
    ensures And(a, a) == a
  {
    if a > 0 {
      AndWithSelf(a / 2);
      SquareOfBit(a % 2);
    }
  }

  /** The kernel's test a & (a - 1) recognises exactly the powers of two. */
  lemma {:induction false} PowerOfTwoTest(a: nat)
    requires a > 0
    ensures And(a, a - 1) == 0 <==> PowerOfTwo(a)
  {
    if a > 1 {
      if a % 2 == 0 {
        PowerOfTwoTest(a / 2);
        assert (a - 1) / 2 == a / 2 - 1 && (a - 1) % 2 == 1;
      } else {
        AndWithSelf(a / 2);
        assert (a - 1) / 2 == a / 2;
      }
    }
  }

  lemma HalvedRemainder(p: nat, h: nat)
    requires h > 0
    ensures p % (2 * h) == 2 * ((p / 2) % h) + p % 2
  {
    var half, q, r := p / 2, (p / 2) / h, (p / 2) % h;
    assert half == h * q + r;
    assert q * (2 * h) == 2 * (h * q);
    QuotientIs(p, 2 * h, q, 2 * r + p % 2);
  }

  /** Masking with a - 1 is the remainder by a, for powers of two. */
  lemma {:induction false} MaskIsRemainder(p: nat, a: nat)
    requires PowerOfTwo(a)
    ensures And(p, a - 1) == p % a
  {
    if p == 0 {
      QuotientIs(0, a, 0, 0);
    } else if a > 1 {
      var h := a / 2;
      assert a == 2 * h && (a - 1) / 2 == h - 1 && (a - 1) % 2 == 1;
      MaskIsRemainder(p / 2, h);
      HalvedRemainder(p, h);
    }
  }
}
