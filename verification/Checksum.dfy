/**
 The Internet checksum of the network stack (RFC 1071, section 1).

 `OnesSum` is the reference: big-endian 16-bit words added one at a time with an end-around carry.
 The program instead adds everything into 32 bits and folds the carries afterwards.
 */
module Checksum {
  import opened Bytes

  /** Addition in one's-complement 16-bit arithmetic: the carry out of bit 15 is added back in. */
  function OnesAdd(a: nat, b: nat): (r: nat)
    requires a < 0x1_0000 && b < 0x1_0000
    ensures r < 0x1_0000
  {
    if a + b < 0x1_0000 then a + b else a + b - 0xFFFF
  }

  /** The big-endian word at the front of the data; an odd last byte is padded with a zero byte. */
  function FirstWord(data: seq<byte>): (w: nat)
    requires data != []
    ensures w < 0x1_0000
  {
    (data[0] as int) * 0x100 + if |data| > 1 then data[1] as int else 0
  }

  function AfterFirstWord(data: seq<byte>): seq<byte>
    requires data != []
  {
    if |data| > 1 then data[2..] else []
  }

  /** The one's-complement sum of RFC 1071, section 1. */
  function OnesSum(data: seq<byte>): (r: nat)
    ensures r < 0x1_0000
    decreases |data|
  {
    if data == [] then 0 else OnesAdd(FirstWord(data), OnesSum(AfterFirstWord(data)))
  }

  /** The plain integer sum of the words. */
  function WordSum(data: seq<byte>): nat
    decreases |data|
  {
    if data == [] then 0 else FirstWord(data) + WordSum(AfterFirstWord(data))
  }

  /** The 16-bit one's-complement representative of a sum: nonzero sums never fold to zero. */
  function Folded(sum: nat): (r: nat)
    ensures r < 0x1_0000
  {
    if sum == 0 then 0 else (sum - 1) % 0xFFFF + 1
  }

  lemma FoldStep(sum: nat)
    requires sum >= 0x1_0000
    ensures Folded(sum % 0x1_0000 + sum / 0x1_0000) == Folded(sum)
  {
    var high := sum / 0x1_0000;
    var next := sum % 0x1_0000 + high;
    assert sum - 1 == (next - 1) + 0xFFFF * high;
    ModPlusMultiple(next - 1, high);
  }

  lemma {:induction false} ModPlusMultiple(x: nat, k: nat)
    ensures (x + 0xFFFF * k) % 0xFFFF == x % 0xFFFF
  {
    if k > 0 {
      ModPlusMultiple(x, k - 1);
      var y := x + 0xFFFF * (k - 1);
      assert (y + 0xFFFF) % 0xFFFF == y % 0xFFFF;
    }
  }

  lemma FoldAdd(a: nat, sum: nat)
    requires a < 0x1_0000
    ensures Folded(a + sum) == OnesAdd(a, Folded(sum))
  {
    if sum > 0 {
      var k := (sum - 1) / 0xFFFF;
      var f := Folded(sum);
      assert sum == f + 0xFFFF * k;
      ModPlusMultiple(a + f - 1, k);
    }
  }

  /** Folding after the fact agrees with carrying around at every addition. */
  lemma {:induction false} FoldedSumIsOnesSum(data: seq<byte>)
    ensures Folded(WordSum(data)) == OnesSum(data)
    decreases |data|
  {
    if data != [] {
      FoldedSumIsOnesSum(AfterFirstWord(data));
      FoldAdd(FirstWord(data), WordSum(AfterFirstWord(data)));
    }
  }

  /** A prefix of whole words can be summed separately. */
  lemma {:induction false} WordSumSplit(front: seq<byte>, back: seq<byte>)
    requires |front| % 2 == 0
    ensures WordSum(front + back) == WordSum(front) + WordSum(back)
    decreases |front|
  {
    if front == [] {
      assert front + back == back;
    } else {
      assert AfterFirstWord(front + back) == AfterFirstWord(front) + back;
      WordSumSplit(AfterFirstWord(front), back);
    }
  }

  lemma NothingSummed()
    ensures WordSum([]) == 0
  {
  }

  lemma FoldedBelow16Bits(sum: nat)
    requires sum < 0x1_0000
    ensures Folded(sum) == sum
  {
  }

  lemma AppendWord(front: seq<byte>, high: byte, low: byte)
    requires |front| % 2 == 0
    ensures WordSum(front + [high, low]) == WordSum(front) + (high as int * 0x100 + low as int)
  {
    WordSumSplit(front, [high, low]);
    assert AfterFirstWord([high, low]) == [];
  }

  lemma AppendOddByte(front: seq<byte>, last: byte)
    requires |front| % 2 == 0
    ensures WordSum(front + [last]) == WordSum(front) + last as int * 0x100
  {
    WordSumSplit(front, [last]);
  }

  /** The checksum over the first `size` bytes of `data`. */
  method Ipv4Checksum(data: array<byte>, size: nat) returns (checksum: nat)
    requires size <= data.Length && size < 0x1_0000
    ensures checksum == 0xFFFF - OnesSum(data[..size])
  {
    hide WordSum, OnesSum, Folded;
    NothingSummed();
    var sum: nat := 0;
    var i := 0;
    assert data[..i] == [];
    while i + 1 < size
      invariant 0 <= i <= size && i % 2 == 0
      invariant sum == WordSum(data[..i])
      invariant sum <= 0xFFFF * (i / 2)
    {
      AppendWord(data[..i], data[i], data[i + 1]);
      assert data[..i + 2] == data[..i] + [data[i], data[i + 1]];
      sum := sum + ((data[i] as int) * 0x100 + data[i + 1] as int);
      i := i + 2;
    }
    if size % 2 != 0 {
      AppendOddByte(data[..i], data[i]);
      assert data[..size] == data[..i] + [data[i]];
      sum := sum + (data[size - 1] as int) * 0x100;
    } else {
      assert data[..size] == data[..i];
    }
    assert sum == WordSum(data[..size]);
    assert sum < 0x1_0000_0000;  // the 32-bit accumulator has not wrapped
    while sum / 0x1_0000 != 0
      invariant Folded(sum) == Folded(WordSum(data[..size]))
      decreases sum
    {
      FoldStep(sum);
      sum := sum % 0x1_0000 + sum / 0x1_0000;
    }
    FoldedSumIsOnesSum(data[..size]);
    FoldedBelow16Bits(sum);
    checksum := 0xFFFF - sum;
  }

  function Checksum(data: seq<byte>): nat {
    0xFFFF - OnesSum(data)
  }

  function StoreBigEndian(data: seq<byte>, field: nat, value: nat): seq<byte>
    requires field + 1 < |data| && value < 0x1_0000
  {
    data[..field] + ([value / 0x100, value % 0x100] + data[field + 2..])
  }

  lemma PrependWord(front: seq<byte>, high: byte, low: byte, back: seq<byte>)
    requires |front| % 2 == 0
    ensures WordSum(front + ([high, low] + back)) == WordSum(front) + (high as int * 0x100 + low as int) + WordSum(back)
  {
    WordSumSplit(front, [high, low] + back);
    assert AfterFirstWord([high, low] + back) == back;
  }

  /** Storing a word in a zero field at an even offset adds exactly that word to the sum. */
  lemma StoreAddsWord(data: seq<byte>, field: nat, value: nat)
    requires field + 1 < |data| && field % 2 == 0 && value < 0x1_0000
    requires data[field] == 0 && data[field + 1] == 0
    ensures WordSum(StoreBigEndian(data, field, value)) == WordSum(data) + value
  {
    var front, back := data[..field], data[field + 2..];
    hide WordSum;
    assert data == front + ([0, 0] + back);
    PrependWord(front, 0, 0, back);
    PrependWord(front, value / 0x100, value % 0x100, back);
  }

  /** The receiver's test: with the checksum in place, summing the same bytes again yields zero. */
  lemma StoredChecksumVerifies(data: seq<byte>, field: nat)
    requires field + 1 < |data| && field % 2 == 0
    requires data[field] == 0 && data[field + 1] == 0
    ensures Checksum(StoreBigEndian(data, field, Checksum(data))) == 0
  {
    StoredChecksum(data, field, Checksum(data));
  }

  /**
   The test rejects every change of one aligned word, except that 0x0000 and 0xFFFF, the two
   representations of zero, are interchangeable when the rest of the data is not all zero.
   */
  lemma SingleWordErrorDetected(data: seq<byte>, field: nat, good: nat, bad: nat)
    requires field + 1 < |data| && field % 2 == 0 && good < 0x1_0000 && bad < 0x1_0000
    requires data[field] == 0 && data[field + 1] == 0
    requires Checksum(StoreBigEndian(data, field, good)) == 0
    ensures Checksum(StoreBigEndian(data, field, bad)) == 0
      <==> bad == good || (OnesSum(data) != 0 && good + bad == 0xFFFF && (good == 0 || bad == 0))
  {
    StoredChecksum(data, field, good);
    StoredChecksum(data, field, bad);
  }

  lemma StoredChecksum(data: seq<byte>, field: nat, value: nat)
    requires field + 1 < |data| && field % 2 == 0 && value < 0x1_0000
    requires data[field] == 0 && data[field + 1] == 0
    ensures Checksum(StoreBigEndian(data, field, value)) == 0xFFFF - OnesAdd(value, OnesSum(data))
  {
    StoreAddsWord(data, field, value);
    FoldedSumIsOnesSum(data);
    FoldedSumIsOnesSum(StoreBigEndian(data, field, value));
    FoldAdd(value, WordSum(data));
  }
}
