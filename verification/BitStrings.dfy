/** Bytes and machine words as the sequences of their bits, highest first. */
module BitStrings {

  type Bits = seq<bool>

  type byte = b: int | 0 <= b < 256

  function Zeros(n: nat): (z: Bits)
    ensures |z| == n && forall i :: 0 <= i < n ==> !z[i]
  {
    seq(n, _ => false)
  }

  function Xor(a: Bits, b: Bits): (x: Bits)
    requires |a| == |b|
    ensures |x| == |a| && forall i :: 0 <= i < |a| ==> x[i] == (a[i] != b[i])
  {
    seq(|a|, i requires 0 <= i < |a| => a[i] != b[i])
  }

  function Pow2(w: nat): (p: nat)
    ensures p > 0
  {
    if w == 0 then 1 else 2 * Pow2(w - 1)
  }

  /** The lowest `w` bits of `n`. */
  function ToBits(n: nat, w: nat): (bits: Bits)
    ensures |bits| == w
    decreases w
  {
    if w == 0 then [] else ToBits(n / 2, w - 1) + [n % 2 == 1]
  }

  function FromBits(bits: Bits): (n: nat)
    ensures n < Pow2(|bits|)
  {
    if bits == [] then 0
    else 2 * FromBits(bits[..|bits| - 1]) + if bits[|bits| - 1] then 1 else 0
  }

  lemma {:induction false} NumberRoundTrip(n: nat, w: nat)
    requires n < Pow2(w)
    ensures FromBits(ToBits(n, w)) == n
    decreases w
  {
    if w > 0 {
      NumberRoundTrip(n / 2, w - 1);
      assert ToBits(n, w)[..w - 1] == ToBits(n / 2, w - 1);
    }
  }

  lemma {:induction false} BitsRoundTrip(bits: Bits)
    ensures ToBits(FromBits(bits), |bits|) == bits
  {
    if bits != [] {
      BitsRoundTrip(bits[..|bits| - 1]);
    }
  }

  lemma ByteWidth()
    ensures Pow2(8) == 256 && Pow2(6) == 64
  {
    assert Pow2(4) == 16;
    assert Pow2(6) == 64;
    assert Pow2(8) == 256;
  }

  function ByteBits(b: byte): (bits: Bits)
    ensures |bits| == 8
  {
    ToBits(b, 8)
  }

  function ToByte(bits: Bits): byte
    requires |bits| == 8
  {
    ByteWidth();
    FromBits(bits)
  }

  /** The bits of a byte string, in the order in which they are sent. */
  function MessageBits(data: seq<byte>): (bits: Bits)
    ensures |bits| == 8 * |data|
  {
    if data == [] then [] else ByteBits(data[0]) + MessageBits(data[1..])
  }

  /** Cuts a bit string into bytes; bits that do not fill a byte are dropped. */
  function ToBytes(bits: Bits): (data: seq<byte>)
    ensures |data| == |bits| / 8
    decreases |bits|
  {
    if |bits| < 8 then [] else [ToByte(bits[..8])] + ToBytes(bits[8..])
  }

  lemma {:induction false} MessageBitsConcat(a: seq<byte>, b: seq<byte>)
    ensures MessageBits(a + b) == MessageBits(a) + MessageBits(b)
  {
    if a == [] {
      assert a + b == b;
    } else {
      assert (a + b)[1..] == a[1..] + b;
      MessageBitsConcat(a[1..], b);
    }
  }

  /** Less than a byte of trailing bits does not disturb the bytes before it. */
  lemma {:induction false} ToBytesOfMessage(data: seq<byte>, rest: Bits)
    requires |rest| < 8
    ensures ToBytes(MessageBits(data) + rest) == data
  {
    if data == [] {
      assert MessageBits(data) + rest == rest;
    } else {
      var head, tail := ByteBits(data[0]), MessageBits(data[1..]);
      ToBytesOfMessage(data[1..], rest);
      ToBytesOneMore(data[0], tail + rest);
      ConcatAssociates(head, tail, rest);
      assert data == [data[0]] + data[1..];
    }
  }

  lemma ConcatAssociates(a: Bits, b: Bits, c: Bits)
    ensures (a + b) + c == a + (b + c)
  {
  }

  lemma ToBytesOneMore(b: byte, rest: Bits)
    ensures ToBytes(ByteBits(b) + rest) == [b] + ToBytes(rest)
  {
    var bits := ByteBits(b) + rest;
    assert bits[..8] == ByteBits(b) && bits[8..] == rest;
    ByteWidth();
    NumberRoundTrip(b, 8);
  }

  lemma MessageBitsInjective(a: seq<byte>, b: seq<byte>)
    requires MessageBits(a) == MessageBits(b)
    ensures a == b
  {
    ToBytesOfMessage(a, []);
    ToBytesOfMessage(b, []);
    assert MessageBits(a) + [] == MessageBits(a) && MessageBits(b) + [] == MessageBits(b);
  }

  lemma {:induction false} MessageOfToBytes(bits: Bits)
    requires |bits| % 8 == 0
    ensures MessageBits(ToBytes(bits)) == bits
    decreases |bits|
  {
    if |bits| >= 8 {
      var head, tail := bits[..8], bits[8..];
      MessageOfToBytes(tail);
      MessageOneMore(ToByte(head), ToBytes(tail));
      assert ByteBits(ToByte(head)) == head by {
        BitsRoundTrip(head);
      }
      assert bits == head + tail;
    }
  }

  lemma MessageOneMore(b: byte, data: seq<byte>)
    ensures MessageBits([b] + data) == ByteBits(b) + MessageBits(data)
  {
    assert ([b] + data)[1..] == data;
  }

  // ---------------------------------------------------------------- bit strings as numbers

  lemma FromBitsSnoc(a: Bits, bit: bool)
    ensures FromBits(a + [bit]) == 2 * FromBits(a) + if bit then 1 else 0
  {
    assert (a + [bit])[..|a|] == a;
  }

  lemma {:induction false} FromBitsConcat(a: Bits, b: Bits)
    ensures FromBits(a + b) == FromBits(a) * Pow2(|b|) + FromBits(b)
  {
    if b == [] {
      assert a + b == a;
    } else {
      var n := |b| - 1;
      var front, last := b[..n], b[n];
      assert b == front + [last] && a + b == (a + front) + [last];
      FromBitsConcat(a, front);
      FromBitsSnoc(a + front, last);
      FromBitsSnoc(front, last);
      DoubleShift(FromBits(a), Pow2(n));
    }
  }

  lemma DoubleShift(x: nat, p: nat)
    ensures 2 * (x * p) == x * (2 * p)
  {
  }

  lemma {:induction false} ZerosAreNothing(n: nat)
    ensures FromBits(Zeros(n)) == 0
  {
    if n > 0 {
      assert Zeros(n)[..n - 1] == Zeros(n - 1);
      ZerosAreNothing(n - 1);
    }
  }

  /** The bytes as digits to the base 256, first one highest. */
  function BytesValue(data: seq<byte>): nat {
    if data == [] then 0 else data[0] * Pow2(8 * (|data| - 1)) + BytesValue(data[1..])
  }

  lemma {:induction false} MessageValue(data: seq<byte>)
    ensures FromBits(MessageBits(data)) == BytesValue(data)
  {
    if data != [] {
      MessageValue(data[1..]);
      FromBitsConcat(ByteBits(data[0]), MessageBits(data[1..]));
      ByteWidth();
      NumberRoundTrip(data[0], 8);
    }
  }
}
