/**
 * CRC-16/XMODEM: the loop over 16-bit words, and what it computes, a remainder of polynomials over GF(2).
 * A polynomial is the sequence of its coefficients, highest power first.
 */
module Crc16 {
  import Common
  import opened BitStrings

  /** A `u16` as its 16 bits. */
  type u16 = w: Bits | |w| == 16 witness Zeros(16)

  /** 0x1021 */
  const POLY: u16 := [false, false, false, true, false, false, false, false,
                      false, false, true, false, false, false, false, true]

  // ---------------------------------------------------------------- the program

  /** `w << 1` */
  function Shl1(w: u16): u16 {
    w[1..] + [false]
  }

  /** `(b as u16) << 8` */
  function High(b: byte): u16 {
    ByteBits(b) + Zeros(8)
  }

  function Shift(crc: u16): u16 {
    if crc[0] then Xor(Shl1(crc), POLY) else Shl1(crc)
  }

  function ShiftTimes(crc: u16, n: nat): u16 {
    if n == 0 then crc else Shift(ShiftTimes(crc, n - 1))
  }

  function Crc(data: seq<byte>): u16 {
    if data == [] then Zeros(16)
    else
      var n := |data| - 1;
      ShiftTimes(Xor(Crc(data[..n]), High(data[n])), 8)
  }

  method Crc16Xmodem(data: seq<byte>) returns (crc: u16)
    ensures crc == Crc(data)
  {
    crc := Zeros(16);
    for k := 0 to |data|
      invariant crc == Crc(data[..k])
    {
      crc := Xor(crc, High(data[k]));
      ghost var start := crc;
      for n := 0 to 8
        invariant crc == ShiftTimes(start, n)
      {
        crc := if crc[0] then Xor(Shl1(crc), POLY) else Shl1(crc);
      }
      assert data[..k + 1][..k] == data[..k];
    }
    assert data[..|data|] == data;
  }

  // ---------------------------------------------------------------- one bit at a time

  /** A message bit meets the top bit of the register; when they differ the generator is subtracted. */
  function FeedBit(crc: u16, bit: bool): u16 {
    if crc[0] != bit then Xor(Shl1(crc), POLY) else Shl1(crc)
  }

  function Feed(crc: u16, bits: Bits): u16
    decreases |bits|
  {
    if bits == [] then crc else Feed(FeedBit(crc, bits[0]), bits[1..])
  }

  lemma {:induction false} FeedConcat(crc: u16, a: Bits, b: Bits)
    ensures Feed(crc, a + b) == Feed(Feed(crc, a), b)
    decreases |a|
  {
    if a == [] {
      assert a + b == b;
    } else {
      assert (a + b)[1..] == a[1..] + b;
      FeedConcat(FeedBit(crc, a[0]), a[1..], b);
    }
  }

  lemma FeedSnoc(crc: u16, bits: Bits, bit: bool)
    ensures Feed(crc, bits + [bit]) == FeedBit(Feed(crc, bits), bit)
  {
    FeedConcat(crc, bits, [bit]);
  }

  /** A word in the register is taken in from its top bit. */
  lemma ShiftTakesWord(r: u16, v: u16)
    ensures Shift(Xor(r, v)) == Xor(FeedBit(r, v[0]), Shl1(v))
  {
  }

  /** Loading a word and shifting `k` times feeds its first `k` bits and leaves the others at the top. */
  lemma {:induction false} LoadedWord(crc: u16, v: u16, k: nat)
    requires k <= 16
    ensures ShiftTimes(Xor(crc, v), k) == Xor(Feed(crc, v[..k]), v[k..] + Zeros(k))
  {
    if k == 0 {
      assert v[0..] + Zeros(0) == v;
    } else {
      var i := k - 1;
      LoadedWord(crc, v, i);
      FeedSnoc(crc, v[..i], v[i]);
      assert v[..k] == v[..i] + [v[i]];
      ShiftTakesWord(Feed(crc, v[..i]), v[i..] + Zeros(i));
      RestShifted(v, i);
    }
  }

  lemma RestShifted(v: u16, i: nat)
    requires i < 16
    ensures Shl1(v[i..] + Zeros(i)) == v[i + 1..] + Zeros(i + 1)
  {
  }

  lemma LoadedByte(crc: u16, b: byte)
    ensures ShiftTimes(Xor(crc, High(b)), 8) == Feed(crc, ByteBits(b))
  {
    var v := High(b);
    LoadedWord(crc, v, 8);
    assert v[..8] == ByteBits(b);
    assert v[8..] + Zeros(8) == Zeros(16);
    var r := Feed(crc, ByteBits(b));
    assert Xor(r, Zeros(16)) == r;
  }

  /** The program feeds the bits of its message, one after the other. */
  lemma {:induction false} CrcFeedsBits(data: seq<byte>)
    ensures Crc(data) == Feed(Zeros(16), MessageBits(data))
  {
    if data != [] {
      var n := |data| - 1;
      CrcFeedsBits(data[..n]);
      assert data == data[..n] + [data[n]];
      MessageBitsConcat(data[..n], [data[n]]);
      var bits := ByteBits(data[n]);
      assert MessageBits([data[n]]) == bits + MessageBits([]) == bits;
      LoadedByte(Crc(data[..n]), data[n]);
      FeedConcat(Zeros(16), MessageBits(data[..n]), bits);
    }
  }

  // ---------------------------------------------------------------- remainders over GF(2)

  /** `q(x)` times the generator `x^16 + x^12 + x^5 + 1`. */
  function TimesGenerator(q: Bits): (p: Bits)
    ensures |p| == |q| + 16
  {
    Xor(Xor(q + Zeros(16), Zeros(4) + q + Zeros(12)), Xor(Zeros(11) + q + Zeros(5), Zeros(16) + q))
  }

  /** `m(x) * x^16 == q(x) * generator + r(x)` with `r` of degree below 16. */
  ghost predicate IsDivision(m: Bits, q: Bits, r: Bits) {
    && |q| == |m|
    && |r| == 16
    && m + Zeros(16) == Xor(TimesGenerator(q), Zeros(|m|) + r)
  }

  ghost predicate IsRemainder(m: Bits, r: Bits) {
    exists q :: IsDivision(m, q, r)
  }

  lemma DivideOneMore(m: Bits, q: Bits, r: u16, bit: bool)
    requires IsDivision(m, q, r)
    ensures IsDivision(m + [bit], q + [r[0] != bit], FeedBit(r, bit))
  {
    var t, n := r[0] != bit, |m|;
    forall i | 0 <= i < n + 17
      ensures (m + [bit] + Zeros(16))[i] == Xor(TimesGenerator(q + [t]), Zeros(n + 1) + FeedBit(r, bit))[i]
    {
      DivideOneMoreAt(m, q, r, bit, i);
    }
    assert m + [bit] + Zeros(16) == Xor(TimesGenerator(q + [t]), Zeros(n + 1) + FeedBit(r, bit));
  }

  lemma DivideOneMoreAt(m: Bits, q: Bits, r: u16, bit: bool, i: nat)
    requires IsDivision(m, q, r) && i < |m| + 17
    ensures (m + [bit] + Zeros(16))[i]
         == Xor(TimesGenerator(q + [r[0] != bit]), Zeros(|m| + 1) + FeedBit(r, bit))[i]
  {
    var n := |m|;
    ProductOneMore(q, r[0] != bit, i);
    if i < n + 16 {
      assert (m + Zeros(16))[i] == Xor(TimesGenerator(q), Zeros(n) + r)[i];
    }
    if i > n {
      FeedBitAt(r, bit, i - n - 1);
    }
  }

  lemma FeedBitAt(r: u16, bit: bool, j: nat)
    requires j < 16
    ensures FeedBit(r, bit)[j] == ((j < 15 && r[j + 1]) != (r[0] != bit && j in {3, 10, 15}))
  {
  }

  /** One more quotient bit moves the product up and adds the generator at its end. */
  lemma ProductOneMore(q: Bits, t: bool, i: nat)
    requires i < |q| + 17
    ensures TimesGenerator(q + [t])[i]
         == ((i < |q| + 16 && TimesGenerator(q)[i]) != (t && i - |q| in {0, 4, 11, 16}))
  {
  }

  lemma DivideNothing()
    ensures IsDivision([], [], Zeros(16))
  {
  }

  lemma RemainderOneMore(m: Bits, r: u16, bit: bool)
    requires IsRemainder(m, r)
    ensures IsRemainder(m + [bit], FeedBit(r, bit))
  {
    var q :| IsDivision(m, q, r);
    DivideOneMore(m, q, r, bit);
  }

  lemma {:induction false} RemainderExists(m: Bits)
    ensures IsRemainder(m, Feed(Zeros(16), m))
  {
    if m == [] {
      DivideNothing();
    } else {
      var n := |m| - 1;
      RemainderExists(m[..n]);
      RemainderOneMore(m[..n], Feed(Zeros(16), m[..n]), m[n]);
      FeedSnoc(Zeros(16), m[..n], m[n]);
      assert m == m[..n] + [m[n]];
    }
  }

  lemma {:induction false} QuotientUnique(m: Bits, q1: Bits, r1: Bits, q2: Bits, r2: Bits, i: nat)
    requires IsDivision(m, q1, r1) && IsDivision(m, q2, r2) && i <= |m|
    ensures q1[..i] == q2[..i]
  {
    if i > 0 {
      var k := i - 1;
      QuotientUnique(m, q1, r1, q2, r2, k);
      var p1, p2 := TimesGenerator(q1), TimesGenerator(q2);
      assert (m + Zeros(16))[k] == Xor(p1, Zeros(|m|) + r1)[k] == p1[k];
      assert (m + Zeros(16))[k] == Xor(p2, Zeros(|m|) + r2)[k] == p2[k];
      assert forall j :: 0 <= j < k ==> q1[j] == q1[..k][j] && q2[j] == q2[..k][j];
      assert q1[k] == q2[k];
    }
  }

  lemma RemainderUnique(m: Bits, q: Bits, r: Bits, r': Bits)
    requires IsDivision(m, q, r) && IsDivision(m, q, r')
    ensures r == r'
  {
    var p, n := TimesGenerator(q), |m|;
    forall i | 0 <= i < 16 ensures r[i] == r'[i] {
      assert Xor(p, Zeros(n) + r)[n + i] == Xor(p, Zeros(n) + r')[n + i];
    }
  }

  lemma DivisionUnique(m: Bits, q: Bits, r: Bits, q': Bits, r': Bits)
    requires IsDivision(m, q, r) && IsDivision(m, q', r')
    ensures r == r'
  {
    QuotientUnique(m, q, r, q', r', |m|);
    assert q[..|m|] == q && q'[..|m|] == q';
    RemainderUnique(m, q, r, r');
  }

  /** Main meaning: the program computes the remainder of `data(x) * x^16`, and nothing else is one. */
  lemma CrcIsTheRemainder(data: seq<byte>, r: Bits)
    ensures IsRemainder(MessageBits(data), r) <==> r == Crc(data)
  {
    var m := MessageBits(data);
    CrcFeedsBits(data);
    RemainderExists(m);
    if IsRemainder(m, r) {
      var q :| IsDivision(m, q, Crc(data));
      var q' :| IsDivision(m, q', r);
      DivisionUnique(m, q, Crc(data), q', r);
    }
  }

  // ---------------------------------------------------------------- linearity, residue, error bursts

  lemma {:induction false} FeedLinear(r: u16, s: u16, a: Bits, b: Bits)
    requires |a| == |b|
    ensures Feed(Xor(r, s), Xor(a, b)) == Xor(Feed(r, a), Feed(s, b))
    decreases |a|
  {
    if a != [] {
      assert Xor(a, b)[1..] == Xor(a[1..], b[1..]);
      assert FeedBit(Xor(r, s), a[0] != b[0]) == Xor(FeedBit(r, a[0]), FeedBit(s, b[0]));
      FeedLinear(FeedBit(r, a[0]), FeedBit(s, b[0]), a[1..], b[1..]);
    }
  }

  /** The CRC of the bitwise difference of two messages of one length is the difference of their CRCs. */
  lemma CrcLinear(a: seq<byte>, b: seq<byte>, d: seq<byte>)
    requires |a| == |b| == |d| && MessageBits(d) == Xor(MessageBits(a), MessageBits(b))
    ensures Crc(d) == Xor(Crc(a), Crc(b))
  {
    CrcFeedsBits(a);
    CrcFeedsBits(b);
    CrcFeedsBits(d);
    FeedLinear(Zeros(16), Zeros(16), MessageBits(a), MessageBits(b));
    assert Xor(Zeros(16), Zeros(16)) == Zeros(16);
  }

  /** `crc.to_be_bytes()` */
  function BigEndian(crc: u16): (bytes: seq<byte>)
    ensures |bytes| == 2
  {
    [ToByte(crc[..8]), ToByte(crc[8..])]
  }

  lemma BigEndianBits(crc: u16)
    ensures MessageBits(BigEndian(crc)) == crc
  {
    BitsRoundTrip(crc[..8]);
    BitsRoundTrip(crc[8..]);
    var bytes := BigEndian(crc);
    assert bytes[1..] == [bytes[1]] && bytes[1..][1..] == [];
    assert crc == crc[..8] + crc[8..];
  }

  lemma {:induction false} FeedOwnBits(crc: u16, bits: Bits, n: nat)
    requires n == |bits| <= 16 && crc == bits + Zeros(16 - n)
    ensures Feed(crc, bits) == Zeros(16)
    decreases n
  {
    if n > 0 {
      assert FeedBit(crc, bits[0]) == bits[1..] + Zeros(16 - (n - 1));
      FeedOwnBits(FeedBit(crc, bits[0]), bits[1..], n - 1);
    }
  }

  /** A message followed by its big-endian CRC has residue 0. */
  lemma CrcResidue(data: seq<byte>)
    ensures Crc(data + BigEndian(Crc(data))) == Zeros(16)
  {
    var crc := Crc(data);
    CrcFeedsBits(data);
    CrcFeedsBits(data + BigEndian(crc));
    MessageBitsConcat(data, BigEndian(crc));
    BigEndianBits(crc);
    FeedConcat(Zeros(16), MessageBits(data), crc);
    assert crc == crc + Zeros(0);
    FeedOwnBits(crc, crc, 16);
  }

  /** A register is driven to zero by at most 16 bits only if it holds exactly those bits. */
  lemma {:induction false} OnlyOwnBitsGiveZero(crc: u16, bits: Bits)
    requires |bits| <= 16 && Feed(crc, bits) == Zeros(16)
    ensures crc == bits + Zeros(16 - |bits|)
    decreases |bits|
  {
    if bits == [] {
      assert crc == [] + Zeros(16);
    } else {
      var next := FeedBit(crc, bits[0]);
      OnlyOwnBitsGiveZero(next, bits[1..]);
      assert !next[15];
      assert crc[0] == bits[0];
      forall i | 0 <= i < 16 ensures crc[i] == (bits + Zeros(16 - |bits|))[i] {
        if i > 0 {
          assert crc[i] == next[i - 1];
        }
      }
    }
  }

  lemma {:induction false} ZerosKeepZero(n: nat)
    ensures Feed(Zeros(16), Zeros(n)) == Zeros(16)
  {
    if n > 0 {
      assert Zeros(n)[1..] == Zeros(n - 1);
      assert FeedBit(Zeros(16), false) == Zeros(16);
      ZerosKeepZero(n - 1);
    }
  }

  lemma {:induction false} OnlyZeroDecaysToZero(crc: u16, n: nat)
    requires Feed(crc, Zeros(n)) == Zeros(16)
    ensures crc == Zeros(16)
    decreases n
  {
    if n > 0 {
      assert Zeros(n)[1..] == Zeros(n - 1);
      var next := FeedBit(crc, false);
      OnlyZeroDecaysToZero(next, n - 1);
      assert Feed(next, []) == next;
      assert Feed(crc, [false]) == next;
      OnlyOwnBitsGiveZero(crc, [false]);
      assert crc == Zeros(16);
    }
  }

  lemma ShortBurstFound(burst: Bits, before: nat, after: nat)
    requires |burst| <= 16 && Feed(Zeros(16), Zeros(before) + (burst + Zeros(after))) == Zeros(16)
    ensures burst == Zeros(|burst|)
  {
    FeedConcat(Zeros(16), Zeros(before), burst + Zeros(after));
    ZerosKeepZero(before);
    FeedConcat(Zeros(16), burst, Zeros(after));
    OnlyZeroDecaysToZero(Feed(Zeros(16), burst), after);
    OnlyOwnBitsGiveZero(Zeros(16), burst);
    forall i | 0 <= i < |burst| ensures !burst[i] {
      assert burst[i] == (burst + Zeros(16 - |burst|))[i];
    }
  }

  lemma BurstShape(e: Bits, start: nat, end: nat)
    requires start <= end <= |e|
    requires forall i :: 0 <= i < |e| && !(start <= i < end) ==> !e[i]
    ensures e == Zeros(start) + (e[start..end] + Zeros(|e| - end))
  {
    var f := Zeros(start) + (e[start..end] + Zeros(|e| - end));
    forall i | 0 <= i < |e| ensures e[i] == f[i] {
      if i < start {
        assert f[i] == Zeros(start)[i];
      } else if i >= end {
        assert f[i] == Zeros(|e| - end)[i - end];
      }
    }
  }

  lemma DifferenceFeedsToZero(x: Bits, y: Bits)
    requires |x| == |y| && Feed(Zeros(16), x) == Feed(Zeros(16), y)
    ensures Feed(Zeros(16), Xor(x, y)) == Zeros(16)
  {
    FeedLinear(Zeros(16), Zeros(16), x, y);
    assert Xor(Zeros(16), Zeros(16)) == Zeros(16);
    var r := Feed(Zeros(16), x);
    assert Xor(r, r) == Zeros(16);
  }

  lemma EqualIfNoDifference(x: Bits, y: Bits, start: nat, end: nat)
    requires |x| == |y| && start <= end <= |x|
    requires Xor(x, y) == Zeros(start) + (Zeros(end - start) + Zeros(|x| - end))
    ensures x == y
  {
    forall i | 0 <= i < |x| ensures x[i] == y[i] {
      assert !Xor(x, y)[i];
    }
  }

  lemma BurstFound(x: Bits, y: Bits, from: nat)
    requires |x| == |y| && Feed(Zeros(16), x) == Feed(Zeros(16), y)
    requires forall i :: 0 <= i < |x| && !(from <= i < from + 16) ==> x[i] == y[i]
    ensures x == y
  {
    DifferenceFeedsToZero(x, y);
    var start, end := Common.Min(from, |x|), Common.Min(from + 16, |x|);
    BurstShape(Xor(x, y), start, end);
    ShortBurstFound(Xor(x, y)[start..end], start, |x| - end);
    EqualIfNoDifference(x, y, start, end);
  }

  /** Any change of a message that stays within 16 consecutive bits changes its CRC. */
  lemma BurstDetected(a: seq<byte>, b: seq<byte>, from: nat)
    requires |a| == |b| && a != b
    requires forall i :: 0 <= i < 8 * |a| && !(from <= i < from + 16) ==> MessageBits(a)[i] == MessageBits(b)[i]
    ensures Crc(a) != Crc(b)
  {
    CrcFeedsBits(a);
    CrcFeedsBits(b);
    if Crc(a) == Crc(b) {
      BurstFound(MessageBits(a), MessageBits(b), from);
      MessageBitsInjective(a, b);
    }
  }
}
