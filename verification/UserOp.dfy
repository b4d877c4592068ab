/** ERC-4337 user operations of version 0.7 and their packed form. */
module UserOp {
  import opened Common
  import opened BitStrings

  type Address = a: seq<byte> | |a| == 20 witness seq(20, _ => 0)

  type U128 = n: nat | n < Pow2(128)

  datatype UserOperation = UserOperation(
    sender: Address,
    nonce: nat,
    callData: seq<byte>,
    callGasLimit: U128,
    verificationGasLimit: U128,
    preVerificationGas: nat,
    maxPriorityFeePerGas: U128,
    maxFeePerGas: U128,
    signature: seq<byte>,
    factory: Option<Address>,
    factoryData: Option<seq<byte>>,
    paymaster: Option<Address>,
    paymasterVerificationGasLimit: Option<U128>,
    paymasterPostOpGasLimit: Option<U128>,
    paymasterData: Option<seq<byte>>)

  datatype PackedUserOperation = PackedUserOperation(
    sender: Address,
    nonce: nat,
    initCode: seq<byte>,
    callData: seq<byte>,
    accountGasLimits: seq<byte>,
    preVerificationGas: nat,
    gasFees: seq<byte>,
    paymasterAndData: seq<byte>,
    signature: seq<byte>)

  /** `to_be_bytes` of a 128-bit number. */
  function BigEndian(n: U128): (bytes: seq<byte>)
    ensures |bytes| == 16
  {
    ToBytes(ToBits(n, 128))
  }

  function FromBigEndian(bytes: seq<byte>): U128
    requires |bytes| == 16
  {
    FromBits(MessageBits(bytes))
  }

  lemma BigEndianRoundTrip(n: U128)
    ensures FromBigEndian(BigEndian(n)) == n
  {
    MessageOfToBytes(ToBits(n, 128));
    NumberRoundTrip(n, 128);
  }

  function Concat128(a: seq<byte>, b: seq<byte>): (c: seq<byte>)
    requires |a| == |b| == 16
    ensures c == a + b
  {
    seq(32, i requires 0 <= i < 32 => if i >= 16 then b[i - 16] else a[i])
  }

  predicate HasFactory(op: UserOperation) {
    op.factory.Some? && op.factoryData.Some?
  }

  predicate HasPaymaster(op: UserOperation) {
    && op.paymaster.Some? && op.paymasterVerificationGasLimit.Some?
    && op.paymasterPostOpGasLimit.Some? && op.paymasterData.Some?
  }

  function InitCode(op: UserOperation): seq<byte> {
    if HasFactory(op) then op.factory.value + op.factoryData.value else []
  }

  function PaymasterAndData(op: UserOperation): seq<byte> {
    if HasPaymaster(op) then
      op.paymaster.value + BigEndian(op.paymasterVerificationGasLimit.value)
      + BigEndian(op.paymasterPostOpGasLimit.value) + op.paymasterData.value
    else []
  }

  function Packed(op: UserOperation): PackedUserOperation {
    PackedUserOperation(
      op.sender, op.nonce, InitCode(op), op.callData,
      Concat128(BigEndian(op.verificationGasLimit), BigEndian(op.callGasLimit)),
      op.preVerificationGas,
      Concat128(BigEndian(op.maxPriorityFeePerGas), BigEndian(op.maxFeePerGas)),
      PaymasterAndData(op), op.signature)
  }

  method GetPacked(op: UserOperation) returns (packed: PackedUserOperation)
    ensures packed == Packed(op)
  {
    var initCode: seq<byte> := [];
    if op.factory.Some? && op.factoryData.Some? {
      initCode := op.factory.value;
      initCode := initCode + op.factoryData.value;
    }
    var accountGasLimits := Concat128(BigEndian(op.verificationGasLimit), BigEndian(op.callGasLimit));
    var gasFees := Concat128(BigEndian(op.maxPriorityFeePerGas), BigEndian(op.maxFeePerGas));
    var paymasterAndData: seq<byte> := [];
    if op.paymaster.Some? && op.paymasterVerificationGasLimit.Some? && op.paymasterPostOpGasLimit.Some? && op.paymasterData.Some? {
      paymasterAndData := op.paymaster.value;
      paymasterAndData := paymasterAndData + BigEndian(op.paymasterVerificationGasLimit.value);
      paymasterAndData := paymasterAndData + BigEndian(op.paymasterPostOpGasLimit.value);
      paymasterAndData := paymasterAndData + op.paymasterData.value;
    }
    packed := PackedUserOperation(op.sender, op.nonce, initCode, op.callData, accountGasLimits,
                                  op.preVerificationGas, gasFees, paymasterAndData, op.signature);
  }

  /** Reads a packed operation as the standard lays it out; too short fields count as absent. */
  function Unpacked(p: PackedUserOperation): UserOperation
    requires |p.accountGasLimits| == |p.gasFees| == 32
  {
    var hasFactory := |p.initCode| >= 20;
    var hasPaymaster := |p.paymasterAndData| >= 52;
    UserOperation(
      p.sender, p.nonce, p.callData,
      FromBigEndian(p.accountGasLimits[16..]), FromBigEndian(p.accountGasLimits[..16]),
      p.preVerificationGas,
      FromBigEndian(p.gasFees[..16]), FromBigEndian(p.gasFees[16..]),
      p.signature,
      if hasFactory then Some(p.initCode[..20]) else None,
      if hasFactory then Some(p.initCode[20..]) else None,
      if hasPaymaster then Some(p.paymasterAndData[..20]) else None,
      if hasPaymaster then Some(FromBigEndian(p.paymasterAndData[20..36])) else None,
      if hasPaymaster then Some(FromBigEndian(p.paymasterAndData[36..52])) else None,
      if hasPaymaster then Some(p.paymasterAndData[52..]) else None)
  }

  /** The factory fields come in a pair and the paymaster fields in a group of four. */
  predicate OptionalsComplete(op: UserOperation) {
    && (op.factory.Some? <==> op.factoryData.Some?)
    && (op.paymaster.Some? <==> op.paymasterVerificationGasLimit.Some?)
    && (op.paymaster.Some? <==> op.paymasterPostOpGasLimit.Some?)
    && (op.paymaster.Some? <==> op.paymasterData.Some?)
  }

  lemma FourParts(a: seq<byte>, b: seq<byte>, c: seq<byte>, d: seq<byte>)
    requires |a| == 20 && |b| == |c| == 16
    ensures var s := a + b + c + d;
            s[..20] == a && s[20..36] == b && s[36..52] == c && s[52..] == d
  {
  }

  lemma PaymasterFields(op: UserOperation)
    requires HasPaymaster(op)
    ensures var d := PaymasterAndData(op);
            && |d| >= 52 && d[..20] == op.paymaster.value && d[52..] == op.paymasterData.value
            && FromBigEndian(d[20..36]) == op.paymasterVerificationGasLimit.value
            && FromBigEndian(d[36..52]) == op.paymasterPostOpGasLimit.value
  {
    var d := PaymasterAndData(op);
    var v, p := op.paymasterVerificationGasLimit.value, op.paymasterPostOpGasLimit.value;
    FourParts(op.paymaster.value, BigEndian(v), BigEndian(p), op.paymasterData.value);
    BigEndianRoundTrip(v);
    BigEndianRoundTrip(p);
  }

  /** Packing loses nothing exactly if no optional field stands without its companions. */
  lemma PackedIsLossless(op: UserOperation)
    ensures Unpacked(Packed(op)) == op <==> OptionalsComplete(op)
  {
    var p := Packed(op);
    assert p.accountGasLimits[..16] == BigEndian(op.verificationGasLimit);
    assert p.accountGasLimits[16..] == BigEndian(op.callGasLimit);
    assert p.gasFees[..16] == BigEndian(op.maxPriorityFeePerGas);
    assert p.gasFees[16..] == BigEndian(op.maxFeePerGas);
    BigEndianRoundTrip(op.verificationGasLimit);
    BigEndianRoundTrip(op.callGasLimit);
    BigEndianRoundTrip(op.maxPriorityFeePerGas);
    BigEndianRoundTrip(op.maxFeePerGas);
    if HasPaymaster(op) {
      PaymasterFields(op);
    }
    if HasFactory(op) {
      assert p.initCode[..20] == op.factory.value && p.initCode[20..] == op.factoryData.value;
    }
  }
}
