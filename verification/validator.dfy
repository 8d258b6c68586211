/**
 The validator of the TFTP assistant: it checks a received packet's opcode
 and block number against what the transfer expects next.

 The block number is combined from its two wire bytes as `b1 * 128 + b0` over
 Java's signed bytes, exactly as the code does; this is not the 16-bit
 big-endian block number of section 5 of RFC 1350 (`b1 * 256 + b0` over
 unsigned bytes), and it is not injective.
 */
module Validator {
  import opened JavaBytes
  import Codec

  /** `printBlock`: the block number the assistant reads from two bytes. */
  function PrintBlock(b1: SByte, b0: SByte): (r: int)
    ensures -16512 <= r <= 16383
    ensures 0 <= b0 ==> r / 128 == b1 && r % 128 == b0
    ensures b0 < 0 ==> r / 128 == b1 - 1 && r % 128 == b0 + 128
  {
    (b1 as int) * 128 + b0
  }

  /** Two byte pairs that name the same block: the combination loses the
      sign of the low byte. */
  lemma PrintBlockNotInjective()
    ensures PrintBlock(1, -1) == PrintBlock(0, 127) == 127
  {
  }

  /** Every pair with `0 <= b0` and `b1 < 127` collides with the pair
      `(b1 + 1, b0 - 128)`, whose low byte is negative; two pairs whose low
      bytes are both non-negative never collide. */
  lemma {:induction false} PrintBlockCollisions(b1: SByte, b0: SByte, c1: SByte, c0: SByte)
    ensures b1 < 127 && 0 <= b0 ==> PrintBlock(b1 + 1, b0 - 128) == PrintBlock(b1, b0)
    ensures 0 <= b0 && 0 <= c0 && PrintBlock(b1, b0) == PrintBlock(c1, c0) ==> b1 == c1 && b0 == c0
  {
  }

  /** The four outcomes of `asExpected`. */
  datatype Verdict = Matches | WrongOpcode | WrongBlock | WrongBoth {
    /** The `int` the Java method returns for this outcome. */
    function Code(): (c: int)
      ensures 0 <= c <= 3
    {
      match this
      case Matches => 0
      case WrongOpcode => 1
      case WrongBlock => 2
      case WrongBoth => 3
    }
  }

  /** The outcome for two independent mismatch signals. */
  function Classify(opcodeMismatch: bool, blockMismatch: bool): Verdict
  {
    if opcodeMismatch && blockMismatch then WrongBoth
    else if opcodeMismatch then WrongOpcode
    else if blockMismatch then WrongBlock
    else Matches
  }

  /** The packet's block `(hi, lo)` lies outside the inclusive tolerance
      window `[expected - 2, expected + 2]`. */
  predicate OutsideWindow(hi: SByte, lo: SByte, expected: int)
  {
    !(expected - 2 <= PrintBlock(hi, lo) <= expected + 2)
  }

  /** `asExpected`, following the Java statement by statement: `returnValue`
      is 0, set to 1 on an opcode mismatch, overwritten with 2 on a block
      mismatch of a non-error packet, and raised to 3 when both hold. Nothing
      is checked while the expected block is at most 2. Otherwise the block
      test reads `data[2]` and `data[3]` before it looks at the opcode, so a
      buffer shorter than 4 bytes throws. */
  function AsExpected(data: seq<SByte>, opCode: SByte, b1: SByte, b0: SByte): (r: Result<int>)
    ensures PrintBlock(b1, b0) <= 2 ==> r == Ok(0)
    ensures PrintBlock(b1, b0) > 2 && |data| < 4 ==> r == Thrown(ArrayIndexOutOfBounds)
    ensures PrintBlock(b1, b0) > 2 && |data| >= 4 ==>
      r == Ok(Classify(data[1] != opCode,
                       data[1] != Codec.ERROR_OPCODE && OutsideWindow(data[2], data[3], PrintBlock(b1, b0))).Code())
    ensures r.Ok? ==> 0 <= r.value <= 3
    ensures r.Ok? && 2 <= |data| && data[1] == Codec.ERROR_OPCODE ==> r.value <= 1
  {
    var block := PrintBlock(b1, b0);
    if !(block - 2 > 0) then Ok(0)
    else if |data| < 4 then Thrown(ArrayIndexOutOfBounds)
    else
      var afterOpcode := if data[1] != opCode then 1 else 0;
      var afterBlock :=
        if (PrintBlock(data[2], data[3]) > block + 2 || PrintBlock(data[2], data[3]) < block - 2) && data[1] != 5
        then 2 else afterOpcode;
      var afterBoth := if data[1] != opCode && afterBlock == 2 then 3 else afterBlock;
      Ok(afterBoth)
  }

  /** Outcome by outcome, with an expected block above 2 and a buffer long
      enough to hold the block field: a matching opcode and an in-window block
      pass, and each code names exactly which of the two tests failed. */
  lemma AsExpectedOutcomes(data: seq<SByte>, opCode: SByte, b1: SByte, b0: SByte)
    requires PrintBlock(b1, b0) > 2 && |data| >= 4
    ensures var blockOff := data[1] != 5 && OutsideWindow(data[2], data[3], PrintBlock(b1, b0));
      && (AsExpected(data, opCode, b1, b0) == Ok(0) <==> data[1] == opCode && !blockOff)
      && (AsExpected(data, opCode, b1, b0) == Ok(1) <==> data[1] != opCode && !blockOff)
      && (AsExpected(data, opCode, b1, b0) == Ok(2) <==> data[1] == opCode && blockOff)
      && (AsExpected(data, opCode, b1, b0) == Ok(3) <==> data[1] != opCode && blockOff)
  {
  }

  /** Cutting a buffer to `ACK_SIZE` keeps everything `asExpected` reads. */
  lemma AsExpectedOnAckPrefix(data: seq<SByte>, opCode: SByte, b1: SByte, b0: SByte)
    requires Codec.ACK_SIZE <= |data|
    ensures Codec.TrimArrayToAck(data).Ok?
    ensures AsExpected(Codec.TrimArrayToAck(data).value, opCode, b1, b0) == AsExpected(data, opCode, b1, b0)
  {
  }
}
