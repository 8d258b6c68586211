/**
 How the pieces of the TFTP assistant fit together: what the extractors
 recover from the packets the error responder builds and from request packets
 laid out as in section 5 of RFC 1350, `[0, op] ++ filename ++ [0] ++ mode ++ [0]`.
 */
module RoundTrips {
  import opened JavaBytes
  import opened Codec
  import opened ErrorResponder

  /** A read or write request as a peer lays it out. */
  function Request(op: SByte, fileName: seq<SByte>, mode: seq<SByte>): (p: seq<SByte>)
    ensures |p| == 4 + |fileName| + |mode|
  {
    [0, op] + fileName + [0] + mode + [0]
  }

  /** A field the extractors give back unchanged: it fits the scratch array,
      holds no terminator, and has nothing for `trim()` to remove. */
  predicate IsCleanField(s: seq<SByte>, capacity: nat)
  {
    |s| <= capacity && 0 !in s && IsTrimmed(s)
  }

  /** Any zero-free, trimmed message of at most 100 bytes framed as an error
      packet is read back unchanged. */
  lemma {:induction false} FramedMessageRoundTrip(code: SByte, m: seq<SByte>)
    requires IsCleanField(m, NAME_BUFFER_SIZE)
    ensures ExtractErrorMessage([0, ERROR_OPCODE, 0, code] + m + [0]) == Ok(m)
  {
    var p := [0, ERROR_OPCODE, 0, code] + m + [0];
    assert p[4..4 + |m|] == m;
    ExtractCleanField(p, 4, NAME_BUFFER_SIZE, m);
  }

  /** The extractor reads back the message the responder wrote, and the
      packet is recognised as an error packet. */
  lemma {:induction false} ErrorPacketRoundTrip(code: SByte)
    ensures ExtractErrorMessage(ErrorPacket(code)) == Ok(Message(code))
    ensures IsErrorPacket(ErrorPacket(code)) == Ok(true)
  {
    var p := ErrorPacket(code);
    var m := Message(code);
    assert p == [0, ERROR_OPCODE, 0, code] + m + [0];
    assert p[1] == ERROR_OPCODE;
    FramedMessageRoundTrip(code, m);
  }

  /** A receive buffer that starts with a framed clean message still yields
      the message once cut to `ERROR_SIZE`, provided the frame fits in it. */
  lemma {:induction false} FramedMessageInBuffer(code: SByte, m: seq<SByte>, rest: seq<SByte>)
    requires IsCleanField(m, NAME_BUFFER_SIZE) && 5 + |m| <= ERROR_SIZE
    requires ERROR_SIZE <= 5 + |m| + |rest|
    ensures TrimArrayToError([0, ERROR_OPCODE, 0, code] + m + [0] + rest).Ok?
    ensures ExtractErrorMessage(TrimArrayToError([0, ERROR_OPCODE, 0, code] + m + [0] + rest).value) == Ok(m)
  {
    var d := [0, ERROR_OPCODE, 0, code] + m + [0] + rest;
    var cut := TrimArrayToError(d).value;
    assert cut[4..4 + |m|] == m by {
      assert cut == d[..ERROR_SIZE];
      assert d[4..4 + |m|] == m;
    }
    ExtractCleanField(cut, 4, NAME_BUFFER_SIZE, m);
  }

  /** `lengthFilled` of a buffer that starts with a framed zero-free message
      is the position of the message terminator. */
  lemma {:induction false} FramedMessageLength(code: SByte, m: seq<SByte>, rest: seq<SByte>)
    requires 0 !in m
    ensures LengthFilled([0, ERROR_OPCODE, 0, code] + m + [0] + rest) == 4 + |m|
  {
    var d := [0, ERROR_OPCODE, 0, code] + m + [0] + rest;
    var r := LengthFilled(d);
    assert d[4 + |m|] == 0;
    assert forall k :: 4 <= k < 4 + |m| ==> d[k] == m[k - 4];
  }

  /** Every catalogue packet fits in `ERROR_SIZE` bytes, so a receive buffer
      that starts with one and is cut to that size still yields the message;
      `lengthFilled` of the buffer is the position of the message terminator. */
  lemma {:induction false} ReceivedErrorPacket(code: SByte, rest: seq<SByte>)
    requires ERROR_SIZE <= |ErrorPacket(code) + rest|
    ensures TrimArrayToError(ErrorPacket(code) + rest).Ok?
    ensures ExtractErrorMessage(TrimArrayToError(ErrorPacket(code) + rest).value) == Ok(Message(code))
    ensures LengthFilled(ErrorPacket(code) + rest) == 4 + |Message(code)|
  {
    var m := Message(code);
    assert ErrorPacket(code) == [0, ERROR_OPCODE, 0, code] + m + [0];
    FramedMessageInBuffer(code, m, rest);
    FramedMessageLength(code, m, rest);
  }

  /** Filename and mode come back from a request whose fields are clean. */
  lemma {:induction false} RequestRoundTrip(op: SByte, fileName: seq<SByte>, mode: seq<SByte>)
    requires fileName != [] && IsCleanField(fileName, NAME_BUFFER_SIZE)
    requires IsCleanField(mode, MODE_BUFFER_SIZE)
    ensures ExtractFileName(Request(op, fileName, mode)) == Ok(fileName)
    ensures ExtractModeName(Request(op, fileName, mode)) == Ok(mode)
  {
    var p := Request(op, fileName, mode);
    var z := 2 + |fileName|;
    var w := z + 1 + |mode|;
    assert p[2..z] == fileName;
    assert p[z + 1..w] == mode;
    assert IsFirstZero(p, 2, z);
    assert RequestTerminators(p, z, w);
  }

  /** An empty filename stops the mode scan before it starts: the mode comes
      back empty whatever the packet carries. */
  lemma EmptyFileNameDropsMode(op: SByte, mode: seq<SByte>)
    ensures ExtractFileName(Request(op, [], mode)) == Ok([])
    ensures ExtractModeName(Request(op, [], mode)) == Ok([])
  {
  }

  /** A filename longer than the 100-byte scratch array makes
      `extractFileName` throw, while `extractModeName`, which copies only the
      mode, still reads the mode back. */
  lemma {:induction false} LongFileNameOverflows(op: SByte, fileName: seq<SByte>, mode: seq<SByte>)
    requires NAME_BUFFER_SIZE < |fileName| && 0 !in fileName
    requires IsCleanField(mode, MODE_BUFFER_SIZE)
    ensures ExtractFileName(Request(op, fileName, mode)) == Thrown(ArrayIndexOutOfBounds)
    ensures ExtractModeName(Request(op, fileName, mode)) == Ok(mode)
  {
    var p := Request(op, fileName, mode);
    var z := 2 + |fileName|;
    var w := z + 1 + |mode|;
    assert p[z + 1..w] == mode;
    assert IsFirstZero(p, 2, z);
    assert RequestTerminators(p, z, w);
  }

  /** A read request for "test.txt" in "octet" mode gives both back. */
  lemma {:induction false} OctetReadRequest()
    ensures ExtractFileName(Request(RRQ_OPCODE, Ascii("test.txt"), Ascii("octet"))) == Ok(Ascii("test.txt"))
    ensures ExtractModeName(Request(RRQ_OPCODE, Ascii("test.txt"), Ascii("octet"))) == Ok(Ascii("octet"))
  {
    AsciiHasNoZero("test.txt");
    AsciiHasNoZero("octet");
    RequestRoundTrip(RRQ_OPCODE, Ascii("test.txt"), Ascii("octet"));
  }
}
