/**
 The error responder of the TFTP assistant: the assistant's own catalogue of
 error texts (not RFC 1350's) and the byte layout `sendErrorPacket` builds before it hands the
 packet to the socket, `[0, 5, 0, code] ++ message ++ [0]` (the ERROR packet
 of section 5 of RFC 1350, with the code in the low byte of its field).
 */
module ErrorResponder {
  import opened JavaBytes
  import Codec

  /** The text for an error code; any code outside 1..6 has empty text. */
  function MessageText(code: SByte): (s: string)
    ensures s == "" <==> !(1 <= code <= 6)
  {
    if code == 1 then "Error 1: File not found"
    else if code == 2 then "Error 2: File can not be accessed"
    else if code == 3 then "Error 3: Disk full"
    else if code == 4 then "Error 4: Packet corrupted"
    else if code == 5 then "Error 5: Duplicated request"
    else if code == 6 then "Error 6: File already exists"
    else ""
  }

  /** Each catalogue text starts with `"Error <code>: "`: it names its own code. */
  lemma MessageNamesItsCode(code: SByte)
    requires 1 <= code <= 6
    ensures var s := MessageText(code);
      |s| > 9 && s[..9] == "Error " + [('0' as int + code) as char] + ": "
  {
    var s := MessageText(code);
    if code == 1 {
      assert s == "Error 1: File not found";
    } else if code == 2 {
      assert s == "Error 2: File can not be accessed";
    } else if code == 3 {
      assert s == "Error 3: Disk full";
    } else if code == 4 {
      assert s == "Error 4: Packet corrupted";
    } else if code == 5 {
      assert s == "Error 5: Duplicated request";
    } else if code == 6 {
      assert s == "Error 6: File already exists";
    }
  }

  /** Short, NUL-free text with a printable ASCII character at each end. */
  predicate IsPrintableText(s: string)
  {
    && |s| <= 33
    && '\0' !in s
    && (s == [] || (32 < s[0] as int < 128 && 32 < s[|s| - 1] as int < 128))
  }

  /** Every catalogue text is printable: at most 33 characters, no NUL, and
      nothing at either end for `trim()` to remove. */
  lemma MessageTextPrintable(code: SByte)
    ensures IsPrintableText(MessageText(code))
  {
    var s := MessageText(code);
    if code == 1 {
      assert s == "Error 1: File not found";
    } else if code == 2 {
      assert s == "Error 2: File can not be accessed";
    } else if code == 3 {
      assert s == "Error 3: Disk full";
    } else if code == 4 {
      assert s == "Error 4: Packet corrupted";
    } else if code == 5 {
      assert s == "Error 5: Duplicated request";
    } else if code == 6 {
      assert s == "Error 6: File already exists";
    } else {
      assert s == "";
    }
  }

  /** Printable text encodes to zero-free, already trimmed bytes. */
  lemma PrintableEncodesClean(s: string)
    requires IsPrintableText(s)
    ensures 0 !in Ascii(s) && IsTrimmed(Ascii(s))
  {
  }

  /** `message.getBytes()`: the message as it goes on the wire. */
  function Message(code: SByte): (m: seq<SByte>)
    ensures |m| == |MessageText(code)|
    ensures m == [] <==> !(1 <= code <= 6)
    ensures 0 !in m
    ensures |m| <= 33
    ensures IsTrimmed(m)
  {
    MessageTextPrintable(code);
    PrintableEncodesClean(MessageText(code));
    Ascii(MessageText(code))
  }

  /** The array `sendErrorPacket` fills for a message: `5 + |message|` zero
      bytes, the opcode and code fields at 0..3, the message copied in at the
      cursor 4, and a zero at the cursor after it. */
  function FillErrorArray(code: SByte, message: seq<SByte>): (p: seq<SByte>)
    ensures p == [0, Codec.ERROR_OPCODE, 0, code] + message + [0]
  {
    var length := 5 + |message|;
    var header := Zeros(length)[0 := 0][1 := 5][2 := 0][3 := code];
    var cursor := 4;
    var copied := header[..cursor] + message + header[cursor + |message|..];
    copied[cursor + |message| := 0]
  }

  /** The error packet `sendErrorPacket` sends for `code`. */
  function ErrorPacket(code: SByte): (p: seq<SByte>)
    ensures |p| == 5 + |Message(code)|
    ensures p[..4] == [0, Codec.ERROR_OPCODE, 0, code]
    ensures p[4..|p| - 1] == Message(code) && p[|p| - 1] == 0
  {
    FillErrorArray(code, Message(code))
  }

  /** The packet for "file not found": 28 bytes in all, the 23-byte message
      framed by the 4-byte header and the terminator. */
  lemma FileNotFoundPacket()
    ensures ErrorPacket(1) == [0, 5, 0, 1] + Ascii("Error 1: File not found") + [0]
    ensures |ErrorPacket(1)| == 28
  {
  }

  /** An unknown code gets an empty message: the packet is `[0, 5, 0, code, 0]`. */
  lemma UnknownCodePacket(code: SByte)
    requires !(1 <= code <= 6)
    ensures ErrorPacket(code) == [0, 5, 0, code, 0]
  {
  }
}
