# TFTP assistant packet helpers in Dafny

This project models the static packet helpers of a TFTP server's `Assistant`
class. The packet layouts follow section 5 of RFC 1350:

- the opcode constants;
- the helpers that cut a received buffer to the acknowledgement or error size;
- `isErrorPacket` and `lengthFilled`;
- the extractors that pull the filename, transfer mode and error message out
  of a packet;
- the validator `asExpected` and its block-number helper `printBlock`;
- the byte layout of the error packet that `sendErrorPacket` builds from the
  assistant's own error texts (not RFC 1350's).

Conventions:

- A packet is its `getData()` buffer: a `seq<SByte>` of Java signed bytes
  (`-128..127`).
- Text is ASCII bytes. `String.trim()` removes bytes `0..0x20` at both ends.
  A negative byte is not ASCII, so it decodes to a character above U+0020 and
  is kept.
- Where the Java would throw `ArrayIndexOutOfBoundsException` or
  `NegativeArraySizeException`, a function returns `Thrown(...)` of the
  `Result` type. Every index in the model is proved in range, so the model
  never reads past a bound.

Modules, one file each:

- `JavaBytes` (`java_bytes.dfy`): signed bytes, `Result`, zero scans,
  `trim()` and ASCII encoding.
- `Codec` (`codec.dfy`): constants, the `trimArray` family, `isErrorPacket`,
  `lengthFilled`, the copying loop and the extractors.
- `Validator` (`validator.dfy`): `printBlock` and `asExpected`.
- `ErrorResponder` (`error_responder.dfy`): the message catalogue and the
  error packet layout.
- `RoundTrips` (`round_trips.dfy`): what the extractors recover from error
  packets and from requests.

## Behaviour worth knowing

- The "file not found" packet is 28 bytes: a 23-byte message plus 5 framing
  bytes.
- `printBlock` combines `b1 * 128 + b0` over signed bytes, not the
  `b1 * 256 + b0` over unsigned bytes of section 5 of RFC 1350. It is not
  injective: `(1, -1)` and `(0, 127)` both give 127. It is modelled as written.
- `extractModeName` throws when the packet has no zero byte from offset 2 on.
  When `data[2] == 0` it returns the empty string without reading the mode,
  so an empty filename also hides a non-empty mode.
- The filename and mode scans have no explicit bound. They fail when they run
  off the buffer, or when the field overflows its 100- or 20-byte scratch
  array. The model returns `Thrown` in both cases.
- The mode scan copies only the mode. A filename longer than 100 bytes makes
  `extractFileName` throw, while `extractModeName` still succeeds.

## Model

| member | source | states |
|---|---|---|
| JavaBytes.FirstZeroFrom | src/Assistant.java:194 | The scan for a zero byte returns the first zero at or after the start when there is one, and reports that no zero exists otherwise. |
| JavaBytes.Trim | src/Assistant.java:199 | `trim()` returns bytes of its input with no blank byte at either end. It gives the empty string for an all-blank input and leaves an already trimmed input unchanged. |
| JavaBytes.TrimIsSlice | src/Assistant.java:199 | The result of `trim()` is a contiguous slice of its input, and every byte of the input outside that slice is blank. |
| JavaBytes.TrimIsUnique | src/Assistant.java:199 | Any trimmed slice of the input with only blanks around it is exactly what `trim()` returns, so `TrimIsSlice` and `IsTrimmed` together pin down the result. |
| JavaBytes.TrimIgnoresBlankPadding | src/Assistant.java:192-199 | Trimming a field followed by the zero tail of its scratch array gives the trimmed field itself. |
| Codec.TrimArray | src/Assistant.java:29-33 | Throws on a negative size or on a size above the source length. Otherwise the result has exactly `newSize` bytes and is the prefix of the source. |
| Codec.TrimArrayTwice | src/Assistant.java:29-33 | Cutting to `n` and then to `m <= n` equals cutting to `m`. |
| Codec.TrimArrayToAck | src/Assistant.java:41-44 | Succeeds exactly when the buffer has at least 4 bytes, and then keeps its first 4 bytes. |
| Codec.TrimArrayToError | src/Assistant.java:52-55 | Succeeds exactly when the buffer has at least 50 bytes, and then keeps its first 50 bytes. |
| Codec.IsErrorPacket | src/Assistant.java:63-68 | Throws on a buffer shorter than 2 bytes. Otherwise it is true exactly when byte 1 is 5. |
| Codec.LengthFilled | src/Assistant.java:252-261 | Returns the first index `i >= 4` with a zero byte, or the full length when there is none. The result never exceeds the length. |
| Codec.ScanIntoBuffer | src/Assistant.java:192-196 | The copying loop throws when no zero follows the start, or when the field overflows the scratch array. Otherwise the buffer holds the field followed by zeros. |
| Codec.ExtractFileName | src/Assistant.java:190-201 | Succeeds exactly when a zero lies at an index in `2..102` inside the buffer. The result is then the trimmed bytes from offset 2 up to the first zero: at most 100 bytes, zero-free and trimmed. |
| Codec.ExtractErrorMessage | src/Assistant.java:209-219 | Succeeds exactly when a zero lies at an index in `4..104` inside the buffer. The result is then the trimmed bytes from offset 4 up to the first zero. |
| Codec.ExtractModeName | src/Assistant.java:227-244 | Throws with no zero from offset 2 on. Returns empty when `data[2] == 0`. Otherwise returns the trimmed run after the filename's terminator up to the next zero, or throws when that run is missing or longer than 20 bytes. |
| Codec.ExtractField | src/Assistant.java:192-199 | The copy-then-trim pattern shared by the extractors succeeds exactly when a zero lies within `capacity` bytes of the start, inside the buffer. The result is then the trimmed run up to the first zero, zero-free and at most `capacity` bytes. Otherwise it throws `ArrayIndexOutOfBounds`. |
| Codec.ExtractCleanField | src/Assistant.java:192-199 | A zero-free, trimmed field that fits the scratch array and is followed by a zero is extracted unchanged. |
| Codec.ModeStartsAfterFileName | src/Assistant.java:231-241 | The first loop's terminator is unique, so the mode is always the field that starts right after the filename's terminator. |
| Codec.ModeUnterminated | src/Assistant.java:236-240 | With a non-empty filename and no zero after its terminator, the mode scan throws. |
| Validator.PrintBlock | src/Assistant.java:110-112 | The combined block lies in `-16512..16383`. With a non-negative low byte, division by 128 recovers both bytes; with a negative one, it recovers `b1 - 1` and `b0 + 128`. |
| Validator.PrintBlockNotInjective | src/Assistant.java:110-112 | `(1, -1)` and `(0, 127)` both combine to block 127. |
| Validator.PrintBlockCollisions | src/Assistant.java:110-112 | Every pair with `0 <= b0` and `b1 < 127` collides with `(b1 + 1, b0 - 128)`, whose low byte is negative. Two pairs whose low bytes are both non-negative never collide. |
| Validator.AsExpected | src/Assistant.java:83-101 | Returns 0 for any buffer, even an empty one, when the expected block is at most 2. With a larger expected block it throws on a buffer shorter than 4 bytes. Otherwise the code classifies an opcode mismatch and a block outside `[block-2, block+2]`; the block test is skipped for error packets. The result is in `0..3` and never reports a block mismatch for an error packet. |
| Validator.AsExpectedOutcomes | src/Assistant.java:89-98 | Each of 0, 1, 2 and 3 is returned if and only if its combination of opcode and block mismatch holds. |
| Validator.AsExpectedOnAckPrefix | src/Assistant.java:83-101 | The validator gives the same answer on a buffer cut to the acknowledgement size as on the full buffer. |
| ErrorResponder.MessageText | src/Assistant.java:139-152 | The text is empty exactly for codes outside 1..6. |
| ErrorResponder.MessageNamesItsCode | src/Assistant.java:140-151 | The text for each code 1..6 starts with `"Error <code>: "`, so it names its own code. |
| ErrorResponder.MessageTextPrintable | src/Assistant.java:140-152 | Every catalogue text has at most 33 characters, no NUL, and printable ASCII at both ends. |
| ErrorResponder.Message | src/Assistant.java:154 | The encoded message has the text's length, at most 33 bytes. It holds no zero byte and nothing for `trim()` to remove. |
| ErrorResponder.FillErrorArray | src/Assistant.java:157-169 | The array filled through the cursor is exactly `[0,5,0,code] ++ message ++ [0]`. |
| ErrorResponder.ErrorPacket | src/Assistant.java:154-169 | The packet for a code is 5 bytes longer than its message: the header `0 5 0 code`, then the catalogue message, then a zero. |
| ErrorResponder.FileNotFoundPacket | src/Assistant.java:140-169 | Code 1 gives the 28-byte packet `0 5 0 1`, then the ASCII bytes of `"Error 1: File not found"`, then `0`. |
| ErrorResponder.UnknownCodePacket | src/Assistant.java:136-169 | Any code outside 1..6 gives `[0,5,0,code,0]`. |
| RoundTrips.FramedMessageRoundTrip | src/Assistant.java:209-219 | Any clean message of at most 100 bytes, framed as an error packet, is extracted unchanged. |
| RoundTrips.ErrorPacketRoundTrip | src/Assistant.java:133-169 | For every code, `extractErrorMessage` of the built packet is that code's message, and `isErrorPacket` holds. |
| RoundTrips.FramedMessageInBuffer | src/Assistant.java:52-55 | A receive buffer of at least 50 bytes that starts with a framed clean message of at most 45 bytes still yields the message after cutting to 50 bytes. |
| RoundTrips.FramedMessageLength | src/Assistant.java:252-261 | `lengthFilled` of a buffer that starts with a framed zero-free message is 4 plus the message length, the index of the message terminator. |
| RoundTrips.ReceivedErrorPacket | src/Assistant.java:52-55 | For a receive buffer that starts with an error packet, cutting to 50 bytes still extracts the message. `lengthFilled` of the buffer is 4 plus the message length, the index of the message terminator. |
| RoundTrips.RequestRoundTrip | src/Assistant.java:190-244 | For `[0,op] ++ f ++ [0] ++ m ++ [0]`, where f is non-empty, `extractFileName` returns f and `extractModeName` returns m. Both fields must be clean: zero-free, trimmed, with at most 100 bytes for f and at most 20 for m. |
| RoundTrips.EmptyFileNameDropsMode | src/Assistant.java:231-243 | With an empty filename, both the filename and the mode come back empty, whatever mode the request carries. |
| RoundTrips.LongFileNameOverflows | src/Assistant.java:192-196 | A filename over 100 bytes makes `extractFileName` throw, while `extractModeName` still returns the mode. |
| RoundTrips.OctetReadRequest | src/Assistant.java:190-244 | A read request for "test.txt" in "octet" mode gives back both strings. |

## Left out

- The socket half of `sendErrorPacket` is not modelled: building the
  `DatagramPacket`, `sendSocket.send`, the logged `SocketException` and the
  `System.exit(1)` path (src/Assistant.java:171-181). It is I/O, and only the
  byte layout before it is modelled.
- The `sendErrorPacket(byte, DatagramSocket, DatagramPacket)` overload only
  reads the peer's port and address and delegates (src/Assistant.java:121-123).
  It is I/O plumbing.
- The console output of `extractFileName` and `extractErrorMessage` is
  dropped (src/Assistant.java:198, 217). It is a side effect that does not
  change the result.
- Platform-charset behaviour of `String.getBytes()` and `new String(byte[])`
  is not modelled. Text is taken as ASCII, one byte per character.
- In Java the opcode fields are `public static` and the size fields
  `ACK_SIZE` and `ERROR_SIZE` are `private static`; all of them are mutable.
  Here they are constants, since nothing in the helpers assigns them.
- Block numbers have no 16-bit wrap-around, because the code does none.
- `ControlServer` is not modelled. It is a console-reading thread that sends
  a fixed two-byte datagram to port 69, pure I/O and threading.
- An opcode decoder that rejects unsupported opcodes has no counterpart in
  the helpers, so there is nothing to model for it.
