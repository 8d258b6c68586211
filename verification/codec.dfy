/**
 The packet codec of the TFTP assistant: the opcode constants, the helpers
 that cut a received buffer to size, and the extractors that pull the
 zero-terminated filename, mode and error message out of a packet.

 A received packet is its `getData()` buffer, a sequence of Java bytes. Where
 the Java code would index outside an array, the model returns `Thrown`.
 */
module Codec {
  import opened JavaBytes

  /* The opcodes of section 5 of RFC 1350, in the low byte of the first field. */
  const RRQ_OPCODE: SByte := 1
  const WRQ_OPCODE: SByte := 2
  const DATA_OPCODE: SByte := 3
  const ACK_OPCODE: SByte := 4
  const ERROR_OPCODE: SByte := 5

  /** Bytes kept of an acknowledgement buffer. */
  const ACK_SIZE: int := 4
  /** Bytes kept of an error buffer. */
  const ERROR_SIZE: int := 50

  /** The scratch arrays the extractors copy a field into. */
  const NAME_BUFFER_SIZE: nat := 100
  const MODE_BUFFER_SIZE: nat := 20

  /** Where the filename of a request and the message of an error packet start. */
  const FILE_NAME_OFFSET: nat := 2
  const ERROR_MESSAGE_OFFSET: nat := 4

  /** `trimArray`: a fresh array of `newSize` bytes holding the first `newSize`
      bytes of `elongated`. `new byte[newSize]` throws on a negative size and
      `System.arraycopy` throws when the source is shorter than `newSize`. */
  function TrimArray(elongated: seq<SByte>, newSize: int): (r: Result<seq<SByte>>)
    ensures newSize < 0 ==> r == Thrown(NegativeArraySize)
    ensures 0 <= newSize && |elongated| < newSize ==> r == Thrown(ArrayIndexOutOfBounds)
    ensures r.Ok? <==> 0 <= newSize <= |elongated|
    ensures r.Ok? ==> |r.value| == newSize && r.value + elongated[newSize..] == elongated
  {
    if newSize < 0 then Thrown(NegativeArraySize)
    else if newSize > |elongated| then Thrown(ArrayIndexOutOfBounds)
    else Ok(elongated[..newSize])
  }

  /** Cutting to `n` and then to `m <= n` is cutting to `m` directly. */
  lemma TrimArrayTwice(elongated: seq<SByte>, n: int, m: int)
    requires 0 <= m <= n <= |elongated|
    ensures TrimArray(elongated, n).Ok?
    ensures TrimArray(TrimArray(elongated, n).value, m) == TrimArray(elongated, m)
  {
    var once := TrimArray(elongated, n).value;
    assert once[..m] == elongated[..m];
  }

  /** `trimArrayToAck`: the first `ACK_SIZE` bytes, the opcode and block fields. */
  function TrimArrayToAck(data: seq<SByte>): (r: Result<seq<SByte>>)
    ensures r.Ok? <==> ACK_SIZE <= |data|
    ensures r.Ok? ==> |r.value| == ACK_SIZE && forall i :: 0 <= i < ACK_SIZE ==> r.value[i] == data[i]
  {
    TrimArray(data, ACK_SIZE)
  }

  /** `trimArrayToError`: the first `ERROR_SIZE` bytes of an error buffer. */
  function TrimArrayToError(data: seq<SByte>): (r: Result<seq<SByte>>)
    ensures r.Ok? <==> ERROR_SIZE <= |data|
    ensures r.Ok? ==> |r.value| == ERROR_SIZE && forall i :: 0 <= i < ERROR_SIZE ==> r.value[i] == data[i]
  {
    TrimArray(data, ERROR_SIZE)
  }

  /** `isErrorPacket`: the opcode byte is `ERROR_OPCODE`; reading it throws on
      a buffer of fewer than two bytes. */
  function IsErrorPacket(data: seq<SByte>): (r: Result<bool>)
    ensures r.Ok? <==> 2 <= |data|
    ensures r.Ok? ==> (r.value <==> data[1] == 5)
  {
    if |data| < 2 then Thrown(ArrayIndexOutOfBounds)
    else Ok(data[1] == ERROR_OPCODE)
  }

  /** `lengthFilled`: the index of the first zero byte from offset 4 on, the
      end of the message body; the whole length when there is none. */
  function LengthFilled(data: seq<SByte>): (r: nat)
    ensures r <= |data|
    ensures r < |data| ==> 4 <= r && data[r] == 0
    ensures forall k :: 4 <= k < r ==> data[k] != 0
  {
    match FirstZeroFrom(data, 4)
    case Some(z) => z
    case None => |data|
  }

  /** A scratch array of `capacity` zero bytes after the copying loop has
      written `data[from..i]` into its front. */
  function ScratchBuffer(data: seq<SByte>, from: nat, i: nat, capacity: nat): (b: seq<SByte>)
    requires from <= i <= |data| && i - from <= capacity
    ensures |b| == capacity
  {
    data[from..i] + Zeros(capacity - (i - from))
  }

  /** The copying loop of the extractors,
      `for (i = from; data[i] != 0; i++) buffer[i - from] = data[i];`,
      over a zeroed scratch array of `capacity` bytes. It throws when the scan
      runs off `data` before a zero, or when the run overflows the buffer. */
  method ScanIntoBuffer(data: seq<SByte>, from: nat, capacity: nat) returns (r: Result<seq<SByte>>)
    ensures NoZeroFrom(data, from) ==> r == Thrown(ArrayIndexOutOfBounds)
    ensures forall z: nat :: IsFirstZero(data, from, z) ==>
      r == if z - from <= capacity then Ok(ScratchBuffer(data, from, z, capacity))
           else Thrown(ArrayIndexOutOfBounds)
  {
    if from >= |data| {
      return Thrown(ArrayIndexOutOfBounds);       // reading data[from]
    }
    var buffer := Zeros(capacity);
    var i := from;
    while true
      invariant from <= i <= |data|
      invariant i - from <= capacity
      invariant forall k :: from <= k < i ==> k < |data| && data[k] != 0
      invariant buffer == ScratchBuffer(data, from, i, capacity)
      decreases |data| - i
    {
      if i >= |data| {
        return Thrown(ArrayIndexOutOfBounds);     // reading data[i]
      }
      if data[i] == 0 {
        return Ok(buffer);
      }
      if i - from >= capacity {
        return Thrown(ArrayIndexOutOfBounds);     // writing buffer[i - from]
      }
      buffer := buffer[i - from := data[i]];
      i := i + 1;
    }
  }

  /** A field as the extractors return it: the bytes from `from` up to the
      first zero, copied into a scratch array of `capacity` bytes, decoded and
      trimmed with `new String(buffer).trim()`. It succeeds exactly when a
      zero lies inside `data` within `capacity` bytes of `from`. */
  function ExtractField(data: seq<SByte>, from: nat, capacity: nat): (r: Result<seq<SByte>>)
    ensures NoZeroFrom(data, from) ==> r == Thrown(ArrayIndexOutOfBounds)
    ensures forall z: nat :: IsFirstZero(data, from, z) ==>
      r == if z - from <= capacity then Ok(Trim(data[from..z])) else Thrown(ArrayIndexOutOfBounds)
    ensures r.Ok? <==> exists z :: from <= z < |data| && z <= from + capacity && data[z] == 0
    ensures r.Ok? ==> |r.value| <= capacity && 0 !in r.value && IsTrimmed(r.value)
    ensures r.Thrown? ==> r.exception == ArrayIndexOutOfBounds
  {
    NearZeroIsFirstZero(data, from, capacity);
    match FirstZeroFrom(data, from)
    case None => Thrown(ArrayIndexOutOfBounds)
    case Some(z) =>
      FirstZeroUnique(data, from, z);
      if z - from > capacity then
        Thrown(ArrayIndexOutOfBounds)
      else
        var run := data[from..z];
        var buffer := ScratchBuffer(data, from, z, capacity);
        TrimIgnoresBlankPadding(run, Zeros(capacity - |run|));
        assert 0 !in run by {
          forall b | b in run ensures b != 0 {
            var k :| 0 <= k < |run| && run[k] == b;
            assert run[k] == data[from + k];
          }
        }
        Ok(Trim(buffer))
  }

  /** A zero inside `data` within `capacity` bytes of `from` exists exactly
      when the first zero after `from` lies that close. */
  lemma NearZeroIsFirstZero(data: seq<SByte>, from: nat, capacity: nat)
    ensures (exists z :: from <= z < |data| && z <= from + capacity && data[z] == 0) <==>
      (FirstZeroFrom(data, from).Some? && FirstZeroFrom(data, from).value <= from + capacity)
  {
  }

  /** A zero-free, trimmed field that fits the scratch array and is followed
      by a zero is extracted unchanged. */
  lemma {:induction false} ExtractCleanField(data: seq<SByte>, from: nat, capacity: nat, field: seq<SByte>)
    requires from + |field| < |data| && data[from..from + |field|] == field && data[from + |field|] == 0
    requires |field| <= capacity && 0 !in field && IsTrimmed(field)
    ensures ExtractField(data, from, capacity) == Ok(field)
  {
    var z := from + |field|;
    assert IsFirstZero(data, from, z) by {
      forall k | from <= k < z
        ensures data[k] != 0
      {
        assert data[k] == field[k - from];
      }
    }
  }

  /** `extractFileName`: the trimmed bytes from offset 2 up to the first zero.
      It throws when there is no zero, or when the run exceeds the 100-byte
      scratch array. */
  function ExtractFileName(data: seq<SByte>): (r: Result<seq<SByte>>)
    ensures r.Ok? <==> exists z :: 2 <= z < |data| && z <= 2 + 100 && data[z] == 0
    ensures forall z: nat :: IsFirstZero(data, 2, z) && z <= 2 + 100 ==> r == Ok(Trim(data[2..z]))
    ensures r.Ok? ==> |r.value| <= 100 && 0 !in r.value && IsTrimmed(r.value)
  {
    ExtractField(data, FILE_NAME_OFFSET, NAME_BUFFER_SIZE)
  }

  /** `extractErrorMessage`: the trimmed bytes from offset 4 up to the first
      zero, under the same bounds as the filename. */
  function ExtractErrorMessage(data: seq<SByte>): (r: Result<seq<SByte>>)
    ensures r.Ok? <==> exists z :: 4 <= z < |data| && z <= 4 + 100 && data[z] == 0
    ensures forall z: nat :: IsFirstZero(data, 4, z) && z <= 4 + 100 ==> r == Ok(Trim(data[4..z]))
    ensures r.Ok? ==> |r.value| <= 100 && 0 !in r.value && IsTrimmed(r.value)
  {
    ExtractField(data, ERROR_MESSAGE_OFFSET, NAME_BUFFER_SIZE)
  }

  /** `z` ends the filename of a request and `w` ends the mode after it. */
  predicate RequestTerminators(data: seq<SByte>, z: nat, w: nat)
  {
    IsFirstZero(data, 2, z) && IsFirstZero(data, z + 1, w)
  }

  /** `extractModeName`: the first loop finds the filename's terminator `z`
      and leaves `mode == z + 1`, unless the filename is empty (`data[2] == 0`),
      in which case `mode` stays -1 and the all-zero 20-byte buffer trims to
      the empty string. Otherwise the mode is the trimmed run from `z + 1` up
      to the next zero, which must fit the 20-byte scratch array. */
  function ExtractModeName(data: seq<SByte>): (r: Result<seq<SByte>>)
    ensures NoZeroFrom(data, 2) ==> r == Thrown(ArrayIndexOutOfBounds)
    ensures 3 <= |data| && data[2] == 0 ==> r == Ok([])
    ensures forall z: nat, w: nat :: 2 < z && RequestTerminators(data, z, w) ==>
      r == if w - (z + 1) <= 20 then Ok(Trim(data[z + 1..w])) else Thrown(ArrayIndexOutOfBounds)
    ensures forall z: nat :: 2 < z && IsFirstZero(data, 2, z) && NoZeroFrom(data, z + 1) ==>
      r == Thrown(ArrayIndexOutOfBounds)
  {
    match FirstZeroFrom(data, FILE_NAME_OFFSET)
    case None => Thrown(ArrayIndexOutOfBounds)
    case Some(z) =>
      if z == FILE_NAME_OFFSET then
        EmptyFileNameHasNoMode(data);
        Ok(Trim(Zeros(MODE_BUFFER_SIZE)))
      else
        ModeStartsAfterFileName(data, z);
        ModeUnterminated(data, z);
        ExtractField(data, z + 1, MODE_BUFFER_SIZE)
  }

  /** With an empty filename no terminator lies after offset 2, and the
      all-zero mode buffer trims to the empty string. */
  lemma EmptyFileNameHasNoMode(data: seq<SByte>)
    requires IsFirstZero(data, 2, 2)
    ensures Trim(Zeros(MODE_BUFFER_SIZE)) == []
    ensures forall z: nat :: IsFirstZero(data, 2, z) ==> z == 2
  {
  }

  /** Once the filename ends at `z > 2`, the mode is the field after it: every
      pair of request terminators starts with `z`, and the field extracted
      from `z + 1` is the trimmed run up to the mode's terminator. */
  lemma {:induction false} ModeStartsAfterFileName(data: seq<SByte>, z: nat)
    requires IsFirstZero(data, 2, z) && 2 < z
    ensures forall z': nat, w: nat :: 2 < z' && RequestTerminators(data, z', w) ==>
      ExtractField(data, z + 1, MODE_BUFFER_SIZE) ==
        if w - (z' + 1) <= 20 then Ok(Trim(data[z' + 1..w])) else Thrown(ArrayIndexOutOfBounds)
  {
    var mode := ExtractField(data, z + 1, MODE_BUFFER_SIZE);
    forall z': nat, w: nat | 2 < z' && RequestTerminators(data, z', w)
      ensures mode == if w - (z' + 1) <= 20 then Ok(Trim(data[z' + 1..w])) else Thrown(ArrayIndexOutOfBounds)
    {
      FirstZeroUnique(data, 2, z);
      assert z' == z;
      ModeFieldAt(data, z, w);
    }
  }

  /** The mode field for a known pair of terminators. */
  lemma ModeFieldAt(data: seq<SByte>, z: nat, w: nat)
    requires IsFirstZero(data, z + 1, w)
    ensures ExtractField(data, z + 1, MODE_BUFFER_SIZE) ==
      if w - (z + 1) <= 20 then Ok(Trim(data[z + 1..w])) else Thrown(ArrayIndexOutOfBounds)
  {
  }

  /** Once the filename ends at `z > 2` and no zero follows it, the mode scan
      runs off the buffer. */
  lemma ModeUnterminated(data: seq<SByte>, z: nat)
    requires IsFirstZero(data, 2, z) && 2 < z
    ensures forall z': nat :: 2 < z' && IsFirstZero(data, 2, z') && NoZeroFrom(data, z' + 1) ==>
      ExtractField(data, z + 1, MODE_BUFFER_SIZE) == Thrown(ArrayIndexOutOfBounds)
    ensures !(3 <= |data| && data[2] == 0)
  {
  }
}
