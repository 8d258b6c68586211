/**
 The Java semantics the TFTP helpers lean on: signed bytes, the exceptions
 an out-of-range array access raises, `String.trim()` over an ASCII decoding,
 and `String.getBytes()` over ASCII text. Everything here is pure.
 */
module JavaBytes {

  /** A Java `byte`: a signed 8-bit integer. */
  type SByte = b: int | -128 <= b < 128

  /** The unchecked exceptions a helper can raise on a bad buffer. */
  datatype Exception =
    | ArrayIndexOutOfBounds   // an index, or a copy range, outside an array
    | NegativeArraySize       // `new byte[n]` with `n < 0`

  /** The outcome of a Java call: it returns normally or it throws. */
  datatype Result<+T> = Ok(value: T) | Thrown(exception: Exception)

  datatype Option<+T> = None | Some(value: T)

  /** A freshly allocated Java `byte[n]`: `n` zero bytes. */
  function Zeros(n: nat): (r: seq<SByte>)
    ensures |r| == n
    ensures forall i :: 0 <= i < n ==> r[i] == 0
  {
    seq(n, _ => 0 as SByte)
  }

  /** `z` is the first zero byte of `data` at or after `from`. */
  predicate IsFirstZero(data: seq<SByte>, from: nat, z: nat)
  {
    from <= z < |data| && data[z] == 0 && forall k :: from <= k < z ==> data[k] != 0
  }

  /** No zero byte of `data` at or after `from`. */
  predicate NoZeroFrom(data: seq<SByte>, from: nat)
  {
    forall k :: from <= k < |data| ==> data[k] != 0
  }

  /** A scan has one stopping point: the first zero after `from` is unique. */
  lemma FirstZeroUnique(data: seq<SByte>, from: nat, z: nat)
    requires IsFirstZero(data, from, z)
    ensures forall z': nat :: IsFirstZero(data, from, z') ==> z' == z
  {
  }

  /** The scan `for (i = from; data[i] != 0; i++)`, without running off `data`:
      the index of the first zero byte at or after `from`, if there is one. */
  function FirstZeroFrom(data: seq<SByte>, from: nat): (r: Option<nat>)
    ensures r.Some? ==> IsFirstZero(data, from, r.value)
    ensures r.None? ==> NoZeroFrom(data, from)
    decreases |data| - from
  {
    if from >= |data| then None
    else if data[from] == 0 then Some(from)
    else FirstZeroFrom(data, from + 1)
  }

  /** The characters `String.trim()` removes: code points at or below U+0020.
      Under an ASCII decoding a negative byte is not ASCII and decodes to a
      character above U+0020, so it is never blank. */
  predicate IsBlank(b: SByte)
  {
    0 <= b <= 0x20
  }

  /** `s` has no blank byte at either end: trimming leaves it alone. */
  predicate IsTrimmed(s: seq<SByte>)
  {
    s == [] || (!IsBlank(s[0]) && !IsBlank(s[|s| - 1]))
  }

  /** Drops the leading blanks: a suffix of `s` preceded only by blanks. */
  function TrimLeft(s: seq<SByte>): (r: seq<SByte>)
    ensures |r| <= |s| && r == s[|s| - |r|..]
    ensures forall i :: 0 <= i < |s| - |r| ==> IsBlank(s[i])
    ensures r == [] || !IsBlank(r[0])
    ensures forall b :: b in r ==> b in s
  {
    if |s| > 0 && IsBlank(s[0]) then TrimLeft(s[1..]) else s
  }

  /** Drops the trailing blanks: a prefix of `s` followed only by blanks. */
  function TrimRight(s: seq<SByte>): (r: seq<SByte>)
    ensures |r| <= |s| && r == s[..|r|]
    ensures forall i :: |r| <= i < |s| ==> IsBlank(s[i])
    ensures r == [] || !IsBlank(r[|r| - 1])
    ensures forall b :: b in r ==> b in s
  {
    if |s| > 0 && IsBlank(s[|s| - 1]) then TrimRight(s[..|s| - 1]) else s
  }

  /** `r` is the slice of `s` that starts at `i`, and every byte of `s`
      outside that slice is blank. */
  predicate BlankAround(s: seq<SByte>, r: seq<SByte>, i: nat)
  {
    && i + |r| <= |s|
    && r == s[i..i + |r|]
    && (forall k :: 0 <= k < i ==> IsBlank(s[k]))
    && (forall k :: i + |r| <= k < |s| ==> IsBlank(s[k]))
  }

  /** Java's `String.trim()` on the ASCII decoding of `s`. */
  function Trim(s: seq<SByte>): (r: seq<SByte>)
    ensures |r| <= |s|
    ensures IsTrimmed(r)
    ensures (forall i :: 0 <= i < |s| ==> IsBlank(s[i])) ==> r == []
    ensures IsTrimmed(s) ==> r == s
    ensures forall b :: b in r ==> b in s
  {
    TrimRight(TrimLeft(s))
  }

  /** `trim()` returns a slice of its input with only blanks around it. */
  lemma TrimIsSlice(s: seq<SByte>)
    ensures exists i: nat :: BlankAround(s, Trim(s), i)
  {
    var left := TrimLeft(s);
    var r := Trim(s);
    var i := |s| - |left|;
    assert BlankAround(s, r, i) by {
      forall k | i + |r| <= k < |s|
        ensures IsBlank(s[k])
      {
        assert s[k] == left[k - i];
      }
      assert r == left[..|r|];
    }
  }

  /** `trim()` is characterised by `IsTrimmed` and `BlankAround`: the only
      trimmed slice of `s` with nothing but blanks around it is `Trim(s)`. */
  lemma TrimIsUnique(s: seq<SByte>, r: seq<SByte>, i: nat)
    requires IsTrimmed(r) && BlankAround(s, r, i)
    ensures r == Trim(s)
  {
    TrimIsSlice(s);
  }

  lemma {:induction false} TrimRightIgnoresBlankSuffix(s: seq<SByte>, p: seq<SByte>)
    requires forall i :: 0 <= i < |p| ==> IsBlank(p[i])
    ensures TrimRight(s + p) == TrimRight(s)
    decreases |p|
  {
    if p == [] {
      assert s + p == s;
    } else {
      var p' := p[..|p| - 1];
      assert (s + p)[..|s + p| - 1] == s + p';
      TrimRightIgnoresBlankSuffix(s, p');
    }
  }

  lemma {:induction false} TrimLeftCarriesBlankSuffix(s: seq<SByte>, p: seq<SByte>)
    requires forall i :: 0 <= i < |p| ==> IsBlank(p[i])
    ensures TrimLeft(s) == [] ==> TrimLeft(s + p) == []
    ensures TrimLeft(s) != [] ==> TrimLeft(s + p) == TrimLeft(s) + p
    decreases |s|
  {
    if s == [] {
      assert s + p == p;
    } else if IsBlank(s[0]) {
      assert (s + p)[1..] == s[1..] + p;
      TrimLeftCarriesBlankSuffix(s[1..], p);
    }
  }

  /** Trimming a field padded with blanks, such as the zero tail of a scratch
      buffer, gives the trimmed field itself. */
  lemma {:induction false} TrimIgnoresBlankPadding(s: seq<SByte>, p: seq<SByte>)
    requires forall i :: 0 <= i < |p| ==> IsBlank(p[i])
    ensures Trim(s + p) == Trim(s)
  {
    TrimLeftCarriesBlankSuffix(s, p);
    if TrimLeft(s) != [] {
      TrimRightIgnoresBlankSuffix(TrimLeft(s), p);
    }
  }

  /** `String.getBytes()` of one character under a US-ASCII charset; the
      assistant's own texts are all ASCII. */
  function AsciiByte(c: char): (b: SByte)
  {
    if c as int < 128 then c as int else '?' as int
  }

  /** `String.getBytes()` of ASCII text: one byte per character. */
  function Ascii(s: string): (r: seq<SByte>)
    ensures |r| == |s|
    ensures forall i :: 0 <= i < |s| ==> r[i] == AsciiByte(s[i])
  {
    seq(|s|, i requires 0 <= i < |s| => AsciiByte(s[i]))
  }

  /** Encoding keeps the text zero-free, so a terminator scan stops after it. */
  lemma AsciiHasNoZero(s: string)
    requires '\0' !in s
    ensures 0 !in Ascii(s)
  {
  }
}
