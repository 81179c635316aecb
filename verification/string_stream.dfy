/** StringCryptoRandomStream: a stream built from text, either '0'/'1'
    characters or hexadecimal digits. Its setters, finalize and sub-stream
    views are the shared code of ByteStreams used with StringClass; its
    views cast their targets to the Byte class. */
module StringStreams {
  import opened JavaLang
  import opened Bytes
  import opened CryptoStreams
  import opened HexText
  import opened ByteStreams

  // ---------------------------------------------------------------------
  // String.trim

  /** Java's trim treats every character up to U+0020 as blank. */
  predicate Blank(c: char) { c <= ' ' }

  /** How many blanks open s. */
  function LeadingBlanks(s: string): (n: nat)
    ensures n <= |s|
    ensures forall i :: 0 <= i < n ==> Blank(s[i])
    ensures n < |s| ==> !Blank(s[n])
  {
    if |s| > 0 && Blank(s[0]) then 1 + LeadingBlanks(s[1..]) else 0
  }

  /** How many blanks close s. */
  function TrailingBlanks(s: string): (n: nat)
    ensures n <= |s|
    ensures forall i :: |s| - n <= i < |s| ==> Blank(s[i])
    ensures n < |s| ==> !Blank(s[|s| - n - 1])
  {
    if |s| > 0 && Blank(s[|s| - 1]) then 1 + TrailingBlanks(s[.. |s| - 1]) else 0
  }

  /** String.trim(): s without its leading and trailing blanks. */
  function Trim(s: string): (t: string)
    ensures LeadingBlanks(s) + |t| <= |s| && t == s[LeadingBlanks(s) .. LeadingBlanks(s) + |t|]
    ensures forall i :: 0 <= i < |s| && !(LeadingBlanks(s) <= i < LeadingBlanks(s) + |t|) ==> Blank(s[i])
    ensures |t| > 0 ==> !Blank(t[0]) && !Blank(t[|t| - 1])
  {
    var rest := s[LeadingBlanks(s)..];
    rest[.. |rest| - TrailingBlanks(rest)]
  }

  /** Trimming twice trims nothing more. */
  lemma TrimIdempotent(s: string)
    ensures Trim(Trim(s)) == Trim(s)
  {
    var t := Trim(s);
    if |t| > 0 {
      assert LeadingBlanks(t) == 0;
      assert TrailingBlanks(t) == 0;
    } else {
      assert t == [];
    }
  }

  // ---------------------------------------------------------------------
  // ofBinaryString

  /** `(byte) c`: the low eight bits of the character code. */
  function LowByte(c: char): Byte {
    ((c as int) % 256) as Byte
  }

  /** ofBinaryString as it is written: one byte per character of the
      trimmed text, holding the character's code, and one bit of length
      per character. */
  function OfBinaryStringAsWritten(heap: Heap, text: Option<string>): (r: Result<(Heap, Stream)>)
    ensures r.Ok? <==> text.Some?
    ensures r.Err? ==> r.exc == NullPointer
    ensures r.Ok? ==> var (h, s) := r.value; var t := Trim(text.value);
      |h| == |heap| + 1 && h[..|heap|] == heap && Valid(h, s) && s.buffer.Some?
      && s.cls == StringClass && s.bitLength == |t| && s.autoMemory && s.position == 0
      && Window(h, s.buffer.value) == seq(|t|, i requires 0 <= i < |t| => LowByte(t[i]))
    ensures r.Ok? ==> var t := Trim(text.value);
      forall p :: 0 <= p < |t| ==> GetBit(r.value.0, r.value.1, p) == Ok(ByteBit(LowByte(t[p / 8]), p % 8))
  {
    if text.None? then Err(NullPointer)
    else
      var t := Trim(text.value);
      var bytes := seq(|t|, i requires 0 <= i < |t| => LowByte(t[i]));
      var r := AllocHolding(heap, StringClass, 0, bytes, |t|);
      assert forall p :: 0 <= p < |t| ==> p / 8 < |t|;
      Ok(r)
  }

  /** The text "11" gives a two-bit stream whose second bit is 0: both bits
      come from the code of the first '1' (0x31), not one from each
      character. */
  lemma BinaryStringAsWrittenMisreads(heap: Heap)
    ensures var r := OfBinaryStringAsWritten(heap, Some("11"));
      r.Ok? && r.value.1.bitLength == 2
      && GetBit(r.value.0, r.value.1, 0) == Ok(1) && GetBit(r.value.0, r.value.1, 1) == Ok(0)
  {
    var r := OfBinaryStringAsWritten(heap, Some("11"));
    assert Trim("11") == "11" by {
      assert LeadingBlanks("11") == 0;
      assert TrailingBlanks("11") == 0;
    }
    OneCodeBits();
    assert GetBit(r.value.0, r.value.1, 0) == Ok(ByteBit(LowByte('1'), 0));
    assert GetBit(r.value.0, r.value.1, 1) == Ok(ByteBit(LowByte('1'), 1));
  }

  /** The code of '1' is 0x31: bit 0 set, bit 1 clear. */
  lemma OneCodeBits()
    ensures ByteBit(LowByte('1'), 0) == 1 && ByteBit(LowByte('1'), 1) == 0
  {
    assert LowByte('1') == 0x31;
  }

  /** Bit q of the text: 1 for a '1' inside it, 0 otherwise. */
  function CharBit(t: string, q: int): Bit {
    if 0 <= q < |t| && t[q] == '1' then 1 else 0
  }

  /** Bits j..7 of the byte that starts at character `start`. */
  function PackFrom(t: string, start: int, j: int): Byte
    requires 0 <= j <= 8
    decreases 8 - j
  {
    if j == 8 then 0
    else (if CharBit(t, start + j) == 1 then Mask(j) else 0) | PackFrom(t, start, j + 1)
  }

  lemma {:induction false} PackFromBits(t: string, start: int, j: int, i: int)
    requires 0 <= j <= 8 && 0 <= i < 8
    ensures ByteBit(PackFrom(t, start, j), i) == if i >= j then CharBit(t, start + i) else 0
    decreases 8 - j
  {
    if j < 8 {
      PackFromBits(t, start, j + 1, i);
      var m: Byte := if CharBit(t, start + j) == 1 then Mask(j) else 0;
      var rest := PackFrom(t, start, j + 1);
      MaskByteBit(j, i);
      OrBit(m, rest, i);
    }
  }

  /** One bit per character, eight to a byte, least significant first. */
  function Pack(t: string): (bytes: seq<Byte>)
    ensures |bytes| == ByteLengthFor(|t|)
    ensures forall p :: 0 <= p < |t| ==> ByteBit(bytes[p / 8], p % 8) == CharBit(t, p)
  {
    var n := ByteLengthFor(|t|);
    var bytes := seq(n, k requires 0 <= k < n => PackFrom(t, 8 * k, 0));
    forall p | 0 <= p < |t|
      ensures ByteBit(bytes[p / 8], p % 8) == CharBit(t, p)
    {
      PackFromBits(t, 8 * (p / 8), 0, p % 8);
    }
    bytes
  }

  predicate IsBinaryDigit(c: char) { c == '0' || c == '1' }

  /** ofBinaryString as the text format means it: the trimmed text must be
      '0' and '1' characters only, and bit p of the stream is 1 exactly
      when character p is '1'. */
  function OfBinaryString(heap: Heap, text: Option<string>): (r: Result<(Heap, Stream)>)
    ensures r.Ok? <==> text.Some? && forall i :: 0 <= i < |Trim(text.value)| ==> IsBinaryDigit(Trim(text.value)[i])
    ensures r.Err? ==> r.exc == (if text.None? then NullPointer else DataFormat)
    ensures r.Ok? ==> var (h, s) := r.value;
      |h| == |heap| + 1 && h[..|heap|] == heap && Valid(h, s) && s.buffer.Some?
      && s.cls == StringClass && s.bitLength == |Trim(text.value)| && s.autoMemory && s.position == 0
      && s.buffer.value.limit == ByteLengthFor(|Trim(text.value)|)
    ensures r.Ok? ==> var t := Trim(text.value);
      forall p :: 0 <= p < |t| ==> GetBit(r.value.0, r.value.1, p) == Ok(if t[p] == '1' then 1 else 0)
  {
    if text.None? then Err(NullPointer)
    else
      var t := Trim(text.value);
      if exists i :: 0 <= i < |t| && !IsBinaryDigit(t[i]) then Err(DataFormat)
      else
        var bytes := Pack(t);
        var r := AllocHolding(heap, StringClass, 0, bytes, |t|);
        assert forall p :: 0 <= p < |t| ==> p / 8 < |bytes|;
        Ok(r)
  }

  /** A stream whose first |t| bits spell t reads t back going forward. */
  lemma ReadsText(h: Heap, s: Stream, t: string)
    requires Valid(h, s) && s.buffer.Some? && s.position == 0 && |t| <= 8 * s.buffer.value.limit
    requires forall p :: 0 <= p < |t| ==> GetBit(h, s, p) == Ok(if t[p] == '1' then 1 else 0)
    ensures ReadForward(h, s, |t|).Ok? && |ReadForward(h, s, |t|).value.0| == |t|
    ensures forall i :: 0 <= i < |t| ==> (ReadForward(h, s, |t|).value.0[i] == 1 <==> t[i] == '1')
  {
    var n := |t|;
    ForwardReadsBits(h, s, n, n);
    var bits := Bits(h, s, n);
    var read := ReadForward(h, s, n).value.0;
    assert read == bits[0 .. n];
    forall i | 0 <= i < n
      ensures read[i] == 1 <==> t[i] == '1'
    {
      assert Ok(bits[i]) == GetBit(h, s, i);
    }
  }

  /** Reading the stream forward gives back the text, '1' as 1 and '0' as
      0. */
  lemma BinaryStringRoundTrip(heap: Heap, text: string)
    requires OfBinaryString(heap, Some(text)).Ok?
    ensures var r := OfBinaryString(heap, Some(text)).value;
      ReadForward(r.0, r.1, |Trim(text)|).Ok? && |ReadForward(r.0, r.1, |Trim(text)|).value.0| == |Trim(text)|
      && forall i :: 0 <= i < |Trim(text)| ==> (ReadForward(r.0, r.1, |Trim(text)|).value.0[i] == 1 <==> Trim(text)[i] == '1')
  {
    var r := OfBinaryString(heap, Some(text)).value;
    var t := Trim(text);
    assert |t| <= 8 * r.1.buffer.value.limit;
    assert forall p :: 0 <= p < |t| ==> GetBit(r.0, r.1, p) == Ok(if t[p] == '1' then 1 else 0);
    ReadsText(r.0, r.1, t);
  }

  // ---------------------------------------------------------------------
  // ofHexString and the type tag

  /** ofHexString(hex): a new String-class stream set from hexadecimal text,
      with the same parse and errors as the Default class's setter. */
  function OfHexString(heap: Heap, hex: Option<string>): (r: Result<(Heap, Stream)>)
    ensures hex.None? ==> r == Err(NullPointer)
    ensures hex.Some? ==> (r.Ok? <==> HexDecode(hex.value).Ok?)
    ensures hex.Some? && r.Err? ==> r.exc == DataFormat
    ensures r.Ok? ==> var (h, s) := r.value;
      |h| == |heap| + 1 && h[..|heap|] == heap && Valid(h, s) && s.buffer.Some?
      && Window(h, s.buffer.value) == HexDecode(hex.value).value
      && s.bitLength == 4 * |hex.value| && s.autoMemory && s.position == 0
      && TypeOf(s.cls) == StringOfStream
  {
    if hex.None? then Err(NullPointer)
    else
      var bytes :- HexDecode(hex.value);
      Ok(AllocHolding(heap, StringClass, 0, bytes, 8 * |bytes|))
  }

  /** Sub-stream views of a String-class stream are Byte-class streams:
      they no longer report StringOfStream. */
  lemma StringViewsAreByte(heap: Heap, parent: Stream, sub: Option<Stream>, u: Unit, pos: int, length: Option<int>)
    requires Valid(heap, parent) && parent.cls == StringClass
    requires SubView(heap, parent, sub, u, pos, length).Ok?
    ensures TypeOf(SubView(heap, parent, sub, u, pos, length).value.cls) == DefaultStream
  {
  }
}
