/** DefaultCryptoRandomStream: the byte-array stream plus a hexadecimal
    text setter. Everything else it has is the shared code of ByteStreams
    used with DefaultClass. */
module DefaultStreams {
  import opened JavaLang
  import opened Bytes
  import opened CryptoStreams
  import opened HexText
  import opened ByteStreams

  /** SetCryptoRandomStreamHexString(hex): a null string throws on its
      length; an odd length or a non-digit throws DataFormatException;
      otherwise the stream owns a fresh array of the decoded bytes, one
      byte per digit pair. It allocates whether or not it already had an
      array, and keeps its reduced length. */
  function SetHexString(heap: Heap, s: Stream, hex: Option<string>): (r: Result<(Heap, Stream)>)
    requires Valid(heap, s)
    ensures hex.None? ==> r == Err(NullPointer)
    ensures hex.Some? ==> (r.Ok? <==> HexDecode(hex.value).Ok?)
    ensures hex.Some? && r.Err? ==> r.exc == DataFormat
    ensures r.Ok? ==> var (h, t) := r.value;
      |h| == |heap| + 1 && h[..|heap|] == heap && Valid(h, t) && t.buffer.Some?
      && Window(h, t.buffer.value) == HexDecode(hex.value).value
      && t.bitLength == 4 * |hex.value| && t.autoMemory && t.position == 0 && t.baseOffset == 0
      && t.cls == s.cls && t.reducedBitLength == s.reducedBitLength
  {
    if hex.None? then Err(NullPointer)
    else
      var bytes :- HexDecode(hex.value);
      Ok(AllocHolding(heap, s.cls, s.reducedBitLength, bytes, 8 * |bytes|))
  }

  /** After the hex setter, bit p of the stream is bit p % 8 of the byte
      spelled by digits p / 8 * 2 and p / 8 * 2 + 1: the high digit holds
      bits 7..4 and the low digit bits 3..0. */
  lemma HexBits(heap: Heap, s: Stream, hex: string, p: int)
    requires Valid(heap, s) && SetHexString(heap, s, Some(hex)).Ok?
    requires 0 <= p < SetHexString(heap, s, Some(hex)).value.1.bitLength
    ensures var (h, t) := SetHexString(heap, s, Some(hex)).value;
      var hi, lo := HexNibble(hex[2 * (p / 8)]).value, HexNibble(hex[2 * (p / 8) + 1]).value;
      GetBit(h, t, p) == Ok(ByteBit(Join(hi, lo), p % 8))
  {
    var bytes := HexDecode(hex).value;
    assert bytes[p / 8] == PairByte(hex, p / 8);
  }

  /** A stream set from the encoding of some bytes holds exactly those
      bytes. */
  lemma HexSetterRoundTrip(heap: Heap, s: Stream, bytes: seq<Byte>)
    requires Valid(heap, s)
    ensures SetHexString(heap, s, Some(HexEncode(bytes))).Ok?
    ensures var (h, t) := SetHexString(heap, s, Some(HexEncode(bytes))).value;
      Window(h, t.buffer.value) == bytes && t.bitLength == 8 * |bytes|
  {
    DecodeEncoded(bytes);
  }

  /** The Default class casts sub-stream targets to itself, and reports
      DefaultStream as its type. */
  lemma DefaultViewsAreDefault(heap: Heap, parent: Stream, sub: Option<Stream>, u: Unit, pos: int, length: Option<int>)
    requires Valid(heap, parent) && parent.cls == DefaultClass
    requires SubView(heap, parent, sub, u, pos, length).Ok?
    ensures SubView(heap, parent, sub, u, pos, length).value.cls == DefaultClass
    ensures TypeOf(parent.cls) == DefaultStream
  {
  }
}
