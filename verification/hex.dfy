/** The hexadecimal text format shared by
    DefaultCryptoRandomStream.SetCryptoRandomStreamHexString and
    StringCryptoRandomStream.ofHexString: two digits per byte, high nibble
    first, digits in either case. */
module HexText {
  import opened JavaLang
  import opened Bytes

  type Nibble = x: int | 0 <= x < 16

  /** The digit a formatter writes for a nibble: lower case. */
  function HexDigit(x: Nibble): (c: char)
    ensures '0' <= c <= '9' || 'a' <= c <= 'f'
  {
    if x < 10 then ('0' as int + x) as char else ('a' as int + x - 10) as char
  }

  /** A letter digit folded to lower case; anything else as it is. */
  function LowerHex(c: char): char {
    if 'A' <= c <= 'F' then (c as int + 32) as char else c
  }

  /** The nibble one case of the digit switch assigns, or None for the
      default branch, which throws. */
  function HexNibble(c: char): (r: Option<Nibble>)
    ensures r.Some? <==> ('0' <= c <= '9' || 'a' <= c <= 'f' || 'A' <= c <= 'F')
    ensures r.Some? ==> HexDigit(r.value) == LowerHex(c)
  {
    if '0' <= c <= '9' then Some(c as int - '0' as int)
    else if 'a' <= c <= 'f' then Some(c as int - 'a' as int + 10)
    else if 'A' <= c <= 'F' then Some(c as int - 'A' as int + 10)
    else None
  }

  /** Every digit a formatter writes is read back as its nibble. */
  lemma NibbleOfDigit(x: Nibble)
    ensures HexNibble(HexDigit(x)) == Some(x)
  {
  }

  predicate AllHex(s: string) {
    forall i :: 0 <= i < |s| ==> HexNibble(s[i]).Some?
  }

  /** The byte 0x0 .. 0xF of a nibble: what the second digit switch ORs
      in, and, shifted up four bits, what the first one assigns. */
  function NibbleByte(x: Nibble): (b: Byte)
    ensures b < 16
  {
    [0x0, 0x1, 0x2, 0x3, 0x4, 0x5, 0x6, 0x7, 0x8, 0x9, 0xA, 0xB, 0xC, 0xD, 0xE, 0xF][x]
  }

  function ByteNibble(b: Byte): Nibble
    requires b < 16
  {
    b as int
  }

  lemma NibbleRoundTrip(x: Nibble)
    ensures ByteNibble(NibbleByte(x)) == x
  {
  }

  lemma ByteNibbleRoundTrip(y: Byte)
    requires y < 16
    ensures NibbleByte(ByteNibble(y)) == y
  {
  }

  /** The byte of a digit pair: the high nibble's byte shifted up four
      bits, or-ed with the low nibble's. */
  function Join(hi: Nibble, lo: Nibble): Byte {
    (NibbleByte(hi) << 4) | NibbleByte(lo)
  }

  /** Byte i from digits 2i and 2i+1. */
  function PairByte(s: string, i: int): Byte
    requires 0 <= 2 * i && 2 * i + 1 < |s| && HexNibble(s[2 * i]).Some? && HexNibble(s[2 * i + 1]).Some?
  {
    Join(HexNibble(s[2 * i]).value, HexNibble(s[2 * i + 1]).value)
  }

  /** The parse both hex entry points perform: an odd length or any
      character outside 0-9, a-f, A-F is a DataFormatException. */
  function HexDecode(s: string): (r: Result<seq<Byte>>)
    ensures r.Ok? <==> |s| % 2 == 0 && AllHex(s)
    ensures r.Err? ==> r.exc == DataFormat
    ensures r.Ok? ==> |r.value| == |s| / 2
  {
    if |s| % 2 != 0 then Err(DataFormat)
    else if !AllHex(s) then Err(DataFormat)
    else Ok(seq(|s| / 2, i requires 0 <= i < |s| / 2 => PairByte(s, i)))
  }

  /** The top and bottom four bits of a byte. */
  function High(b: Byte): Nibble { ByteNibble(b >> 4) }
  function Low(b: Byte): Nibble { ByteNibble(b & 0xF) }

  /** Splitting a byte into nibbles and joining them gives it back ... */
  lemma JoinSplit(b: Byte)
    ensures Join(High(b), Low(b)) == b
  {
    ByteNibbleRoundTrip(b >> 4);
    ByteNibbleRoundTrip(b & 0xF);
    assert ((b >> 4) << 4) | (b & 0xF) == b;
  }

  /** ... and joining two nibbles, then splitting, gives them back. */
  lemma SplitJoin(hi: Nibble, lo: Nibble)
    ensures High(Join(hi, lo)) == hi && Low(Join(hi, lo)) == lo
  {
    var h, l := NibbleByte(hi), NibbleByte(lo);
    assert ((h << 4) | l) >> 4 == h;
    assert ((h << 4) | l) & 0xF == l;
    NibbleRoundTrip(hi);
    NibbleRoundTrip(lo);
  }

  /** The inverse direction: two lower-case digits per byte. */
  function HexEncode(b: seq<Byte>): (s: string)
    ensures |s| == 2 * |b|
  {
    if |b| == 0 then "" else [HexDigit(High(b[0])), HexDigit(Low(b[0]))] + HexEncode(b[1..])
  }

  lemma {:induction false} EncodeDigits(b: seq<Byte>, i: int)
    requires 0 <= i < |b|
    ensures HexEncode(b)[2 * i] == HexDigit(High(b[i]))
    ensures HexEncode(b)[2 * i + 1] == HexDigit(Low(b[i]))
    decreases |b|
  {
    if i > 0 {
      EncodeDigits(b[1..], i - 1);
      var e := HexEncode(b[1..]);
      assert HexEncode(b) == [HexDigit(High(b[0])), HexDigit(Low(b[0]))] + e;
      AfterPair(HexDigit(High(b[0])), HexDigit(Low(b[0])), e, 2 * i);
      AfterPair(HexDigit(High(b[0])), HexDigit(Low(b[0])), e, 2 * i + 1);
      assert b[1..][i - 1] == b[i];
    }
  }

  lemma AfterPair<T>(x: T, y: T, e: seq<T>, k: int)
    requires 2 <= k < 2 + |e|
    ensures ([x, y] + e)[k] == e[k - 2]
  {
  }

  /** Decoding what was encoded gives the bytes back. */
  lemma DecodeEncoded(b: seq<Byte>)
    ensures HexDecode(HexEncode(b)) == Ok(b)
  {
    var s := HexEncode(b);
    EncodedIsHex(b);
    var d := HexDecode(s).value;
    forall i | 0 <= i < |b|
      ensures d[i] == b[i]
    {
      PairOfEncoded(b, i);
    }
    assert d == b;
  }

  /** A formatter writes hex digits only. */
  lemma EncodedIsHex(b: seq<Byte>)
    ensures AllHex(HexEncode(b))
  {
    var s := HexEncode(b);
    forall k | 0 <= k < |s|
      ensures HexNibble(s[k]).Some?
    {
      EncodeDigits(b, k / 2);
      NibbleOfDigit(High(b[k / 2]));
      NibbleOfDigit(Low(b[k / 2]));
    }
  }

  /** The digit pair written for byte i parses back to it. */
  lemma PairOfEncoded(b: seq<Byte>, i: int)
    requires 0 <= i < |b|
    ensures HexNibble(HexEncode(b)[2 * i]) == Some(High(b[i]))
    ensures HexNibble(HexEncode(b)[2 * i + 1]) == Some(Low(b[i]))
    ensures PairByte(HexEncode(b), i) == b[i]
  {
    EncodeDigits(b, i);
    NibbleOfDigit(High(b[i]));
    NibbleOfDigit(Low(b[i]));
    JoinSplit(b[i]);
  }

  lemma EncodedPair(s: string, i: int)
    requires HexDecode(s).Ok? && 0 <= i < |s| / 2
    ensures HexEncode(HexDecode(s).value)[2 * i] == LowerHex(s[2 * i])
    ensures HexEncode(HexDecode(s).value)[2 * i + 1] == LowerHex(s[2 * i + 1])
  {
    var b := HexDecode(s).value;
    var x := b[i];
    assert x == PairByte(s, i);
    var hi, lo := HexNibble(s[2 * i]).value, HexNibble(s[2 * i + 1]).value;
    SplitJoin(hi, lo);
    assert High(x) == hi && Low(x) == lo;
    EncodeDigits(b, i);
  }

  /** Encoding what was decoded gives the text back, letters in lower case:
      the parse loses nothing but the case of the digits. */
  lemma EncodeDecoded(s: string)
    requires HexDecode(s).Ok?
    ensures HexEncode(HexDecode(s).value) == seq(|s|, i requires 0 <= i < |s| => LowerHex(s[i]))
  {
    var e := HexEncode(HexDecode(s).value);
    var want := seq(|s|, i requires 0 <= i < |s| => LowerHex(s[i]));
    forall k | 0 <= k < |s|
      ensures e[k] == want[k]
    {
      EncodedPair(s, k / 2);
      assert k == 2 * (k / 2) || k == 2 * (k / 2) + 1;
    }
    assert e == want;
  }
}
