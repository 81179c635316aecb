/** BaseCryptoRandomStream: a bit stream over a Java byte array, reached
    through a sliced ByteBuffer.

    Java byte arrays live in a `Heap` and a stream holds a reference (an index
    into the heap), so two streams over the same array see each other's
    writes exactly as sub-streams do in Java. Bits are numbered least
    significant first inside each byte. The fields mirror the Java object:
    `bitLength`, `reducedBitLength` (0 means "not reduced"), the cursor
    `position`, and, from the concrete subclasses, the array reference, the
    byte offset into it and the `autoMemory` ownership flag. */
module CryptoStreams {
  import opened JavaLang
  import opened Bytes

  /** Every byte array by reference. Java arrays never change length. */
  type Heap = seq<seq<Byte>>

  // TypeSizes is not part of this model; these are the Java primitive sizes.
  const BYTE_BITS: int := 8
  const SHORT_BITS: int := 16
  const INT_BITS: int := 32
  const LONG_BITS: int := 64

  /** The concrete class of a stream object. */
  datatype StreamClass = ByteClass | DefaultClass | StringClass

  /** CryptoRandomStreams, as far as the stream classes report it. */
  datatype StreamType = DefaultStream | StringOfStream

  /** GetCryptoRandomStreamType: the Byte class reports DefaultStream too. */
  function TypeOf(c: StreamClass): (t: StreamType)
    ensures t == StringOfStream <==> c == StringClass
  {
    if c == StringClass then StringOfStream else DefaultStream
  }

  /** ByteBuffer.wrap(array, offset, capacity).slice(): buffer index i is
      array[offset + i]; `limit` starts at `capacity`. */
  datatype Buffer = Buffer(arr: nat, offset: nat, capacity: nat, limit: nat)

  datatype Stream = Stream(
    cls: StreamClass,
    base: Option<nat>,        // baseCryptoStream, null as None
    baseOffset: int,
    buffer: Option<Buffer>,   // cryptoBuffer, null as None
    bitLength: int,
    reducedBitLength: int,
    position: int,
    autoMemory: bool)

  predicate BufferValid(heap: Heap, b: Buffer) {
    b.arr < |heap| && b.offset + b.capacity <= |heap[b.arr]| && b.limit <= b.capacity
  }

  /** Every reference the stream holds is to a live array. */
  predicate Valid(heap: Heap, s: Stream) {
    (s.base.Some? ==> s.base.value < |heap|)
    && (s.buffer.Some? ==> BufferValid(heap, s.buffer.value))
  }

  /** Heaps that differ only in array contents, not in shape. */
  predicate SameShape(h: Heap, h': Heap) {
    |h| == |h'| && forall a :: 0 <= a < |h| ==> |h'[a]| == |h[a]|
  }

  /** h' agrees with h on every byte except array `a`'s indices lo .. hi-1. */
  predicate UnchangedOutside(h: Heap, h': Heap, a: nat, lo: int, hi: int) {
    SameShape(h, h')
    && forall x, j | 0 <= x < |h| && 0 <= j < |h[x]| :: (x == a && lo <= j < hi) || h'[x][j] == h[x][j]
  }

  lemma ValidKept(h: Heap, h': Heap, s: Stream)
    requires SameShape(h, h') && Valid(h, s)
    ensures Valid(h', s)
  {
  }

  /** The default constructor of every stream class. */
  function Empty(c: StreamClass): (s: Stream)
    ensures s.cls == c && s.base.None? && s.buffer.None? && !s.autoMemory
    ensures s.bitLength == 0 && s.reducedBitLength == 0 && s.position == 0 && s.baseOffset == 0
  {
    Stream(c, None, 0, None, 0, 0, 0, false)
  }

  // ---------------------------------------------------------------------
  // ByteBuffer

  /** ByteBuffer.wrap(array, off, len).slice(). */
  function Wrap(heap: Heap, arr: Option<nat>, off: int, len: int): (r: Result<Buffer>)
    requires arr.Some? ==> arr.value < |heap|
    ensures r.Ok? <==> arr.Some? && 0 <= off && 0 <= len && off + len <= |heap[arr.value]|
    ensures r.Err? ==> r.exc == (if arr.None? then NullPointer else IndexOutOfBounds)
    ensures r.Ok? ==> BufferValid(heap, r.value) && r.value.limit == r.value.capacity == len
    ensures r.Ok? ==> r.value.arr == arr.value && r.value.offset == off
  {
    if arr.None? then Err(NullPointer)
    else if off < 0 || len < 0 || off + len > |heap[arr.value]| then Err(IndexOutOfBounds)
    else Ok(Buffer(arr.value, off, len, len))
  }

  /** The bytes a buffer exposes: indices 0 .. limit-1. */
  function Window(heap: Heap, b: Buffer): (w: seq<Byte>)
    requires BufferValid(heap, b)
    ensures |w| == b.limit
    ensures forall i :: 0 <= i < b.limit ==> w[i] == heap[b.arr][b.offset + i]
  {
    heap[b.arr][b.offset .. b.offset + b.limit]
  }

  /** ByteBuffer.get(i): checked against the limit. */
  function Get(heap: Heap, b: Buffer, i: int): (r: Result<Byte>)
    requires BufferValid(heap, b)
    ensures r.Ok? <==> 0 <= i < b.limit
    ensures r.Err? ==> r.exc == IndexOutOfBounds
    ensures r.Ok? ==> r.value == Window(heap, b)[i]
  {
    if 0 <= i < b.limit then Ok(heap[b.arr][b.offset + i]) else Err(IndexOutOfBounds)
  }

  /** ByteBuffer.put(i, v): writes through to the backing array. */
  function Put(heap: Heap, b: Buffer, i: int, v: Byte): (r: Result<Heap>)
    requires BufferValid(heap, b)
    ensures r.Ok? <==> 0 <= i < b.limit
    ensures r.Err? ==> r.exc == IndexOutOfBounds
    ensures r.Ok? ==> UnchangedOutside(heap, r.value, b.arr, b.offset + i, b.offset + i + 1)
    ensures r.Ok? ==> r.value[b.arr][b.offset + i] == v
  {
    if 0 <= i < b.limit then
      Ok(heap[b.arr := heap[b.arr][b.offset + i := v]])
    else Err(IndexOutOfBounds)
  }

  // ---------------------------------------------------------------------
  // Bit access

  /** The Ok condition shared by GetBitPosition and SetBitPosition: a
      buffer exists and the byte index p / 8 (truncated) is below the
      limit. Positions -7..-1 truncate to byte 0. */
  predicate BitAddressable(s: Stream, p: int) {
    s.buffer.Some? && -8 < p && Div(p, 8) < s.buffer.value.limit
  }

  /** GetBitPosition(p). */
  function GetBit(heap: Heap, s: Stream, p: int): (r: Result<Bit>)
    requires Valid(heap, s)
    ensures r.Ok? <==> BitAddressable(s, p)
    ensures r.Err? ==> r.exc == (if s.buffer.None? then NullPointer else IndexOutOfBounds)
  {
    if s.buffer.None? then Err(NullPointer)
    else
      var b :- Get(heap, s.buffer.value, Div(p, BYTE_BITS));
      Ok(ByteBit(b, Rem(p, BYTE_BITS)))
  }

  /** The bit GetBitPosition reads: bit p % 8 (counted from the least
      significant end) of byte p / 8 of the window, and for a negative p
      the top bit of the window's first byte. */
  lemma GetBitReadsWindow(heap: Heap, s: Stream, p: int)
    requires Valid(heap, s) && GetBit(heap, s, p).Ok?
    ensures p >= 0 ==>
      (GetBit(heap, s, p).value == 1 <==> (Window(heap, s.buffer.value)[p / 8] >> (p % 8)) & 1 == 1)
    ensures p < 0 ==>
      (GetBit(heap, s, p).value == 1 <==> Window(heap, s.buffer.value)[0] & 0x80 == 0x80)
  {
  }

  /** SetBitPosition(p, v). */
  function SetBit(heap: Heap, s: Stream, p: int, v: int): (r: Result<Heap>)
    requires Valid(heap, s)
    ensures r.Ok? <==> BitAddressable(s, p)
    ensures r.Err? ==> r.exc == (if s.buffer.None? then NullPointer else IndexOutOfBounds)
    ensures r.Ok? ==> SameShape(heap, r.value)
  {
    if s.buffer.None? then Err(NullPointer)
    else
      var b :- Get(heap, s.buffer.value, Div(p, BYTE_BITS));
      Put(heap, s.buffer.value, Div(p, BYTE_BITS), SetByteBit(b, Rem(p, BYTE_BITS), v))
  }

  /** At a non-negative position, GetBitPosition reads bit p % 8 of the
      backing array's byte offset + p / 8. */
  lemma GetBitReadsArray(heap: Heap, s: Stream, p: int)
    requires Valid(heap, s) && 0 <= p && BitAddressable(s, p)
    ensures var b := s.buffer.value;
      GetBit(heap, s, p) == Ok(ByteBit(heap[b.arr][b.offset + p / 8], p % 8))
  {
    DivAgreesOnNaturals(p, BYTE_BITS);
  }

  /** At a non-negative position, SetBitPosition rewrites exactly the
      backing array's byte offset + p / 8. */
  lemma SetBitWritesArray(heap: Heap, s: Stream, p: int, v: int)
    requires Valid(heap, s) && 0 <= p && BitAddressable(s, p)
    ensures var b := s.buffer.value; var i := b.offset + p / 8;
      SetBit(heap, s, p, v) == Ok(heap[b.arr := heap[b.arr][i := SetByteBit(heap[b.arr][i], p % 8, v)]])
  {
    DivAgreesOnNaturals(p, BYTE_BITS);
  }

  /** After SetBitPosition(p, v) with v a bit and p >= 0, GetBitPosition(p)
      reads v and every other non-negative position of the stream reads
      what it read before. */
  lemma SetThenGet(heap: Heap, s: Stream, p: int, v: int, q: int)
    requires Valid(heap, s) && 0 <= p && 0 <= q && (v == 0 || v == 1)
    requires SetBit(heap, s, p, v).Ok?
    ensures GetBit(SetBit(heap, s, p, v).value, s, p) == Ok(v)
    ensures q != p ==> GetBit(SetBit(heap, s, p, v).value, s, q) == GetBit(heap, s, q)
  {
    SetReadsBack(heap, s, p, v);
    if q != p {
      SetKeepsOther(heap, s, p, v, q);
    }
  }

  lemma SetReadsBack(heap: Heap, s: Stream, p: int, v: int)
    requires Valid(heap, s) && 0 <= p && (v == 0 || v == 1)
    requires SetBit(heap, s, p, v).Ok?
    ensures GetBit(SetBit(heap, s, p, v).value, s, p) == Ok(v)
  {
    var b := s.buffer.value;
    DivAgreesOnNaturals(p, 8);
    SetByteBitReadsBack(heap[b.arr][b.offset + p / 8], p % 8, v);
  }

  lemma SetKeepsOther(heap: Heap, s: Stream, p: int, v: int, q: int)
    requires Valid(heap, s) && 0 <= p && 0 <= q && q != p
    requires SetBit(heap, s, p, v).Ok?
    ensures GetBit(SetBit(heap, s, p, v).value, s, q) == GetBit(heap, s, q)
  {
    DivAgreesOnNaturals(p, 8);
    DivAgreesOnNaturals(q, 8);
    if q / 8 == p / 8 {
      SetKeepsSameByte(heap, s, p, v, q);
    } else {
      SetKeepsOtherBytes(heap, s, p, v, q);
    }
  }

  lemma SetKeepsSameByte(heap: Heap, s: Stream, p: int, v: int, q: int)
    requires Valid(heap, s) && 0 <= p && 0 <= q && q != p && q / 8 == p / 8
    requires SetBit(heap, s, p, v).Ok?
    ensures GetBit(SetBit(heap, s, p, v).value, s, q) == GetBit(heap, s, q)
  {
    var b := s.buffer.value;
    DivAgreesOnNaturals(p, 8);
    DivAgreesOnNaturals(q, 8);
    SetByteBitKeepsOthers(heap[b.arr][b.offset + p / 8], p % 8, q % 8, v);
  }

  lemma SetKeepsOtherBytes(heap: Heap, s: Stream, p: int, v: int, q: int)
    requires Valid(heap, s) && 0 <= p && 0 <= q && q / 8 != p / 8
    requires SetBit(heap, s, p, v).Ok?
    ensures GetBit(SetBit(heap, s, p, v).value, s, q) == GetBit(heap, s, q)
  {
    var b := s.buffer.value;
    DivAgreesOnNaturals(p, 8);
    DivAgreesOnNaturals(q, 8);
    if BitAddressable(s, q) {
      assert SetBit(heap, s, p, v).value[b.arr][b.offset + q / 8] == heap[b.arr][b.offset + q / 8];
    }
  }

  /** A value other than 0 and 1 writes the byte back unchanged. */
  lemma SetNonBitIsNoOp(heap: Heap, s: Stream, p: int, v: int)
    requires Valid(heap, s) && v != 0 && v != 1
    requires SetBit(heap, s, p, v).Ok?
    ensures SetBit(heap, s, p, v).value == heap
  {
    var b := s.buffer.value;
    var i := Div(p, 8);
    SetByteBitIgnores(heap[b.arr][b.offset + i], Rem(p, 8), v);
    assert heap[b.arr][b.offset + i := heap[b.arr][b.offset + i]] == heap[b.arr];
  }

  // ---------------------------------------------------------------------
  // Cursor

  function SetPosition(s: Stream, p: int): (t: Stream)
    ensures t.position == p && t.(position := s.position) == s
  {
    s.(position := p)
  }

  /** GetBitForward: read at the cursor, then advance it. */
  function GetBitForward(heap: Heap, s: Stream): (r: Result<(Bit, Stream)>)
    requires Valid(heap, s)
    ensures r.Ok? <==> BitAddressable(s, s.position)
    ensures r.Err? ==> GetBit(heap, s, s.position).Err? && r.exc == GetBit(heap, s, s.position).exc
    ensures r.Ok? ==> Ok(r.value.0) == GetBit(heap, s, s.position)
    ensures r.Ok? ==> r.value.1 == s.(position := s.position + 1)
  {
    var b :- GetBit(heap, s, s.position);
    Ok((b, s.(position := s.position + 1)))
  }

  /** GetBitReverse: read at the cursor, then move it back. */
  function GetBitReverse(heap: Heap, s: Stream): (r: Result<(Bit, Stream)>)
    requires Valid(heap, s)
    ensures r.Ok? <==> BitAddressable(s, s.position)
    ensures r.Err? ==> GetBit(heap, s, s.position).Err? && r.exc == GetBit(heap, s, s.position).exc
    ensures r.Ok? ==> Ok(r.value.0) == GetBit(heap, s, s.position)
    ensures r.Ok? ==> r.value.1 == s.(position := s.position - 1)
  {
    var b :- GetBit(heap, s, s.position);
    Ok((b, s.(position := s.position - 1)))
  }

  /** SetBitForward: write at the cursor, then advance it. */
  function SetBitForward(heap: Heap, s: Stream, v: int): (r: Result<(Heap, Stream)>)
    requires Valid(heap, s)
    ensures r.Ok? <==> BitAddressable(s, s.position)
    ensures r.Ok? ==> Ok(r.value.0) == SetBit(heap, s, s.position, v)
    ensures r.Ok? ==> r.value.1 == s.(position := s.position + 1)
  {
    var h :- SetBit(heap, s, s.position, v);
    Ok((h, s.(position := s.position + 1)))
  }

  /** SetBitReverse: write at the cursor, then move it back. */
  function SetBitReverse(heap: Heap, s: Stream, v: int): (r: Result<(Heap, Stream)>)
    requires Valid(heap, s)
    ensures r.Ok? <==> BitAddressable(s, s.position)
    ensures r.Ok? ==> Ok(r.value.0) == SetBit(heap, s, s.position, v)
    ensures r.Ok? ==> r.value.1 == s.(position := s.position - 1)
  {
    var h :- SetBit(heap, s, s.position, v);
    Ok((h, s.(position := s.position - 1)))
  }

  /** The first n bits of a stream, read straight from its bytes. */
  function Bits(heap: Heap, s: Stream, n: nat): (bits: seq<Bit>)
    requires Valid(heap, s) && s.buffer.Some? && n <= 8 * s.buffer.value.limit
    ensures |bits| == n
    ensures forall i :: 0 <= i < n ==> Ok(bits[i]) == GetBit(heap, s, i)
  {
    DivBound(n);
    seq(n, i requires 0 <= i < n => ByteBit(Window(heap, s.buffer.value)[i / 8], i % 8))
  }

  /** GetBitPosition(i) yields bits[i] for every index of `bits`. */
  predicate ReadsAs(heap: Heap, s: Stream, bits: seq<Bit>)
    requires Valid(heap, s)
  {
    forall i {:trigger GetBit(heap, s, i)} :: 0 <= i < |bits| ==> GetBit(heap, s, i) == Ok(bits[i])
  }

  lemma DivBound(n: nat)
    ensures forall i :: 0 <= i < n ==> Div(i, 8) == i / 8 && Rem(i, 8) == i % 8 && (i / 8) * 8 <= i
  {
    forall i | 0 <= i < n
      ensures Div(i, 8) == i / 8 && Rem(i, 8) == i % 8 && (i / 8) * 8 <= i
    {
      DivAgreesOnNaturals(i, 8);
    }
  }

  /** m successive GetBitForward calls. */
  function ReadForward(heap: Heap, s: Stream, m: nat): (r: Result<(seq<Bit>, Stream)>)
    requires Valid(heap, s)
    decreases m
  {
    if m == 0 then Ok(([], s))
    else
      var (b, t) :- GetBitForward(heap, s);
      var (rest, u) :- ReadForward(heap, t, m - 1);
      Ok(([b] + rest, u))
  }

  /** m successive GetBitReverse calls. */
  function ReadReverse(heap: Heap, s: Stream, m: nat): (r: Result<(seq<Bit>, Stream)>)
    requires Valid(heap, s)
    decreases m
  {
    if m == 0 then Ok(([], s))
    else
      var (b, t) :- GetBitReverse(heap, s);
      var (rest, u) :- ReadReverse(heap, t, m - 1);
      Ok(([b] + rest, u))
  }

  lemma SliceHead<T>(xs: seq<T>, a: nat, b: nat, m: nat)
    requires 0 < m && a + m <= |xs| && b == a + 1
    ensures xs[a .. a + m] == [xs[a]] + xs[b .. b + (m - 1)]
  {
  }

  /** One step of ReadForward: the first bit, then the rest from the
      advanced cursor. */
  lemma ReadForwardStep(heap: Heap, s: Stream, t: Stream, m: nat, b: Bit, rest: seq<Bit>, u: Stream)
    requires Valid(heap, s) && m > 0 && GetBit(heap, s, s.position) == Ok(b)
    requires t == s.(position := s.position + 1) && Valid(heap, t)
    requires ReadForward(heap, t, m - 1) == Ok((rest, u))
    ensures ReadForward(heap, s, m) == Ok(([b] + rest, u))
  {
  }

  /** GetBitPosition does not look at the cursor. */
  lemma GetBitIgnoresCursor(heap: Heap, s: Stream, p: int, i: int)
    requires Valid(heap, s)
    ensures GetBit(heap, s.(position := p), i) == GetBit(heap, s, i)
  {
  }

  /** Reading forward m bits from the cursor of a stream whose positions
      read as `bits` yields the next m entries of `bits`. */
  lemma {:induction false} ForwardReads(heap: Heap, s: Stream, m: nat, bits: seq<Bit>)
    requires Valid(heap, s) && 0 <= s.position && s.position + m <= |bits|
    requires forall i {:trigger GetBit(heap, s, i)} :: s.position <= i < s.position + m ==> GetBit(heap, s, i) == Ok(bits[i])
    ensures ReadForward(heap, s, m) == Ok((bits[s.position .. s.position + m], s.(position := s.position + m)))
    decreases m, 1
  {
    if m > 0 {
      var t := s.(position := s.position + 1);
      ReadsAfterMove(heap, s, t, s.position, s.position + m - 1, bits);
      ForwardReadsStep(heap, s, t, m, bits);
    } else {
      assert bits[s.position .. s.position + m] == [];
      assert s.(position := s.position + m) == s;
    }
  }

  /** Reading backward m bits from the cursor yields the entries at the
      cursor, the one before it, and so on. */
  lemma {:induction false} ReverseReads(heap: Heap, s: Stream, m: nat, bits: seq<Bit>)
    requires Valid(heap, s) && s.position < |bits| && m <= s.position + 1
    requires forall i {:trigger GetBit(heap, s, i)} :: s.position - m < i <= s.position ==> GetBit(heap, s, i) == Ok(bits[i])
    ensures ReadReverse(heap, s, m).Ok?
    ensures ReadReverse(heap, s, m).value.1 == s.(position := s.position - m)
    ensures |ReadReverse(heap, s, m).value.0| == m
    ensures Descending(ReadReverse(heap, s, m).value.0, bits, s.position)
    decreases m
  {
    if m > 0 {
      var t := s.(position := s.position - 1);
      ReadsAfterMove(heap, s, t, s.position - m, s.position - 1, bits);
      ReverseReads(heap, t, m - 1, bits);
      ReverseReadsStep(heap, s, t, m, bits);
    } else {
      assert s.(position := s.position - m) == s;
    }
  }

  /** The inductive step of ReverseReads: the bit at the cursor, then what
      m - 1 reads from the cursor moved back give. */
  lemma ReverseReadsStep(heap: Heap, s: Stream, t: Stream, m: nat, bits: seq<Bit>)
    requires Valid(heap, s) && 0 < m <= s.position + 1 && s.position < |bits|
    requires t == s.(position := s.position - 1)
    requires GetBit(heap, s, s.position) == Ok(bits[s.position])
    requires ReadReverse(heap, t, m - 1).Ok?
    requires ReadReverse(heap, t, m - 1).value.1 == t.(position := t.position - (m - 1))
    requires |ReadReverse(heap, t, m - 1).value.0| == m - 1
    requires Descending(ReadReverse(heap, t, m - 1).value.0, bits, t.position)
    ensures ReadReverse(heap, s, m).Ok?
    ensures ReadReverse(heap, s, m).value.1 == s.(position := s.position - m)
    ensures |ReadReverse(heap, s, m).value.0| == m
    ensures Descending(ReadReverse(heap, s, m).value.0, bits, s.position)
  {
    var rest, u := ReadReverse(heap, t, m - 1).value.0, ReadReverse(heap, t, m - 1).value.1;
    var b := bits[s.position];
    ReadReverseStep(heap, s, m, b, rest, u);
    ConsDescending(b, rest, bits, s.position, t.position);
  }

  /** The inductive step of ForwardReads: the bit at the cursor, then what
      m - 1 reads from the advanced cursor give. */
  lemma {:induction false} ForwardReadsStep(heap: Heap, s: Stream, t: Stream, m: nat, bits: seq<Bit>)
    requires Valid(heap, s) && 0 < m && 0 <= s.position && s.position + m <= |bits|
    requires t == s.(position := s.position + 1)
    requires GetBit(heap, s, s.position) == Ok(bits[s.position])
    requires Valid(heap, t)
    requires forall i {:trigger GetBit(heap, t, i)} :: t.position <= i < t.position + (m - 1) ==> GetBit(heap, t, i) == Ok(bits[i])
    ensures ReadForward(heap, s, m) == Ok((bits[s.position .. s.position + m], s.(position := s.position + m)))
    decreases m, 0
  {
    ForwardReads(heap, t, m - 1, bits);
    ForwardJoin(heap, s, t, m, bits);
  }

  /** The bit at the cursor followed by the next m - 1 bits read from the
      advanced cursor are the m bits from the cursor on. */
  lemma {:induction false} ForwardJoin(heap: Heap, s: Stream, t: Stream, m: nat, bits: seq<Bit>)
    requires Valid(heap, s) && 0 < m && 0 <= s.position && s.position + m <= |bits|
    requires t == s.(position := s.position + 1) && Valid(heap, t)
    requires GetBit(heap, s, s.position) == Ok(bits[s.position])
    requires ReadForward(heap, t, m - 1) == Ok((bits[t.position .. t.position + (m - 1)], t.(position := t.position + (m - 1))))
    ensures ReadForward(heap, s, m) == Ok((bits[s.position .. s.position + m], s.(position := s.position + m)))
  {
    var rest := bits[t.position .. t.position + (m - 1)];
    var u := t.(position := t.position + (m - 1));
    ReadForwardStep(heap, s, t, m, bits[s.position], rest, u);
    SliceHead(bits, s.position, t.position, m);
    assert u == s.(position := s.position + m);
  }

  /** Moving the cursor leaves what every position reads. */
  lemma ReadsAfterMove(heap: Heap, s: Stream, t: Stream, lo: int, hi: int, bits: seq<Bit>)
    requires Valid(heap, s) && t == s.(position := t.position) && -1 <= lo && hi < |bits|
    requires forall i {:trigger GetBit(heap, s, i)} :: lo < i <= hi ==> GetBit(heap, s, i) == Ok(bits[i])
    ensures Valid(heap, t)
    ensures forall i {:trigger GetBit(heap, t, i)} :: lo < i <= hi ==> GetBit(heap, t, i) == Ok(bits[i])
  {
    forall i | lo < i <= hi
      ensures GetBit(heap, t, i) == Ok(bits[i])
    {
      GetBitIgnoresCursor(heap, s, t.position, i);
    }
  }

  /** r is bits[q], bits[q - 1], .., bits[q - |r| + 1]: bits read downward
      from q. */
  predicate Descending(r: seq<Bit>, bits: seq<Bit>, q: int) {
    q < |bits| && |r| <= q + 1 && forall i :: 0 <= i < |r| ==> r[i] == bits[q - i]
  }

  /** bits[q] in front of bits read downward from q - 1. */
  lemma ConsDescending(b: Bit, rest: seq<Bit>, bits: seq<Bit>, q: int, p: int)
    requires 0 <= q < |bits| && b == bits[q] && p == q - 1
    requires Descending(rest, bits, p)
    ensures Descending([b] + rest, bits, q)
  {
    var r := [b] + rest;
    assert forall i :: 1 <= i < |r| ==> r[i] == rest[i - 1];
  }

  /** One step of ReadReverse: the bit at the cursor, then the rest from
      the cursor moved back. */
  lemma ReadReverseStep(heap: Heap, s: Stream, m: nat, b: Bit, rest: seq<Bit>, u: Stream)
    requires Valid(heap, s) && m > 0 && GetBit(heap, s, s.position) == Ok(b)
    requires ReadReverse(heap, s.(position := s.position - 1), m - 1) == Ok((rest, u))
    ensures ReadReverse(heap, s, m) == Ok(([b] + rest, u))
  {
  }

  /** Reading forward from q visits bits q .. q+m-1 in order and leaves the
      cursor at q + m; nothing else in the stream changes. */
  lemma ForwardReadsBits(heap: Heap, s: Stream, m: nat, n: nat)
    requires Valid(heap, s) && s.buffer.Some? && n <= 8 * s.buffer.value.limit
    requires 0 <= s.position && s.position + m <= n
    ensures ReadForward(heap, s, m).Ok?
    ensures ReadForward(heap, s, m).value.1 == s.(position := s.position + m)
    ensures ReadForward(heap, s, m).value.0 == Bits(heap, s, n)[s.position .. s.position + m]
  {
    ForwardReads(heap, s, m, Bits(heap, s, n));
  }

  /** Reading backward from q visits q, q-1, .., q-m+1 and leaves the
      cursor at q - m. */
  lemma ReverseReadsBits(heap: Heap, s: Stream, m: nat, n: nat)
    requires Valid(heap, s) && s.buffer.Some? && n <= 8 * s.buffer.value.limit
    requires s.position < n && m <= s.position + 1
    ensures ReadReverse(heap, s, m).Ok?
    ensures ReadReverse(heap, s, m).value.1 == s.(position := s.position - m)
    ensures var bits := ReadReverse(heap, s, m).value.0;
      |bits| == m && forall i :: 0 <= i < m ==> bits[i] == Bits(heap, s, n)[s.position - i]
  {
    ReverseReads(heap, s, m, Bits(heap, s, n));
  }

  // ---------------------------------------------------------------------
  // Lengths

  /** The units lengths are counted in. */
  datatype Unit = UC | US | UL

  function UnitBits(u: Unit): int {
    match u
    case UC => BYTE_BITS
    case US => SHORT_BITS
    case UL => INT_BITS
  }

  function UnitBytes(u: Unit): int { UnitBits(u) / BYTE_BITS }

  /** Every unit is a whole, positive number of bytes. */
  lemma UnitIsWholeBytes(u: Unit)
    ensures UnitBytes(u) >= 1 && UnitBits(u) == BYTE_BITS * UnitBytes(u)
  {
  }

  /** GetBitLength: the reduced length when one is set, else the true one. */
  function GetBitLength(s: Stream): (n: int)
    ensures s.reducedBitLength != 0 ==> n == s.reducedBitLength
    ensures s.reducedBitLength == 0 ==> n == s.bitLength
  {
    if s.reducedBitLength != 0 then s.reducedBitLength else s.bitLength
  }

  /** GetUCLength / GetUSLength / GetULLength: whole units in GetBitLength,
      truncated toward zero. */
  function GetLength(s: Stream, u: Unit): (n: int)
    ensures Abs(n) * UnitBits(u) <= Abs(GetBitLength(s)) < (Abs(n) + 1) * UnitBits(u)
    ensures GetBitLength(s) >= 0 ==> n >= 0
  {
    Div(GetBitLength(s), UnitBits(u))
  }

  /** ReducedLength(). */
  predicate ReducedLength(s: Stream) { s.reducedBitLength != 0 }

  /** ReduceBitLength(value). */
  function ReduceBitLength(s: Stream, value: int): (t: Stream)
    ensures t.(reducedBitLength := s.reducedBitLength) == s
    ensures t.reducedBitLength == GetBitLength(s) - value
  {
    if s.reducedBitLength != 0 then s.(reducedBitLength := s.reducedBitLength - value)
    else s.(reducedBitLength := s.bitLength - value)
  }

  /** The factor each Reduce*Length multiplies its argument by. The UL
      variant uses LONG_BITS although GetULLength divides by INT_BITS. */
  function ReduceScale(u: Unit): int {
    match u
    case UC => BYTE_BITS
    case US => SHORT_BITS
    case UL => LONG_BITS
  }

  /** ReduceUCLength / ReduceUSLength / ReduceULLength. */
  function ReduceLength(s: Stream, u: Unit, value: int): (t: Stream)
    ensures t.(reducedBitLength := s.reducedBitLength) == s
    ensures t.reducedBitLength == GetBitLength(s) - value * ReduceScale(u)
  {
    if s.reducedBitLength != 0 then s.(reducedBitLength := s.reducedBitLength - value * ReduceScale(u))
    else s.(reducedBitLength := s.bitLength - value * ReduceScale(u))
  }

  /** RestoreLength(). */
  function RestoreLength(s: Stream): (t: Stream)
    ensures GetBitLength(t) == s.bitLength && !ReducedLength(t)
    ensures t.(reducedBitLength := s.reducedBitLength) == s
  {
    s.(reducedBitLength := 0)
  }

  /** Reductions accumulate: a second reduction subtracts from the first,
      unless the first landed exactly on 0, which reads as "not reduced" and
      makes the next one start again from the true length. */
  lemma ReductionsAccumulate(s: Stream, a: int, b: int)
    ensures GetBitLength(s) - a != 0 ==>
      ReduceBitLength(ReduceBitLength(s, a), b).reducedBitLength == GetBitLength(s) - a - b
    ensures GetBitLength(s) - a == 0 ==>
      ReduceBitLength(ReduceBitLength(s, a), b).reducedBitLength == s.bitLength - b
  {
  }

  /** A reduction to exactly 0 bits reads back as the full length. */
  lemma ReductionToZeroIsFullLength(s: Stream)
    ensures GetBitLength(ReduceBitLength(s, GetBitLength(s))) == s.bitLength
    ensures !ReducedLength(ReduceBitLength(s, GetBitLength(s)))
  {
  }

  /** Reduce followed by Restore gives back the unreduced stream. */
  lemma ReduceThenRestore(s: Stream, u: Unit, value: int)
    ensures RestoreLength(ReduceLength(s, u, value)) == RestoreLength(s)
    ensures RestoreLength(ReduceBitLength(s, value)) == RestoreLength(s)
    ensures GetBitLength(RestoreLength(ReduceBitLength(s, value))) == s.bitLength
  {
  }

  /** ReduceULLength(1) on an unreduced stream of k >= 3 ints removes two
      ints from GetULLength, not one. */
  lemma ULReductionRemovesTwoInts(s: Stream, k: int)
    requires s.reducedBitLength == 0 && k >= 3 && s.bitLength == 32 * k
    ensures GetLength(ReduceLength(s, UL, 1), UL) == GetLength(s, UL) - 2
  {
    DivAgreesOnNaturals(32 * k, 32);
    DivAgreesOnNaturals(32 * k - 64, 32);
    assert (32 * k - 64) / 32 == k - 2;
    assert (32 * k) / 32 == k;
  }

  // ---------------------------------------------------------------------
  // Fill, Equals, Copy

  /** The heap with the window of b overwritten by v. */
  function FillWindow(heap: Heap, b: Buffer, v: Byte): (h: Heap)
    requires BufferValid(heap, b)
    ensures UnchangedOutside(heap, h, b.arr, b.offset, b.offset + b.limit)
    ensures BufferValid(h, b) && forall i :: 0 <= i < b.limit ==> Window(h, b)[i] == v
  {
    var arr := heap[b.arr];
    heap[b.arr := arr[.. b.offset] + seq(b.limit, _ => v) + arr[b.offset + b.limit ..]]
  }

  /** FillUC(v): every byte up to the limit becomes v. */
  function FillUC(heap: Heap, s: Stream, v: Byte): (r: Result<Heap>)
    requires Valid(heap, s)
    ensures r.Ok? <==> s.buffer.Some?
    ensures r.Err? ==> r.exc == NullPointer
    ensures r.Ok? ==> Valid(r.value, s)
    ensures r.Ok? ==> forall i :: 0 <= i < s.buffer.value.limit ==> Window(r.value, s.buffer.value)[i] == v
    ensures r.Ok? ==> var b := s.buffer.value; UnchangedOutside(heap, r.value, b.arr, b.offset, b.offset + b.limit)
  {
    if s.buffer.None? then Err(NullPointer) else Ok(FillWindow(heap, s.buffer.value, v))
  }

  /** FillBit(bit): 0 clears every bit up to the limit; any other value, not
      only 1, sets every bit. */
  function FillBit(heap: Heap, s: Stream, bit: int): (r: Result<Heap>)
    requires Valid(heap, s)
    ensures r.Ok? <==> s.buffer.Some?
    ensures r.Ok? ==> Valid(r.value, s) && forall p :: 0 <= p < 8 * s.buffer.value.limit ==>
      GetBit(r.value, s, p) == Ok(if bit == 0 then 0 else 1)
  {
    var r := FillUC(heap, s, if bit == 0 then 0x00 else 0xff);
    if r.Ok? then
      DivBound(8 * s.buffer.value.limit);
      r
    else r
  }

  /** The bytes Equals compares: for a reduced stream, the first
      GetUCLength bytes; otherwise everything up to the limit. */
  function Compared(heap: Heap, s: Stream): (r: Result<seq<Byte>>)
    requires Valid(heap, s)
    ensures r.Ok? <==> s.buffer.Some? && (ReducedLength(s) ==> 0 <= GetLength(s, UC) <= s.buffer.value.capacity)
    ensures r.Err? ==> r.exc == (if s.buffer.None? then NullPointer else IllegalArgument)
  {
    if s.buffer.None? then Err(NullPointer)
    else
      var b := s.buffer.value;
      if !ReducedLength(s) then Ok(Window(heap, b))
      else if GetLength(s, UC) < 0 || GetLength(s, UC) > b.capacity then Err(IllegalArgument)
      else Ok(Window(heap, b.(limit := GetLength(s, UC))))
  }

  /** Equals(other): false for null or a different GetBitLength; otherwise
      the compared bytes must agree. The limits narrowed for the comparison
      are put back, save in the case BufferAfterEquals describes. */
  function Equals(heap: Heap, s: Stream, other: Option<Stream>): (r: Result<bool>)
    requires Valid(heap, s) && (other.Some? ==> Valid(heap, other.value))
    ensures other.None? ==> r == Ok(false)
    ensures other.Some? && GetBitLength(s) != GetBitLength(other.value) ==> r == Ok(false)
    ensures r == Ok(true) ==>
      other.Some? && GetBitLength(s) == GetBitLength(other.value)
      && Compared(heap, s).Ok? && Compared(heap, s) == Compared(heap, other.value)
    ensures other.Some? && GetBitLength(s) == GetBitLength(other.value) ==>
      (r.Ok? <==> Compared(heap, s).Ok? && Compared(heap, other.value).Ok?)
    ensures other.Some? && GetBitLength(s) == GetBitLength(other.value) && r.Ok? ==>
      (r.value <==> Compared(heap, s).value == Compared(heap, other.value).value)
  {
    if other.None? then Ok(false)
    else if GetBitLength(s) != GetBitLength(other.value) then Ok(false)
    else
      var mine :- Compared(heap, s);
      var theirs :- Compared(heap, other.value);
      Ok(mine == theirs)
  }

  /** The buffer of s after s.Equals(other), where otherIsSelf says that
      other is s itself. Each side saves its limit before narrowing it, but
      when other is s the second save reads the limit the first side has
      already narrowed, and the final restore writes that narrowed limit
      back: a reduced stream compared with itself keeps only its GetUCLength
      bytes in view. A failed narrowing throws before changing the limit. */
  function BufferAfterEquals(heap: Heap, s: Stream, otherIsSelf: bool): (b: Option<Buffer>)
    requires Valid(heap, s)
    ensures b.Some? <==> s.buffer.Some?
    ensures b.Some? ==> BufferValid(heap, b.value) && b.value.(limit := s.buffer.value.limit) == s.buffer.value
    ensures otherIsSelf && Compared(heap, s).Ok? ==> Window(heap, b.value) == Compared(heap, s).value
    ensures !otherIsSelf || !ReducedLength(s) ==> b == s.buffer
  {
    if otherIsSelf && ReducedLength(s) && Compared(heap, s).Ok? then
      Some(s.buffer.value.(limit := GetLength(s, UC)))
    else s.buffer
  }

  /** A reduced stream whose GetUCLength is below its limit loses the rest
      of its window by being compared with itself, while comparing it with
      another stream leaves its buffer alone. */
  lemma SelfEqualsNarrows(heap: Heap, s: Stream)
    requires Valid(heap, s) && s.buffer.Some? && ReducedLength(s)
    requires 0 <= GetLength(s, UC) < s.buffer.value.limit
    ensures Equals(heap, s, Some(s)) == Ok(true)
    ensures BufferAfterEquals(heap, s, true).value.limit == GetLength(s, UC) < s.buffer.value.limit
    ensures BufferAfterEquals(heap, s, false) == s.buffer
  {
  }

  /** Equals is symmetric. */
  lemma EqualsSymmetric(heap: Heap, s: Stream, t: Stream)
    requires Valid(heap, s) && Valid(heap, t)
    requires Equals(heap, s, Some(t)).Ok? && Equals(heap, t, Some(s)).Ok?
    ensures Equals(heap, s, Some(t)) == Equals(heap, t, Some(s))
  {
  }

  /** A stream with a buffer equals itself (when a reduced length fits the
      capacity). */
  lemma EqualsReflexive(heap: Heap, s: Stream)
    requires Valid(heap, s) && s.buffer.Some?
    requires ReducedLength(s) ==> 0 <= GetLength(s, UC) <= s.buffer.value.capacity
    ensures Equals(heap, s, Some(s)) == Ok(true)
  {
  }

  /** The copy loop from index i on: target.put(i, source.get(i)). */
  function CopyFrom(heap: Heap, src: Buffer, dst: Buffer, i: nat): (r: Result<Heap>)
    requires BufferValid(heap, src) && BufferValid(heap, dst)
    ensures r.Ok? ==> SameShape(heap, r.value)
    decreases src.limit - i
  {
    if i >= src.limit then Ok(heap)
    else
      var v := heap[src.arr][src.offset + i];
      var h :- Put(heap, dst, i, v);
      CopyFrom(h, src, dst, i + 1)
  }

  /** Copy(target). */
  function Copy(heap: Heap, s: Stream, target: Option<Stream>): (r: Result<Heap>)
    requires Valid(heap, s) && (target.Some? ==> Valid(heap, target.value))
    ensures target.None? ==> r == Err(NullPointer)
    ensures target.Some? && GetLength(s, UC) != GetLength(target.value, UC) ==> r == Err(OutOfMemory)
    ensures r.Ok? ==> SameShape(heap, r.value)
  {
    if target.None? then Err(NullPointer)
    else if GetLength(s, UC) != GetLength(target.value, UC) then Err(OutOfMemory)
    else if s.buffer.None? then Err(NullPointer)
    else if s.buffer.value.limit == 0 then Ok(heap)
    else if target.value.buffer.None? then Err(NullPointer)
    else CopyFrom(heap, s.buffer.value, target.value.buffer.value, 0)
  }

  /** Source bytes [i, n) and target bytes [i, n) occupy different memory. */
  predicate Apart(src: Buffer, dst: Buffer) {
    src.arr != dst.arr
    || src.offset + src.limit <= dst.offset
    || dst.offset + src.limit <= src.offset
  }

  lemma {:induction false} CopyFromCopies(heap: Heap, src: Buffer, dst: Buffer, i: nat)
    requires BufferValid(heap, src) && BufferValid(heap, dst) && Apart(src, dst)
    requires src.limit <= dst.limit
    ensures CopyFrom(heap, src, dst, i).Ok?
    ensures var h := CopyFrom(heap, src, dst, i).value;
      BufferValid(h, dst) && forall k :: i <= k < src.limit ==> Window(h, dst)[k] == Window(heap, src)[k]
    ensures UnchangedOutside(heap, CopyFrom(heap, src, dst, i).value, dst.arr, dst.offset + i, dst.offset + src.limit)
    decreases src.limit - i
  {
    if i < src.limit {
      var h := Put(heap, dst, i, heap[src.arr][src.offset + i]).value;
      CopyFromStep(heap, src, dst, i);
      CopyFromCopies(h, src, dst, i + 1);
      var h2 := CopyFrom(h, src, dst, i + 1).value;
      UnchangedCompose(heap, h, h2, dst.arr, dst.offset + i, dst.offset + i + 1, dst.offset + src.limit);
      CopiedWindow(heap, h, h2, src, dst, i);
    } else {
      assert CopyFrom(heap, src, dst, i) == Ok(heap);
    }
  }

  /** One round of the copy loop: put byte i, then go on from i + 1. */
  lemma CopyFromStep(heap: Heap, src: Buffer, dst: Buffer, i: nat)
    requires BufferValid(heap, src) && BufferValid(heap, dst) && i < src.limit <= dst.limit
    ensures Put(heap, dst, i, heap[src.arr][src.offset + i]).Ok?
    ensures CopyFrom(heap, src, dst, i) == CopyFrom(Put(heap, dst, i, heap[src.arr][src.offset + i]).value, src, dst, i + 1)
  {
  }

  /** Two writes to adjacent ranges of one array change nothing outside
      their union. */
  lemma UnchangedCompose(h0: Heap, h1: Heap, h2: Heap, a: nat, lo: int, mid: int, hi: int)
    requires lo <= mid <= hi
    requires UnchangedOutside(h0, h1, a, lo, mid) && UnchangedOutside(h1, h2, a, mid, hi)
    ensures UnchangedOutside(h0, h2, a, lo, hi)
  {
  }

  /** After byte i is put and bytes i + 1 .. are copied, the target's
      window from i on holds the source's bytes from i on. */
  lemma CopiedWindow(heap: Heap, h: Heap, h2: Heap, src: Buffer, dst: Buffer, i: nat)
    requires BufferValid(heap, src) && BufferValid(heap, dst) && Apart(src, dst) && i < src.limit <= dst.limit
    requires UnchangedOutside(heap, h, dst.arr, dst.offset + i, dst.offset + i + 1)
    requires h[dst.arr][dst.offset + i] == heap[src.arr][src.offset + i]
    requires UnchangedOutside(h, h2, dst.arr, dst.offset + i + 1, dst.offset + src.limit)
    requires BufferValid(h, src) && BufferValid(h2, dst)
    requires forall k :: i + 1 <= k < src.limit ==> Window(h2, dst)[k] == Window(h, src)[k]
    ensures forall k :: i <= k < src.limit ==> Window(h2, dst)[k] == Window(heap, src)[k]
  {
    forall k | i <= k < src.limit
      ensures Window(h2, dst)[k] == Window(heap, src)[k]
    {
      if k == i {
        assert h2[dst.arr][dst.offset + i] == h[dst.arr][dst.offset + i];
      } else {
        assert h[src.arr][src.offset + k] == heap[src.arr][src.offset + k];
      }
    }
  }

  /** The copy loop stops with IndexOutOfBounds at the target's limit when
      the source has more bytes than the target exposes. */
  lemma {:induction false} CopyFromOverruns(heap: Heap, src: Buffer, dst: Buffer, i: nat)
    requires BufferValid(heap, src) && BufferValid(heap, dst)
    requires i <= dst.limit < src.limit
    ensures CopyFrom(heap, src, dst, i) == Err(IndexOutOfBounds)
    decreases src.limit - i
  {
    if i < dst.limit {
      var h := Put(heap, dst, i, heap[src.arr][src.offset + i]).value;
      CopyFromOverruns(h, src, dst, i + 1);
    }
  }

  /** Copy succeeds exactly when both buffers exist (or the source is empty)
      and the source limit fits the target's; between separate memory it
      then copies every source byte and touches nothing else. */
  lemma CopySemantics(heap: Heap, s: Stream, t: Stream)
    requires Valid(heap, s) && Valid(heap, t) && s.buffer.Some? && t.buffer.Some?
    requires GetLength(s, UC) == GetLength(t, UC)
    ensures Copy(heap, s, Some(t)).Ok? <==> s.buffer.value.limit <= t.buffer.value.limit || s.buffer.value.limit == 0
    ensures Copy(heap, s, Some(t)).Ok? && Apart(s.buffer.value, t.buffer.value) ==>
      var h := Copy(heap, s, Some(t)).value;
      var tb := t.buffer.value;
      BufferValid(h, tb)
      && (forall k :: 0 <= k < s.buffer.value.limit ==> Window(h, tb)[k] == Window(heap, s.buffer.value)[k])
      && UnchangedOutside(heap, h, tb.arr, tb.offset, tb.offset + s.buffer.value.limit)
  {
    var sb, tb := s.buffer.value, t.buffer.value;
    if sb.limit > 0 {
      if sb.limit <= tb.limit {
        if Apart(sb, tb) {
          CopyFromCopies(heap, sb, tb, 0);
        } else {
          CopyFromSucceeds(heap, sb, tb, 0);
        }
      } else {
        CopyFromOverruns(heap, sb, tb, 0);
      }
    }
  }

  lemma {:induction false} CopyFromSucceeds(heap: Heap, src: Buffer, dst: Buffer, i: nat)
    requires BufferValid(heap, src) && BufferValid(heap, dst) && src.limit <= dst.limit
    ensures CopyFrom(heap, src, dst, i).Ok?
    decreases src.limit - i
  {
    if i < src.limit {
      var h := Put(heap, dst, i, heap[src.arr][src.offset + i]).value;
      CopyFromSucceeds(h, src, dst, i + 1);
    }
  }
}
