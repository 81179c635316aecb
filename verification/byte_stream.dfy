/** ByteCryptoRandomStream. DefaultCryptoRandomStream and
    StringCryptoRandomStream repeat its constructors, setters, finalize and
    sub-stream views line for line, so they are defined once here over the
    stream's class; the only difference between the copies is the class a
    sub-stream target is cast to. */
module ByteStreams {
  import opened JavaLang
  import opened Bytes
  import opened CryptoStreams

  /** Bytes needed for a bit count: bits / 8, plus one when bits % 8 != 0,
      both truncating. */
  function ByteLengthFor(bits: int): (n: int)
    ensures bits >= 0 ==> n >= 0 && 8 * (n - 1) < bits <= 8 * n
    ensures -8 < bits < 0 ==> n == 1
  {
    Div(bits, BYTE_BITS) + (if Rem(bits, BYTE_BITS) != 0 then 1 else 0)
  }

  /** Dropping k whole bytes of bits drops exactly k bytes. */
  lemma ByteLengthShift(bits: int, k: int)
    requires 0 <= 8 * k <= bits
    ensures ByteLengthFor(bits - 8 * k) == ByteLengthFor(bits) - k
  {
    var n, m := ByteLengthFor(bits), ByteLengthFor(bits - 8 * k);
    assert 8 * (n - 1) < bits <= 8 * n;
    assert 8 * (m - 1) < bits - 8 * k <= 8 * m;
  }

  /** `new byte[len]`: a fresh zeroed array at the end of the heap. */
  function Alloc(heap: Heap, len: int): (r: Result<(Heap, nat)>)
    ensures r.Ok? <==> len >= 0
    ensures r.Err? ==> r.exc == NegativeArraySize
    ensures r.Ok? ==> var (h, a) := r.value;
      a == |heap| && |h| == a + 1 && h[..a] == heap && |h[a]| == len
      && forall i :: 0 <= i < len ==> h[a][i] == 0
  {
    if len < 0 then Err(NegativeArraySize) else Ok((heap + [seq(len, _ => 0)], |heap|))
  }

  lemma AllocKeepsValid(heap: Heap, h: Heap, s: Stream)
    requires Valid(heap, s) && |h| >= |heap| && h[..|heap|] == heap
    ensures Valid(h, s)
  {
    if s.buffer.Some? {
      assert h[s.buffer.value.arr] == heap[s.buffer.value.arr];
    }
  }

  /** How the int-argument setters size a stream: in bits, or in UC, US or
      UL units. */
  datatype Sizing = InBits | InUnits(u: Unit)

  function SizedBytes(z: Sizing, n: int): int {
    match z
    case InBits => ByteLengthFor(n)
    case InUnits(u) => n * UnitBytes(u)
  }

  function SizedBits(z: Sizing, n: int): int {
    match z
    case InBits => n
    case InUnits(u) => n * UnitBits(u)
  }

  /** A stream that owns a fresh zeroed array of `len` bytes. */
  function Owning(c: StreamClass, reduced: int, a: nat, len: nat, bits: int): Stream {
    Stream(c, Some(a), 0, Some(Buffer(a, 0, len, len)), bits, reduced, 0, true)
  }

  /** A fresh array holding `bytes`, owned by a new stream of `bits` bits:
      how the text parsers finish. Bit p is bit p % 8 of byte p / 8. */
  function AllocHolding(heap: Heap, c: StreamClass, reduced: int, bytes: seq<Byte>, bits: int)
    : (r: (Heap, Stream))
    ensures var (h, s) := r;
      |h| == |heap| + 1 && h[..|heap|] == heap && Valid(h, s)
      && s == Owning(c, reduced, |heap|, |bytes|, bits) && Window(h, s.buffer.value) == bytes
    ensures forall p :: 0 <= p < 8 * |bytes| ==> GetBit(r.0, r.1, p) == Ok(ByteBit(bytes[p / 8], p % 8))
  {
    var h := heap + [bytes];
    var s := Owning(c, reduced, |heap|, |bytes|, bits);
    assert Window(h, s.buffer.value) == bytes;
    DivBound(8 * |bytes|);
    (h, s)
  }

  /** The bit-length constructor: ceil(n / 8) zeroed bytes, owned. */
  function NewStream(heap: Heap, c: StreamClass, n: int): (r: Result<(Heap, Stream)>)
    ensures r.Ok? <==> ByteLengthFor(n) >= 0
    ensures r.Err? ==> r.exc == NegativeArraySize
    ensures r.Ok? ==> var (h, s) := r.value;
      |h| == |heap| + 1 && h[..|heap|] == heap && Valid(h, s) && s.base == Some(|heap|) && s.buffer.Some?
      && s.cls == c && s.bitLength == n && s.reducedBitLength == 0 && s.position == 0
      && s.baseOffset == 0 && s.autoMemory
      && s.buffer.value.limit == |h[|heap|]| == ByteLengthFor(n)
      && forall p :: 0 <= p < 8 * ByteLengthFor(n) ==> GetBit(h, s, p) == Ok(0)
  {
    var len := ByteLengthFor(n);
    var (h, a) :- Alloc(heap, len);
    var s := Owning(c, 0, a, len, n);
    DivBound(8 * len);
    Ok((h, s))
  }

  /** The borrowing constructor (byte[] stream, int n): a null array gives
      the empty stream; otherwise the first ceil(n / 8) bytes are wrapped,
      not copied and not owned. */
  function NewBorrowing(heap: Heap, c: StreamClass, arr: Option<nat>, n: int): (r: Result<Stream>)
    requires arr.Some? ==> arr.value < |heap|
    ensures arr.None? ==> r == Ok(Empty(c))
    ensures arr.Some? ==> (r.Ok? <==> 0 <= ByteLengthFor(n) <= |heap[arr.value]|)
    ensures r.Err? ==> r.exc == IndexOutOfBounds
    ensures r.Ok? && arr.Some? ==> var s := r.value;
      Valid(heap, s) && s.base == arr && s.buffer.Some? && s.buffer.value.arr == arr.value && s.buffer.value.offset == 0
      && s.bitLength == n && s.position == 0 && s.baseOffset == 0 && !s.autoMemory
  {
    if arr.None? then Ok(Empty(c))
    else
      var b :- Wrap(heap, arr, 0, ByteLengthFor(n));
      Ok(Stream(c, arr, 0, Some(b), n, 0, 0, false))
  }

  /** SetCryptoRandomStreamBit/UC/US/UL(int n): only a stream without an
      array gets one; the reduced length is not touched. */
  function SetAllocated(heap: Heap, s: Stream, z: Sizing, n: int): (r: Result<(Heap, Stream)>)
    requires Valid(heap, s)
    ensures s.base.Some? ==> r == Ok((heap, s))
    ensures s.base.None? ==> (r.Ok? <==> SizedBytes(z, n) >= 0)
    ensures r.Err? ==> r.exc == NegativeArraySize
    ensures r.Ok? && s.base.None? ==> var (h, t) := r.value;
      |h| == |heap| + 1 && h[..|heap|] == heap && Valid(h, t) && t.base == Some(|heap|) && t.buffer.Some?
      && |h[|heap|]| == SizedBytes(z, n) && t.buffer.value.limit == SizedBytes(z, n)
      && t.bitLength == SizedBits(z, n) && t.autoMemory && t.position == 0 && t.baseOffset == 0
      && t.reducedBitLength == s.reducedBitLength && t.cls == s.cls
  {
    if s.base.Some? then Ok((heap, s))
    else
      var len := SizedBytes(z, n);
      var (h, a) :- Alloc(heap, len);
      Ok((h, Owning(s.cls, s.reducedBitLength, a, len, SizedBits(z, n))))
  }

  /** SetCryptoRandomStreamBit/UC/US/UL(byte[] stream, int n): a null array
      changes nothing; otherwise the stream borrows it, replacing whatever
      it had. */
  function SetBorrowed(heap: Heap, s: Stream, z: Sizing, arr: Option<nat>, n: int): (r: Result<Stream>)
    requires Valid(heap, s) && (arr.Some? ==> arr.value < |heap|)
    ensures arr.None? ==> r == Ok(s)
    ensures arr.Some? ==> (r.Ok? <==> 0 <= SizedBytes(z, n) <= |heap[arr.value]|)
    ensures r.Err? ==> r.exc == IndexOutOfBounds
    ensures r.Ok? && arr.Some? ==> var t := r.value;
      Valid(heap, t) && t.base == arr && t.buffer.Some? && t.buffer.value.arr == arr.value && t.buffer.value.offset == 0
      && t.buffer.value.limit == SizedBytes(z, n) && t.bitLength == SizedBits(z, n)
      && !t.autoMemory && t.position == 0 && t.baseOffset == 0
      && t.reducedBitLength == s.reducedBitLength && t.cls == s.cls
  {
    if arr.None? then Ok(s)
    else
      var b :- Wrap(heap, arr, 0, SizedBytes(z, n));
      Ok(s.(autoMemory := false, bitLength := SizedBits(z, n), base := arr, buffer := Some(b),
            position := 0, baseOffset := 0))
  }

  /** finalize(): owned bytes are zeroed, borrowed ones are left alone, and
      the references and lengths are cleared (the reduced length is not). */
  function Finalize(heap: Heap, s: Stream): (r: Result<(Heap, Stream)>)
    requires Valid(heap, s)
    ensures !s.autoMemory ==> r.Ok? && r.value.0 == heap
    ensures s.autoMemory ==> (r.Ok? <==> s.buffer.Some?)
    ensures r.Ok? && s.autoMemory ==> var b := s.buffer.value;
      UnchangedOutside(heap, r.value.0, b.arr, b.offset, b.offset + b.limit)
      && BufferValid(r.value.0, b)
      && forall i :: 0 <= i < b.limit ==> Window(r.value.0, b)[i] == 0
    ensures r.Ok? ==> var t := r.value.1;
      t.base.None? && t.buffer.None? && t.bitLength == 0 && t.position == 0 && t.baseOffset == 0
      && !t.autoMemory && t.cls == s.cls && t.reducedBitLength == s.reducedBitLength
  {
    var h :- if s.autoMemory then FillUC(heap, s, 0) else Ok(heap);
    Ok((h, s.(base := None, bitLength := 0, position := 0, baseOffset := 0, buffer := None, autoMemory := false)))
  }

  // ---------------------------------------------------------------------
  // Sub-stream views

  /** The class a sub-stream target is cast to: the Byte and String classes
      cast to ByteCryptoRandomStream, the Default class to its own class. */
  function CastTarget(c: StreamClass): (t: StreamClass)
    ensures t != StringClass
    ensures t == DefaultClass <==> c == DefaultClass
  {
    if c == DefaultClass then DefaultClass else ByteClass
  }

  /** Bit length of the view: from pos to the end, or `length` units. */
  function ViewBits(parent: Stream, u: Unit, pos: int, length: Option<int>): int {
    if length.Some? then length.value * UnitBits(u) else GetBitLength(parent) - pos * UnitBits(u)
  }

  /** GetUC/US/ULSubRandomStream(subStream, pos[, length]): point subStream
      at the parent's array from unit `pos` on. A position at or past the
      end in whole units, or a range past it, throws before the target is
      touched; the target must then be non-null and of the cast class, and
      the wrap must fit the array. */
  function SubView(heap: Heap, parent: Stream, sub: Option<Stream>, u: Unit, pos: int, length: Option<int>)
    : (r: Result<Stream>)
    requires Valid(heap, parent)
    ensures pos >= GetLength(parent, u) ==> r == Err(IndexOutOfBounds)
    ensures length.Some? && pos + length.value > GetLength(parent, u) ==> r == Err(IndexOutOfBounds)
    ensures r.Ok? ==> sub.Some? && sub.value.cls == CastTarget(parent.cls)
    ensures r.Ok? ==> var t := r.value;
      Valid(heap, t) && t.base == parent.base
      && t.bitLength == ViewBits(parent, u, pos, length)
      && t.baseOffset == parent.baseOffset + pos * UnitBytes(u)
      && t.position == 0 && !t.autoMemory && t.buffer.Some? && parent.base.Some?
      && t.cls == sub.value.cls && t.reducedBitLength == sub.value.reducedBitLength
      && t.buffer.value.limit == ByteLengthFor(t.bitLength)
      && t.buffer.value.arr == parent.base.value && t.buffer.value.offset == t.baseOffset
      && forall k :: 0 <= k < t.buffer.value.limit ==>
           Window(heap, t.buffer.value)[k] == heap[parent.base.value][t.baseOffset + k]
  {
    if pos >= GetLength(parent, u) then Err(IndexOutOfBounds)
    else if length.Some? && pos + length.value > Div(GetBitLength(parent), UnitBits(u)) then Err(IndexOutOfBounds)
    else if sub.None? then Err(NullPointer)
    else
      var bits := ViewBits(parent, u, pos, length);
      if sub.value.cls != CastTarget(parent.cls) then Err(ClassCast)
      else
        var off := parent.baseOffset + pos * UnitBytes(u);
        var b :- Wrap(heap, parent.base, off, ByteLengthFor(bits));
        Ok(sub.value.(bitLength := bits, base := parent.base, baseOffset := off, buffer := Some(b),
                      position := 0, autoMemory := false))
  }

  /** A stream whose buffer is its array wrapped at its offset, holding
      GetBitLength bits: what constructors and views produce. */
  predicate Consistent(heap: Heap, s: Stream) {
    Valid(heap, s) && s.base.Some? && s.buffer.Some? && s.baseOffset >= 0
    && s.buffer.value.arr == s.base.value && s.buffer.value.offset == s.baseOffset
    && GetBitLength(s) >= 0
    && s.baseOffset + ByteLengthFor(GetBitLength(s)) <= |heap[s.base.value]|
  }

  /** Inside the parent's bits, a position-only view of a consistent parent
      into a target of the right class always succeeds, and the view's byte
      k is the parent's byte pos * unit bytes + k. */
  lemma SubViewSucceeds(heap: Heap, parent: Stream, sub: Stream, u: Unit, pos: int)
    requires Consistent(heap, parent) && sub.cls == CastTarget(parent.cls)
    requires 0 <= pos < GetLength(parent, u)
    ensures SubView(heap, parent, Some(sub), u, pos, None).Ok?
    ensures var t := SubView(heap, parent, Some(sub), u, pos, None).value;
      Consistent(heap, t) || t.reducedBitLength != 0
  {
    ViewArithmetic(GetBitLength(parent), u, pos);
  }

  /** The arithmetic of a view at whole unit `pos` below the last whole
      unit of n bits: it starts inside the bits and needs exactly
      pos * unit bytes fewer bytes. */
  lemma ViewArithmetic(n: int, u: Unit, pos: int)
    requires n >= 0 && 0 <= pos < Div(n, UnitBits(u))
    ensures 0 <= pos * UnitBytes(u) && pos * UnitBits(u) <= n
    ensures ByteLengthFor(n - pos * UnitBits(u)) == ByteLengthFor(n) - pos * UnitBytes(u)
  {
    var w := UnitBytes(u);
    UnitIsWholeBytes(u);
    DivAgreesOnNaturals(n, UnitBits(u));
    assert pos * UnitBits(u) == 8 * (pos * w);
    assert pos * UnitBits(u) <= n;
    ByteLengthShift(n, pos * w);
  }

  /** Likewise for the (pos, length) views when the range lies inside. */
  lemma RangeViewSucceeds(heap: Heap, parent: Stream, sub: Stream, u: Unit, pos: int, length: int)
    requires Consistent(heap, parent) && sub.cls == CastTarget(parent.cls)
    requires 0 <= pos && 0 <= length && pos + length <= GetLength(parent, u)
    requires pos < GetLength(parent, u)
    ensures SubView(heap, parent, Some(sub), u, pos, Some(length)).Ok?
  {
    RangeArithmetic(GetBitLength(parent), u, pos, length);
  }

  /** The arithmetic of a view of `length` whole units from unit `pos`,
      inside the whole units of n bits: it needs length * unit bytes
      bytes, and they end inside the bytes of the n bits. */
  lemma RangeArithmetic(n: int, u: Unit, pos: int, length: int)
    requires n >= 0 && 0 <= pos && 0 <= length && pos + length <= Div(n, UnitBits(u))
    ensures 0 <= pos * UnitBytes(u) && 0 <= length * UnitBytes(u)
    ensures ByteLengthFor(length * UnitBits(u)) == length * UnitBytes(u)
    ensures pos * UnitBytes(u) + length * UnitBytes(u) <= ByteLengthFor(n)
  {
    var w := UnitBytes(u);
    UnitIsWholeBytes(u);
    DivAgreesOnNaturals(n, UnitBits(u));
    assert (pos + length) * UnitBits(u) <= n;
    assert (pos + length) * UnitBits(u) == 8 * (pos * w + length * w);
    assert length * UnitBits(u) == 8 * (length * w);
    DivAgreesOnNaturals(length * UnitBits(u), 8);
    DivModUnique(length * UnitBits(u), 8, length * w, 0);
  }

  /** A target of the wrong class is refused, after the bounds checks. */
  lemma SubViewNeedsCastClass(heap: Heap, parent: Stream, sub: Stream, u: Unit, pos: int, length: Option<int>)
    requires Valid(heap, parent) && sub.cls != CastTarget(parent.cls)
    requires pos < GetLength(parent, u)
    requires length.Some? ==> pos + length.value <= GetLength(parent, u)
    ensures SubView(heap, parent, Some(sub), u, pos, length) == Err(ClassCast)
  {
  }

  /** Writes through a view land in the parent: a bit set in the view reads
      back from the parent at the shifted position. */
  lemma ViewSharesBits(heap: Heap, parent: Stream, sub: Stream, u: Unit, pos: int, p: int, v: int)
    requires Consistent(heap, parent) && 0 <= p && (v == 0 || v == 1)
    requires SubView(heap, parent, Some(sub), u, pos, None).Ok?
    requires 0 <= pos
    requires var t := SubView(heap, parent, Some(sub), u, pos, None).value; SetBit(heap, t, p, v).Ok?
    requires 0 <= pos * UnitBytes(u) * 8 + p < 8 * parent.buffer.value.limit
    ensures var t := SubView(heap, parent, Some(sub), u, pos, None).value;
      GetBit(SetBit(heap, t, p, v).value, parent, pos * UnitBytes(u) * 8 + p) == Ok(v)
  {
    var t := SubView(heap, parent, Some(sub), u, pos, None).value;
    var q := pos * UnitBytes(u) * 8 + p;
    UnitIsWholeBytes(u);
    ShiftedDiv(pos, UnitBytes(u), p);
    DivAgreesOnNaturals(q, 8);
    SharedByteBit(heap, t, parent, p, q, v);
  }

  /** Two streams over the same array whose positions p and q name the same
      byte and bit: a write at p in one reads back at q in the other. */
  lemma SharedByteBit(heap: Heap, t: Stream, parent: Stream, p: int, q: int, v: int)
    requires Valid(heap, t) && Valid(heap, parent) && 0 <= p && 0 <= q && (v == 0 || v == 1)
    requires BitAddressable(t, p) && BitAddressable(parent, q)
    requires t.buffer.value.arr == parent.buffer.value.arr
    requires t.buffer.value.offset + p / 8 == parent.buffer.value.offset + q / 8 && p % 8 == q % 8
    ensures SetBit(heap, t, p, v).Ok?
    ensures Valid(SetBit(heap, t, p, v).value, parent)
    ensures GetBit(SetBit(heap, t, p, v).value, parent, q) == Ok(v)
  {
    var arr := t.buffer.value.arr;
    var i := t.buffer.value.offset + p / 8;
    SetBitWritesArray(heap, t, p, v);
    var h := SetBit(heap, t, p, v).value;
    ValidKept(heap, h, parent);
    GetBitReadsArray(h, parent, q);
    SetByteBitReadsBack(heap[arr][i], p % 8, v);
  }

  /** Shifting a bit position by whole bytes shifts its byte index alone. */
  lemma ShiftedDiv(pos: int, w: int, p: int)
    requires 0 <= pos && 1 <= w && 0 <= p
    ensures (pos * w * 8 + p) / 8 == pos * w + p / 8 && (pos * w * 8 + p) % 8 == p % 8
  {
    var a := pos * w;
    assert 0 <= a;
    DivModUnique(a * 8 + p, 8, a + p / 8, p % 8);
  }

  // ---------------------------------------------------------------------
  // Negative positions

  /** A view one level down: bytes 2 and 3 of a four-byte array. */
  function InnerView(): Stream {
    Stream(ByteClass, Some(0), 2, Some(Buffer(0, 2, 2, 2)), 16, 0, 0, false)
  }

  /** The range checks only bound positions from above, and the wrap is made
      on the whole array, so a negative position on a view reaches bytes in
      front of the view: position -2 of InnerView starts at array byte 0. */
  lemma NegativePositionEscapesView()
    ensures var heap := [seq(4, _ => 0 as Byte)];
      var r := SubView(heap, InnerView(), Some(Empty(ByteClass)), UC, -2, None);
      r.Ok? && r.value.baseOffset == 0 < InnerView().baseOffset
  {
    var heap := [seq(4, _ => 0 as Byte)];
    assert Consistent(heap, InnerView());
    assert GetLength(InnerView(), UC) == 2;
    assert ByteLengthFor(32) == 4;
  }

  /** Sub-stream views that also refuse a negative position, as the range
      check evidently means to. */
  function SubViewChecked(heap: Heap, parent: Stream, sub: Option<Stream>, u: Unit, pos: int, length: Option<int>)
    : (r: Result<Stream>)
    requires Valid(heap, parent)
    ensures pos < 0 ==> r == Err(IndexOutOfBounds)
    ensures pos >= 0 ==> r == SubView(heap, parent, sub, u, pos, length)
  {
    if pos < 0 then Err(IndexOutOfBounds) else SubView(heap, parent, sub, u, pos, length)
  }

  /** A negative count of whole units is a negative number of bytes. */
  lemma NegativeUnits(len: int, u: Unit)
    requires len < 0
    ensures ByteLengthFor(len * UnitBits(u)) < 0
  {
    var bits := len * UnitBits(u);
    var d := Div(bits, 8);
    var r := Rem(bits, 8);
    assert bits == 8 * d + r && -8 < r <= 0;
    assert bits == 8 * (len * UnitBytes(u));
    assert r == 8 * (len * UnitBytes(u) - d);
  }

  /** The arithmetic of a view's extent, for a unit of ub bytes: it ends
      inside the parent's bytes. */
  lemma ExtentFits(n: int, ub: int, pos: int, len: Option<int>)
    requires n >= 0 && 0 <= pos && 0 < ub && 8 * (pos * ub) <= n
    requires len.Some? ==> 0 <= len.value && 8 * (pos * ub + len.value * ub) <= n
    ensures pos * ub + ByteLengthFor(if len.Some? then 8 * (len.value * ub) else n - 8 * (pos * ub))
            <= ByteLengthFor(n)
  {
    if len.None? {
      ByteLengthShift(n, pos * ub);
    } else {
      var m := len.value * ub;
      var k := ByteLengthFor(8 * m);
      assert 8 * (k - 1) < 8 * m <= 8 * k;
      assert k == m;
    }
  }

  lemma ViewEndFits(n: int, u: Unit, pos: int, len: Option<int>)
    requires n >= 0 && 0 <= pos && pos * UnitBits(u) <= n
    requires len.Some? ==> 0 <= len.value && (pos + len.value) * UnitBits(u) <= n
    ensures pos * UnitBytes(u)
            + ByteLengthFor(if len.Some? then len.value * UnitBits(u) else n - pos * UnitBits(u))
            <= ByteLengthFor(n)
  {
    var ub := UnitBytes(u);
    assert UnitBits(u) == 8 * ub;
    assert pos * UnitBits(u) == 8 * (pos * ub);
    if len.Some? {
      assert len.value * UnitBits(u) == 8 * (len.value * ub);
      assert (pos + len.value) * UnitBits(u) == 8 * (pos * ub + len.value * ub);
    }
    ExtentFits(n, ub, pos, len);
  }

  /** With the position checked, every view of a consistent stream stays
      inside that stream's own bytes. */
  lemma CheckedViewStaysInside(heap: Heap, parent: Stream, sub: Option<Stream>, u: Unit, pos: int, length: Option<int>)
    requires Consistent(heap, parent)
    requires SubViewChecked(heap, parent, sub, u, pos, length).Ok?
    ensures var t := SubViewChecked(heap, parent, sub, u, pos, length).value;
      parent.baseOffset <= t.baseOffset
      && t.baseOffset + t.buffer.value.limit <= parent.baseOffset + ByteLengthFor(GetBitLength(parent))
  {
    var n := GetBitLength(parent);
    assert 0 <= pos < GetLength(parent, u);
    DivAgreesOnNaturals(n, UnitBits(u));
    assert pos * UnitBits(u) <= n;
    if length.Some? {
      if length.value < 0 {
        NegativeUnits(length.value, u);
      }
      assert (pos + length.value) * UnitBits(u) <= n;
    }
    ViewEndFits(n, u, pos, length);
  }
}
