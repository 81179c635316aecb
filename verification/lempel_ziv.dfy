/** The Lempel-Ziv compression test (section 2.10 of the 2001 edition of
    NIST SP 800-22): the stream is cut into phrases, each the shortest
    run not seen before, and the number of distinct words is compared
    with its expected value. The generator's n bits are an input
    sequence here. */
module LempelZivTest {
  import JavaLang
  import opened Ieee
  import BitWalk
  import MathFunctions

  type Bit = JavaLang.Bit
  type Option<T> = JavaLang.Option<T>

  // ---------------------------------------------------------------------
  // Java long and BigInteger arithmetic

  /** A long value: the two's complement reading of the low 64 bits. */
  function ToLong(x: int): (r: int)
    ensures -(JavaLang.Pow2(63) as int) <= r < JavaLang.Pow2(63)
  {
    assert JavaLang.Pow2(64) == 2 * JavaLang.Pow2(63);
    (x + JavaLang.Pow2(63)) % JavaLang.Pow2(64) - JavaLang.Pow2(63)
  }

  /** x | 1 in two's complement (long or BigInteger alike). */
  function OrOne(x: int): (r: int)
    ensures r % 2 == 1
    ensures r == x || r == x + 1
  {
    if x % 2 == 0 then x + 1 else x
  }

  // ---------------------------------------------------------------------
  // The accumulator and the words

  /** The two NumberStrategy implementations: a long pattern, and a
      BigInteger pattern once the length has passed 62. */
  datatype Accumulator =
    | LongStrategy(pattern: int, length: int)
    | BigIntegerStrategy(pattern: int, length: int)

  /** The pattern a Word keeps is a java.lang.Number: a Long or a
      BigInteger, and Long.equals is false for a BigInteger. */
  datatype Number = Long(v: int) | BigInteger(v: int)

  datatype Word = Word(pattern: Number, length: int)

  /** Word.equals: the same length and equal patterns of the same class. */
  function Equals(a: Word, b: Word): (r: bool)
    ensures r <==> a == b
  {
    if a.length != b.length then false
    else match (a.pattern, b.pattern)
      case (Long(x), Long(y)) => x == y
      case (BigInteger(x), BigInteger(y)) => x == y
      case _ => false
  }

  function ToWord(a: Accumulator): (w: Word)
    ensures w.length == a.length
    ensures w.pattern.v == a.pattern
    ensures w.pattern.Long? <==> a.LongStrategy?
  {
    match a
    case LongStrategy(p, l) => Word(Long(p), l)
    case BigIntegerStrategy(p, l) => Word(BigInteger(p), l)
  }

  /** or(bit): a one bit sets the lowest bit of the pattern. */
  function Or(a: Accumulator, bit: Bit): (r: Accumulator)
    ensures r.length == a.length && r.LongStrategy? == a.LongStrategy?
    ensures bit == 0 ==> r == a
    ensures bit == 1 ==> r.pattern % 2 == 1 && (r.pattern == a.pattern || r.pattern == a.pattern + 1)
  {
    if bit == 0 then a
    else match a
      case LongStrategy(p, l) => LongStrategy(OrOne(p), l)
      case BigIntegerStrategy(p, l) => BigIntegerStrategy(OrOne(p), l)
  }

  /** timesTwo(): shift left and count one more bit; a long accumulator
      past length 62 moves its value to a BigInteger first. */
  function TimesTwo(a: Accumulator): (r: Accumulator)
    ensures r.length == a.length + 1
    ensures r.BigIntegerStrategy? <==> a.BigIntegerStrategy? || a.length > 62
    ensures a.length > 62 || a.BigIntegerStrategy? ==> r.pattern == 2 * a.pattern
  {
    match a
    case LongStrategy(p, l) =>
      if l > 62 then BigIntegerStrategy(2 * p, l + 1)
      else LongStrategy(ToLong(2 * p), l + 1)
    case BigIntegerStrategy(p, l) => BigIntegerStrategy(2 * p, l + 1)
  }

  /** A restarted accumulator holds pattern 1, whose lowest bit is already
      set, so the first bit of every phrase leaves no trace. */
  lemma FreshAccumulatorIgnoresBit(b: Bit)
    ensures Or(LongStrategy(1, 0), b) == LongStrategy(1, 0)
  {
  }

  /** Crossing to BigInteger keeps the numeric value of the doubling. */
  lemma SwitchKeepsValue(p: int, l: int)
    requires l > 62
    ensures TimesTwo(LongStrategy(p, l)) == BigIntegerStrategy(2 * p, l + 1)
  {
  }

  // ---------------------------------------------------------------------
  // The accumulator after a restart and then some bits

  /** The accumulator after a restart, the (ignored) first bit, and then
      `key`: each later bit is shifted in by timesTwo() and or(bit). */
  function Encode(key: seq<Bit>): (a: Accumulator)
    ensures a.length == |key|
  {
    if |key| == 0 then LongStrategy(1, 0)
    else Or(TimesTwo(Encode(key[.. |key| - 1])), key[|key| - 1])
  }

  /** The number Encode holds: the key read in binary behind a leading
      one, that leading one landing on the sign bit from length 63 on. */
  function EncodedValue(key: seq<Bit>): int {
    var lead: int := JavaLang.Pow2(|key|);
    BitWalk.Word(key, 0, |key|) + (if |key| <= 62 then lead else -lead)
  }

  lemma {:induction false} EncodeValue(key: seq<Bit>)
    ensures Encode(key) == if |key| <= 63 then LongStrategy(EncodedValue(key), |key|)
                           else BigIntegerStrategy(EncodedValue(key), |key|)
    decreases |key|
  {
    if |key| > 0 {
      var n := |key| - 1;
      var init := key[.. n];
      var b := key[n];
      EncodeValue(init);
      var v := EncodedValue(init);
      EncodedValueStep(key);
      assert Encode(key) == Or(TimesTwo(Encode(init)), b);
      if n < 62 {
        LongStep(v, n, b);
      } else if n == 62 {
        LongWrapStep(v, b);
      } else if n == 63 {
        SwitchStep(v, b);
      } else {
        BigStep(v, n, b);
      }
    }
  }

  /** Each bit doubles the value and adds the bit; the step from length
      62 to 63 also wraps by 2^64. */
  lemma EncodedValueStep(key: seq<Bit>)
    requires |key| > 0
    ensures var n := |key| - 1;
      EncodedValue(key) == 2 * EncodedValue(key[.. n]) + key[n] - (if n == 62 then JavaLang.Pow2(64) else 0)
    ensures var n := |key| - 1;
      n < 62 ==> 0 <= 2 * EncodedValue(key[.. n]) < JavaLang.Pow2(63)
    ensures var n := |key| - 1;
      n == 62 ==> JavaLang.Pow2(63) <= 2 * EncodedValue(key[.. n]) < JavaLang.Pow2(64)
  {
    var n := |key| - 1;
    BitWalk.WordOfPrefix(key, n);
    BitWalk.WordBound(key, 0, n);
    var w := BitWalk.Word(key, 0, n);
    assert BitWalk.Word(key[.. n], 0, n) == w;
    assert BitWalk.Word(key, 0, |key|) == 2 * w + key[n];
    var p := JavaLang.Pow2(n);
    assert JavaLang.Pow2(n + 1) == 2 * p;
    if n < 62 {
      assert JavaLang.Pow2(n + 2) == 4 * p;
      JavaLang.Pow2Monotone(n + 2, 63);
    } else if n == 62 {
      assert JavaLang.Pow2(64) == 2 * JavaLang.Pow2(63);
    }
  }

  lemma LongStep(v: int, n: int, b: Bit)
    requires n < 62 && 0 <= 2 * v < JavaLang.Pow2(63)
    ensures Or(TimesTwo(LongStrategy(v, n)), b) == LongStrategy(2 * v + b, n + 1)
  {
    LongDoubling(2 * v);
  }

  lemma LongWrapStep(v: int, b: Bit)
    requires JavaLang.Pow2(63) <= 2 * v < JavaLang.Pow2(64)
    ensures Or(TimesTwo(LongStrategy(v, 62)), b) == LongStrategy(2 * v + b - JavaLang.Pow2(64), 63)
  {
    LongOverflow(2 * v);
  }

  lemma SwitchStep(v: int, b: Bit)
    ensures Or(TimesTwo(LongStrategy(v, 63)), b) == BigIntegerStrategy(2 * v + b, 64)
  {
  }

  lemma BigStep(v: int, n: int, b: Bit)
    ensures Or(TimesTwo(BigIntegerStrategy(v, n)), b) == BigIntegerStrategy(2 * v + b, n + 1)
  {
  }

  /** Doubling below 2^63 does not wrap. */
  lemma LongDoubling(x: int)
    requires 0 <= x < JavaLang.Pow2(63)
    ensures ToLong(x) == x
  {
    assert JavaLang.Pow2(64) == 2 * JavaLang.Pow2(63);
    JavaLang.DivModUnique(x + JavaLang.Pow2(63), JavaLang.Pow2(64), 0, x + JavaLang.Pow2(63));
  }

  /** Doubling into [2^63, 2^64) wraps once to a negative long. */
  lemma LongOverflow(x: int)
    requires JavaLang.Pow2(63) <= x < JavaLang.Pow2(64)
    ensures ToLong(x) == x - JavaLang.Pow2(64)
  {
    assert JavaLang.Pow2(64) == 2 * JavaLang.Pow2(63);
    JavaLang.DivModUnique(x + JavaLang.Pow2(63), JavaLang.Pow2(64), 1, x - JavaLang.Pow2(63));
  }

  /** Different keys give different words, whatever their length. */
  lemma EncodeInjective(k1: seq<Bit>, k2: seq<Bit>)
    ensures ToWord(Encode(k1)) == ToWord(Encode(k2)) <==> k1 == k2
  {
    if ToWord(Encode(k1)) == ToWord(Encode(k2)) {
      EncodeValue(k1);
      EncodeValue(k2);
      assert |k1| == |k2|;
      BitWalk.WholeWordInjective(k1, k2);
    }
  }

  // ---------------------------------------------------------------------
  // pValue's loop, as written

  datatype Parse = Parse(words: set<Word>, number: Accumulator)

  /** The loop of pValue over the bits: or the bit in, look the word up,
      and either restart at (1, 0) or shift left. */
  function Scan(bits: seq<Bit>): (r: Parse)
    ensures |r.words| <= |bits|
  {
    if |bits| == 0 then Parse({}, LongStrategy(1, 0))
    else
      var prev := Scan(bits[.. |bits| - 1]);
      var number := Or(prev.number, bits[|bits| - 1]);
      var w := ToWord(number);
      if w !in prev.words then Parse(prev.words + {w}, LongStrategy(1, 0))
      else Parse(prev.words, TimesTwo(number))
  }

  /** The parse Scan actually performs, on bit sequences: every phrase
      is keyed by its bits after the first. `cur` is None right after a
      restart and otherwise holds the key read so far. */
  datatype KeyParse = KeyParse(seen: set<seq<Bit>>, cur: Option<seq<Bit>>)

  function Keys(bits: seq<Bit>): (r: KeyParse)
    ensures |r.seen| <= |bits|
  {
    if |bits| == 0 then KeyParse({}, JavaLang.None)
    else
      var prev := Keys(bits[.. |bits| - 1]);
      var key := if prev.cur.None? then [] else prev.cur.value + [bits[|bits| - 1]];
      if key !in prev.seen then KeyParse(prev.seen + {key}, JavaLang.None)
      else KeyParse(prev.seen, JavaLang.Some(key))
  }

  function WordsOf(keys: set<seq<Bit>>): set<Word> {
    set k | k in keys :: ToWord(Encode(k))
  }

  /** Scan keeps one word per key and the accumulator of the key read so
      far: the words counted are exactly the distinct keys. */
  lemma {:induction false} ScanFollowsKeys(bits: seq<Bit>)
    ensures Scan(bits).words == WordsOf(Keys(bits).seen)
    ensures |Scan(bits).words| == |Keys(bits).seen|
    ensures Scan(bits).number == match Keys(bits).cur
                                 case None => LongStrategy(1, 0)
                                 case Some(k) => TimesTwo(Encode(k))
    decreases |bits|
  {
    if |bits| > 0 {
      var init := bits[.. |bits| - 1];
      var b := bits[|bits| - 1];
      ScanFollowsKeys(init);
      var prev, kp := Scan(init), Keys(init);
      var key := if kp.cur.None? then [] else kp.cur.value + [b];
      var number := Or(prev.number, b);
      assert number == Encode(key) by {
        if kp.cur.Some? {
          assert key[.. |key| - 1] == kp.cur.value;
        }
      }
      KeyStep(kp.seen, key);
    }
  }

  /** One step of ScanFollowsKeys: the word of a key is already present
      exactly when the key is, and a new key adds one new word. */
  lemma KeyStep(seen: set<seq<Bit>>, key: seq<Bit>)
    ensures ToWord(Encode(key)) in WordsOf(seen) <==> key in seen
    ensures WordsOf(seen + {key}) == WordsOf(seen) + {ToWord(Encode(key))}
    ensures key !in seen ==> |WordsOf(seen) + {ToWord(Encode(key))}| == |WordsOf(seen)| + 1
  {
    KeyPresent(seen, key);
    WordsOfAdd(seen, key);
  }

  lemma KeyPresent(seen: set<seq<Bit>>, key: seq<Bit>)
    ensures ToWord(Encode(key)) in WordsOf(seen) <==> key in seen
  {
    if ToWord(Encode(key)) in WordsOf(seen) {
      var k :| k in seen && ToWord(Encode(k)) == ToWord(Encode(key));
      EncodeInjective(k, key);
    }
  }

  lemma WordsOfAdd(seen: set<seq<Bit>>, key: seq<Bit>)
    ensures WordsOf(seen + {key}) == WordsOf(seen) + {ToWord(Encode(key))}
  {
  }

  /** Because the first bit of a phrase is dropped, the very first bit of
      the stream never matters. */
  lemma {:induction false} FirstBitIgnored(rest: seq<Bit>)
    ensures Scan([0] + rest) == Scan([1] + rest)
    decreases |rest|
  {
    if |rest| == 0 {
      assert [0] + rest == [0] && [1] + rest == [1];
      assert [0][.. 0] == [] && [1][.. 0] == [];
    } else {
      var n := |rest| - 1;
      FirstBitIgnored(rest[.. n]);
      assert ([0] + rest)[.. |rest|] == [0] + rest[.. n];
      assert ([1] + rest)[.. |rest|] == [1] + rest[.. n];
      ScanCongruent([0] + rest, [1] + rest);
    }
  }

  /** Scan reads its input one bit at a time from the front. */
  lemma ScanCongruent(a: seq<Bit>, b: seq<Bit>)
    requires |a| == |b| > 0
    requires Scan(a[.. |a| - 1]) == Scan(b[.. |b| - 1]) && a[|a| - 1] == b[|b| - 1]
    ensures Scan(a) == Scan(b)
  {
  }

  /** The stream 0 1 parses as the phrases "0" and "1", but the code
      counts one word: both phrases are keyed by the empty tail. */
  lemma AsWrittenMergesPhrases()
    ensures |Scan([0, 1]).words| == 1
    ensures |Phrases([0, 1]).seen| == 2
  {
    assert [0, 1][.. 1] == [0];
    assert [0][.. 0] == [];
    var w := ToWord(LongStrategy(1, 0));
    assert Scan([0]) == Parse({w}, LongStrategy(1, 0));
    assert Scan([0, 1]).words == {w};
    assert Phrases([]) == PhraseParse({}, []);
    assert [] + [0 as Bit] == [0];
    assert Phrases([0]) == PhraseParse({[0]}, []);
    assert [] + [1 as Bit] == [1];
    assert [1] !in {[0]} by {
      assert [1][0] != [0][0];
    }
    assert Phrases([0, 1]) == PhraseParse({[0], [1]}, []);
  }

  // ---------------------------------------------------------------------
  // The intended parse

  /** The phrase parse of section 2.10: extend the current phrase by the
      next bit; a phrase not seen before is recorded and a new one starts. */
  datatype PhraseParse = PhraseParse(seen: set<seq<Bit>>, cur: seq<Bit>)

  function Phrases(bits: seq<Bit>): (r: PhraseParse)
    ensures |r.seen| <= |bits|
  {
    if |bits| == 0 then PhraseParse({}, [])
    else
      var prev := Phrases(bits[.. |bits| - 1]);
      var p := prev.cur + [bits[|bits| - 1]];
      if p !in prev.seen then PhraseParse(prev.seen + {p}, [])
      else PhraseParse(prev.seen, p)
  }

  /** The loop with timesTwo() moved before or(bit), so that the leading
      one of pattern 1 stays a sentinel and every bit is shifted in. */
  function ScanIntended(bits: seq<Bit>): (r: Parse)
    ensures |r.words| <= |bits|
  {
    if |bits| == 0 then Parse({}, LongStrategy(1, 0))
    else
      var prev := ScanIntended(bits[.. |bits| - 1]);
      var number := Or(TimesTwo(prev.number), bits[|bits| - 1]);
      var w := ToWord(number);
      if w !in prev.words then Parse(prev.words + {w}, LongStrategy(1, 0))
      else Parse(prev.words, number)
  }

  /** The corrected loop counts exactly the distinct phrases. */
  lemma {:induction false} IntendedCountsPhrases(bits: seq<Bit>)
    ensures ScanIntended(bits).words == WordsOf(Phrases(bits).seen)
    ensures |ScanIntended(bits).words| == |Phrases(bits).seen|
    ensures ScanIntended(bits).number == Encode(Phrases(bits).cur)
    decreases |bits|
  {
    if |bits| > 0 {
      var init := bits[.. |bits| - 1];
      var b := bits[|bits| - 1];
      IntendedCountsPhrases(init);
      var pp := Phrases(init);
      var p := pp.cur + [b];
      assert p[.. |p| - 1] == pp.cur;
      KeyStep(pp.seen, p);
    }
  }

  // ---------------------------------------------------------------------
  // The p-value

  const MEAN: real := 69586.25
  const VARIANCE: real := 448718.70

  /** pValue(e, n): erfc((mean - |words|) / sqrt(2 * sqrt(448718.70))) / 0.5,
      with erfc supplied by the caller. */
  function PValue(k: MathFunctions.Kernels, erfc: Double -> Double, bits: seq<Bit>): (p: Double)
  {
    var variance := k.sqrt(Finite(VARIANCE));
    var arg := Div(Sub(Finite(MEAN), Of(|Scan(bits).words|)), k.sqrt(Mul(Finite(2.0), variance)));
    Div(erfc(arg), Finite(0.5))
  }

  /** Dividing by 0.5 doubles erfc, where section 2.10 halves it. */
  lemma PValueDoublesErfc(k: MathFunctions.Kernels, erfc: Double -> Double, bits: seq<Bit>)
    ensures PValue(k, erfc, bits) == Mul(erfc(Div(Sub(Finite(MEAN), Of(|Keys(bits).seen|)),
                                                  k.sqrt(Mul(Finite(2.0), k.sqrt(Finite(VARIANCE)))))),
                                         Finite(2.0))
  {
    ScanFollowsKeys(bits);
  }
}
