/** RandomTestSuite: one slot per registrable kind of test, the counters
    kept beside the slots, and the two ways of running every registered
    test over one stream. A test object is seen through what the suite asks
    of it: its identity, GetType(), GetMinimumLength() and, for a run, the
    verdict, IsRandom() and GetError() its isRandom(stream) leaves. */
module TestSuite {
  import JavaLang
  import opened TestKinds
  import BaseRandom
  import FrequencyTest
  import RunsTest
  import LongestRunTest
  import CumulativeSumsTest
  import RankTest
  import UniversalTest
  import ApproximateEntropyTest
  import SerialTest
  import DiscreteFourierTransformTest

  type Option<T> = JavaLang.Option<T>
  type Result<T> = JavaLang.Result<T>

  /** Object identity: the suite numbers the tests it creates; a test
      handed in keeps the caller's identity. */
  datatype Ref = Created(serial: nat) | Given(id: nat)

  /** A test object: its identity, what GetType() returns (None for null)
      and what GetMinimumLength() returns. */
  datatype Test = Test(ref: Ref, kind: Option<RandomTest>, minimumLength: int)

  /** What one test's isRandom(stream) does, as the suite reads it: the
      verdict returned, then the test's IsRandom() and GetError(). */
  datatype Outcome = Outcome(verdict: bool, random: bool, error: RandomTestError)

  /** The suite's fields; `created` counts the tests the suite has
      constructed, which gives each a fresh identity. */
  datatype Suite = Suite(
    slots: seq<Option<Test>>,
    selfCreatedTest: seq<bool>,
    random: bool,
    selfCreatedMaths: bool,
    error: RandomTestError,
    instantiatedTests: int,
    numberOfErrors: int,
    errorTest: RandomTest,
    nonRandomTest: RandomTest,
    created: nat)

  /** Both arrays have NumberOfTests.ordinal() entries, and a test sits in
      the slot of the kind it reports. */
  predicate Valid(s: Suite) {
    && |s.slots| == SuiteSize
    && |s.selfCreatedTest| == SuiteSize
    && forall i :: 0 <= i < SuiteSize && s.slots[i].Some? ==> s.slots[i].value.kind == JavaLang.Some(KindAt(i))
  }

  /** The number of occupied slots among the first i. */
  function Occupied(slots: seq<Option<Test>>, i: nat): (c: nat)
    requires i <= |slots|
    ensures c <= i
  {
    if i == 0 then 0 else Occupied(slots, i - 1) + (if slots[i - 1].Some? then 1 else 0)
  }

  function Registered(s: Suite): nat
    requires Valid(s)
  {
    Occupied(s.slots, SuiteSize)
  }

  /** GetMinimumLength() of the test the suite constructs for a kind. The
      suite's Fourier class, DiscreteFourierTransformTest, is not part of
      this model; it is taken to report the DiscreteFourierTransform kind
      and that test's minimum. */
  function MinimumLengthOf(k: RandomTest): int
    requires Registrable(k)
  {
    match k
    case Frequency => FrequencyTest.MINIMUM_LENGTH
    case BlockFrequency => BaseRandom.MINIMUMLENGTH
    case Runs => RunsTest.MINIMUM_LENGTH
    case LongestRunOfOnes => LongestRunTest.MINIMUM_LENGTH
    case CumulativeSumForward => CumulativeSumsTest.MINIMUM_LENGTH
    case CumulativeSumReverse => CumulativeSumsTest.MINIMUM_LENGTH
    case Rank => RankTest.MINIMUM_LENGTH
    case Universal => UniversalTest.MINIMUM_LENGTH
    case ApproximateEntropy => ApproximateEntropyTest.MINIMUM_LENGTH
    case Serial => SerialTest.MINIMUM_LENGTH
    case DiscreteFourierTransform => DiscreteFourierTransformTest.MINIMUM_LENGTH
  }

  /** `new <Kind>(this.mathFunctions)`. */
  function Construct(k: RandomTest, serial: nat): (t: Test)
    requires Registrable(k)
    ensures t.kind == JavaLang.Some(k) && t.ref == Created(serial)
  {
    Test(Created(serial), JavaLang.Some(k), MinimumLengthOf(k))
  }

  // ---------------------------------------------------------------------
  // Construction

  /** Both constructors: empty slots, nothing run yet; the default one
      creates its own MathematicalFunctions. */
  function New(ownMaths: bool): (s: Suite)
    ensures Valid(s) && Registered(s) == 0 && s.instantiatedTests == 0
    ensures !s.random && s.error == NoError && s.numberOfErrors == 0
    ensures s.errorTest == NotDefined && s.nonRandomTest == NotDefined
    ensures s.selfCreatedMaths == ownMaths
    ensures forall i :: 0 <= i < SuiteSize ==> s.slots[i].None? && !s.selfCreatedTest[i]
  {
    var s := Suite(seq(SuiteSize, _ => JavaLang.None), seq(SuiteSize, _ => false), false, ownMaths,
                   NoError, 0, 0, NotDefined, NotDefined, 0);
    EmptyOccupied(s.slots, SuiteSize);
    s
  }

  lemma {:induction false} EmptyOccupied(slots: seq<Option<Test>>, i: nat)
    requires i <= |slots|
    requires forall j :: 0 <= j < i ==> slots[j].None?
    ensures Occupied(slots, i) == 0
  {
    if i > 0 {
      EmptyOccupied(slots, i - 1);
    }
  }

  /** Every occupied slot emptied, its selfCreatedTest flag lowered; an
      empty slot keeps its flag. */
  function Emptied(s: Suite): (r: Suite)
    requires Valid(s)
    ensures Valid(r) && Registered(r) == 0
    ensures forall i :: 0 <= i < SuiteSize ==>
      r.slots[i].None? && r.selfCreatedTest[i] == (s.selfCreatedTest[i] && s.slots[i].None?)
    ensures r == s.(slots := r.slots, selfCreatedTest := r.selfCreatedTest)
  {
    var r := s.(slots := seq(SuiteSize, _ => JavaLang.None),
                selfCreatedTest := seq(SuiteSize, i requires 0 <= i < SuiteSize =>
                                         s.selfCreatedTest[i] && s.slots[i].None?));
    EmptyOccupied(r.slots, SuiteSize);
    r
  }

  /** finalize(): the slots are emptied and every result and counter is
      back to its initial value. */
  function Finalize(s: Suite): (r: Suite)
    requires Valid(s)
    ensures Valid(r) && Registered(r) == 0 && r.instantiatedTests == 0
    ensures !r.random && r.error == NoError && r.numberOfErrors == 0
    ensures r.errorTest == NotDefined && r.nonRandomTest == NotDefined
  {
    Emptied(s).(random := false, error := NoError, instantiatedTests := 0, numberOfErrors := 0,
                errorTest := NotDefined, nonRandomTest := NotDefined)
  }

  // ---------------------------------------------------------------------
  // Adding and removing

  /** Slot o set to v and flag o to f; nothing else changes. */
  function Put(s: Suite, o: nat, v: Option<Test>, f: bool): (r: Suite)
    requires Valid(s) && o < SuiteSize
    requires v.Some? ==> v.value.kind == JavaLang.Some(KindAt(o))
    ensures Valid(r)
    ensures r.slots == s.slots[o := v] && r.selfCreatedTest == s.selfCreatedTest[o := f]
    ensures r == s.(slots := r.slots, selfCreatedTest := r.selfCreatedTest)
  {
    s.(slots := s.slots[o := v], selfCreatedTest := s.selfCreatedTest[o := f])
  }

  /** Occupying or emptying one slot changes the number of registered
      tests by one, and only if the slot changes state. */
  lemma {:induction false} OccupiedAfterPut(slots: seq<Option<Test>>, o: nat, v: Option<Test>, i: nat)
    requires o < |slots| && i <= |slots|
    ensures Occupied(slots[o := v], i) ==
      Occupied(slots, i)
      + (if o < i && v.Some? && slots[o].None? then 1 else 0)
      - (if o < i && v.None? && slots[o].Some? then 1 else 0)
  {
    if i > 0 {
      OccupiedAfterPut(slots, o, v, i - 1);
    }
  }

  /** Add(BaseRandom test): a null test is ignored; otherwise the test
      takes the slot of the kind it reports, whatever was there, and the
      count goes up. A test reporting a null kind or a kind without a slot
      throws. */
  function AddTest(s: Suite, test: Option<Test>): (r: Result<Suite>)
    requires Valid(s)
    ensures test.None? ==> r == JavaLang.Ok(s)
    ensures test.Some? && test.value.kind.None? ==> r == JavaLang.Err(JavaLang.NullPointer)
    ensures test.Some? && test.value.kind.Some? && !Registrable(test.value.kind.value) ==>
      r == JavaLang.Err(JavaLang.ArrayIndexOutOfBounds)
    ensures r.Ok? && test.Some? ==> (
      var o := Ordinal(test.value.kind.value);
      && Valid(r.value)
      && r.value.slots == s.slots[o := test]
      && r.value.selfCreatedTest == s.selfCreatedTest[o := false]
      && r.value.instantiatedTests == s.instantiatedTests + 1)
  {
    if test.None? then JavaLang.Ok(s)
    else if test.value.kind.None? then JavaLang.Err(JavaLang.NullPointer)
    else
      var k := test.value.kind.value;
      if !Registrable(k) then JavaLang.Err(JavaLang.ArrayIndexOutOfBounds)
      else
        var o := Ordinal(k);
        OrdinalInjective(k, KindAt(o));
        JavaLang.Ok(Put(s, o, test, false).(instantiatedTests := s.instantiatedTests + 1))
  }

  /** Add(RandomTests test): an empty slot gets a newly constructed test
      and the count goes up; an occupied slot is kept. Either way the slot
      is marked self-created. A kind without a slot throws at that last
      store. */
  function AddKind(s: Suite, k: RandomTest): (r: Result<Suite>)
    requires Valid(s)
    ensures !Registrable(k) <==> r == JavaLang.Err(JavaLang.ArrayIndexOutOfBounds)
    ensures r.Ok? ==> (
      var o := Ordinal(k);
      && Valid(r.value)
      && r.value.selfCreatedTest == s.selfCreatedTest[o := true]
      && (s.slots[o].Some? ==> r.value.slots == s.slots && r.value.instantiatedTests == s.instantiatedTests)
      && (s.slots[o].None? ==>
            && r.value.slots == s.slots[o := JavaLang.Some(Construct(k, s.created))]
            && r.value.instantiatedTests == s.instantiatedTests + 1))
  {
    if !Registrable(k) then JavaLang.Err(JavaLang.ArrayIndexOutOfBounds)
    else
      var o := Ordinal(k);
      OrdinalInjective(k, KindAt(o));
      if s.slots[o].None? then
        var u := Put(s, o, JavaLang.Some(Construct(k, s.created)), true);
        JavaLang.Ok(u.(instantiatedTests := s.instantiatedTests + 1, created := s.created + 1))
      else
        JavaLang.Ok(Put(s, o, s.slots[o], true))
  }

  /** AddFrequencyTest() .. AddDiscreteFourierTransformTest(): a new test
      replaces whatever the slot held, and the count goes up regardless. */
  function AddNewTest(s: Suite, k: RandomTest): (r: Suite)
    requires Valid(s) && Registrable(k)
    ensures Valid(r)
    ensures r.slots == s.slots[Ordinal(k) := JavaLang.Some(Construct(k, s.created))]
    ensures r.selfCreatedTest == s.selfCreatedTest[Ordinal(k) := true]
    ensures r.instantiatedTests == s.instantiatedTests + 1
  {
    OrdinalInjective(k, KindAt(Ordinal(k)));
    Put(s, Ordinal(k), JavaLang.Some(Construct(k, s.created)), true)
      .(instantiatedTests := s.instantiatedTests + 1, created := s.created + 1)
  }

  /** AddAll(): a new test in every slot, every slot self-created, and the
      count set to NumberOfTests.ordinal(). */
  function AddAll(s: Suite): (r: Suite)
    requires Valid(s)
    ensures Valid(r) && Registered(r) == SuiteSize && r.instantiatedTests == SuiteSize
    ensures forall i :: 0 <= i < SuiteSize ==>
      r.slots[i] == JavaLang.Some(Construct(KindAt(i), s.created + i)) && r.selfCreatedTest[i]
  {
    var r := s.(slots := seq(SuiteSize, i requires 0 <= i < SuiteSize => JavaLang.Some(Construct(KindAt(i), s.created + i))),
                selfCreatedTest := seq(SuiteSize, _ => true),
                instantiatedTests := SuiteSize,
                created := s.created + SuiteSize);
    FullOccupied(r.slots, SuiteSize);
    r
  }

  lemma {:induction false} FullOccupied(slots: seq<Option<Test>>, i: nat)
    requires i <= |slots|
    requires forall j :: 0 <= j < i ==> slots[j].Some?
    ensures Occupied(slots, i) == i
  {
    if i > 0 {
      FullOccupied(slots, i - 1);
    }
  }

  /** Remove(RandomTests test): an occupied slot is emptied, its flag
      lowered and the count decreased; an empty slot changes nothing. The
      RemoveXxxTest() methods do the same for their own kind. */
  function RemoveKind(s: Suite, k: RandomTest): (r: Result<Suite>)
    requires Valid(s)
    ensures !Registrable(k) <==> r == JavaLang.Err(JavaLang.ArrayIndexOutOfBounds)
    ensures r.Ok? && s.slots[Ordinal(k)].None? ==> r.value == s
    ensures r.Ok? && s.slots[Ordinal(k)].Some? ==> (
      && Valid(r.value)
      && r.value.slots == s.slots[Ordinal(k) := JavaLang.None]
      && r.value.selfCreatedTest == s.selfCreatedTest[Ordinal(k) := false]
      && r.value.instantiatedTests == s.instantiatedTests - 1)
  {
    if !Registrable(k) then JavaLang.Err(JavaLang.ArrayIndexOutOfBounds)
    else
      var o := Ordinal(k);
      if s.slots[o].None? then JavaLang.Ok(s)
      else JavaLang.Ok(Put(s, o, JavaLang.None, false).(instantiatedTests := s.instantiatedTests - 1))
  }

  /** Remove(BaseRandom test): only the very object held in its kind's
      slot is removed; another object of the same kind is left alone. A
      null test or kind throws, and so does a kind without a slot. */
  function RemoveTest(s: Suite, test: Option<Test>): (r: Result<Suite>)
    requires Valid(s)
    ensures test.None? || test.value.kind.None? ==> r == JavaLang.Err(JavaLang.NullPointer)
    ensures test.Some? && test.value.kind.Some? && !Registrable(test.value.kind.value) ==>
      r == JavaLang.Err(JavaLang.ArrayIndexOutOfBounds)
    ensures test.Some? && test.value.kind.Some? && Registrable(test.value.kind.value) ==> (
      var o := Ordinal(test.value.kind.value);
      if s.slots[o].Some? && s.slots[o].value.ref == test.value.ref
      then r == RemoveKind(s, test.value.kind.value)
      else r == JavaLang.Ok(s))
  {
    if test.None? || test.value.kind.None? then JavaLang.Err(JavaLang.NullPointer)
    else
      var k := test.value.kind.value;
      if !Registrable(k) then JavaLang.Err(JavaLang.ArrayIndexOutOfBounds)
      else if s.slots[Ordinal(k)].Some? && s.slots[Ordinal(k)].value.ref == test.value.ref then
        JavaLang.Ok(Put(s, Ordinal(k), JavaLang.None, false).(instantiatedTests := s.instantiatedTests - 1))
      else JavaLang.Ok(s)
  }

  /** RemoveAll(): every slot empty and the count 0. */
  function RemoveAll(s: Suite): (r: Suite)
    requires Valid(s)
    ensures Valid(r) && Registered(r) == 0 && r.instantiatedTests == 0
    ensures forall i :: 0 <= i < SuiteSize ==> r.slots[i].None? && (s.slots[i].Some? ==> !r.selfCreatedTest[i])
    ensures r.random == s.random && r.error == s.error && r.numberOfErrors == s.numberOfErrors
  {
    Emptied(s).(instantiatedTests := 0)
  }

  /** GetRandomTest(test) and Exist(test): the slot, read without a
      bounds check. */
  function GetRandomTest(s: Suite, k: RandomTest): (r: Result<Option<Test>>)
    requires Valid(s)
    ensures Registrable(k) <==> r.Ok?
    ensures r.Ok? ==> r.value == s.slots[Ordinal(k)]
    ensures r.Ok? && r.value.Some? ==> r.value.value.kind == JavaLang.Some(k)
    ensures r.Err? ==> r.exc == JavaLang.ArrayIndexOutOfBounds
  {
    if !Registrable(k) then JavaLang.Err(JavaLang.ArrayIndexOutOfBounds)
    else
      OrdinalInjective(k, KindAt(Ordinal(k)));
      JavaLang.Ok(s.slots[Ordinal(k)])
  }

  function Exist(s: Suite, k: RandomTest): (r: Result<bool>)
    requires Valid(s)
    ensures Registrable(k) <==> r.Ok?
    ensures r.Ok? ==> (r.value <==> s.slots[Ordinal(k)].Some?)
    ensures r.Err? ==> r.exc == JavaLang.ArrayIndexOutOfBounds
  {
    if !Registrable(k) then JavaLang.Err(JavaLang.ArrayIndexOutOfBounds)
    else JavaLang.Ok(s.slots[Ordinal(k)].Some?)
  }

  // ---------------------------------------------------------------------
  // The instantiated-test count

  /** The count agrees with the slots. */
  predicate Counted(s: Suite)
    requires Valid(s)
  {
    s.instantiatedTests == Registered(s)
  }

  /** Add(kind), Remove(kind), AddAll and RemoveAll keep the count equal to
      the number of occupied slots. */
  lemma CountKept(s: Suite, k: RandomTest)
    requires Valid(s) && Counted(s)
    ensures AddKind(s, k).Ok? ==> Counted(AddKind(s, k).value)
    ensures RemoveKind(s, k).Ok? ==> Counted(RemoveKind(s, k).value)
    ensures Counted(AddAll(s)) && Counted(RemoveAll(s))
  {
    if Registrable(k) {
      var o := Ordinal(k);
      OccupiedAfterPut(s.slots, o, JavaLang.Some(Construct(k, s.created)), SuiteSize);
      OccupiedAfterPut(s.slots, o, s.slots[o], SuiteSize);
      OccupiedAfterPut(s.slots, o, JavaLang.None, SuiteSize);
    }
  }

  /** Adding an object, or a new test through AddXxxTest(), to an occupied
      slot still raises the count, so it drifts above the number of
      registered tests. */
  lemma CountDriftsOnOverwrite(s: Suite, t: Test)
    requires Valid(s) && Counted(s)
    requires t.kind.Some? && Registrable(t.kind.value) && s.slots[Ordinal(t.kind.value)].Some?
    ensures AddTest(s, JavaLang.Some(t)).Ok?
    ensures AddTest(s, JavaLang.Some(t)).value.instantiatedTests == Registered(AddTest(s, JavaLang.Some(t)).value) + 1
    ensures AddNewTest(s, t.kind.value).instantiatedTests == Registered(AddNewTest(s, t.kind.value)) + 1
  {
    var k := t.kind.value;
    OccupiedAfterPut(s.slots, Ordinal(k), JavaLang.Some(t), SuiteSize);
    OccupiedAfterPut(s.slots, Ordinal(k), JavaLang.Some(Construct(k, s.created)), SuiteSize);
  }

  // ---------------------------------------------------------------------
  // Running the tests

  /** How TestRandom folds a failing test's error into the suite's. */
  function Merge(current: RandomTestError, e: RandomTestError): RandomTestError {
    if current == NoError then e else if current != e then MultipleErrors else current
  }

  /** TestRandom's loop over the first i slots: every registered test
      runs; the suite's verdict is the AND of the verdicts, and a test that
      reports itself non-random with an error has that error merged in and
      counted. */
  function TestLoop(s: Suite, run: Test -> Outcome, i: nat): (r: Suite)
    requires Valid(s) && i <= SuiteSize
    ensures r == s.(random := r.random, error := r.error, numberOfErrors := r.numberOfErrors)
  {
    if i == 0 then s.(random := true)
    else
      var u := TestLoop(s, run, i - 1);
      var slot := s.slots[i - 1];
      if slot.None? then u
      else
        var o := run(slot.value);
        var v := u.(random := u.random && o.verdict);
        if !o.random && o.error != NoError then
          v.(error := Merge(u.error, o.error), numberOfErrors := u.numberOfErrors + 1)
        else v
  }

  /** TestRandom(stream). */
  function TestRandom(s: Suite, run: Test -> Outcome): (r: (Suite, bool))
    requires Valid(s)
    ensures r.1 == r.0.random
    ensures Valid(r.0) && r.0.slots == s.slots && r.0.instantiatedTests == s.instantiatedTests
  {
    var u := TestLoop(s, run, SuiteSize);
    (u, u.random)
  }

  /** The errors TestRandom merges, in slot order: those of the tests that
      end non-random with an error. */
  function Reported(s: Suite, run: Test -> Outcome, i: nat): (es: seq<RandomTestError>)
    requires Valid(s) && i <= SuiteSize
    ensures forall j :: 0 <= j < |es| ==> es[j] != NoError
  {
    if i == 0 then []
    else
      var slot := s.slots[i - 1];
      var rest := Reported(s, run, i - 1);
      if slot.Some? && !run(slot.value).random && run(slot.value).error != NoError
      then rest + [run(slot.value).error]
      else rest
  }

  /** The merge as a whole: the errors seen, the suite's previous error
      first when there was one; none gives NoError, a single value gives
      that value, and two different values give MultipleErrors. */
  function Seen(previous: RandomTestError, es: seq<RandomTestError>): seq<RandomTestError> {
    if previous == NoError then es else [previous] + es
  }

  predicate AllSame(es: seq<RandomTestError>) {
    forall j :: 0 <= j < |es| ==> es[j] == es[0]
  }

  function Summary(es: seq<RandomTestError>): RandomTestError {
    if |es| == 0 then NoError else if AllSame(es) then es[0] else MultipleErrors
  }

  /** The verdict is true exactly when every registered test's verdict
      among the first i is true. */
  lemma {:induction false} TestLoopIsConjunction(s: Suite, run: Test -> Outcome, i: nat)
    requires Valid(s) && i <= SuiteSize
    ensures TestLoop(s, run, i).random <==>
      forall j :: 0 <= j < i && s.slots[j].Some? ==> run(s.slots[j].value).verdict
  {
    if i > 0 {
      TestLoopIsConjunction(s, run, i - 1);
    }
  }

  /** The error after the loop summarises the previous error and the
      reported ones; each reported error is counted. */
  lemma {:induction false} TestLoopMergesErrors(s: Suite, run: Test -> Outcome, i: nat)
    requires Valid(s) && i <= SuiteSize
    requires forall j :: 0 <= j < i && s.slots[j].Some? ==> run(s.slots[j].value).error != MultipleErrors
    requires s.error != MultipleErrors
    ensures TestLoop(s, run, i).error == Summary(Seen(s.error, Reported(s, run, i)))
    ensures TestLoop(s, run, i).numberOfErrors == s.numberOfErrors + |Reported(s, run, i)|
  {
    if i > 0 {
      TestLoopMergesErrors(s, run, i - 1);
      MergeStep(s, run, i);
    }
  }

  /** The error fields after slot i - 1, given those before it. */
  lemma MergeStep(s: Suite, run: Test -> Outcome, i: nat)
    requires Valid(s) && 0 < i <= SuiteSize
    requires forall j :: 0 <= j < i && s.slots[j].Some? ==> run(s.slots[j].value).error != MultipleErrors
    requires s.error != MultipleErrors
    requires TestLoop(s, run, i - 1).error == Summary(Seen(s.error, Reported(s, run, i - 1)))
    requires TestLoop(s, run, i - 1).numberOfErrors == s.numberOfErrors + |Reported(s, run, i - 1)|
    ensures TestLoop(s, run, i).error == Summary(Seen(s.error, Reported(s, run, i)))
    ensures TestLoop(s, run, i).numberOfErrors == s.numberOfErrors + |Reported(s, run, i)|
  {
    TestLoopStep(s, run, i);
    var slot := s.slots[i - 1];
    ReportedSingle(s, run, i - 1);
    if slot.Some? && !run(slot.value).random && run(slot.value).error != NoError {
      var e := run(slot.value).error;
      var before := Seen(s.error, Reported(s, run, i - 1));
      assert Seen(s.error, Reported(s, run, i)) == before + [e];
      SummaryAppend(before, e);
    }
  }

  /** One step of TestRandom's loop on the error fields. */
  lemma TestLoopStep(s: Suite, run: Test -> Outcome, i: nat)
    requires Valid(s) && 0 < i <= SuiteSize
    ensures var u := TestLoop(s, run, i - 1);
            var slot := s.slots[i - 1];
            var r := TestLoop(s, run, i);
            if slot.Some? && !run(slot.value).random && run(slot.value).error != NoError
            then r.error == Merge(u.error, run(slot.value).error) && r.numberOfErrors == u.numberOfErrors + 1
            else r.error == u.error && r.numberOfErrors == u.numberOfErrors
  {
  }

  lemma {:induction false} ReportedSingle(s: Suite, run: Test -> Outcome, i: nat)
    requires Valid(s) && i <= SuiteSize
    requires forall j :: 0 <= j < i && s.slots[j].Some? ==> run(s.slots[j].value).error != MultipleErrors
    ensures forall j :: 0 <= j < |Reported(s, run, i)| ==> Reported(s, run, i)[j] != MultipleErrors
  {
    if i > 0 {
      ReportedSingle(s, run, i - 1);
    }
  }

  lemma SummaryAppend(es: seq<RandomTestError>, e: RandomTestError)
    requires e != NoError && e != MultipleErrors
    requires forall j :: 0 <= j < |es| ==> es[j] != NoError && es[j] != MultipleErrors
    ensures Summary(es + [e]) == Merge(Summary(es), e)
  {
    if |es| > 0 && AllSame(es) && es[0] == e {
      assert AllSame(es + [e]);
    } else if |es| > 0 && AllSame(es) {
      assert (es + [e])[|es|] != (es + [e])[0];
    } else if |es| > 0 {
      var j :| 0 <= j < |es| && es[j] != es[0];
      assert (es + [e])[j] != (es + [e])[0];
    }
  }

  /** TestRandom(stream) as a whole: the AND of every registered verdict,
      the error merged from the previous one (not reset between runs), one
      more error counted per reporting test, and nothing else touched. */
  lemma TestRandomVerdict(s: Suite, run: Test -> Outcome)
    requires Valid(s) && s.error != MultipleErrors
    requires forall j :: 0 <= j < SuiteSize && s.slots[j].Some? ==> run(s.slots[j].value).error != MultipleErrors
    ensures TestRandom(s, run).1 <==>
      forall j :: 0 <= j < SuiteSize && s.slots[j].Some? ==> run(s.slots[j].value).verdict
    ensures TestRandom(s, run).0.error == Summary(Seen(s.error, Reported(s, run, SuiteSize)))
    ensures TestRandom(s, run).0.numberOfErrors == s.numberOfErrors + |Reported(s, run, SuiteSize)|
  {
    TestLoopIsConjunction(s, run, SuiteSize);
    TestLoopMergesErrors(s, run, SuiteSize);
  }

  /** IsRandom(stream)'s loop over the first i slots: it stops at the
      first false verdict; each test it visits becomes nonRandomTest, and
      one with an error becomes errorTest with numberOfErrors set to 1. */
  function ShortLoop(s: Suite, run: Test -> Outcome, i: nat): (r: Suite)
    requires Valid(s) && i <= SuiteSize
    ensures r == s.(random := r.random, nonRandomTest := r.nonRandomTest,
                    errorTest := r.errorTest, numberOfErrors := r.numberOfErrors)
  {
    if i == 0 then s.(random := true)
    else
      var u := ShortLoop(s, run, i - 1);
      var slot := s.slots[i - 1];
      if !u.random || slot.None? then u
      else
        var o := run(slot.value);
        var v := u.(random := o.verdict, nonRandomTest := KindAt(i - 1));
        if o.error != NoError then v.(errorTest := KindAt(i - 1), numberOfErrors := 1) else v
  }

  /** IsRandom(stream): numberOfErrors becomes 1 when a test the loop
      reaches reports an error, and errorTest names the last such test;
      otherwise both keep their values. */
  function IsRandom(s: Suite, run: Test -> Outcome): (r: (Suite, bool))
    requires Valid(s)
    ensures r.1 == r.0.random
    ensures Valid(r.0) && r.0.slots == s.slots && r.0.error == s.error
    ensures r.0.numberOfErrors == if exists j :: ErrorVisited(s, run, SuiteSize, j) then 1 else s.numberOfErrors
    ensures forall j :: LastErrorVisited(s, run, SuiteSize, j) ==> r.0.errorTest == KindAt(j)
    ensures (forall j :: !ErrorVisited(s, run, SuiteSize, j)) ==> r.0.errorTest == s.errorTest
  {
    ShortLoopErrors(s, run, SuiteSize);
    var u := ShortLoop(s, run, SuiteSize);
    (u, u.random)
  }

  /** Slot j holds the first registered test among the first i whose
      verdict is false. */
  predicate FirstFailure(s: Suite, run: Test -> Outcome, i: nat, j: int)
    requires Valid(s) && i <= SuiteSize
  {
    && 0 <= j < i && s.slots[j].Some? && !run(s.slots[j].value).verdict
    && forall m :: 0 <= m < j && s.slots[m].Some? ==> run(s.slots[m].value).verdict
  }

  /** Slot j holds the last registered test among the first i. */
  predicate LastRegistered(s: Suite, i: nat, j: int)
    requires Valid(s) && i <= SuiteSize
  {
    0 <= j < i && s.slots[j].Some? && forall m :: j < m < i ==> s.slots[m].None?
  }

  /** The short-circuit loop gives the same verdict as TestRandom. */
  lemma {:induction false} ShortLoopIsConjunction(s: Suite, run: Test -> Outcome, i: nat)
    requires Valid(s) && i <= SuiteSize
    ensures ShortLoop(s, run, i).random <==>
      forall j :: 0 <= j < i && s.slots[j].Some? ==> run(s.slots[j].value).verdict
  {
    if i > 0 {
      ShortLoopIsConjunction(s, run, i - 1);
      ShortLoopStep(s, run, i);
      PassesStep(s, run, i);
    }
  }

  /** All of the first i registered tests pass exactly when the first
      i - 1 do and slot i - 1 is empty or passes. */
  lemma PassesStep(s: Suite, run: Test -> Outcome, i: nat)
    requires Valid(s) && 0 < i <= SuiteSize
    ensures (forall j :: 0 <= j < i && s.slots[j].Some? ==> run(s.slots[j].value).verdict)
      <==> (forall j :: 0 <= j < i - 1 && s.slots[j].Some? ==> run(s.slots[j].value).verdict)
           && (s.slots[i - 1].Some? ==> run(s.slots[i - 1].value).verdict)
  {
  }

  lemma ShortLoopStep(s: Suite, run: Test -> Outcome, i: nat)
    requires Valid(s) && 0 < i <= SuiteSize
    ensures ShortLoop(s, run, i).random ==
      (ShortLoop(s, run, i - 1).random && (s.slots[i - 1].Some? ==> run(s.slots[i - 1].value).verdict))
  {
  }

  /** It stops at the first failing test, which nonRandomTest names. */
  lemma {:induction false} ShortLoopStopsAtFirstFailure(s: Suite, run: Test -> Outcome, i: nat, j: int)
    requires Valid(s) && i <= SuiteSize
    requires FirstFailure(s, run, i, j)
    ensures !ShortLoop(s, run, i).random && ShortLoop(s, run, i).nonRandomTest == KindAt(j)
  {
    if j < i - 1 {
      assert FirstFailure(s, run, i - 1, j);
      ShortLoopStopsAtFirstFailure(s, run, i - 1, j);
      ShortLoopStopped(s, run, i);
    } else {
      ShortLoopIsConjunction(s, run, i - 1);
      ShortLoopFails(s, run, i);
    }
  }

  /** Once the verdict is false the loop leaves the suite alone. */
  lemma ShortLoopStopped(s: Suite, run: Test -> Outcome, i: nat)
    requires Valid(s) && 0 < i <= SuiteSize && !ShortLoop(s, run, i - 1).random
    ensures ShortLoop(s, run, i) == ShortLoop(s, run, i - 1)
  {
  }

  /** A failing test in slot i - 1 after passing ones sets the verdict to
      false and names that slot. */
  lemma ShortLoopFails(s: Suite, run: Test -> Outcome, i: nat)
    requires Valid(s) && 0 < i <= SuiteSize && ShortLoop(s, run, i - 1).random
    requires s.slots[i - 1].Some? && !run(s.slots[i - 1].value).verdict
    ensures !ShortLoop(s, run, i).random && ShortLoop(s, run, i).nonRandomTest == KindAt(i - 1)
  {
  }

  /** When every test passes, nonRandomTest names the last registered
      one. */
  lemma {:induction false} ShortLoopEndsAtLastRegistered(s: Suite, run: Test -> Outcome, i: nat, j: int)
    requires Valid(s) && i <= SuiteSize
    requires LastRegistered(s, i, j)
    requires ShortLoop(s, run, i).random
    ensures ShortLoop(s, run, i).nonRandomTest == KindAt(j)
  {
    if j < i - 1 {
      assert LastRegistered(s, i - 1, j);
      ShortLoopEndsAtLastRegistered(s, run, i - 1, j);
    }
  }

  /** With no registered test the loop only sets the verdict to true. */
  lemma {:induction false} ShortLoopOnEmptySlots(s: Suite, run: Test -> Outcome, i: nat)
    requires Valid(s) && i <= SuiteSize
    requires forall j :: 0 <= j < i ==> s.slots[j].None?
    ensures ShortLoop(s, run, i) == s.(random := true)
  {
    if i > 0 {
      ShortLoopOnEmptySlots(s, run, i - 1);
    }
  }

  /** Slot j holds a test the loop over the first i slots reaches: every
      registered test in front of it passes. */
  predicate Visited(s: Suite, run: Test -> Outcome, i: nat, j: int)
    requires Valid(s) && i <= SuiteSize
  {
    && 0 <= j < i && s.slots[j].Some?
    && forall m :: 0 <= m < j && s.slots[m].Some? ==> run(s.slots[m].value).verdict
  }

  /** A test the loop reaches that reports an error. */
  predicate ErrorVisited(s: Suite, run: Test -> Outcome, i: nat, j: int)
    requires Valid(s) && i <= SuiteSize
  {
    Visited(s, run, i, j) && run(s.slots[j].value).error != NoError
  }

  /** The last test the loop reaches that reports an error. */
  predicate LastErrorVisited(s: Suite, run: Test -> Outcome, i: nat, j: int)
    requires Valid(s) && i <= SuiteSize
  {
    ErrorVisited(s, run, i, j) && forall m :: j < m < i ==> !ErrorVisited(s, run, i, m)
  }

  /** The loop's error bookkeeping: numberOfErrors is set to 1 (not
      incremented) when a reached test reports an error, and errorTest
      names the last of them; with none, both are left as they were. */
  lemma {:induction false} ShortLoopErrors(s: Suite, run: Test -> Outcome, i: nat)
    requires Valid(s) && i <= SuiteSize
    ensures ShortLoop(s, run, i).numberOfErrors ==
      if exists j :: ErrorVisited(s, run, i, j) then 1 else s.numberOfErrors
    ensures forall j :: LastErrorVisited(s, run, i, j) ==> ShortLoop(s, run, i).errorTest == KindAt(j)
    ensures (forall j :: !ErrorVisited(s, run, i, j)) ==> ShortLoop(s, run, i).errorTest == s.errorTest
  {
    if i > 0 {
      var k := i - 1;
      ShortLoopErrors(s, run, k);
      ErrorVisitedStep(s, run, i, k);
      if ErrorVisited(s, run, i, k) {
        ShortLoopErrorAt(s, run, i, k);
      } else {
        ShortLoopNoErrorAt(s, run, i, k);
      }
    }
  }

  /** The tests reached among the first k slots are reached among the
      first k + 1 too, and slot k is reached exactly when the loop over
      the first k is still going and slot k is occupied. */
  lemma ErrorVisitedStep(s: Suite, run: Test -> Outcome, i: nat, k: nat)
    requires Valid(s) && 0 < i <= SuiteSize && k == i - 1
    ensures forall j :: 0 <= j < k ==> (ErrorVisited(s, run, i, j) <==> ErrorVisited(s, run, k, j))
    ensures forall j :: ErrorVisited(s, run, k, j) ==> ErrorVisited(s, run, i, j)
    ensures Visited(s, run, i, k) <==> ShortLoop(s, run, k).random && s.slots[k].Some?
  {
    ShortLoopIsConjunction(s, run, k);
  }

  /** A reached test in the last slot that reports an error sets the
      count to 1 and names itself. */
  lemma ShortLoopErrorAt(s: Suite, run: Test -> Outcome, i: nat, k: nat)
    requires Valid(s) && 0 < i <= SuiteSize && k == i - 1
    requires ErrorVisited(s, run, i, k)
    requires Visited(s, run, i, k) <==> ShortLoop(s, run, k).random && s.slots[k].Some?
    ensures ShortLoop(s, run, i).numberOfErrors == 1 && ShortLoop(s, run, i).errorTest == KindAt(k)
    ensures forall j :: LastErrorVisited(s, run, i, j) ==> j == k
  {
  }

  /** Otherwise the last slot leaves the error bookkeeping as it was. */
  lemma ShortLoopNoErrorAt(s: Suite, run: Test -> Outcome, i: nat, k: nat)
    requires Valid(s) && 0 < i <= SuiteSize && k == i - 1
    requires !ErrorVisited(s, run, i, k)
    requires Visited(s, run, i, k) <==> ShortLoop(s, run, k).random && s.slots[k].Some?
    requires forall j :: 0 <= j < k ==> (ErrorVisited(s, run, i, j) <==> ErrorVisited(s, run, k, j))
    ensures ShortLoop(s, run, i).numberOfErrors == ShortLoop(s, run, k).numberOfErrors
    ensures ShortLoop(s, run, i).errorTest == ShortLoop(s, run, k).errorTest
    ensures (exists j :: ErrorVisited(s, run, i, j)) <==> (exists j :: ErrorVisited(s, run, k, j))
    ensures forall j :: LastErrorVisited(s, run, i, j) ==> LastErrorVisited(s, run, k, j)
  {
  }

  /** IsRandom agrees with TestRandom on the verdict. */
  lemma SameVerdict(s: Suite, run: Test -> Outcome)
    requires Valid(s)
    ensures IsRandom(s, run).1 == TestRandom(s, run).1
  {
    ShortLoopIsConjunction(s, run, SuiteSize);
    TestLoopIsConjunction(s, run, SuiteSize);
  }

  /** Initialize(): the results are reset (each test's own Initialize()
      aside); nonRandomTest is left as it was. */
  function Initialize(s: Suite): (r: Suite)
    requires Valid(s)
    ensures Valid(r) && r.slots == s.slots && r.nonRandomTest == s.nonRandomTest
    ensures !r.random && r.error == NoError && r.numberOfErrors == 0 && r.errorTest == NotDefined
    ensures r.instantiatedTests == s.instantiatedTests
  {
    s.(random := false, error := NoError, numberOfErrors := 0, errorTest := NotDefined)
  }

  // ---------------------------------------------------------------------
  // Minimum length

  /** The largest minimum length among the registered tests in the first
      i slots, 0 if none exceeds 0, and the first kind that attains it
      (NotDefined when the maximum is 0). Later ties do not replace it. */
  function Longest(s: Suite, i: nat): (r: (int, RandomTest))
    requires Valid(s) && i <= SuiteSize
    ensures r.0 >= 0
    ensures forall j :: 0 <= j < i && s.slots[j].Some? ==> s.slots[j].value.minimumLength <= r.0
    ensures r.0 == 0 <==> r.1 == NotDefined
    ensures r.0 > 0 ==> exists j :: (
      && 0 <= j < i && s.slots[j].Some? && s.slots[j].value.minimumLength == r.0 && r.1 == KindAt(j)
      && forall m :: 0 <= m < j && s.slots[m].Some? ==> s.slots[m].value.minimumLength < r.0)
  {
    if i == 0 then (0, NotDefined)
    else
      var u := Longest(s, i - 1);
      var slot := s.slots[i - 1];
      if slot.Some? && slot.value.minimumLength > u.0 then (slot.value.minimumLength, KindAt(i - 1))
      else u
  }

  /** GetMinimumLength() with the loop kept to the kinds that have a
      slot. */
  function GetMinimumLength(s: Suite): (r: int)
    requires Valid(s)
    ensures r >= 0
    ensures forall j :: 0 <= j < SuiteSize && s.slots[j].Some? ==> s.slots[j].value.minimumLength <= r
    ensures r == 0 || exists j :: 0 <= j < SuiteSize && s.slots[j].Some? && s.slots[j].value.minimumLength == r
  {
    Longest(s, SuiteSize).0
  }

  /** GetMinimumLengthRandomTest() with the loop kept to the kinds that
      have a slot: the first kind with the largest positive minimum. */
  function GetMinimumLengthRandomTest(s: Suite): (r: RandomTest)
    requires Valid(s)
    ensures r == NotDefined <==> GetMinimumLength(s) == 0
    ensures r != NotDefined ==> (
      && Registrable(r)
      && s.slots[Ordinal(r)].Some? && s.slots[Ordinal(r)].value.minimumLength == GetMinimumLength(s)
      && forall m :: 0 <= m < Ordinal(r) && s.slots[m].Some? ==> s.slots[m].value.minimumLength < GetMinimumLength(s))
  {
    Longest(s, SuiteSize).1
  }

  /** The loops as written walk RandomTests.values(), all fourteen kinds,
      and call Exist on each; from position i on. */
  function LongestAsWritten(s: Suite, i: nat, acc: (int, RandomTest)): (r: Result<(int, RandomTest)>)
    requires Valid(s) && i <= |AllKinds|
    decreases |AllKinds| - i
  {
    if i == |AllKinds| then JavaLang.Ok(acc)
    else
      var k := AllKinds[i];
      var present := Exist(s, k);
      if present.Err? then JavaLang.Err(present.exc)
      else if present.value && s.slots[Ordinal(k)].value.minimumLength > acc.0 then
        LongestAsWritten(s, i + 1, (s.slots[Ordinal(k)].value.minimumLength, k))
      else LongestAsWritten(s, i + 1, acc)
  }

  function GetMinimumLengthAsWritten(s: Suite): Result<int>
    requires Valid(s)
  {
    var r := LongestAsWritten(s, 0, (0, NotDefined));
    if r.Err? then JavaLang.Err(r.exc) else JavaLang.Ok(r.value.0)
  }

  function GetMinimumLengthRandomTestAsWritten(s: Suite): Result<RandomTest>
    requires Valid(s)
  {
    var r := LongestAsWritten(s, 0, (0, NotDefined));
    if r.Err? then JavaLang.Err(r.exc) else JavaLang.Ok(r.value.1)
  }

  /** values() reaches NumberOfTests, whose ordinal is one past the last
      slot, so both methods throw on every suite, empty or full. */
  lemma {:induction false} AsWrittenAlwaysThrows(s: Suite)
    requires Valid(s)
    ensures GetMinimumLengthAsWritten(s) == JavaLang.Err(JavaLang.ArrayIndexOutOfBounds)
    ensures GetMinimumLengthRandomTestAsWritten(s) == JavaLang.Err(JavaLang.ArrayIndexOutOfBounds)
  {
    ReachesSentinel(s, 0, (0, NotDefined));
  }

  lemma {:induction false} ReachesSentinel(s: Suite, i: nat, acc: (int, RandomTest))
    requires Valid(s) && i <= SuiteSize
    ensures LongestAsWritten(s, i, acc) == JavaLang.Err(JavaLang.ArrayIndexOutOfBounds)
    decreases SuiteSize - i
  {
    if i < SuiteSize {
      var k := KindAt(i);
      assert AllKinds[i] == k;
      if s.slots[i].Some? {
        ReachesSentinel(s, i + 1, (s.slots[i].value.minimumLength, k));
      }
      ReachesSentinel(s, i + 1, acc);
    } else {
      assert AllKinds[i] == NumberOfTests;
    }
  }
}
