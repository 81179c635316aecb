/** The two enumerations shared by every test and by the suite: the error
    codes a test reports and the kinds of test the suite can hold. */
module TestKinds {

  /** RandomTestErrors, in declaration order. */
  datatype RandomTestError =
    | NoError
    | MultipleErrors
    | InsufficientMemory
    | PValueOutOfRange
    | InsufficientNumberOfBits
    | EstimationCriteriaNotMet
    | ResultsInaccurate
    | LOrQOutOfRange
    | MathematicianNAN
    | LongRunsCaseError
    | MathematicalFunctionsError

  /** RandomTests. Its declaration is not part of this model; the order here
      is the one the suite code implies: the eleven registrable kinds in the
      order AddAll fills them, then the NumberOfTests sentinel (whose ordinal
      is the size of the suite's arrays), NotDefined, and RandomExcursions,
      which the Random Excursions test names as its type but the suite never
      registers. */
  datatype RandomTest =
    | Frequency
    | BlockFrequency
    | Runs
    | LongestRunOfOnes
    | CumulativeSumForward
    | CumulativeSumReverse
    | Rank
    | Universal
    | ApproximateEntropy
    | Serial
    | DiscreteFourierTransform
    | NumberOfTests
    | NotDefined
    | RandomExcursions

  /** Enum.ordinal(). */
  function Ordinal(t: RandomTest): (o: nat)
    ensures o <= 13
  {
    match t
    case Frequency => 0
    case BlockFrequency => 1
    case Runs => 2
    case LongestRunOfOnes => 3
    case CumulativeSumForward => 4
    case CumulativeSumReverse => 5
    case Rank => 6
    case Universal => 7
    case ApproximateEntropy => 8
    case Serial => 9
    case DiscreteFourierTransform => 10
    case NumberOfTests => 11
    case NotDefined => 12
    case RandomExcursions => 13
  }

  /** Size of the suite's arrays: NumberOfTests.ordinal(). */
  const SuiteSize: nat := 11

  /** Enum.values(), in ordinal order. */
  const AllKinds: seq<RandomTest> := [
    Frequency, BlockFrequency, Runs, LongestRunOfOnes, CumulativeSumForward,
    CumulativeSumReverse, Rank, Universal, ApproximateEntropy, Serial,
    DiscreteFourierTransform, NumberOfTests, NotDefined, RandomExcursions]

  /** The kinds that have a slot in the suite. */
  predicate Registrable(t: RandomTest) { Ordinal(t) < SuiteSize }

  /** The kind whose slot has index i. */
  function KindAt(i: nat): (t: RandomTest)
    requires i < SuiteSize
    ensures Ordinal(t) == i && Registrable(t)
  {
    AllKinds[i]
  }

  /** values() lists each kind at its ordinal, and ordinals are distinct. */
  lemma OrdinalIsPosition(t: RandomTest)
    ensures Ordinal(t) < |AllKinds| && AllKinds[Ordinal(t)] == t
  {
  }

  lemma OrdinalInjective(s: RandomTest, t: RandomTest)
    requires Ordinal(s) == Ordinal(t)
    ensures s == t
  {
  }
}
