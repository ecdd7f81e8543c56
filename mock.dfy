/** The scripted random sources of src/mock.rs, used to make the stage tests deterministic. */
module Mock {
  import opened Rng

  /** `MockMaxRng`: always answers the inclusive upper bound. */
  datatype MockMaxRng = MockMaxRng {
    function RandomRange(lo: nat, hi: nat): (r: nat)
      requires lo <= hi
      ensures r == hi
    {
      hi
    }
  }

  /** `MockMinRng`: always answers the lower bound. */
  datatype MockMinRng = MockMinRng {
    function RandomRange(lo: nat, hi: nat): (r: nat)
      requires lo <= hi
      ensures r == lo
    {
      lo
    }
  }

  /** A `MockMaxRng` as a stage sees it. On an empty range (`lo > hi`) the source's `unwrap`
      panics; the answer given here is arbitrary, and `HonoursRanges` says nothing about it. */
  function MaxSource(): Source {
    (call: nat, lo: nat, hi: nat) => var m: MockMaxRng := MockMaxRng; if lo <= hi then m.RandomRange(lo, hi) else hi
  }

  /** A `MockMinRng` as a stage sees it. On an empty range the source panics, as above. */
  function MinSource(): Source {
    (call: nat, lo: nat, hi: nat) => var m: MockMinRng := MockMinRng; if lo <= hi then m.RandomRange(lo, hi) else lo
  }

  /** Both stateless mocks stay inside the requested range. */
  lemma MinMaxHonourRanges()
    ensures HonoursRanges(MinSource()) && HonoursRanges(MaxSource())
  {
  }

  /** `MockRng`: replays `numbers` cyclically, ignoring the requested range. */
  class MockRng {
    var numbers: seq<nat>
    var index: nat

    ghost predicate Valid()
      reads this
    {
      (|numbers| == 0 && index == 0) || index < |numbers|
    }

    constructor (numbers: seq<nat>)
      ensures Valid()
      ensures this.numbers == numbers && index == 0
    {
      this.numbers := numbers;
      index := 0;
    }

    /** Indexing `numbers` with an empty list panics in the source, hence the requires. */
    method RandomRange(lo: nat, hi: nat) returns (r: nat)
      requires Valid() && |numbers| > 0
      modifies this`index
      ensures Valid() && index < |numbers|
      ensures r == numbers[old(index)]
      ensures index == (old(index) + 1) % |numbers|
    {
      r := numbers[index];
      index := index + 1;
      index := index % |numbers|;
    }
  }

  /** Where the `index` field of a fresh mock over `n` numbers stands after `call` requests. */
  function Cursor(n: nat, call: nat): (i: nat)
    requires n > 0
    ensures i < n
  {
    if call == 0 then 0 else (Cursor(n, call - 1) + 1) % n
  }

  /** The source a fresh `MockRng::new(numbers)` presents to a stage: its `call`-th answer
      is the number under the cursor, whatever range is asked for. */
  function ScriptedSource(numbers: seq<nat>): Source
    requires |numbers| > 0
  {
    (call: nat, lo: nat, hi: nat) => numbers[Cursor(|numbers|, call)]
  }

  lemma SmallRemainder(a: nat, n: nat)
    requires a < n
    ensures a % n == a
  {
  }

  /** During the first round the cursor counts the requests. */
  lemma {:induction false} CursorFirstRound(n: nat, call: nat)
    requires 0 < n && call < n
    ensures Cursor(n, call) == call
  {
    if call > 0 {
      CursorFirstRound(n, call - 1);
      SmallRemainder(call, n);
    }
  }

  /** After `n` requests the cursor is where it was: the script repeats with period `n`. */
  lemma {:induction false} CursorPeriodic(n: nat, call: nat)
    requires n > 0
    ensures Cursor(n, call + n) == Cursor(n, call)
  {
    if call == 0 {
      CursorFirstRound(n, n - 1);
      assert Cursor(n, n) == (n - 1 + 1) % n == 0;
    } else {
      CursorPeriodic(n, call - 1);
      assert Cursor(n, call + n) == (Cursor(n, call - 1 + n) + 1) % n;
    }
  }

  /** A mock over `numbers` answers `numbers` in order once, then starts over. */
  lemma ScriptRepeats(numbers: seq<nat>, call: nat, lo: nat, hi: nat)
    requires |numbers| > 0
    ensures call < |numbers| ==> ScriptedSource(numbers)(call, lo, hi) == numbers[call]
    ensures ScriptedSource(numbers)(call + |numbers|, lo, hi) == ScriptedSource(numbers)(call, lo, hi)
  {
    if call < |numbers| {
      CursorFirstRound(|numbers|, call);
    }
    CursorPeriodic(|numbers|, call);
  }

  /** A mock over `[1, 2]` answers 1, 2, 1 whatever ranges are asked for. */
  method ScriptedAnswers() returns (a: nat, b: nat, c: nat)
    ensures a == 1 && b == 2 && c == 1
  {
    var rng := new MockRng([1, 2]);
    a := rng.RandomRange(0, 15);
    b := rng.RandomRange(1, 1);
    c := rng.RandomRange(7, 3);
  }

  /** `k` requests on a fresh `MockRng::new(numbers)`, whatever the range: the answers are the
      first `k` answers of `ScriptedSource(numbers)`, and the index ends at `Cursor(|numbers|, k)`. */
  method Replay(numbers: seq<nat>, k: nat, lo: nat, hi: nat) returns (answers: seq<nat>, index: nat)
    requires |numbers| > 0
    ensures |answers| == k && forall j :: 0 <= j < k ==> answers[j] == ScriptedSource(numbers)(j, lo, hi)
    ensures index == Cursor(|numbers|, k)
  {
    var rng := new MockRng(numbers);
    answers := [];
    for j := 0 to k
      invariant rng.Valid() && rng.numbers == numbers && rng.index == Cursor(|numbers|, j)
      invariant |answers| == j && forall i :: 0 <= i < j ==> answers[i] == ScriptedSource(numbers)(i, lo, hi)
    {
      var r := rng.RandomRange(lo, hi);
      answers := answers + [r];
    }
    index := rng.index;
  }
}
