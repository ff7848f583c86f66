/**
 * The study session of src/components/StudySession.tsx as a state machine.
 * React state becomes fields; `setTimeout` and `setInterval` become steps the
 * caller drives: `HandleChoice` and `HandleSpeedSubmit` return the timer they
 * arm, and the caller later calls `Advance` or `NextSpeedItem`; `Tick` is one
 * firing of the one-second countdown. The `deck` prop is a parameter of the
 * handlers that read it; the calls to `onUpdatePerson` and `onUpdateDeck`
 * are returned, and `outcome` is what `onComplete` received.
 */
module Session {
  import opened Types
  import opened Seqs
  import opened Scheduler
  import Store
  import Queue

  const CorrectQuality := 4
  const WrongQuality := 1
  const SpeedSeconds := 60
  const SpeedSessionMs := 60000

  /** The first index holding the id: `people.find(p => p.id === id)`. */
  function FindById(people: seq<Person>, id: string): (i: nat)
    requires HasId(people, id)
    ensures i < |people| && people[i].id == id
    ensures forall k :: 0 <= k < i ==> people[k].id != id
  {
    if people[0].id == id then 0
    else
      assert HasId(people[1..], id) by {
        var k :| 0 <= k < |people| && people[k].id == id;
        assert people[1..][k - 1].id == id;
      }
      1 + FindById(people[1..], id)
  }

  /** The SM-2 quality of an answer: a pass (3 or more) exactly when it is right. */
  function Quality(correct: bool): (q: int)
    ensures 0 <= q <= 5
    ensures correct <==> q >= 3
  {
    if correct then CorrectQuality else WrongQuality
  }

  /**
   * What one answer of a session does to the person's memory state: a right
   * answer keeps the ease and extends the run, a wrong one lowers the ease by
   * 0.54 and starts over; the ease never drops below 1.3.
   */
  lemma AnswerEffect(p: Person, correct: bool, now: int)
    ensures var q := Reviewed(p, Quality(correct), now);
      && (correct ==>
            q.easeFactor == Max(MinEase, p.easeFactor)
            && q.repetitions == p.repetitions + 1 && q.correctCount == p.correctCount + 1)
      && (!correct ==>
            q.easeFactor == Max(MinEase, p.easeFactor - 54)
            && q.repetitions == 0 && q.interval == 0 && q.correctCount == p.correctCount)
      && q.totalCount == p.totalCount + 1
  {
  }

  /** A call `onUpdatePerson(personId, updates)` to the parent. */
  datatype PersonUpdate = PersonUpdate(personId: string, updates: PersonPatch)

  /**
   * The `onUpdatePerson` call that `recordResult(personId, correct)` makes:
   * the person found by id is scored with `sm2` at quality 4 or 1; applied to
   * that person, the updates give the person as reviewed now.
   */
  function Score(people: seq<Person>, personId: string, correct: bool, now: int): (u: PersonUpdate)
    requires HasId(people, personId)
    ensures u.personId == personId
    ensures UniqueIds(people) ==> forall j :: 0 <= j < |people| && people[j].id == personId ==>
      ApplyPersonPatch(people[j], u.updates) == Reviewed(people[j], Quality(correct), now)
  {
    PersonUpdate(personId, Sm2(people[FindById(people, personId)], Quality(correct), now).AsPatch())
  }

  /**
   * `recordResult(personId, correct)` followed by the parent's `updatePerson`:
   * the person found by id is scored with `sm2` at quality 4 or 1, and the
   * result patches every person with that id.
   */
  function RecordResult(people: seq<Person>, personId: string, correct: bool, now: int): (r: seq<Person>)
    requires HasId(people, personId)
    ensures |r| == |people|
    ensures forall j :: 0 <= j < |people| ==> r[j].id == people[j].id
    ensures forall j :: 0 <= j < |people| && people[j].id != personId ==> r[j] == people[j]
    ensures UniqueIds(people) ==> forall j :: 0 <= j < |people| && people[j].id == personId ==>
      r[j] == Reviewed(people[j], Quality(correct), now)
  {
    var u := Score(people, personId, correct, now);
    Store.PatchPeople(people, u.personId, u.updates)
  }

  /** Scoring an answer keeps ids unique and keeps every person well formed. */
  lemma RecordResultKeeps(people: seq<Person>, personId: string, correct: bool, now: int)
    requires HasId(people, personId) && UniqueIds(people)
    requires forall j :: 0 <= j < |people| ==> WellFormed(people[j])
    ensures var r := RecordResult(people, personId, correct, now);
      && UniqueIds(r)
      && (forall j :: 0 <= j < |r| ==> WellFormed(r[j]))
  {
    var r := RecordResult(people, personId, correct, now);
    forall j | 0 <= j < |r| ensures WellFormed(r[j]) {
      if people[j].id == personId {
        ReviewKeepsWellFormed(people[j], Quality(correct), now);
      }
    }
  }

  /** The same ids are present before and after scoring an answer. */
  lemma RecordResultKeepsIds(people: seq<Person>, personId: string, correct: bool, now: int, id: string)
    requires HasId(people, personId)
    ensures HasId(RecordResult(people, personId, correct, now), id) <==> HasId(people, id)
  {
    var r := RecordResult(people, personId, correct, now);
    if HasId(people, id) {
      var k :| 0 <= k < |people| && people[k].id == id;
      assert r[k].id == id;
    }
    if HasId(r, id) {
      var k :| 0 <= k < |r| && r[k].id == id;
      assert people[k].id == id;
    }
  }

  predicate IsCorrect(a: Attempt) {
    a.correct
  }

  /** `results.filter(r => r.correct).length`. */
  function CountCorrect(results: seq<Attempt>): (n: nat)
    ensures n <= |results|
  {
    |Filter(results, IsCorrect)|
  }

  /** One more answer adds one to the count exactly when it is right. */
  lemma CountCorrectAppend(results: seq<Attempt>, a: Attempt)
    ensures CountCorrect(results + [a]) == CountCorrect(results) + (if a.correct then 1 else 0)
  {
    FilterAppend(results, [a], IsCorrect);
    FilterHead([a], IsCorrect);
    assert [a][1..] == [];
  }

  /** A timer a handler arms; the caller fires it with `Advance` or `NextSpeedItem`. */
  datatype Timer = AdvanceAfter(delayMs: nat, correct: bool) | NextSpeedItemAfter(delayMs: nat)

  /** Scoring a queued person leaves every queued person in the deck, so the next lookup succeeds. */
  lemma RecordResultKeepsQueue(queue: seq<Person>, people: seq<Person>, id: string, correct: bool, now: int)
    requires HasId(people, id)
    requires forall p :: p in queue ==> HasId(people, p.id)
    ensures forall p :: p in queue ==> HasId(RecordResult(people, id, correct, now), p.id)
  {
    forall p | p in queue ensures HasId(RecordResult(people, id, correct, now), p.id) {
      RecordResultKeepsIds(people, id, correct, now, p.id);
    }
  }

  class StudySession {
    const mode: StudyMode
    const queue: seq<Person>
    const sessionStart: int
    var index: int
    var results: seq<Attempt>
    var startTime: int
    var flipped: bool
    var choices: seq<Person>
    var selected: Option<string>
    var showResult: bool
    var speedInput: string
    var speedTimeLeft: int
    var speedScore: int
    var speedTotal: int
    var speedCurrent: nat
    var speedShowResult: Option<bool>
    var outcome: Option<SessionStats>

    /**
     * While the session runs, one answer has been recorded per item passed and
     * the countdown is between 1 and 60 seconds; the speed score never passes
     * the number of speed answers, and a finished session never reports more
     * right answers than answers.
     */
    predicate Valid()
      reads this
    {
      && 0 <= index && (index == 0 || index < |queue|)
      && 0 <= speedScore <= speedTotal
      && (outcome.None? ==> |results| == index && 0 < speedTimeLeft <= SpeedSeconds)
      && (outcome.Some? ==> 0 <= outcome.value.correct <= outcome.value.total)
    }

    /** The person on screen. */
    function Current(): (c: Option<Person>)
      reads this`index, this`speedCurrent
      ensures c.Some? ==> c.value in queue
    {
      Queue.Current(queue, mode, index, speedCurrent)
    }

    /**
     * The component mounts with the deck it is given: the queue is drawn once
     * and every counter starts at zero.
     */
    constructor (d: Deck, m: StudyMode, now: int, picks: seq<nat>)
      requires Queue.PicksFit(picks, |d.people|)
      ensures Valid()
      ensures mode == m && queue == Queue.StudyQueue(d, m, now, picks)
      ensures sessionStart == now && startTime == now
      ensures index == 0 && results == [] && !flipped && choices == [] && selected.None? && !showResult
      ensures speedInput == [] && speedTimeLeft == SpeedSeconds && speedScore == 0 && speedTotal == 0
      ensures speedCurrent == 0 && speedShowResult.None? && outcome.None?
    {
      mode := m;
      queue := Queue.StudyQueue(d, m, now, picks);
      sessionStart, startTime := now, now;
      index, results, flipped := 0, [], false;
      choices, selected, showResult := [], None, false;
      speedInput, speedTimeLeft, speedScore, speedTotal := [], SpeedSeconds, 0, 0;
      speedCurrent, speedShowResult, outcome := 0, None, None;
    }

    /** "Show Name" in flash mode. */
    method Flip()
      requires Valid() && outcome.None?
      modifies this`flipped
      ensures Valid()
      ensures flipped
    {
      flipped := true;
    }

    /** Whether the current item is answered by picking among choices. */
    predicate PicksAmongChoices()
      reads this`index
    {
      (mode == Choice || mode == Reverse) && 0 <= index < |queue|
    }

    /**
     * The effect that runs when `index` changes in choice and reverse mode:
     * four fresh choices around the current person, drawn from the deck's
     * people as the component sees them, and nothing selected.
     */
    method RefreshChoices(people: seq<Person>, picks1: seq<nat>, picks2: seq<nat>)
      requires Valid() && outcome.None?
      requires Queue.PicksFit(picks1, |people|) && Queue.PicksFit(picks2, |people| + 1)
      modifies this`choices, this`selected, this`showResult
      ensures Valid()
      ensures PicksAmongChoices() ==>
        && choices == Queue.Choices(queue[index], people, Queue.DefaultChoiceCount, picks1, picks2)
        && selected.None? && !showResult
      ensures !PicksAmongChoices() ==>
        choices == old(choices) && selected == old(selected) && showResult == old(showResult)
    {
      if PicksAmongChoices() {
        var drawn := Queue.Choices(queue[index], people, Queue.DefaultChoiceCount, picks1, picks2);
        ShowChoices(drawn);
      }
    }

    /** `setChoices(...)`, `setSelected(null)`, `setShowResult(false)`: the running session gets new choices. */
    method ShowChoices(drawn: seq<Person>)
      requires Valid() && outcome.None?
      modifies this`choices, this`selected, this`showResult
      ensures Valid() && outcome.None?
      ensures choices == drawn && selected.None? && !showResult
    {
      choices, selected, showResult := drawn, None, false;
    }

    /**
     * `handleChoice(personId)`: ignored while a result is showing; otherwise the
     * pick is shown and `advance` is armed, 500 ms after a right pick and
     * 1500 ms after a wrong one.
     */
    method HandleChoice(personId: string) returns (t: Option<Timer>)
      requires Valid() && outcome.None? && Current().Some?
      modifies this`selected, this`showResult
      ensures Valid()
      ensures old(showResult) ==> t.None? && selected == old(selected) && showResult
      ensures !old(showResult) ==> var right := personId == Current().value.id;
        && selected == Some(personId) && showResult
        && t == Some(AdvanceAfter(if right then 500 else 1500, right))
    {
      if showResult {
        return None;
      }
      selected := Some(personId);
      showResult := true;
      var right := personId == Current().value.id;
      t := Some(AdvanceAfter(if right then 500 else 1500, right));
    }

    /**
     * `advance(correct)`: the current person, looked up in the deck's people,
     * is scored and reported to the parent, the answer and its time are
     * appended, and either the next item starts or, after the last item, the
     * deck is reported as studied now and the session completes.
     */
    method Advance(people: seq<Person>, correct: bool, now: int) returns (update: PersonUpdate, studied: Option<int>)
      requires Valid() && outcome.None? && mode != Speed && Current().Some?
      requires HasId(people, Current().value.id)
      modifies this`results, this`index, this`startTime, this`flipped, this`outcome
      ensures Valid()
      ensures update == Score(people, old(Current()).value.id, correct, now)
      ensures results == old(results) + [Attempt(correct, now - old(startTime))]
      ensures old(index) + 1 >= |queue| ==>
        && studied == Some(now)
        && outcome == Some(SessionStats(|results|, CountCorrect(results), now - sessionStart, mode))
        && outcome.value.total == |queue|
        && index == old(index) && startTime == old(startTime) && flipped == old(flipped)
      ensures old(index) + 1 < |queue| ==>
        studied.None? && outcome.None? && index == old(index) + 1 && startTime == now && !flipped
    {
      var timeMs := now - startTime;
      update := Score(people, Current().value.id, correct, now);
      results := results + [Attempt(correct, timeMs)];
      if index + 1 >= |queue| {
        studied := Some(now);
        outcome := Some(SessionStats(|results|, CountCorrect(results), now - sessionStart, mode));
      } else {
        studied := None;
        index := index + 1;
        startTime := now;
        flipped := false;
      }
    }

    /** Typing into the speed-mode box. */
    method TypeSpeedInput(text: string)
      requires Valid() && outcome.None?
      modifies this`speedInput
      ensures Valid()
      ensures speedInput == text
    {
      speedInput := text;
    }

    /**
     * `handleSpeedSubmit`: the typed guess is judged against the current name
     * and scored; the total always grows, the score only for a right guess,
     * the box is cleared and the next item is armed 300 ms (right) or 800 ms
     * (wrong) later.
     */
    method HandleSpeedSubmit(people: seq<Person>, now: int) returns (update: PersonUpdate, t: Timer)
      requires Valid() && outcome.None? && mode == Speed && Current().Some?
      requires HasId(people, Current().value.id)
      modifies this`speedTotal, this`speedScore, this`speedShowResult, this`speedInput
      ensures Valid()
      ensures var right := Queue.SpeedMatch(old(speedInput), Current().value.name);
        && update == Score(people, Current().value.id, right, now)
        && speedTotal == old(speedTotal) + 1
        && speedScore == old(speedScore) + (if right then 1 else 0)
        && speedShowResult == Some(right)
        && speedInput == []
        && t == NextSpeedItemAfter(if right then 300 else 800)
    {
      var c := Current().value;
      var right := Queue.SpeedMatch(speedInput, c.name);
      update := Score(people, c.id, right, now);
      speedTotal := speedTotal + 1;
      if right {
        speedScore := speedScore + 1;
      }
      speedShowResult := Some(right);
      speedInput := [];
      t := NextSpeedItemAfter(if right then 300 else 800);
    }

    /** The armed speed timer fires: the verdict disappears and the next person shows. */
    method NextSpeedItem()
      requires Valid() && outcome.None?
      modifies this`speedShowResult, this`speedCurrent
      ensures Valid()
      ensures speedShowResult.None? && speedCurrent == old(speedCurrent) + 1
    {
      speedShowResult := None;
      speedCurrent := speedCurrent + 1;
    }

    /**
     * One second of the speed countdown. When it reaches zero the deck is
     * reported as studied now and the session completes with the speed
     * counters, a time of exactly 60 s and mode speed.
     */
    method Tick(now: int) returns (studied: Option<int>)
      requires Valid() && outcome.None? && mode == Speed
      modifies this`speedTimeLeft, this`outcome
      ensures Valid()
      ensures speedTimeLeft == old(speedTimeLeft) - 1
      ensures speedTimeLeft > 0 ==> outcome.None? && studied.None?
      ensures speedTimeLeft <= 0 ==>
        && outcome == Some(SessionStats(speedTotal, speedScore, SpeedSessionMs, Speed))
        && studied == Some(now)
    {
      speedTimeLeft := speedTimeLeft - 1;
      studied := None;
      if speedTimeLeft <= 0 {
        studied := Some(now);
        outcome := Some(SessionStats(speedTotal, speedScore, SpeedSessionMs, Speed));
      }
    }
  }
}
