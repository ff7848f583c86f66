/**
 * The review scheduler of src/hooks/useDecks.ts: a person's memory state, the
 * SM-2 (SuperMemo-2) update rule and the two read-only deck aggregates. The
 * clock is the `now` parameter (milliseconds since the epoch).
 */
module Scheduler {
  import opened Types
  import opened Seqs
  import Js

  const DayMs := 86400000
  const InitialEase := 250   // 2.5
  const MinEase := 130       // 1.3
  const MasteredInterval := 7

  /** The fields `sm2` returns as its `Partial<Person>`. */
  datatype Review = Review(
    interval: int,
    easeFactor: int,
    repetitions: int,
    nextReview: int,
    lastReviewed: int,
    correctCount: int,
    totalCount: int)
  {
    function AsPatch(): (u: PersonPatch)
      ensures u.name.None? && u.photo.None? && u.notes.None?
    {
      PersonPatch(None, None, None, Some(interval), Some(easeFactor), Some(repetitions),
        Some(nextReview), Some(lastReviewed), Some(correctCount), Some(totalCount))
    }
  }

  /** The invariants every stored person keeps. */
  predicate WellFormed(p: Person) {
    p.interval >= 0 && p.easeFactor >= MinEase && p.repetitions >= 0
    && 0 <= p.correctCount <= p.totalCount
  }

  /**
   * The shape of every memory state the rule reaches from a new person: the
   * interval follows the run of successes (0, 1, 6, then at least 8 days).
   * It holds of more states than are actually reachable.
   */
  predicate ScheduleShape(p: Person) {
    WellFormed(p)
    && (p.repetitions == 0 ==> p.interval == 0)
    && (p.repetitions == 1 ==> p.interval == 1)
    && (p.repetitions == 2 ==> p.interval == 6)
    && (p.repetitions >= 3 ==> p.interval >= 8)
  }

  predicate IsDue(p: Person, now: int) {
    p.nextReview <= now
  }

  predicate IsMastered(p: Person) {
    p.interval >= MasteredInterval
  }

  /** `createPerson`: a person due now, with no review history. */
  function CreatePerson(id: string, name: string, photo: string, notes: Option<string>, now: int): (p: Person)
    ensures p.id == id && p.name == name && p.photo == photo && p.notes == notes
    ensures p.easeFactor == InitialEase && p.repetitions == 0 && p.interval == 0
    ensures p.totalCount == 0 && p.correctCount == 0 && p.lastReviewed.None?
    ensures p.nextReview == now
    ensures ScheduleShape(p) && IsDue(p, now) && !IsMastered(p)
  {
    Person(id, name, photo, notes, 0, InitialEase, 0, now, None, 0, 0)
  }

  /** The change of ease for a quality, in hundredths: 0.1 - (5-q)(0.08 + (5-q)0.02). */
  function EaseDelta(quality: int): (delta: int)
    ensures quality == 5 ==> delta == 10
    ensures quality == 4 ==> delta == 0
    ensures quality == 3 ==> delta == -14
    ensures quality == 2 ==> delta == -32
    ensures quality == 1 ==> delta == -54
    ensures quality == 0 ==> delta == -80
  {
    var d := 5 - quality;
    10 - d * (8 + d * 2)
  }

  /** Up to the top quality 5, a better answer never changes the ease for the worse. */
  lemma EaseDeltaMonotone(lo: int, hi: int)
    requires lo <= hi <= 5
    ensures EaseDelta(lo) <= EaseDelta(hi)
  {
    var a, b := 5 - lo, 5 - hi;
    assert a * (8 + a * 2) - b * (8 + b * 2) == (a - b) * (8 + 2 * (a + b));
    ProductNonNegative(a - b, 8 + 2 * (a + b));
  }

  lemma ProductNonNegative(x: int, y: int)
    requires x >= 0 && y >= 0
    ensures x * y >= 0
  {
  }

  function Max(a: int, b: int): int {
    if a >= b then a else b
  }

  /** `sm2(person, quality)` at time `now`. */
  function Sm2(p: Person, quality: int, now: int): (r: Review)
    // every quality moves the ease by EaseDelta, never below 1.3; quality 4 keeps it, quality 1 lowers it by 0.54
    ensures r.easeFactor >= MinEase
    ensures r.easeFactor == Max(MinEase, p.easeFactor + EaseDelta(quality))
    ensures quality == 4 ==> r.easeFactor == Max(MinEase, p.easeFactor)
    ensures quality == 1 ==> r.easeFactor == Max(MinEase, p.easeFactor - 54)
    // a success extends the run and schedules 1 day, 6 days, then interval x ease
    ensures quality >= 3 ==> r.repetitions == p.repetitions + 1
    ensures quality >= 3 && p.repetitions == 0 ==> r.interval == 1
    ensures quality >= 3 && p.repetitions == 1 ==> r.interval == 6
    ensures quality >= 3 && p.repetitions != 0 && p.repetitions != 1 ==>
      100 * (2 * r.interval - 1) <= 2 * p.interval * p.easeFactor < 100 * (2 * r.interval + 1)
    // a failure resets the run, whatever the prior state
    ensures quality < 3 ==> r.repetitions == 0 && r.interval == 0
    ensures r.nextReview == now + r.interval * DayMs && r.lastReviewed == now
    ensures r.totalCount == p.totalCount + 1
    ensures r.correctCount == p.correctCount + (if quality >= 3 then 1 else 0)
  {
    var interval :=
      if quality < 3 then 0
      else if p.repetitions == 0 then 1
      else if p.repetitions == 1 then 6
      else Js.RoundDiv(p.interval * p.easeFactor, 100);
    var repetitions := if quality >= 3 then p.repetitions + 1 else 0;
    var easeFactor := Max(MinEase, p.easeFactor + EaseDelta(quality));
    Review(interval, easeFactor, repetitions, now + interval * DayMs, now,
      p.correctCount + (if quality >= 3 then 1 else 0), p.totalCount + 1)
  }

  /** The person after `updatePerson` applies `sm2`'s result to it. */
  function Reviewed(p: Person, quality: int, now: int): (q: Person)
    ensures q.id == p.id && q.name == p.name && q.photo == p.photo && q.notes == p.notes
    ensures q.lastReviewed == Some(now)
  {
    var r := Sm2(p, quality, now);
    ApplyPersonPatch(p, r.AsPatch())
  }

  /** An interval of at least `lo` days grows by at least 30% on a success. */
  lemma GrowthBound(interval: int, ease: int, lo: int)
    requires lo >= 0 && interval >= lo && ease >= MinEase
    ensures 100 * Js.RoundDiv(interval * ease, 100) >= 130 * lo - 50
  {
    var r := Js.RoundDiv(interval * ease, 100);
    assert interval * ease >= lo * ease >= lo * 130;
  }

  /** `sm2` keeps a person well formed. */
  lemma {:induction false} ReviewKeepsWellFormed(p: Person, quality: int, now: int)
    requires WellFormed(p)
    ensures WellFormed(Reviewed(p, quality, now))
  {
    if quality >= 3 && p.repetitions >= 2 {
      GrowthBound(p.interval, p.easeFactor, 0);
    }
  }

  /** `sm2` keeps the schedule shape that `createPerson` starts from. */
  lemma {:induction false} ReviewKeepsScheduleShape(p: Person, quality: int, now: int)
    requires ScheduleShape(p)
    ensures ScheduleShape(Reviewed(p, quality, now))
  {
    ReviewKeepsWellFormed(p, quality, now);
    if quality >= 3 && p.repetitions >= 2 {
      GrowthBound(p.interval, p.easeFactor, 6);
    }
  }

  /** In a state of that shape, mastery means three or more successes in a row. */
  lemma MasteredIffThreeInARow(p: Person)
    requires ScheduleShape(p)
    ensures IsMastered(p) <==> p.repetitions >= 3
  {
  }

  /** The person after answering with each quality of `qs` in turn, at the times `nows`. */
  function ReviewAll(p: Person, qs: seq<int>, nows: seq<int>): Person
    requires |qs| == |nows|
    decreases |qs|
  {
    if qs == [] then p else ReviewAll(Reviewed(p, qs[0], nows[0]), qs[1..], nows[1..])
  }

  function Successes(qs: seq<int>): (n: nat)
    ensures n <= |qs|
  {
    if qs == [] then 0 else (if qs[0] >= 3 then 1 else 0) + Successes(qs[1..])
  }

  /**
   * After n answers the lifetime counters have grown by n answers and by the
   * number of successes among them; a well-formed person stays well formed, so
   * the correct count never passes the total.
   */
  lemma {:induction false} ReviewAllCounts(p: Person, qs: seq<int>, nows: seq<int>)
    requires |qs| == |nows| && WellFormed(p)
    ensures var q := ReviewAll(p, qs, nows);
      && q.totalCount == p.totalCount + |qs|
      && q.correctCount == p.correctCount + Successes(qs)
      && WellFormed(q)
    decreases |qs|
  {
    if qs != [] {
      ReviewKeepsWellFormed(p, qs[0], nows[0]);
      ReviewAllCounts(Reviewed(p, qs[0], nows[0]), qs[1..], nows[1..]);
    }
  }

  /** A new person answered right three times is scheduled 1, 6 and 15 days out. */
  lemma ThreeSuccessesFromNew(id: string, name: string, photo: string, t0: int, t1: int, t2: int, t3: int)
    ensures var p0 := CreatePerson(id, name, photo, None, t0);
      var p1 := Reviewed(p0, 4, t1);
      var p2 := Reviewed(p1, 4, t2);
      var p3 := Reviewed(p2, 4, t3);
      && p1.interval == 1 && p2.interval == 6 && p3.interval == 15
      && p3.easeFactor == InitialEase && p3.repetitions == 3
      && p3.nextReview == t3 + 15 * DayMs
  {
  }

  /** `getDueCount`: how many people are due at `now`. */
  function DueCount(deck: Deck, now: int): (n: nat)
    ensures n <= |deck.people|
    ensures n == 0 <==> forall p :: p in deck.people ==> !IsDue(p, now)
    ensures n == |deck.people| <==> forall p :: p in deck.people ==> IsDue(p, now)
  {
    var due := Filter(deck.people, (p: Person) => IsDue(p, now));
    CountAll(deck.people, (p: Person) => IsDue(p, now));
    |due|
  }

  /** A filter keeps as many elements as the list has exactly when all pass. */
  lemma {:induction false} CountAll<T(!new)>(s: seq<T>, f: T -> bool)
    ensures |Filter(s, f)| == |s| <==> forall x :: x in s ==> f(x)
    ensures |Filter(s, f)| == 0 <==> forall x :: x in s ==> !f(x)
  {
    if s != [] {
      CountAll(s[1..], f);
      assert s == [s[0]] + s[1..];
    }
  }

  /** `getMastery`: the rounded percentage of people with an interval of a week or more. */
  function Mastery(deck: Deck): (m: int)
    ensures 0 <= m <= 100
    ensures deck.people == [] ==> m == 0
    ensures deck.people != [] && (forall p :: p in deck.people ==> IsMastered(p)) ==> m == 100
    ensures (forall p :: p in deck.people ==> !IsMastered(p)) ==> m == 0
  {
    if |deck.people| == 0 then 0
    else
      var mastered := Filter(deck.people, IsMastered);
      CountAll(deck.people, IsMastered);
      Js.Percent(|mastered|, |deck.people|)
  }
}
