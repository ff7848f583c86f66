/**
 * The records of the NameDrill app: a learnable face/name pair (Person),
 * a named group of them (Deck), the four drill modes and the outcome of a
 * study session. `easeFactor` is kept in integer hundredths (2.5 is 250).
 */
module Types {

  datatype Option<T> = None | Some(value: T)

  datatype Person = Person(
    id: string,
    name: string,
    photo: string,
    notes: Option<string>,
    interval: int,        // days until the next review; 0 = not scheduled
    easeFactor: int,      // hundredths
    repetitions: int,
    nextReview: int,      // ms since the epoch
    lastReviewed: Option<int>,
    correctCount: int,
    totalCount: int)

  datatype Deck = Deck(
    id: string,
    name: string,
    emoji: string,
    createdAt: int,
    lastStudied: Option<int>,
    people: seq<Person>)

  datatype StudyMode = Flash | Choice | Reverse | Speed

  datatype SessionStats = SessionStats(total: int, correct: int, timeMs: int, mode: StudyMode)

  /** One answered item of a session: whether it was right and how long it took. */
  datatype Attempt = Attempt(correct: bool, timeMs: int)

  /**
   * A `Partial<Person>`: every field that is `Some` replaces the person's field
   * when the patch is spread over the person (`{ ...p, ...updates }`).
   */
  datatype PersonPatch = PersonPatch(
    name: Option<string>,
    photo: Option<string>,
    notes: Option<string>,
    interval: Option<int>,
    easeFactor: Option<int>,
    repetitions: Option<int>,
    nextReview: Option<int>,
    lastReviewed: Option<int>,
    correctCount: Option<int>,
    totalCount: Option<int>)

  /** A `Partial<Deck>`, spread over a deck the same way. */
  datatype DeckPatch = DeckPatch(
    name: Option<string>,
    emoji: Option<string>,
    createdAt: Option<int>,
    lastStudied: Option<int>,
    people: Option<seq<Person>>)

  function Or<T>(o: Option<T>, default: T): T {
    match o
    case Some(v) => v
    case None => default
  }

  function ApplyPersonPatch(p: Person, u: PersonPatch): (r: Person)
    ensures r.id == p.id
    ensures r.name == (if u.name.Some? then u.name.value else p.name)
    ensures r.photo == (if u.photo.Some? then u.photo.value else p.photo)
    ensures r.notes == (if u.notes.Some? then u.notes else p.notes)
    ensures r.interval == (if u.interval.Some? then u.interval.value else p.interval)
    ensures r.easeFactor == (if u.easeFactor.Some? then u.easeFactor.value else p.easeFactor)
    ensures r.repetitions == (if u.repetitions.Some? then u.repetitions.value else p.repetitions)
    ensures r.nextReview == (if u.nextReview.Some? then u.nextReview.value else p.nextReview)
    ensures r.lastReviewed == (if u.lastReviewed.Some? then u.lastReviewed else p.lastReviewed)
    ensures r.correctCount == (if u.correctCount.Some? then u.correctCount.value else p.correctCount)
    ensures r.totalCount == (if u.totalCount.Some? then u.totalCount.value else p.totalCount)
  {
    Person(
      p.id,
      Or(u.name, p.name),
      Or(u.photo, p.photo),
      if u.notes.Some? then u.notes else p.notes,
      Or(u.interval, p.interval),
      Or(u.easeFactor, p.easeFactor),
      Or(u.repetitions, p.repetitions),
      Or(u.nextReview, p.nextReview),
      if u.lastReviewed.Some? then u.lastReviewed else p.lastReviewed,
      Or(u.correctCount, p.correctCount),
      Or(u.totalCount, p.totalCount))
  }

  function ApplyDeckPatch(d: Deck, u: DeckPatch): (r: Deck)
    ensures r.id == d.id
    ensures r.name == (if u.name.Some? then u.name.value else d.name)
    ensures r.emoji == (if u.emoji.Some? then u.emoji.value else d.emoji)
    ensures r.createdAt == (if u.createdAt.Some? then u.createdAt.value else d.createdAt)
    ensures r.lastStudied == (if u.lastStudied.Some? then u.lastStudied else d.lastStudied)
    ensures r.people == (if u.people.Some? then u.people.value else d.people)
  {
    Deck(
      d.id,
      Or(u.name, d.name),
      Or(u.emoji, d.emoji),
      Or(u.createdAt, d.createdAt),
      if u.lastStudied.Some? then u.lastStudied else d.lastStudied,
      Or(u.people, d.people))
  }

  /** No two people of the list share an id (ids are generated unique). */
  predicate UniqueIds(people: seq<Person>) {
    forall i, j :: 0 <= i < j < |people| ==> people[i].id != people[j].id
  }

  predicate HasId(people: seq<Person>, id: string) {
    exists i :: 0 <= i < |people| && people[i].id == id
  }
}
