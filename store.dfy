/**
 * The deck store of src/hooks/useDecks.ts (`useDecks`). Each operation replaces
 * the list of decks by a `map`/`filter` rewrite of it; the rewrites are the
 * functions below, and `DeckStore` is the hook's `decks` state that they replace.
 * Ids and creation times are parameters (they come from `generateId` and the clock).
 */
module Store {
  import opened Types
  import opened Seqs

  function NewDeck(id: string, name: string, emoji: string, now: int): (d: Deck)
    ensures d.id == id && d.name == name && d.emoji == emoji
    ensures d.createdAt == now && d.lastStudied.None? && d.people == []
  {
    Deck(id, name, emoji, now, None, [])
  }

  /** `addDeck`: one new empty deck at the end, every other deck unchanged. */
  function AddDeck(decks: seq<Deck>, id: string, name: string, emoji: string, now: int): (r: seq<Deck>)
    ensures |r| == |decks| + 1 && r[..|decks|] == decks
    ensures r[|decks|] == NewDeck(id, name, emoji, now)
  {
    decks + [NewDeck(id, name, emoji, now)]
  }

  /** `updateDeck`: the decks with the id get the patch, all others are unchanged. */
  function UpdateDeck(decks: seq<Deck>, id: string, u: DeckPatch): (r: seq<Deck>)
    ensures |r| == |decks|
    ensures forall i :: 0 <= i < |decks| && decks[i].id != id ==> r[i] == decks[i]
    ensures forall i :: 0 <= i < |decks| && decks[i].id == id ==> r[i] == ApplyDeckPatch(decks[i], u)
    ensures forall i :: 0 <= i < |decks| ==> r[i].id == decks[i].id
  {
    seq(|decks|, i requires 0 <= i < |decks| =>
      if decks[i].id == id then ApplyDeckPatch(decks[i], u) else decks[i])
  }

  /** `deleteDeck`: exactly the decks with another id survive, in order. */
  function DeleteDeck(decks: seq<Deck>, id: string): (r: seq<Deck>)
    ensures forall d :: d in r <==> d in decks && d.id != id
    ensures forall d: Deck :: d.id != id ==> multiset(r)[d] == multiset(decks)[d]
    ensures |r| <= |decks|
  {
    Filter(decks, (d: Deck) => d.id != id)
  }

  /** The people of one deck with the person of the id patched. */
  function PatchPeople(people: seq<Person>, personId: string, u: PersonPatch): (r: seq<Person>)
    ensures |r| == |people|
    ensures forall j :: 0 <= j < |people| && people[j].id != personId ==> r[j] == people[j]
    ensures forall j :: 0 <= j < |people| && people[j].id == personId ==>
      r[j] == ApplyPersonPatch(people[j], u)
  {
    seq(|people|, j requires 0 <= j < |people| =>
      if people[j].id == personId then ApplyPersonPatch(people[j], u) else people[j])
  }

  /** The people of one deck without the person of the id. */
  function RemovePerson(people: seq<Person>, personId: string): (r: seq<Person>)
    ensures forall p :: p in r <==> p in people && p.id != personId
    ensures forall p: Person :: p.id != personId ==> multiset(r)[p] == multiset(people)[p]
  {
    Filter(people, (p: Person) => p.id != personId)
  }

  /** `addPerson`: the person goes to the end of the deck with the id; nothing else changes. */
  function AddPerson(decks: seq<Deck>, deckId: string, person: Person): (r: seq<Deck>)
    ensures |r| == |decks|
    ensures forall i :: 0 <= i < |decks| && decks[i].id != deckId ==> r[i] == decks[i]
    ensures forall i :: 0 <= i < |decks| && decks[i].id == deckId ==>
      r[i] == decks[i].(people := decks[i].people + [person])
  {
    seq(|decks|, i requires 0 <= i < |decks| =>
      if decks[i].id == deckId then decks[i].(people := decks[i].people + [person]) else decks[i])
  }

  /**
   * `updatePerson`: in the deck with the id, the person with the id gets the
   * patch; every other person and every other deck is unchanged.
   */
  function UpdatePerson(decks: seq<Deck>, deckId: string, personId: string, u: PersonPatch): (r: seq<Deck>)
    ensures |r| == |decks|
    ensures forall i :: 0 <= i < |decks| && decks[i].id != deckId ==> r[i] == decks[i]
    ensures forall i :: 0 <= i < |decks| && decks[i].id == deckId ==>
      r[i] == decks[i].(people := PatchPeople(decks[i].people, personId, u))
  {
    seq(|decks|, i requires 0 <= i < |decks| =>
      if decks[i].id == deckId then decks[i].(people := PatchPeople(decks[i].people, personId, u))
      else decks[i])
  }

  /** `deletePerson`: the deck with the id loses the person with the id; nothing else changes. */
  function DeletePerson(decks: seq<Deck>, deckId: string, personId: string): (r: seq<Deck>)
    ensures |r| == |decks|
    ensures forall i :: 0 <= i < |decks| && decks[i].id != deckId ==> r[i] == decks[i]
    ensures forall i :: 0 <= i < |decks| && decks[i].id == deckId ==>
      r[i] == decks[i].(people := RemovePerson(decks[i].people, personId))
  {
    seq(|decks|, i requires 0 <= i < |decks| =>
      if decks[i].id == deckId then decks[i].(people := RemovePerson(decks[i].people, personId))
      else decks[i])
  }

  /** Deleting a person whose id is unique in the deck shortens the deck by exactly one. */
  lemma {:induction false} RemovePersonRemovesOne(people: seq<Person>, personId: string)
    requires UniqueIds(people) && HasId(people, personId)
    ensures |RemovePerson(people, personId)| == |people| - 1
  {
    var rest := people[1..];
    assert UniqueIds(rest) by {
      forall i, j | 0 <= i < j < |rest| ensures rest[i].id != rest[j].id {
        assert rest[i] == people[i + 1] && rest[j] == people[j + 1];
      }
    }
    if people[0].id == personId {
      forall k | 0 <= k < |rest| ensures rest[k].id != personId {
        assert rest[k] == people[k + 1];
      }
      FilterAll(rest, (p: Person) => p.id != personId);
    } else {
      var k :| 0 <= k < |people| && people[k].id == personId;
      assert rest[k - 1].id == personId;
      RemovePersonRemovesOne(rest, personId);
    }
  }

  /** A person added with an id new to the deck can be deleted again, which restores the deck. */
  lemma AddThenDeletePerson(people: seq<Person>, person: Person)
    requires forall k :: 0 <= k < |people| ==> people[k].id != person.id
    ensures RemovePerson(people + [person], person.id) == people
  {
    var keep := (p: Person) => p.id != person.id;
    FilterAppend(people, [person], keep);
    FilterAll(people, keep);
    FilterNone([person], keep);
  }
}

/** The `decks` state of the `useDecks` hook, replaced by each store operation. */
module UseDecks {
  import opened Types
  import Store

  class DeckStore {
    var decks: seq<Deck>

    /** The hook starts from whatever `loadDecks` read from storage. */
    constructor (loaded: seq<Deck>)
      ensures decks == loaded
    {
      decks := loaded;
    }

    method AddDeck(name: string, emoji: string, id: string, now: int) returns (newId: string)
      modifies this
      ensures decks == Store.AddDeck(old(decks), id, name, emoji, now)
      ensures newId == id && decks[|decks| - 1].id == newId
    {
      decks := Store.AddDeck(decks, id, name, emoji, now);
      newId := id;
    }

    method UpdateDeck(id: string, u: DeckPatch)
      modifies this
      ensures decks == Store.UpdateDeck(old(decks), id, u)
    {
      decks := Store.UpdateDeck(decks, id, u);
    }

    method DeleteDeck(id: string)
      modifies this
      ensures decks == Store.DeleteDeck(old(decks), id)
    {
      decks := Store.DeleteDeck(decks, id);
    }

    method AddPerson(deckId: string, person: Person)
      modifies this
      ensures decks == Store.AddPerson(old(decks), deckId, person)
    {
      decks := Store.AddPerson(decks, deckId, person);
    }

    method UpdatePerson(deckId: string, personId: string, u: PersonPatch)
      modifies this
      ensures decks == Store.UpdatePerson(old(decks), deckId, personId, u)
    {
      decks := Store.UpdatePerson(decks, deckId, personId, u);
    }

    method DeletePerson(deckId: string, personId: string)
      modifies this
      ensures decks == Store.DeletePerson(old(decks), deckId, personId)
    {
      decks := Store.DeletePerson(decks, deckId, personId);
    }

    /**
     * `importData` once the text has been parsed: a list replaces the decks and
     * the call reports success; anything else leaves them as they were.
     */
    method ImportData(parsed: Option<seq<Deck>>) returns (ok: bool)
      modifies this
      ensures ok <==> parsed.Some?
      ensures decks == if ok then parsed.value else old(decks)
    {
      match parsed
      case Some(list) =>
        decks := list;
        ok := true;
      case None =>
        ok := false;
    }
  }
}
