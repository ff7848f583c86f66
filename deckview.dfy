/**
 * The rules inside the deck page, src/components/DeckView.tsx: the name a
 * photo file gives in a batch add, the add-person form, which study modes are
 * offered and the accuracy shown under each face. Image compression is an
 * input: each picked file arrives with the compressed photo, or with `None`
 * when compressing it failed.
 */
module DeckView {
  import opened Types
  import opened Scheduler
  import Js
  import Seqs
  import Store
  import Queue

  /** The position of the last '.' of `s`, if there is one. */
  function LastDot(s: string): (r: Option<nat>)
    ensures r.Some? ==> r.value < |s| && s[r.value] == '.' && '.' !in s[r.value + 1..]
    ensures r.None? ==> '.' !in s
  {
    if s == [] then None
    else if s[|s| - 1] == '.' then Some(|s| - 1)
    else
      var r := LastDot(s[..|s| - 1]);
      assert s == s[..|s| - 1] + [s[|s| - 1]];
      if r.Some? then
        assert s[r.value + 1..] == s[..|s| - 1][r.value + 1..] + [s[|s| - 1]];
        r
      else r
  }

  /**
   * `name.replace(/\.[^.]+$/, '')`: a final extension (a dot followed by at
   * least one character that is not a dot, up to the end) is cut off.
   */
  function StripExtension(s: string): (r: string)
    ensures r <= s
    ensures r != s ==> s[|r|] == '.' && |r| + 1 < |s| && '.' !in s[|r| + 1..]
    ensures r == s <==> '.' !in s || s[|s| - 1] == '.'
  {
    match LastDot(s)
    case None => s
    case Some(i) => if i < |s| - 1 then s[..i] else s
  }

  /** A name followed by a dot and an extension without dots loses exactly the extension. */
  lemma StripExtensionOfFileName(base: string, ext: string)
    requires ext != [] && '.' !in ext
    ensures StripExtension(base + "." + ext) == base
  {
    var s := base + "." + ext;
    assert s[|base|] == '.';
    assert s[|base| + 1..] == ext;
    assert forall j :: |base| < j < |s| ==> s[j] == ext[j - |base| - 1];
  }

  /** `.replace(/[-_]/g, ' ')`: every '-' and '_' becomes a space. */
  function SpacesForSeparators(s: string): (r: string)
    ensures |r| == |s| && '-' !in r && '_' !in r
    ensures forall i :: 0 <= i < |s| ==> r[i] == if s[i] == '-' || s[i] == '_' then ' ' else s[i]
  {
    seq(|s|, i requires 0 <= i < |s| => if s[i] == '-' || s[i] == '_' then ' ' else s[i])
  }

  /** The name a batch-added photo file gives its person. */
  function BatchName(fileName: string): (r: string)
    ensures '-' !in r && '_' !in r
    ensures |r| == |StripExtension(fileName)|
  {
    SpacesForSeparators(StripExtension(fileName))
  }

  lemma BatchNameExample()
    ensures BatchName("jo-ann_li.jpg") == "jo ann li"
  {
    var base := "jo-ann_li";
    StripExtensionOfFileName(base, "jpg");
    assert base + "." + "jpg" == "jo-ann_li.jpg";
    SeparatorsExample();
  }

  lemma SeparatorsExample()
    ensures SpacesForSeparators("jo-ann_li") == "jo ann li"
  {
    var r := SpacesForSeparators("jo-ann_li");
    assert forall i :: 0 <= i < 9 ==> r[i] == "jo ann li"[i];
  }

  /**
   * A file whose name starts with '-' or '_' ("-john.jpg") gives a name that
   * starts with a space (" john"), which is never trimmed; in speed mode no
   * guess counts for that person.
   */
  lemma SeparatorLedBatchNameNeverMatches(fileName: string, guess: string)
    requires fileName != [] && (fileName[0] == '-' || fileName[0] == '_')
    ensures BatchName(fileName) != [] && BatchName(fileName)[0] == ' '
    ensures !Queue.SpeedMatch(guess, BatchName(fileName))
  {
    var base := StripExtension(fileName);
    assert base != [] && base[0] == fileName[0];
    Queue.BlankLedNameNeverMatches(guess, BatchName(fileName));
  }

  /** A picked file: its name and, when compression succeeded, the photo. */
  datatype PickedFile = PickedFile(name: string, photo: Option<string>)

  /**
   * The people a batch add creates: one per file, in file order, named after
   * the file, until the first file whose compression fails (the loop's
   * `await` throws and the rest of the files are skipped).
   */
  function BatchPeople(files: seq<PickedFile>, ids: seq<string>, nows: seq<int>): (r: seq<Person>)
    requires |ids| >= |files| && |nows| >= |files|
    ensures |r| <= |files|
  {
    if files == [] || files[0].photo.None? then []
    else
      [CreatePerson(ids[0], BatchName(files[0].name), files[0].photo.value, None, nows[0])]
      + BatchPeople(files[1..], ids[1..], nows[1..])
  }

  /**
   * The k-th person of a batch comes from the k-th file, its photo, id and
   * time, and is named after the file.
   */
  lemma {:induction false} BatchPersonAt(files: seq<PickedFile>, ids: seq<string>, nows: seq<int>, k: nat)
    requires |ids| >= |files| && |nows| >= |files|
    requires k < |BatchPeople(files, ids, nows)|
    ensures files[k].photo.Some?
    ensures BatchPeople(files, ids, nows)[k]
      == CreatePerson(ids[k], BatchName(files[k].name), files[k].photo.value, None, nows[k])
  {
    if k > 0 {
      BatchPersonAt(files[1..], ids[1..], nows[1..], k - 1);
      assert files[1..][k - 1] == files[k] && ids[1..][k - 1] == ids[k] && nows[1..][k - 1] == nows[k];
    }
  }

  /** A batch that stops short stops at a file whose photo failed. */
  lemma {:induction false} BatchStopsAtFailure(files: seq<PickedFile>, ids: seq<string>, nows: seq<int>)
    requires |ids| >= |files| && |nows| >= |files|
    ensures var n := |BatchPeople(files, ids, nows)|;
      n < |files| ==> files[n].photo.None?
  {
    if files != [] && files[0].photo.Some? {
      BatchStopsAtFailure(files[1..], ids[1..], nows[1..]);
      var n := |BatchPeople(files, ids, nows)|;
      if n < |files| {
        assert files[n] == files[1..][n - 1];
      }
    }
  }

  /** When every photo compresses, a batch add creates exactly one person per file. */
  lemma {:induction false} BatchAddsOnePerFile(files: seq<PickedFile>, ids: seq<string>, nows: seq<int>)
    requires |ids| >= |files| && |nows| >= |files|
    requires forall k :: 0 <= k < |files| ==> files[k].photo.Some?
    ensures |BatchPeople(files, ids, nows)| == |files|
  {
    if files != [] {
      BatchAddsOnePerFile(files[1..], ids[1..], nows[1..]);
    }
  }

  /** `newNotes.trim() || undefined`. */
  function NotesOf(notes: string): (r: Option<string>)
    ensures r.None? <==> Js.Trim(notes) == []
    ensures r.Some? ==> r.value == Js.Trim(notes)
  {
    var t := Js.Trim(notes);
    if t == [] then None else Some(t)
  }

  /**
   * The person `handleAdd` creates, or `None` when the guard refuses: the
   * name must have a non-blank character and a non-empty photo must be set.
   */
  function NewPerson(name: string, notes: string, photo: Option<string>, id: string, now: int): (r: Option<Person>)
    ensures r.Some? <==> Js.Trim(name) != [] && photo.Some? && photo.value != []
    ensures r.Some? ==> r.value == CreatePerson(id, Js.Trim(name), photo.value, NotesOf(notes), now)
  {
    if Js.Trim(name) != [] && photo.Some? && photo.value != [] then
      Some(CreatePerson(id, Js.Trim(name), photo.value, NotesOf(notes), now))
    else None
  }

  /** What `handleAdd` stores has no surrounding blanks: trimming it again changes nothing. */
  lemma NewPersonIsTrimmed(name: string, notes: string, photo: Option<string>, id: string, now: int)
    requires NewPerson(name, notes, photo, id, now).Some?
    ensures var p := NewPerson(name, notes, photo, id, now).value;
      && p.name != [] && Js.Trim(p.name) == p.name
      && (p.notes.Some? ==> p.notes.value != [] && Js.Trim(p.notes.value) == p.notes.value)
  {
    Js.TrimTrimmed(Js.Trim(name));
    Js.TrimTrimmed(Js.Trim(notes));
  }

  /** Blank names are refused, whatever the photo. */
  lemma BlankNameRefused(name: string, notes: string, photo: Option<string>, id: string, now: int)
    requires forall k :: 0 <= k < |name| ==> Js.IsSpace(name[k])
    ensures NewPerson(name, notes, photo, id, now).None?
  {
    Js.TrimBlank(name);
  }

  /**
   * The form state of the deck page and the deck as the parent passes it
   * back after `onAddPerson` (which appends to the deck's people).
   */
  class DeckPage {
    var deck: Deck
    var newName: string
    var newNotes: string
    var newPhoto: Option<string>

    constructor (d: Deck)
      ensures deck == d && newName == [] && newNotes == [] && newPhoto.None?
    {
      deck, newName, newNotes, newPhoto := d, [], [], None;
    }

    /** `handleAdd`: add the person and clear the form, or do nothing. */
    method HandleAdd(id: string, now: int)
      modifies this`deck, this`newName, this`newNotes, this`newPhoto
      ensures var added := NewPerson(old(newName), old(newNotes), old(newPhoto), id, now);
        if added.Some? then
          && deck == old(deck).(people := old(deck.people) + [added.value])
          && newName == [] && newNotes == [] && newPhoto.None?
        else
          deck == old(deck) && newName == old(newName) && newNotes == old(newNotes) && newPhoto == old(newPhoto)
    {
      var added := NewPerson(newName, newNotes, newPhoto, id, now);
      if added.Some? {
        deck := deck.(people := deck.people + [added.value]);
        newName, newNotes, newPhoto := [], [], None;
      }
    }

    /**
     * `handlePhotoSelect`: several files are added one by one as people named
     * after their files; a single file only becomes the form's photo; no file
     * does nothing.
     */
    method HandlePhotoSelect(files: seq<PickedFile>, ids: seq<string>, nows: seq<int>)
      requires |ids| >= |files| && |nows| >= |files|
      modifies this`deck, this`newPhoto
      ensures |files| > 1 ==>
        deck == old(deck).(people := old(deck.people) + BatchPeople(files, ids, nows)) && newPhoto == old(newPhoto)
      ensures |files| == 1 ==>
        deck == old(deck) && newPhoto == if files[0].photo.Some? then files[0].photo else old(newPhoto)
      ensures |files| == 0 ==> deck == old(deck) && newPhoto == old(newPhoto)
    {
      if |files| == 0 {
        return;
      }
      if |files| > 1 {
        var k := 0;
        ghost var added: seq<Person> := [];
        while k < |files| && files[k].photo.Some?
          invariant 0 <= k <= |files|
          invariant deck == old(deck).(people := deck.people) && newPhoto == old(newPhoto)
          invariant deck.people == old(deck.people) + added
          invariant added + BatchPeople(files[k..], ids[k..], nows[k..]) == BatchPeople(files, ids, nows)
          decreases |files| - k
        {
          var person := CreatePerson(ids[k], BatchName(files[k].name), files[k].photo.value, None, nows[k]);
          var rest := BatchPeople(files[k + 1..], ids[k + 1..], nows[k + 1..]);
          BatchStep(files, ids, nows, k);
          Seqs.AppendAssoc(added, [person], rest);
          Seqs.AppendAssoc(old(deck.people), added, [person]);
          deck := deck.(people := deck.people + [person]);
          added := added + [person];
          k := k + 1;
        }
        if k < |files| {
          assert files[k..][0] == files[k];
        }
        assert BatchPeople(files[k..], ids[k..], nows[k..]) == [];
        assert added == BatchPeople(files, ids, nows);
        assert deck.people == old(deck.people) + BatchPeople(files, ids, nows);
        return;
      }
      if files[0].photo.Some? {
        newPhoto := files[0].photo;
      }
    }
  }

  /** One step of the batch loop: the file at k, if its photo is there, gives the next person. */
  lemma BatchStep(files: seq<PickedFile>, ids: seq<string>, nows: seq<int>, k: nat)
    requires |ids| >= |files| && |nows| >= |files| && k < |files| && files[k].photo.Some?
    ensures BatchPeople(files[k..], ids[k..], nows[k..])
      == [CreatePerson(ids[k], BatchName(files[k].name), files[k].photo.value, None, nows[k])]
        + BatchPeople(files[k + 1..], ids[k + 1..], nows[k + 1..])
  {
    assert files[k..][1..] == files[k + 1..] && ids[k..][1..] == ids[k + 1..] && nows[k..][1..] == nows[k + 1..];
  }

  /**
   * Which study modes the page offers for a deck of n people: none below two
   * people; choice and reverse need four.
   */
  predicate ModeEnabled(mode: StudyMode, n: int) {
    n >= 2 && !((mode == Choice || mode == Reverse) && n < 4)
  }

  /** Flash and speed are never held back by the deck size once modes are shown. */
  lemma FlashAndSpeedNeedTwo(mode: StudyMode, n: int)
    requires mode == Flash || mode == Speed
    ensures ModeEnabled(mode, n) <==> n >= 2
  {
  }

  /**
   * The size guard is what makes `getChoices` safe: in a deck where choice or
   * reverse is enabled, every question gets the four choices it promises.
   */
  lemma EnabledModeGetsFourChoices(mode: StudyMode, correct: Person, people: seq<Person>, picks1: seq<nat>, picks2: seq<nat>)
    requires mode == Choice || mode == Reverse
    requires ModeEnabled(mode, |people|) && UniqueIds(people) && HasId(people, correct.id)
    requires Queue.PicksFit(picks1, |people|) && Queue.PicksFit(picks2, |people| + 1)
    ensures |Queue.Choices(correct, people, Queue.DefaultChoiceCount, picks1, picks2)| == Queue.DefaultChoiceCount
  {
    Store.RemovePersonRemovesOne(people, correct.id);
    Queue.ChoicesLength(correct, people, Queue.DefaultChoiceCount, picks1, picks2);
  }

  /** An enabled mode starts a session with something to ask. */
  lemma EnabledModeHasQueue(deck: Deck, mode: StudyMode, now: int, picks: seq<nat>)
    requires ModeEnabled(mode, |deck.people|) && Queue.PicksFit(picks, |deck.people|)
    ensures |Queue.StudyQueue(deck, mode, now, picks)| >= 1
  {
    Queue.StudyQueueFacts(deck, mode, now, picks);
  }

  /** The accuracy under a face: shown once the person has been answered at all. */
  function PersonAccuracy(p: Person): (r: Option<int>)
    ensures r.Some? <==> p.totalCount > 0
    ensures r.Some? && 0 <= p.correctCount <= p.totalCount ==> 0 <= r.value <= 100
    ensures r.Some? && p.correctCount == p.totalCount ==> r.value == 100
  {
    if p.totalCount > 0 then Some(Js.Percent(p.correctCount, p.totalCount)) else None
  }

  /** A person never answered wrong shows 100% after another right answer. */
  lemma PerfectRecordStaysPerfect(p: Person, now: int)
    requires p.correctCount == p.totalCount && p.totalCount >= 0
    ensures PersonAccuracy(Reviewed(p, 4, now)) == Some(100)
  {
  }
}
