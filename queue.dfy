/**
 * The session plan of src/components/StudySession.tsx: the Fisher–Yates
 * `shuffle`, the queue of people a session drills (`getStudyQueue`), the
 * choices offered per person (`getChoices`), the person on screen (`current`)
 * and the fuzzy answer rule of speed mode. `Math.random()` is replaced by
 * explicit random indices, `Date.now()` by `now`.
 */
module Queue {
  import opened Types
  import opened Seqs
  import opened Scheduler
  import Store
  import Js

  const QueueLimit := 20
  const DefaultChoiceCount := 4

  /**
   * Random indices for a Fisher–Yates pass over n elements: the pass draws
   * `picks[i]` at step i, for i = n-1 down to 1, and each draw lies in 0..i.
   */
  predicate PicksFit(picks: seq<nat>, n: nat) {
    |picks| >= n && forall i :: 0 <= i < n ==> picks[i] <= i
  }

  /** `[a[i], a[j]] = [a[j], a[i]]` on a list value. */
  function Swap<T>(s: seq<T>, i: nat, j: nat): (r: seq<T>)
    requires i < |s| && j < |s|
    ensures |r| == |s|
    ensures r[i] == s[j] && r[j] == s[i]
    ensures forall k :: 0 <= k < |s| && k != i && k != j ==> r[k] == s[k]
  {
    s[i := s[j]][j := s[i]]
  }

  /** The steps i = hi-1 down to 1 of the Fisher–Yates pass, applied to `s`. */
  function ShuffleTop<T>(s: seq<T>, picks: seq<nat>, hi: nat): (r: seq<T>)
    requires hi <= |s| && PicksFit(picks, hi)
    ensures |r| == |s|
    decreases hi
  {
    if hi <= 1 then s
    else ShuffleTop(Swap(s, hi - 1, picks[hi - 1]), picks, hi - 1)
  }

  /** Each step swaps two places, so the steps together only reorder `s`. */
  lemma {:induction false} ShuffleTopPermutes<T>(s: seq<T>, picks: seq<nat>, hi: nat)
    requires hi <= |s| && PicksFit(picks, hi)
    ensures multiset(ShuffleTop(s, picks, hi)) == multiset(s)
    decreases hi
  {
    if hi > 1 {
      SwapPermutes(s, hi - 1, picks[hi - 1]);
      ShuffleTopPermutes(Swap(s, hi - 1, picks[hi - 1]), picks, hi - 1);
    }
  }

  /** A swap reorders and nothing else. */
  lemma SwapPermutes<T>(s: seq<T>, i: nat, j: nat)
    requires i < |s| && j < |s|
    ensures multiset(Swap(s, i, j)) == multiset(s)
  {
  }

  /** `shuffle(arr)`: the whole pass. It reorders `s` and nothing else. */
  function Shuffled<T(!new)>(s: seq<T>, picks: seq<nat>): (r: seq<T>)
    requires PicksFit(picks, |s|)
    ensures |r| == |s| && multiset(r) == multiset(s)
    ensures forall x :: x in r <==> x in s
  {
    var r := ShuffleTop(s, picks, |s|);
    ShuffleTopPermutes(s, picks, |s|);
    assert forall x :: x in r <==> x in multiset(r);
    r
  }

  /**
   * `shuffle`: copies the argument into a fresh array and swaps in place from
   * the last index down; the argument itself is a value and stays as it was.
   */
  method Shuffle<T(!new)>(arr: seq<T>, picks: seq<nat>) returns (r: seq<T>)
    requires PicksFit(picks, |arr|)
    ensures r == Shuffled(arr, picks)
    ensures |r| == |arr| && multiset(r) == multiset(arr)
  {
    var a := new T[|arr|](k requires 0 <= k < |arr| => arr[k]);
    var i := |arr| - 1;
    assert a[..] == arr;
    while i > 0
      invariant -1 <= i < |arr| && a.Length == |arr|
      invariant ShuffleTop(a[..], picks, i + 1) == Shuffled(arr, picks)
      decreases i
    {
      var j := picks[i];
      ghost var before := a[..];
      a[i], a[j] := a[j], a[i];
      assert a[..] == Swap(before, i, j) by {
        forall k | 0 <= k < a.Length ensures a[k] == Swap(before, i, j)[k] {
        }
      }
      i := i - 1;
    }
    r := a[..];
  }

  /** Swapping two places keeps ids unique. */
  lemma SwapKeepsUniqueIds(s: seq<Person>, i: nat, j: nat)
    requires i < |s| && j < |s| && UniqueIds(s)
    ensures UniqueIds(Swap(s, i, j))
  {
    var t := Swap(s, i, j);
    forall a, b | 0 <= a < b < |t| ensures t[a].id != t[b].id {
      var a' := if a == i then j else if a == j then i else a;
      var b' := if b == i then j else if b == j then i else b;
      assert t[a] == s[a'] && t[b] == s[b'] && a' != b';
    }
  }

  /** Shuffling keeps ids unique, so a shuffled deck shows nobody twice. */
  lemma {:induction false} ShuffleKeepsUniqueIds(s: seq<Person>, picks: seq<nat>, hi: nat)
    requires hi <= |s| && PicksFit(picks, hi) && UniqueIds(s)
    ensures UniqueIds(ShuffleTop(s, picks, hi))
    decreases hi
  {
    if hi > 1 {
      var t := Swap(s, hi - 1, picks[hi - 1]);
      SwapKeepsUniqueIds(s, hi - 1, picks[hi - 1]);
      ShuffleKeepsUniqueIds(t, picks, hi - 1);
      var r := ShuffleTop(t, picks, hi - 1);
      assert ShuffleTop(s, picks, hi) == r;
      forall a, b | 0 <= a < b < |r| ensures r[a].id != r[b].id {
      }
    }
  }

  lemma PrefixKeepsUniqueIds(s: seq<Person>, k: nat)
    requires k <= |s|
    ensures UniqueIds(s) ==> UniqueIds(s[..k])
  {
    if UniqueIds(s) {
      forall i, j | 0 <= i < j < k ensures s[..k][i].id != s[..k][j].id {
        assert s[..k][i] == s[i] && s[..k][j] == s[j];
      }
    }
  }

  function Min(a: int, b: int): int {
    if a <= b then a else b
  }

  /** The people the non-speed modes draw from: the due ones if any, else the whole deck. */
  function Pool(deck: Deck, now: int): (pool: seq<Person>)
    ensures |pool| <= |deck.people|
    ensures DueCount(deck, now) > 0 ==> |pool| == DueCount(deck, now)
    ensures DueCount(deck, now) == 0 ==> pool == deck.people
    ensures DueCount(deck, now) > 0 ==> forall p :: p in pool <==> p in deck.people && IsDue(p, now)
    ensures multiset(pool) <= multiset(deck.people)
    ensures forall p :: p in pool ==> p in deck.people
  {
    var due := Filter(deck.people, (p: Person) => IsDue(p, now));
    if |due| > 0 then due else deck.people
  }

  /**
   * `getStudyQueue`: speed mode shuffles the whole deck; the other modes
   * shuffle the pool and keep at most 20 of it.
   */
  function StudyQueue(deck: Deck, mode: StudyMode, now: int, picks: seq<nat>): (q: seq<Person>)
    requires PicksFit(picks, |deck.people|)
    ensures mode == Speed ==> |q| == |deck.people|
    ensures mode != Speed ==> |q| <= QueueLimit && |q| <= |deck.people|
  {
    if mode == Speed then Shuffled(deck.people, picks)
    else
      var pool := Pool(deck, now);
      Shuffled(pool, picks)[..Min(QueueLimit, |pool|)]
  }

  /**
   * What the queue holds: speed mode drills a permutation of the deck; the
   * other modes drill min(20, pool) people, only due people when any is due,
   * all of the pool when it has at most 20 people; everyone drilled is in
   * the deck, nobody twice.
   */
  lemma StudyQueueFacts(deck: Deck, mode: StudyMode, now: int, picks: seq<nat>)
    requires PicksFit(picks, |deck.people|)
    ensures var q := StudyQueue(deck, mode, now, picks);
      && (mode == Speed ==> |q| == |deck.people|)
      && (mode != Speed ==> |q| == Min(QueueLimit, |Pool(deck, now)|))
      && (mode == Speed ==> multiset(q) == multiset(deck.people))
      && (mode != Speed && DueCount(deck, now) > 0 ==> forall p :: p in q ==> IsDue(p, now))
      && (mode != Speed && |Pool(deck, now)| <= QueueLimit ==> multiset(q) == multiset(Pool(deck, now)))
      && (forall p :: p in q ==> p in deck.people)
      && (UniqueIds(deck.people) ==> UniqueIds(q))
  {
    if mode == Speed {
      ShuffleKeepsUniqueIdsWhen(deck.people, picks);
    } else {
      var pool := Pool(deck, now);
      PoolKeepsUniqueIds(deck, now);
      ShuffledPrefix(pool, picks, Min(QueueLimit, |pool|));
    }
  }

  /** The first k of a shuffled list are members of it, all of it when k is its length. */
  lemma ShuffledPrefix(s: seq<Person>, picks: seq<nat>, k: nat)
    requires PicksFit(picks, |s|) && k <= |s|
    ensures var q := Shuffled(s, picks)[..k];
      && (forall p :: p in q ==> p in s)
      && (k == |s| ==> multiset(q) == multiset(s))
      && (UniqueIds(s) ==> UniqueIds(q))
  {
    var shuffled := Shuffled(s, picks);
    var q := shuffled[..k];
    assert forall p :: p in q ==> p in shuffled;
    assert k == |s| ==> q == shuffled;
    ShuffleKeepsUniqueIdsWhen(s, picks);
    PrefixKeepsUniqueIds(shuffled, k);
  }

  lemma ShuffleKeepsUniqueIdsWhen(s: seq<Person>, picks: seq<nat>)
    requires PicksFit(picks, |s|)
    ensures UniqueIds(s) ==> UniqueIds(Shuffled(s, picks))
  {
    if UniqueIds(s) {
      ShuffleKeepsUniqueIds(s, picks, |s|);
    }
  }

  lemma PoolKeepsUniqueIds(deck: Deck, now: int)
    ensures UniqueIds(deck.people) ==> UniqueIds(Pool(deck, now))
  {
    if UniqueIds(deck.people) {
      FilterKeepsUniqueIds(deck.people, (p: Person) => IsDue(p, now));
    }
  }

  /** When at most 20 people are due, the queue drills every one of them. */
  lemma {:induction false} EveryDuePersonQueued(deck: Deck, mode: StudyMode, now: int, picks: seq<nat>, p: Person)
    requires PicksFit(picks, |deck.people|) && mode != Speed
    requires 0 < DueCount(deck, now) <= QueueLimit
    requires p in deck.people && IsDue(p, now)
    ensures p in StudyQueue(deck, mode, now, picks)
  {
    var q := StudyQueue(deck, mode, now, picks);
    StudyQueueFacts(deck, mode, now, picks);
    assert p in Pool(deck, now);
    assert p in multiset(Pool(deck, now));
    assert p in multiset(q);
  }

  /** `arr.slice(0, end)`: a negative end counts from the back. */
  function SliceTo<T>(s: seq<T>, end: int): (r: seq<T>)
    ensures r <= s
    ensures end >= 0 ==> |r| == Min(end, |s|)
  {
    if end < 0 then s[..if |s| + end < 0 then 0 else |s| + end]
    else s[..Min(end, |s|)]
  }

  /**
   * `getChoices(correct, all, count)`: up to count-1 other people of `all` in
   * random order, plus the right one, shuffled together. A deck too small for
   * `count` choices gives fewer of them; there is no error.
   */
  function Choices(correct: Person, all: seq<Person>, count: int, picks1: seq<nat>, picks2: seq<nat>): (r: seq<Person>)
    requires PicksFit(picks1, |all|) && PicksFit(picks2, |all| + 1)
    ensures count >= 1 ==> 1 <= |r| <= count
  {
    Shuffled(Candidates(correct, all, count, picks1), picks2)
  }

  /** The right person followed by the distractors, before the second shuffle. */
  function Candidates(correct: Person, all: seq<Person>, count: int, picks1: seq<nat>): (r: seq<Person>)
    requires PicksFit(picks1, |all|)
    ensures |r| <= |all| + 1
  {
    [correct] + Picked(correct, all, count, picks1)
  }

  /** The distractors: the first count-1 of the shuffled other people. */
  function Picked(correct: Person, all: seq<Person>, count: int, picks1: seq<nat>): (r: seq<Person>)
    requires PicksFit(picks1, |all|)
    ensures count >= 1 ==> |r| <= count - 1
  {
    SliceTo(Shuffled(Store.RemovePerson(all, correct.id), picks1), count - 1)
  }

  /** Choices for a count of at least one: the right person and min(count - 1, others) distractors. */
  lemma ChoicesLength(correct: Person, all: seq<Person>, count: int, picks1: seq<nat>, picks2: seq<nat>)
    requires PicksFit(picks1, |all|) && PicksFit(picks2, |all| + 1) && count >= 1
    ensures |Choices(correct, all, count, picks1, picks2)| == 1 + Min(count - 1, |Store.RemovePerson(all, correct.id)|)
  {
    var others := Store.RemovePerson(all, correct.id);
    assert |Shuffled(others, picks1)| == |others|;
  }

  /** The right person is among the choices exactly once. */
  lemma ChoicesHoldCorrectOnce(correct: Person, all: seq<Person>, count: int, picks1: seq<nat>, picks2: seq<nat>)
    requires PicksFit(picks1, |all|) && PicksFit(picks2, |all| + 1)
    ensures multiset(Choices(correct, all, count, picks1, picks2))[correct] == 1
  {
    PickedAreOthers(correct, all, count, picks1);
  }

  /** Every other choice is a person of the deck with another id. */
  lemma ChoicesAreOthers(correct: Person, all: seq<Person>, count: int, picks1: seq<nat>, picks2: seq<nat>)
    requires PicksFit(picks1, |all|) && PicksFit(picks2, |all| + 1)
    ensures forall x :: x in Choices(correct, all, count, picks1, picks2) ==>
      x == correct || (x in all && x.id != correct.id)
  {
    PickedAreOthers(correct, all, count, picks1);
  }

  /** In a deck with unique ids nobody appears twice among the choices. */
  lemma ChoicesUnique(correct: Person, all: seq<Person>, count: int, picks1: seq<nat>, picks2: seq<nat>)
    requires PicksFit(picks1, |all|) && PicksFit(picks2, |all| + 1)
    ensures UniqueIds(all) ==> UniqueIds(Choices(correct, all, count, picks1, picks2))
  {
    CandidatesUnique(correct, all, count, picks1);
    ShuffleKeepsUniqueIdsWhen([correct] + Picked(correct, all, count, picks1), picks2);
  }

  /** The distractors are deck members with another id, so the right person appears once among the candidates. */
  lemma PickedAreOthers(correct: Person, all: seq<Person>, count: int, picks1: seq<nat>)
    requires PicksFit(picks1, |all|)
    ensures forall x :: x in Picked(correct, all, count, picks1) ==> x in all && x.id != correct.id
    ensures multiset([correct] + Picked(correct, all, count, picks1))[correct] == 1
  {
    var others := Store.RemovePerson(all, correct.id);
    var picked := Picked(correct, all, count, picks1);
    PrefixMembers(Shuffled(others, picks1), picked);
    assert correct !in picked;
  }

  /** The candidates drawn from a deck with unique ids have unique ids. */
  lemma CandidatesUnique(correct: Person, all: seq<Person>, count: int, picks1: seq<nat>)
    requires PicksFit(picks1, |all|)
    ensures UniqueIds(all) ==> UniqueIds([correct] + Picked(correct, all, count, picks1))
  {
    if UniqueIds(all) {
      var others := Store.RemovePerson(all, correct.id);
      var picked := Picked(correct, all, count, picks1);
      PickedUnique(correct, all, count, picks1);
      PrefixMembers(Shuffled(others, picks1), picked);
      forall k | 0 <= k < |others| ensures others[k].id != correct.id {
        assert others[k] in others;
      }
      ConsUniqueIds(correct, picked, others);
    }
  }

  lemma PickedUnique(correct: Person, all: seq<Person>, count: int, picks1: seq<nat>)
    requires PicksFit(picks1, |all|)
    ensures UniqueIds(all) ==> UniqueIds(Picked(correct, all, count, picks1))
  {
    if UniqueIds(all) {
      var others := Store.RemovePerson(all, correct.id);
      FilterKeepsUniqueIds(all, (p: Person) => p.id != correct.id);
      var shuffled := Shuffled(others, picks1);
      var picked := Picked(correct, all, count, picks1);
      ShuffleKeepsUniqueIdsWhen(others, picks1);
      PrefixKeepsUniqueIds(shuffled, |picked|);
      assert picked == shuffled[..|picked|];
    }
  }

  lemma PrefixMembers<T>(s: seq<T>, p: seq<T>)
    requires p <= s
    ensures forall x :: x in p ==> x in s
  {
  }

  /** The person on screen: `queue[speedCurrent % queue.length]` in speed mode, else `queue[index]`. */
  function Current(queue: seq<Person>, mode: StudyMode, index: int, speedCurrent: nat): (c: Option<Person>)
    ensures c.Some? ==> c.value in queue
    ensures mode == Speed ==> (c.Some? <==> |queue| > 0)
    ensures mode != Speed ==> (c.Some? <==> 0 <= index < |queue|)
  {
    if mode == Speed then
      if |queue| == 0 then None else Some(queue[speedCurrent % |queue|])
    else if 0 <= index < |queue| then Some(queue[index])
    else None
  }

  /** Speed mode cycles through the shuffled deck: after |queue| items it starts over. */
  lemma SpeedCycles(queue: seq<Person>, index: int, speedCurrent: nat)
    ensures Current(queue, Speed, index, speedCurrent + |queue|) == Current(queue, Speed, index, speedCurrent)
  {
    if |queue| > 0 {
      ModPeriod(speedCurrent, |queue|);
    }
  }

  lemma ModPeriod(c: nat, n: nat)
    requires n > 0
    ensures (c + n) % n == c % n
  {
    var q, r := c / n, c % n;
    var q', r' := (c + n) / n, (c + n) % n;
    var k := q' - q - 1;
    assert k * n == r - r' by {
      assert c == q * n + r;
      assert c + n == q' * n + r';
      assert (q + 1 + k) * n == q' * n;
    }
  }

  /**
   * The speed-mode answer rule: the trimmed, lower-cased guess is right when it
   * is the lower-cased name, or a prefix of it at least two UTF-16 code units
   * long (`guess.length >= 2`).
   */
  function SpeedMatch(guess: string, name: string): (ok: bool)
    ensures ok ==> Js.StartsWith(Js.Lower(name), Js.Lower(Js.Trim(guess)))
    ensures ok <==> (Js.Lower(Js.Trim(guess)) == Js.Lower(name)
      || (Js.StartsWith(Js.Lower(name), Js.Lower(Js.Trim(guess)))
          && Js.Utf16Length(Js.Lower(Js.Trim(guess))) >= 2))
  {
    var g := Js.Lower(Js.Trim(guess));
    var answer := Js.Lower(name);
    g == answer || (Js.StartsWith(answer, g) && Js.Utf16Length(g) >= 2)
  }

  /** The rule ignores the case of the name. */
  lemma SpeedMatchIgnoresNameCase(guess: string, name: string)
    ensures SpeedMatch(guess, Js.Lower(name)) == SpeedMatch(guess, name)
  {
    Js.LowerIdempotent(name);
  }

  /** Typing a name without surrounding blanks, in any case, always counts. */
  lemma FullNameMatches(name: string)
    requires name != [] ==> !Js.IsSpace(name[0]) && !Js.IsSpace(name[|name| - 1])
    ensures SpeedMatch(name, name)
  {
    Js.TrimTrimmed(name);
  }

  /** "jo" counts for "John": a prefix of two letters. */
  lemma SpeedMatchPrefix()
    ensures SpeedMatch("jo", "John")
  {
    Js.TrimTrimmed("jo");
    assert Js.Lower("jo") == "jo";
    assert Js.Lower("John") == "john";
  }

  /** "j" does not count for "John": one letter is too short a prefix. */
  lemma SpeedMatchTooShort()
    ensures !SpeedMatch("j", "John")
  {
    Js.TrimTrimmed("j");
    assert Js.Lower("John") == "john";
  }

  /** White space typed before and after a guess does not change the verdict. */
  lemma SpeedMatchIgnoresBlanks(before: string, guess: string, after: string, name: string)
    requires Js.AllSpace(before) && Js.AllSpace(after)
    ensures SpeedMatch(before + guess + after, name) == SpeedMatch(guess, name)
  {
    Js.TrimSurrounded(before, guess, after);
  }

  /**
   * One character above U+FFFF is two UTF-16 code units, so it is a long
   * enough prefix: "\U{20BB7}" counts for "\U{20BB7}\U{7530}".
   */
  lemma SpeedMatchCountsCodeUnits()
    ensures SpeedMatch("\U{20BB7}", "\U{20BB7}\U{7530}")
  {
    Js.TrimTrimmed("\U{20BB7}");
    assert Js.Lower("\U{20BB7}") == "\U{20BB7}";
    assert Js.Lower("\U{20BB7}\U{7530}") == "\U{20BB7}\U{7530}";
    assert Js.Utf16Length("\U{20BB7}") == 2;
  }

  /** "JOHN" counts for "John": the case of the guess is ignored. */
  lemma SpeedMatchGuessCase()
    ensures SpeedMatch("JOHN", "John")
  {
    Js.TrimTrimmed("JOHN");
    LowerJohn();
    SpeedMatchSame("JOHN", "John");
  }

  lemma LowerJohn()
    ensures Js.Lower("JOHN") == Js.Lower("John")
  {
    forall i | 0 <= i < 4 ensures Js.LowerChar("JOHN"[i]) == Js.LowerChar("John"[i]) {
      assert "JOHN"[i] == "John"[i] || 'A' <= "JOHN"[i] <= 'Z';
    }
  }

  /**
   * The guess is trimmed but the name is not: no guess at all counts for a
   * name that starts with white space.
   */
  lemma BlankLedNameNeverMatches(guess: string, name: string)
    requires name != [] && Js.IsSpace(name[0])
    ensures !SpeedMatch(guess, name)
  {
    var g := Js.Lower(Js.Trim(guess));
    var answer := Js.Lower(name);
    Js.LowerCharKeepsSpace(name[0]);
    assert Js.IsSpace(answer[0]);
    if g != [] {
      Js.LowerCharKeepsSpace(Js.Trim(guess)[0]);
      assert !Js.IsSpace(g[0]);
      assert g != answer;
      assert !Js.StartsWith(answer, g) by {
        if |g| <= |answer| {
          assert answer[..|g|][0] == answer[0];
        }
      }
    }
  }

  lemma SpeedMatchSame(guess: string, name: string)
    requires Js.Lower(Js.Trim(guess)) == Js.Lower(name)
    ensures SpeedMatch(guess, name)
  {
  }
}
