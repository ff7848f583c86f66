# NameDrill core in Dafny

NameDrill is a browser app for learning the names that go with faces. A user
keeps **decks** of **people** (a photo, a name, optional notes and a spaced-
repetition memory state) and drills them in four **study modes**: flash
cards, multiple choice (face → name), reverse (name → face) and a 60-second
speed round where the user types names. Every answer is scored with the
SM-2 (SuperMemo-2) rule, which schedules the person's next review.

This project models the app's logic and proves properties of it:

- `types.dfy` (module `Types`) holds the records: `Person`, `Deck`, `StudyMode`, `SessionStats`.
  It also holds the `Partial<…>` patches that are spread over a record. `easeFactor` is kept in
  integer hundredths (2.5 is 250).
- `js.dfy` (module `Js`) holds the JavaScript built-ins the rules rely on: `trim`, `toLowerCase`,
  `startsWith`, `Math.round` of a ratio, and `String(n)`.
- `seqs.dfy` (module `Seqs`) holds `Array.prototype.filter` and its properties.
- `scheduler.dfy` (module `Scheduler`) holds `createPerson`, `sm2`, `getDueCount` and `getMastery`.
- `store.dfy` holds two modules. `Store` has the deck-list rewrites of the `useDecks` hook.
  `UseDecks` has the hook's `decks` state as a class whose methods replace it.
- `queue.dfy` (module `Queue`) holds the Fisher–Yates `shuffle` (a method over an array, proved
  against a recursive specification), `getStudyQueue`, `getChoices`, the person on screen and the
  speed-mode answer rule.
- `session.dfy` (module `Session`) holds the study session as a class. The handlers `advance`,
  `handleChoice`, `handleSpeedSubmit` and the countdown tick are its methods. The `deck` prop is
  a parameter of the handlers that read it, and the calls to the parent are their results.
- `deckview.dfy` (module `DeckView`) holds the deck page's rules: the name a batch-added file
  gives, the add-person form, which modes are offered, and per-person accuracy.
- `results.dfy` (module `StudyResults`) holds the results page: accuracy, grade band, emoji and
  message, the time string and the mode "Study Again" starts.

The clock (`Date.now()`) is a `now` parameter. `Math.random()` is replaced by explicit random
indices: `picks[i]` is the index drawn at step `i` of a Fisher–Yates pass, with `picks[i] <= i`.
Ids from `generateId` are parameters. Timers are steps the caller drives. `HandleChoice` and
`HandleSpeedSubmit` return the timer they arm, with its delay. The caller then calls `Advance` or
`NextSpeedItem`, and `Tick` is one firing of the one-second interval. Image compression is an
input: a picked file carries its compressed photo, or `None` when compression failed.

## Model

| member | source | states |
|---|---|---|
| Types.ApplyPersonPatch | src/hooks/useDecks.ts:112-118 | `{ ...p, ...updates }` keeps the id; each field the patch sets is replaced by the patch's value, each field it leaves unset keeps the person's value |
| Types.ApplyDeckPatch | src/hooks/useDecks.ts:98-100 | `{ ...d, ...updates }` keeps the id; each field the patch sets (name, emoji, createdAt, lastStudied, people) takes the patch's value, each field it leaves unset keeps the deck's value, so `{ lastStudied: now }` changes nothing else |
| Seqs.Filter | src/hooks/useDecks.ts:70 | `filter` keeps exactly the elements that pass, each as often as before, never lengthening the list |
| Seqs.FilterAppend | src/hooks/useDecks.ts:106-124 | filtering a concatenation filters each part and concatenates the results |
| Seqs.FilterHead | src/hooks/useDecks.ts:70 | `filter` decides on the first element, then filters the rest |
| Seqs.FilterKeepsUniqueIds | src/hooks/useDecks.ts:120-124 | filtering a list of people never makes two share an id |
| Js.TrimStart | src/components/StudySession.tsx:139 | removes exactly the leading white space: what is cut is all space, what is left starts with a non-space |
| Js.TrimEnd | src/components/StudySession.tsx:139 | removes exactly the trailing white space |
| Js.Trim | src/components/DeckView.tsx:67-68 | `trim()` is the infix of the input between its leading and trailing white space, and starts and ends with a non-space |
| Js.TrimBlank | src/components/DeckView.tsx:67 | an all-blank string trims to the empty string |
| Js.TrimTrimmed | src/components/DeckView.tsx:68 | a string without surrounding blanks is its own trim |
| Js.TrimSurrounded | src/components/StudySession.tsx:139 | any white space before and after a string is trimmed away: the trim of the surrounded string is the trim of the string |
| Js.IsSpace | src/components/StudySession.tsx:139 | the code points `trim` removes: the ECMAScript WhiteSpace and LineTerminator sets (tab, line feed, vertical tab, form feed, carriage return, space, no-break space, the Unicode space separators, line and paragraph separators, byte order mark) |
| Js.LowerChar | src/components/StudySession.tsx:139-140 | an ASCII capital, and a Latin-1 capital U+00C0-U+00DE other than U+00D7, becomes its small letter, 32 code points higher; every other character is kept |
| Js.LowerCharKeepsSpace | src/components/StudySession.tsx:139-140 | lower-casing a character neither makes nor removes white space |
| Js.Lower | src/components/StudySession.tsx:139-140 | `toLowerCase` maps every character through the per-character lower-casing |
| Js.LowerIdempotent | src/components/StudySession.tsx:139-140 | lower-casing twice is lower-casing once |
| Js.Utf16Length | src/components/StudySession.tsx:141 | `length` counts UTF-16 code units: between the number of code points and twice it, and exactly that number when all are below U+10000 |
| Js.StartsWith | src/components/StudySession.tsx:141 | `a.startsWith(p)`: p is no longer than a and equals a's first |p| characters |
| Js.RoundDiv | src/hooks/useDecks.ts:47 | `Math.round(n / d)` is the integer nearest to n / d, halves going up |
| Js.Percent | src/hooks/useDecks.ts:76 | `Math.round(part / whole * 100)` lies in 0..100 for 0 <= part <= whole, is 100 for the whole and 0 for nothing |
| Js.NatToString | src/components/StudyResults.tsx:20 | decimal text of a number: only digits, no leading zero |
| Js.IntToString | src/components/StudyResults.tsx:20 | `String(n)`: a minus sign before the digits for negative numbers |
| Js.ParseNatToString | src/components/StudyResults.tsx:20 | the decimal text of a number reads back as the number |
| Scheduler.CreatePerson | src/hooks/useDecks.ts:23-36 | a new person has ease 2.5, no repetitions, interval 0, no answers and no review yet; its next review is exactly `now`, so it is due at once; not mastered and in the schedule shape |
| Scheduler.IsDue | src/hooks/useDecks.ts:70 | a person is due when the next review time is not after `now` |
| Scheduler.IsMastered | src/hooks/useDecks.ts:75 | a person counts as mastered when the interval is at least 7 days |
| Scheduler.EaseDelta | src/hooks/useDecks.ts:55 | the ease change of a quality in hundredths over the whole 0–5 range: +0.1 for 5, 0 for 4, -0.14 for 3, -0.32 for 2, -0.54 for 1, -0.8 for 0 |
| Scheduler.EaseDeltaMonotone | src/hooks/useDecks.ts:55 | up to quality 5, a better answer never changes the ease by less than a worse one |
| Scheduler.Sm2 | src/hooks/useDecks.ts:39-66 | for every quality the new ease is max(1.3, ease + EaseDelta(quality)), so never below 1.3; quality 4 keeps it, quality 1 lowers it by 0.54; success: repetitions + 1 and interval 1, 6, then round(interval × ease); failure: repetitions and interval 0; next review `now + interval` days, counters + 1 and + 1 exactly on success |
| Scheduler.Reviewed | src/hooks/useDecks.ts:112-118 | applying `sm2`'s patch keeps the person's identity and stamps the review time |
| Scheduler.GrowthBound | src/hooks/useDecks.ts:47 | with ease at least 1.3, a success grows an interval of at least `lo` days to at least 1.3 × lo, less rounding |
| Scheduler.ReviewKeepsWellFormed | src/hooks/useDecks.ts:39-66 | `sm2` keeps intervals and repetitions non-negative, ease >= 1.3 and correct count <= total count |
| Scheduler.ReviewKeepsScheduleShape | src/hooks/useDecks.ts:43-53 | `sm2` keeps the schedule shape `createPerson` starts in: interval 0, 1, 6, then at least 8 days for 0, 1, 2, 3+ repetitions (a shape every reachable state has) |
| Scheduler.MasteredIffThreeInARow | src/hooks/useDecks.ts:75 | in a state of that shape, interval >= 7 exactly when the last three or more answers were right |
| Scheduler.ReviewAllCounts | src/hooks/useDecks.ts:63-64 | after any run of answers the total grows by their number, the correct count by the number of successes, and correct <= total still holds |
| Scheduler.ThreeSuccessesFromNew | src/hooks/useDecks.ts:23-55 | a new person answered right three times is scheduled 1, 6 and 15 days out, ease still 2.5 |
| Scheduler.DueCount | src/hooks/useDecks.ts:68-71 | `getDueCount` is at most the deck size, 0 exactly when nobody is due, the deck size exactly when everybody is |
| Scheduler.CountAll | src/hooks/useDecks.ts:70 | a filter keeps every element exactly when all pass, and none exactly when none pass |
| Scheduler.Mastery | src/hooks/useDecks.ts:73-77 | `getMastery` lies in 0..100, is 0 for an empty deck or one with nobody mastered, 100 when everybody is |
| Store.NewDeck | src/hooks/useDecks.ts:87-93 | a new deck has the given id, name, emoji and creation time and no people |
| Store.AddDeck | src/hooks/useDecks.ts:86-96 | the earlier decks are unchanged and exactly one deck is appended: `Store.NewDeck` of the given id, name, emoji and time, with no `lastStudied` and no people |
| Store.UpdateDeck | src/hooks/useDecks.ts:98-100 | decks with the id get the patch; every other deck is unchanged; ids are kept |
| Store.DeleteDeck | src/hooks/useDecks.ts:102-104 | exactly the decks with another id survive, with their multiplicities |
| Store.PatchPeople | src/hooks/useDecks.ts:112-118 | people with the id get the patch; all others are unchanged |
| Store.RemovePerson | src/hooks/useDecks.ts:120-124 | exactly the people with another id survive |
| Store.AddPerson | src/hooks/useDecks.ts:106-110 | the person is appended to the deck with the id; every other deck is unchanged |
| Store.UpdatePerson | src/hooks/useDecks.ts:112-118 | only the person with the id in the deck with the id changes, by the patch |
| Store.DeletePerson | src/hooks/useDecks.ts:120-124 | only the deck with the id changes, losing the person with the id |
| Store.RemovePersonRemovesOne | src/hooks/useDecks.ts:120-124 | deleting a person whose id is present and unique shortens the deck by exactly one |
| Store.AddThenDeletePerson | src/hooks/useDecks.ts:106-124 | deleting a just-added person with a new id restores the deck |
| UseDecks.DeckStore.constructor | src/hooks/useDecks.ts:80 | the hook starts from the loaded decks |
| UseDecks.DeckStore.AddDeck | src/hooks/useDecks.ts:86-96 | `addDeck` replaces the state by the appended list and returns the new id |
| UseDecks.DeckStore.UpdateDeck | src/hooks/useDecks.ts:98-100 | `updateDeck` replaces the state by its rewrite |
| UseDecks.DeckStore.DeleteDeck | src/hooks/useDecks.ts:102-104 | `deleteDeck` replaces the state by its rewrite |
| UseDecks.DeckStore.AddPerson | src/hooks/useDecks.ts:106-110 | `addPerson` replaces the state by its rewrite |
| UseDecks.DeckStore.UpdatePerson | src/hooks/useDecks.ts:112-118 | `updatePerson` replaces the state by its rewrite |
| UseDecks.DeckStore.DeletePerson | src/hooks/useDecks.ts:120-124 | `deletePerson` replaces the state by its rewrite |
| UseDecks.DeckStore.ImportData | src/hooks/useDecks.ts:130-139 | a parsed list replaces the decks and reports success; anything else changes nothing and reports failure |
| Queue.Swap | src/components/StudySession.tsx:23 | swapping two places exchanges them and changes nothing else |
| Queue.SwapPermutes | src/components/StudySession.tsx:23 | a swap keeps the same elements with the same multiplicities |
| Queue.ShuffleTop | src/components/StudySession.tsx:21-24 | the remaining Fisher–Yates steps keep the length of the list |
| Queue.ShuffleTopPermutes | src/components/StudySession.tsx:21-24 | the remaining Fisher–Yates steps give a permutation: the same multiset, by induction over the steps |
| Queue.Shuffled | src/components/StudySession.tsx:19-26 | `shuffle` returns a permutation of its input: same length, same multiset, same members |
| Queue.Shuffle | src/components/StudySession.tsx:19-26 | the in-place loop over a copied array computes exactly the Fisher–Yates specification, a permutation of the argument, which stays untouched |
| Queue.SwapKeepsUniqueIds | src/components/StudySession.tsx:23 | a swap keeps ids unique |
| Queue.ShuffleKeepsUniqueIds | src/components/StudySession.tsx:21-24 | the Fisher–Yates steps keep ids unique |
| Queue.PrefixKeepsUniqueIds | src/components/StudySession.tsx:37 | a prefix of a list with unique ids has unique ids |
| Queue.Pool | src/components/StudySession.tsx:32-36 | the people drawn from: exactly the due ones when some are due, else the whole deck |
| Queue.StudyQueue | src/components/StudySession.tsx:28-38 | `getStudyQueue`: speed mode drills as many items as the deck has people; the other modes at most 20 and at most the deck size (what the queue holds: Queue.StudyQueueFacts) |
| Queue.StudyQueueFacts | src/components/StudySession.tsx:28-38 | speed: a permutation of the deck; otherwise min(20, pool) people, only due ones when any is due, all of the pool when it has at most 20; drawn from the deck; nobody twice |
| Queue.ShuffledPrefix | src/components/StudySession.tsx:36-37 | the first k of a shuffled list are its members, all of it (as a multiset) when k is its length, and keep ids unique |
| Queue.ShuffleKeepsUniqueIdsWhen | src/components/StudySession.tsx:19-26 | a shuffled list of people with unique ids has unique ids |
| Queue.PoolKeepsUniqueIds | src/components/StudySession.tsx:33-36 | the pool of a deck with unique ids has unique ids |
| Queue.EveryDuePersonQueued | src/components/StudySession.tsx:33-37 | when 1 to 20 people are due, every due person is in the queue |
| Queue.SliceTo | src/components/StudySession.tsx:41 | `slice(0, end)` is a prefix of length min(end, length) for a non-negative end |
| Queue.Choices | src/components/StudySession.tsx:40-43 | `getChoices` with a count of at least one gives at least one and at most `count` choices (what they hold: the lemmas below) |
| Queue.Picked | src/components/StudySession.tsx:41 | the distractors are at most `count - 1` people |
| Queue.Candidates | src/components/StudySession.tsx:41-42 | the right person followed by the distractors: at most one more than the deck before the second shuffle |
| Queue.ChoicesLength | src/components/StudySession.tsx:40-43 | for a count of at least one, the right person plus min(count - 1, others) distractors; no failure for small decks |
| Queue.ChoicesHoldCorrectOnce | src/components/StudySession.tsx:40-43 | the right person is among the choices exactly once |
| Queue.ChoicesAreOthers | src/components/StudySession.tsx:40-43 | every other choice is a person of the deck with another id |
| Queue.ChoicesUnique | src/components/StudySession.tsx:40-43 | in a deck with unique ids nobody appears twice among the choices |
| Queue.PickedAreOthers | src/components/StudySession.tsx:41-42 | the distractors are deck members with another id, so the right person appears once among the candidates |
| Queue.CandidatesUnique | src/components/StudySession.tsx:41-42 | the candidates of a deck with unique ids have unique ids |
| Queue.PickedUnique | src/components/StudySession.tsx:41 | the distractors of a deck with unique ids have unique ids |
| Queue.Current | src/components/StudySession.tsx:69 | the person on screen is from the queue; in speed mode there is one whenever the queue is non-empty, otherwise whenever the index is in range |
| Queue.SpeedCycles | src/components/StudySession.tsx:69 | speed mode starts over after the whole queue: item c and item c + length are the same person |
| Queue.SpeedMatch | src/components/StudySession.tsx:139-141 | a guess is right exactly when its trimmed lower-case form equals the lower-case name, or is a prefix of it at least two UTF-16 code units long; a right guess is always a prefix |
| Queue.SpeedMatchIgnoresNameCase | src/components/StudySession.tsx:140 | the judgement does not depend on the case of the name |
| Queue.FullNameMatches | src/components/StudySession.tsx:141 | a name with no white space at either end, typed as it is, always counts |
| Queue.SpeedMatchPrefix | src/components/StudySession.tsx:141 | "jo" counts for "John" |
| Queue.SpeedMatchTooShort | src/components/StudySession.tsx:141 | "j" does not count for "John" |
| Queue.SpeedMatchIgnoresBlanks | src/components/StudySession.tsx:139 | any white space typed before and after any guess does not change the verdict |
| Queue.SpeedMatchCountsCodeUnits | src/components/StudySession.tsx:141 | one character above U+FFFF is two code units, a long enough prefix: U+20BB7 alone counts for the name U+20BB7 U+7530 |
| Queue.SpeedMatchGuessCase | src/components/StudySession.tsx:139-141 | "JOHN" counts for "John" |
| Queue.SpeedMatchSame | src/components/StudySession.tsx:141 | a guess whose trimmed lower-case form is the lower-case name always counts |
| Queue.BlankLedNameNeverMatches | src/components/StudySession.tsx:139-141 | the guess is trimmed but the name is not: for a name starting with white space no guess at all counts |
| Session.FindById | src/components/StudySession.tsx:105 | `find` gives the first person with the id |
| Session.Quality | src/components/StudySession.tsx:104 | an answer's quality is in 0..5 and is a pass for `sm2` (3 or more) exactly when the answer is right |
| Session.AnswerEffect | src/components/StudySession.tsx:103-107 | a right answer keeps the ease (at least 1.3), extends the run by one and counts as correct; a wrong one lowers the ease by 0.54 (not below 1.3), resets run and interval to 0 and is not counted correct; both add one answer |
| Session.Score | src/components/StudySession.tsx:103-107 | the `onUpdatePerson` call of `recordResult` names the person, and its updates turn the person into its `sm2` review at quality 4 (right) or 1 (wrong) |
| Session.RecordResult | src/components/StudySession.tsx:103-107 | scoring an answer changes only people with that id; with unique ids that person becomes its `sm2` review at quality 4 (right) or 1 (wrong); ids and length are kept |
| Session.RecordResultKeeps | src/components/StudySession.tsx:103-107 | scoring keeps ids unique and every person well formed |
| Session.RecordResultKeepsIds | src/components/StudySession.tsx:103-107 | the same ids are present before and after scoring |
| Session.CountCorrect | src/components/StudySession.tsx:119 | the number of right answers is at most the number of answers |
| Session.CountCorrectAppend | src/components/StudySession.tsx:112-119 | one more answer adds one to the right count exactly when it is right |
| Session.StudySession.Current | src/components/StudySession.tsx:69 | the person on screen is from the queue |
| Session.RecordResultKeepsQueue | src/components/StudySession.tsx:103-111 | scoring keeps every queued person in the deck, so the next lookup by id succeeds |
| Session.StudySession.constructor | src/components/StudySession.tsx:46-66 | the queue is drawn once from the deck it is given, every counter starts at zero, the countdown at 60, and the session is valid |
| Session.StudySession.Flip | src/components/StudySession.tsx:195 | "Show Name" turns the card of a running session, which stays valid |
| Session.StudySession.RefreshChoices | src/components/StudySession.tsx:72-78 | in choice and reverse mode with a current item, fresh choices (count 4) around it drawn from the deck's people, nothing selected and no result shown; otherwise nothing changes; only while the session runs, and it stays valid |
| Session.StudySession.ShowChoices | src/components/StudySession.tsx:74-76 | the three setter calls of that effect: the drawn choices are shown, nothing is selected, no result shows, and the running session stays valid |
| Session.StudySession.HandleChoice | src/components/StudySession.tsx:130-136 | only while the session runs, and it stays valid; ignored while a result shows; otherwise records the pick, shows the result and arms `advance` after 500 ms (right) or 1500 ms (wrong) |
| Session.StudySession.Advance | src/components/StudySession.tsx:109-128 | reports the current person's score to the parent and appends the answer and its time; after the last item reports the deck as studied now and completes with total = number of answers = queue length and correct = number of right answers; otherwise moves to the next item, restarts the timer and unflips |
| Session.StudySession.TypeSpeedInput | src/components/StudySession.tsx:313-314 | typing sets the speed-mode input of a running session, which stays valid |
| Session.StudySession.HandleSpeedSubmit | src/components/StudySession.tsx:138-154 | judges the typed guess, reports the person's score to the parent, adds one to the total and one to the score only when right, shows the verdict, clears the box and arms the next item after 300 or 800 ms; score <= total is kept |
| Session.StudySession.NextSpeedItem | src/components/StudySession.tsx:150-153 | in a running session, which stays valid, the verdict disappears and the next person shows |
| Session.StudySession.Tick | src/components/StudySession.tsx:81-95 | one second less; at zero the deck is reported as studied now and the session completes with the speed counters, 60000 ms and mode speed |
| DeckView.LastDot | src/components/DeckView.tsx:52 | the position of the last dot, or none when the name has no dot |
| DeckView.StripExtension | src/components/DeckView.tsx:52 | the result is a prefix; a cut happens exactly when there is a dot followed by at least one non-dot character up to the end, and then only that part is removed |
| DeckView.StripExtensionOfFileName | src/components/DeckView.tsx:52 | `name.ext` with a dot-free non-empty extension loses exactly `.ext` |
| DeckView.SpacesForSeparators | src/components/DeckView.tsx:52 | every '-' and '_' becomes a space; nothing else changes |
| DeckView.BatchName | src/components/DeckView.tsx:52 | the derived name has no '-' or '_' and is as long as the name without its extension |
| DeckView.BatchNameExample | src/components/DeckView.tsx:52 | "jo-ann_li.jpg" gives "jo ann li" |
| DeckView.SeparatorsExample | src/components/DeckView.tsx:52 | "jo-ann_li" becomes "jo ann li" |
| DeckView.SeparatorLedBatchNameNeverMatches | src/components/DeckView.tsx:52 | a batch file whose name starts with '-' or '_' ("-john.jpg") gives a name starting with a space (" john"), and in speed mode no guess counts for that person |
| DeckView.BatchPeople | src/components/DeckView.tsx:49-54 | a batch never has more people than files |
| DeckView.BatchPersonAt | src/components/DeckView.tsx:49-54 | the k-th new person comes from the k-th file, with its photo, id and time, named after the file |
| DeckView.BatchStopsAtFailure | src/components/DeckView.tsx:49-54 | a batch that stops short stops at the first file whose compression failed |
| DeckView.BatchAddsOnePerFile | src/components/DeckView.tsx:49-54 | when every photo compresses, exactly one person per file |
| DeckView.BatchStep | src/components/DeckView.tsx:50-53 | each iteration appends the person of the next file |
| DeckView.NotesOf | src/components/DeckView.tsx:68 | notes are stored trimmed, or not at all when blank |
| DeckView.NewPerson | src/components/DeckView.tsx:66-68 | a person is created exactly when the trimmed name is non-empty and a non-empty photo is set, with the trimmed name, the photo and the notes rule |
| DeckView.NewPersonIsTrimmed | src/components/DeckView.tsx:67-68 | the stored name and notes are non-empty and have no surrounding blanks |
| DeckView.BlankNameRefused | src/components/DeckView.tsx:67 | an all-blank name is refused whatever the photo |
| DeckView.DeckPage.constructor | src/components/DeckView.tsx:31-35 | the form starts empty |
| DeckView.DeckPage.HandleAdd | src/components/DeckView.tsx:66-73 | when the guard passes, the person is appended to the deck and the form is cleared; otherwise nothing changes |
| DeckView.DeckPage.HandlePhotoSelect | src/components/DeckView.tsx:42-64 | several files append the batch's people to the deck; one file only sets the form's photo, if it compresses; no file changes nothing |
| DeckView.ModeEnabled | src/components/DeckView.tsx:118-128 | a mode button is shown and enabled from two people on, and choice and reverse only from four |
| DeckView.FlashAndSpeedNeedTwo | src/components/DeckView.tsx:118 | flash and speed are offered exactly from two people on |
| DeckView.EnabledModeGetsFourChoices | src/components/DeckView.tsx:128 | when choice or reverse is enabled and ids are unique, every question gets exactly four choices |
| DeckView.EnabledModeHasQueue | src/components/DeckView.tsx:118 | an enabled mode starts a session with at least one item |
| DeckView.PersonAccuracy | src/components/DeckView.tsx:232-235 | shown exactly when the person has answers; then in 0..100, and 100 for a perfect record |
| DeckView.PerfectRecordStaysPerfect | src/components/DeckView.tsx:234 | a person never answered wrong shows 100% after another right answer |
| StudyResults.Accuracy | src/components/StudyResults.tsx:16 | 0 without answers; else in 0..100 when correct <= total, 100 when all right, 0 when none |
| StudyResults.GradeOf | src/components/StudyResults.tsx:22-29 | every accuracy falls in exactly one band: >= 90, 70-89, 50-69, < 50 |
| StudyResults.EmojiAndMessageAgree | src/components/StudyResults.tsx:22-29 | the emoji chain and the message chain both pick the accuracy's band |
| StudyResults.Emoji | src/components/StudyResults.tsx:22 | the emoji chain of thresholds 90, 70 and 50 (it picks the accuracy's band: StudyResults.EmojiAndMessageAgree) |
| StudyResults.Message | src/components/StudyResults.tsx:23-29 | the message chain of thresholds 90, 70 and 50 (it picks the accuracy's band: StudyResults.EmojiAndMessageAgree) |
| StudyResults.BandsAreDistinct | src/components/StudyResults.tsx:22-29 | different bands show different emoji and different messages |
| StudyResults.TimeString | src/components/StudyResults.tsx:18-20 | the time ends in "s"; a speed round always reads "60s" |
| StudyResults.TimeStringReadsBack | src/components/StudyResults.tsx:20 | outside speed mode the digits read back as the session length rounded to the nearest second |
| StudyResults.Summarize | src/components/StudyResults.tsx:15-75 | "Study Again" restarts the finished session's mode; accuracy and mastery in 0..100; emoji and message are those of the accuracy's band |

## Left out

- Storage: `loadDecks`, `saveDecks` and `exportData` (localStorage and JSON text) are not modelled; `importData` is modelled once the text is parsed: `None` stands both for text that is not JSON and for JSON that is not an array. The source stores any array, even one whose elements are not decks; a `seq<Deck>` cannot hold such elements, so that case is not modelled.
- `generateId` (crypto or `Math.random`) is not modelled: ids are parameters, assumed unique where a lemma says so.
- `Date.now()` and `Math.random()` are parameters; real timers, React effects, re-rendering and focus handling are not modelled, only the state changes and the delays.
- src/lib/image.ts (canvas compression, storage usage) is not part of this model: a compressed photo or a failure is an input.
- src/components/Dashboard.tsx, src/components/Landing.tsx and src/App.tsx are not part of this model, except that the deck page's `deck` field is the deck as App passes it back after `addPerson`. The session's handlers take the deck's people as a parameter and return the `onUpdatePerson` and `onUpdateDeck` calls they make; App applying them is `Store.UpdatePerson` and `Store.UpdateDeck`.
- Scheduler.Sm2: `easeFactor` is exact in hundredths; IEEE-754 drift after repeated changes, and rounding of a product that lands within a rounding error of a half, are not modelled.
- Js.Percent: `Math.round((part / whole) * 100)` rounds an IEEE-754 double; the model rounds the exact ratio 100 · part / whole. The two differ when the double lands just below a half: 23 of 40 is 57 in the source and 58 here, 29 of 200 is 14 there and 15 here. This affects its three users, Scheduler.Mastery, DeckView.PersonAccuracy and StudyResults.Accuracy; their bounds (0..100, 0 and 100 at the extremes) hold either way.
- Queue.SpeedMatch: strings are sequences of Unicode code points; JavaScript strings holding an unpaired surrogate are not modelled. For well-formed strings, comparison and `startsWith` agree with the code-unit versions, and `length` is counted in code units by Js.Utf16Length.
- Js.Lower: `toLowerCase` is modelled for ASCII and Latin-1 capitals only; other scripts are left as they are.
- Js.LowerChar: keeps every character outside ASCII and Latin-1 capitals, although `toLowerCase` also lowers others (Latin Extended U+0100–U+024F, Greek, Cyrillic and more); Unicode case tables are not part of this model.
- Js.IsSpace: the Unicode space separators are listed by code point; a future Unicode version adding one is not tracked.
- Types.ApplyPersonPatch: a patch cannot carry an `id` or unset an optional field, which no caller of the core does.
- Types.ApplyDeckPatch: likewise a deck patch cannot carry an `id` or unset `lastStudied`; no caller does either.
- Session.StudySession.Advance: every handler (`Flip`, `RefreshChoices`, `ShowChoices`, `HandleChoice`, `Advance`, `TypeSpeedInput`, `HandleSpeedSubmit`, `NextSpeedItem`, `Tick`) requires the session still to be running (`Valid()` with `outcome` unset) and keeps it valid; after `onComplete` App unmounts the component, so later calls are not modelled.
- Session.StudySession.HandleSpeedSubmit: the source does not block a second submit while a verdict shows; the model allows it too, and two armed timers then move two items ahead.
- `isLoading`, `showAdd`, `speedInputRef` and the progress bar values are display state and are not modelled.
- The non-due list computed in `getStudyQueue` is never used by the source; the queue holds only due people whenever any is due, and the model does the same.
- `getChoices` does not fail for a deck smaller than `count`: it returns fewer choices, and the model does the same; the deck page's size guard is what ensures four.
