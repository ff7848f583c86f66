/**
 * The results page, src/components/StudyResults.tsx: what it shows for the
 * `SessionStats` a finished session hands over, and the mode "Study Again"
 * starts.
 */
module StudyResults {
  import opened Types
  import Scheduler
  import Js

  /** The percentage of right answers; 0 for a session without answers. */
  function Accuracy(stats: SessionStats): (a: int)
    ensures stats.total <= 0 ==> a == 0
    ensures 0 <= stats.correct <= stats.total ==> 0 <= a <= 100
    ensures stats.total > 0 && stats.correct == stats.total ==> a == 100
    ensures stats.total > 0 && stats.correct == 0 ==> a == 0
  {
    if stats.total > 0 then Js.Percent(stats.correct, stats.total) else 0
  }

  /** The four bands the page sorts an accuracy into. */
  datatype Grade = Master | Great | Fair | Practice

  function GradeOf(accuracy: int): (g: Grade)
    ensures g == Master <==> accuracy >= 90
    ensures g == Great <==> 70 <= accuracy < 90
    ensures g == Fair <==> 50 <= accuracy < 70
    ensures g == Practice <==> accuracy < 50
  {
    if accuracy >= 90 then Master
    else if accuracy >= 70 then Great
    else if accuracy >= 50 then Fair
    else Practice
  }

  function EmojiFor(g: Grade): string {
    match g
    case Master => "\U{1F3C6}"
    case Great => "\U{1F44F}"
    case Fair => "\U{1F4AA}"
    case Practice => "\U{1F4DA}"
  }

  function MessageFor(g: Grade): string {
    match g
    case Master => "Outstanding! You're a name master!"
    case Great => "Great job! Keep practicing!"
    case Fair => "Good effort! Review will help."
    case Practice => "Keep at it \U{2014} practice makes perfect!"
  }

  /** The page's own chain of thresholds for the emoji. */
  function Emoji(accuracy: int): string {
    if accuracy >= 90 then "\U{1F3C6}"
    else if accuracy >= 70 then "\U{1F44F}"
    else if accuracy >= 50 then "\U{1F4AA}"
    else "\U{1F4DA}"
  }

  /** The page's own chain of thresholds for the message. */
  function Message(accuracy: int): string {
    if accuracy >= 90 then "Outstanding! You're a name master!"
    else if accuracy >= 70 then "Great job! Keep practicing!"
    else if accuracy >= 50 then "Good effort! Review will help."
    else "Keep at it \U{2014} practice makes perfect!"
  }

  /**
   * The emoji and the message are picked by two separate chains of tests, and
   * they agree: both are the ones of the accuracy's band, and different bands
   * show different emoji and messages.
   */
  lemma EmojiAndMessageAgree(accuracy: int)
    ensures Emoji(accuracy) == EmojiFor(GradeOf(accuracy))
    ensures Message(accuracy) == MessageFor(GradeOf(accuracy))
  {
  }

  lemma BandsAreDistinct(g: Grade, h: Grade)
    requires g != h
    ensures EmojiFor(g) != EmojiFor(h) && MessageFor(g) != MessageFor(h)
  {
    EmojisDistinct(g, h);
    MessagesDistinct(g, h);
  }

  lemma EmojisDistinct(g: Grade, h: Grade)
    requires g != h
    ensures EmojiFor(g)[0] != EmojiFor(h)[0]
  {
  }

  lemma MessagesDistinct(g: Grade, h: Grade)
    requires g != h
    ensures |MessageFor(g)| != |MessageFor(h)|
  {
  }

  /** The time shown: a speed round always reads "60s"; otherwise whole seconds, rounded. */
  function TimeString(stats: SessionStats): (s: string)
    ensures |s| >= 2 && s[|s| - 1] == 's'
    ensures stats.mode == Speed ==> s == "60s"
  {
    if stats.mode == Speed then "60s"
    else Js.IntToString(Js.RoundDiv(stats.timeMs, 1000)) + "s"
  }

  /**
   * Outside speed mode the digits before the "s" read back as the session's
   * length in seconds, rounded to the nearest second with halves going up.
   */
  lemma TimeStringReadsBack(stats: SessionStats)
    requires stats.mode != Speed && stats.timeMs >= 0
    ensures var s := TimeString(stats);
      var digits := s[..|s| - 1];
      && (forall k :: 0 <= k < |digits| ==> '0' <= digits[k] <= '9')
      && var secs := Js.ParseNat(digits);
      1000 * (2 * secs - 1) <= 2 * stats.timeMs < 1000 * (2 * secs + 1)
  {
    var secs := Js.RoundDiv(stats.timeMs, 1000);
    var s := TimeString(stats);
    assert s[..|s| - 1] == Js.NatToString(secs);
    Js.ParseNatToString(secs);
  }

  /** Everything the page shows, and the mode "Study Again" starts. */
  datatype Summary = Summary(
    accuracy: int,
    mastery: int,
    time: string,
    emoji: string,
    message: string,
    againMode: StudyMode)

  function Summarize(deck: Deck, stats: SessionStats): (r: Summary)
    ensures r.againMode == stats.mode
    ensures 0 <= stats.correct <= stats.total ==> 0 <= r.accuracy <= 100
    ensures 0 <= r.mastery <= 100
    ensures r.emoji == EmojiFor(GradeOf(r.accuracy)) && r.message == MessageFor(GradeOf(r.accuracy))
  {
    var accuracy := Accuracy(stats);
    EmojiAndMessageAgree(accuracy);
    Summary(accuracy, Scheduler.Mastery(deck), TimeString(stats), Emoji(accuracy), Message(accuracy), stats.mode)
  }
}
