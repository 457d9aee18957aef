/**
  The counting part of `calculate_stats` and the duration text of
  `format_duration`.  Each of the three windows (all time, the last week,
  today) counts the graded results in it (tested, correct, incorrect,
  distinct characters) and the sessions that have any row in it; practice
  marker rows only contribute their session.
 */
module Stats {
  import opened Wrappers
  import opened Text
  import opened Seqs
  import opened Deck

  datatype Bucket = Bucket(tested: nat, correct: nat, incorrect: nat, chars: set<string>, sessions: set<string>)

  /** A row the window counts as a graded result: not a practice marker, and not before the cutoff. */
  predicate Counted(r: Row, cutoff: Option<int>) {
    r.character != PracticeCharacter && NotBefore(r.timestamp, cutoff)
  }

  /**
    One row of the statistics loop, for one window: a graded result in the
    window is tested once, as correct or incorrect, with its character; any
    row in the window, marker or not, adds its session.
   */
  function AddRow(b: Bucket, r: Row, cutoff: Option<int>): (b2: Bucket)
    ensures b2.tested == b.tested + (if Counted(r, cutoff) then 1 else 0)
    ensures b2.correct == b.correct + (if Counted(r, cutoff) && r.correct then 1 else 0)
    ensures b2.incorrect == b.incorrect + (if Counted(r, cutoff) && !r.correct then 1 else 0)
    ensures b2.chars == b.chars + (if Counted(r, cutoff) then {r.character} else {})
    ensures b2.sessions == b.sessions + (if NotBefore(r.timestamp, cutoff) then {r.sessionId} else {})
  {
    if !NotBefore(r.timestamp, cutoff) then b
    else if r.character == PracticeCharacter then b.(sessions := b.sessions + {r.sessionId})
    else Bucket(
      b.tested + 1,
      b.correct + (if r.correct then 1 else 0),
      b.incorrect + (if r.correct then 0 else 1),
      b.chars + {r.character},
      b.sessions + {r.sessionId})
  }

  /** The window's bucket after all the rows (every update is a count or a set insertion, so the order does not matter). */
  function CountBucket(rows: seq<Row>, cutoff: Option<int>): (b: Bucket)
    ensures b.tested == b.correct + b.incorrect
    ensures b.tested <= |rows|
    decreases |rows|
  {
    if |rows| == 0 then Bucket(0, 0, 0, {}, {})
    else AddRow(CountBucket(rows[1..], cutoff), rows[0], cutoff)
  }

  /** The counts agree with filtering the rows the window counts. */
  lemma {:induction false} CountBucketCounts(rows: seq<Row>, cutoff: Option<int>)
    ensures CountBucket(rows, cutoff).tested == |Filter(rows, (r: Row) => Counted(r, cutoff))|
    ensures CountBucket(rows, cutoff).correct == |Filter(rows, (r: Row) => Counted(r, cutoff) && r.correct)|
    decreases |rows|
  {
    if |rows| > 0 {
      CountBucketCounts(rows[1..], cutoff);
    }
  }

  /** The characters of the graded results a window counts. */
  function CharsIn(rows: seq<Row>, cutoff: Option<int>): set<string> {
    set r | r in rows && Counted(r, cutoff) :: r.character
  }

  /** The sessions with any row in a window, practice markers included. */
  function SessionsIn(rows: seq<Row>, cutoff: Option<int>): set<string> {
    set r | r in rows && NotBefore(r.timestamp, cutoff) :: r.sessionId
  }

  lemma CharsInCons(rows: seq<Row>, cutoff: Option<int>)
    requires |rows| > 0
    ensures CharsIn(rows, cutoff) == CharsIn(rows[1..], cutoff) + (if Counted(rows[0], cutoff) then {rows[0].character} else {})
  {
    assert rows == [rows[0]] + rows[1..];
  }

  lemma SessionsInCons(rows: seq<Row>, cutoff: Option<int>)
    requires |rows| > 0
    ensures SessionsIn(rows, cutoff) == SessionsIn(rows[1..], cutoff) + (if NotBefore(rows[0].timestamp, cutoff) then {rows[0].sessionId} else {})
  {
    assert rows == [rows[0]] + rows[1..];
  }

  /** The characters are those of the counted rows; the sessions are those of every row in the window, markers included. */
  lemma {:induction false} CountBucketSets(rows: seq<Row>, cutoff: Option<int>)
    ensures CountBucket(rows, cutoff).chars == CharsIn(rows, cutoff)
    ensures CountBucket(rows, cutoff).sessions == SessionsIn(rows, cutoff)
    decreases |rows|
  {
    if |rows| > 0 {
      CountBucketSets(rows[1..], cutoff);
      CharsInCons(rows, cutoff);
      SessionsInCons(rows, cutoff);
    }
  }

  /** A later cutoff sees a part of what an earlier one sees. */
  predicate Within(inner: Option<int>, outer: Option<int>) {
    outer.None? || (inner.Some? && inner.value >= outer.value)
  }

  /** A narrower window never counts more: fewer tests and correct answers, fewer characters and sessions. */
  lemma {:induction false} NarrowerWindow(rows: seq<Row>, inner: Option<int>, outer: Option<int>)
    requires Within(inner, outer)
    ensures CountBucket(rows, inner).tested <= CountBucket(rows, outer).tested
    ensures CountBucket(rows, inner).correct <= CountBucket(rows, outer).correct
    ensures CountBucket(rows, inner).incorrect <= CountBucket(rows, outer).incorrect
    ensures CountBucket(rows, inner).chars <= CountBucket(rows, outer).chars
    ensures CountBucket(rows, inner).sessions <= CountBucket(rows, outer).sessions
    decreases |rows|
  {
    if |rows| > 0 {
      NarrowerWindow(rows[1..], inner, outer);
    }
  }

  datatype Statistics = Statistics(total: Bucket, week: Bucket, today: Bucket, newChars: set<string>)

  /**
    `calculate_stats` without the per-character, per-date and per-session
    tables: the week starts seven days before `now`, the day at
    `todayStart` (local midnight, which the clock supplies).
   */
  function CalculateStats(results: seq<Row>, words: seq<Word>, now: int, todayStart: int): (s: Statistics)
    requires now - Day < todayStart <= now
    ensures s.total == CountBucket(results, None)
    ensures s.week == CountBucket(results, Some(now - 7 * Day))
    ensures s.today == CountBucket(results, Some(todayStart))
    ensures s.today.tested <= s.week.tested <= s.total.tested
    ensures s.today.sessions <= s.week.sessions <= s.total.sessions
    ensures forall c :: c in s.newChars <==>
      (exists w :: w in words && w.character == c) && !(exists r :: r in results && Counted(r, None) && r.character == c)
  {
    var total := CountBucket(results, None);
    var week := CountBucket(results, Some(now - 7 * Day));
    var today := CountBucket(results, Some(todayStart));
    NarrowerWindow(results, Some(now - 7 * Day), None);
    NarrowerWindow(results, Some(todayStart), Some(now - 7 * Day));
    var all := set w | w in words :: w.character;
    CountBucketSets(results, None);
    Statistics(total, week, today, all - total.chars)
  }

  /** `format_duration` on whole seconds: `Ns` under a minute, `Nm Ns` under an hour, `Nh Nm` beyond. */
  function FormatDuration(seconds: nat): (text: string)
    ensures seconds < 60 ==> text == NatToString(seconds) + "s"
    ensures 60 <= seconds < 3600 ==> text == NatToString(seconds / 60) + "m " + NatToString(seconds % 60) + "s"
    ensures 3600 <= seconds ==> text == NatToString(seconds / 3600) + "h " + NatToString(seconds % 3600 / 60) + "m"
  {
    if seconds < 60 then NatToString(seconds) + "s"
    else if seconds < 3600 then NatToString(seconds / 60) + "m " + NatToString(seconds % 60) + "s"
    else NatToString(seconds / 3600) + "h " + NatToString(seconds % 3600 / 60) + "m"
  }

  /** A number followed by its unit letter. */
  function ReadAmount(piece: string, unit: char): Option<nat> {
    if |piece| > 0 && piece[|piece| - 1] == unit then ParseNat(piece[..|piece| - 1]) else None
  }

  /** Reads a duration text back into seconds: `Ns`, `Nm Ns` or `Nh Nm`. */
  function ReadDuration(text: string): Option<nat> {
    var pieces := Split(text, ' ');
    if |pieces| == 1 then ReadAmount(pieces[0], 's')
    else if |pieces| == 2 then
      var m := ReadAmount(pieces[0], 'm');
      var s := ReadAmount(pieces[1], 's');
      var h := ReadAmount(pieces[0], 'h');
      var hm := ReadAmount(pieces[1], 'm');
      if m.Some? && s.Some? then Some(60 * m.value + s.value)
      else if h.Some? && hm.Some? then Some(3600 * h.value + 60 * hm.value)
      else None
    else None
  }

  lemma ReadAmountOf(n: nat, unit: char)
    ensures ReadAmount(NatToString(n) + [unit], unit) == Some(n)
  {
    var p := NatToString(n) + [unit];
    assert p[..|p| - 1] == NatToString(n);
    ParseNatToString(n);
  }

  lemma SplitTwo(a: string, b: string)
    requires ' ' !in a && ' ' !in b
    ensures Split(a + " " + b, ' ') == [a, b]
  {
    assert Join([a, b], ' ') == a + " " + b by {
      assert [a, b][1..] == [b];
    }
    SplitJoin([a, b], ' ');
  }

  lemma NoSpace(n: nat, unit: char)
    requires unit != ' '
    ensures ' ' !in NatToString(n) + [unit]
  {
    var p := NatToString(n) + [unit];
    forall i | 0 <= i < |p| ensures p[i] != ' ' {
      if i < |p| - 1 {
        assert IsDigit(NatToString(n)[i]);
      }
    }
  }

  lemma SecondsRoundTrip(seconds: nat)
    requires seconds < 60
    ensures ReadDuration(FormatDuration(seconds)) == Some(seconds)
  {
    var p := NatToString(seconds) + "s";
    NoSpace(seconds, 's');
    assert Split(p, ' ') == [p] by {
      SplitJoin([p], ' ');
    }
    ReadAmountOf(seconds, 's');
  }

  lemma MinutesRoundTrip(seconds: nat)
    requires 60 <= seconds < 3600
    ensures ReadDuration(FormatDuration(seconds)) == Some(seconds)
  {
    var a := NatToString(seconds / 60) + "m";
    var b := NatToString(seconds % 60) + "s";
    assert FormatDuration(seconds) == a + " " + b;
    NoSpace(seconds / 60, 'm');
    NoSpace(seconds % 60, 's');
    SplitTwo(a, b);
    ReadAmountOf(seconds / 60, 'm');
    ReadAmountOf(seconds % 60, 's');
  }

  /** `Nh Mm` reads back as N hours and M minutes. */
  lemma ReadHoursMinutes(h: nat, m: nat)
    ensures ReadDuration((NatToString(h) + "h") + " " + (NatToString(m) + "m")) == Some(3600 * h + 60 * m)
  {
    var a := NatToString(h) + "h";
    var b := NatToString(m) + "m";
    NoSpace(h, 'h');
    NoSpace(m, 'm');
    SplitTwo(a, b);
    ReadAmountOf(h, 'h');
    ReadAmountOf(m, 'm');
    WrongUnit(h, 'h', 'm');
  }

  lemma HoursRoundTrip(seconds: nat)
    requires 3600 <= seconds
    ensures ReadDuration(FormatDuration(seconds)) == Some(seconds - seconds % 60)
  {
    var h, m := seconds / 3600, seconds % 3600 / 60;
    var text := FormatDuration(seconds);
    assert text == (NatToString(h) + "h") + " " + (NatToString(m) + "m");
    ReadHoursMinutes(h, m);
    assert ReadDuration(text) == Some(3600 * h + 60 * m);
    WholeMinutes(seconds);
  }

  /** A number followed by one unit letter is not read as an amount of another unit. */
  lemma WrongUnit(n: nat, unit: char, other: char)
    requires unit != other
    ensures ReadAmount(NatToString(n) + [unit], other) == None
  {
    var p := NatToString(n) + [unit];
    assert p[|p| - 1] == unit;
  }

  /** Hours and the minutes left over make up the duration less its odd seconds. */
  lemma WholeMinutes(seconds: nat)
    ensures 3600 * (seconds / 3600) + 60 * (seconds % 3600 / 60) == seconds - seconds % 60
  {
    var h := seconds / 3600;
    var r := seconds % 3600;
    var m := r / 60;
    var x := r % 60;
    assert seconds == 3600 * h + r && r == 60 * m + x;
    RemainderOf(seconds, 60 * h + m, x);
  }

  /** The remainder by 60 is the one left below 60 whatever the quotient is written as. */
  lemma RemainderOf(a: nat, q: nat, x: nat)
    requires a == 60 * q + x && x < 60
    ensures a % 60 == x
  {
  }

  /** Reading the text back gives the duration exactly below an hour, and to the minute beyond. */
  lemma FormatDurationRoundTrip(seconds: nat)
    ensures seconds < 3600 ==> ReadDuration(FormatDuration(seconds)) == Some(seconds)
    ensures seconds >= 3600 ==> ReadDuration(FormatDuration(seconds)) == Some(seconds - seconds % 60)
  {
    if seconds < 60 {
      SecondsRoundTrip(seconds);
    } else if seconds < 3600 {
      MinutesRoundTrip(seconds);
    } else {
      HoursRoundTrip(seconds);
    }
  }
}
