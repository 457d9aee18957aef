/**
  The deck and the result log as the session engine sees them: words as
  loaded from the word list, result rows as loaded from the results log,
  and the pure functions that choose and order the words of a session.
 */
module Deck {
  import opened Wrappers
  import opened Seqs

  /** One row of the word list. */
  datatype Word = Word(pinyin: string, meaning: string, tone: string, group: int, character: string)

  /**
    One row of the results log; `correct` holds for the text "yes" only, so
    practice markers (whose column reads "practice") load as not correct.
    Timestamps are integer seconds.
   */
  datatype Row = Row(timestamp: int, sessionId: string, pinyin: string, character: string, group: int, correct: bool)

  /** The `character` value that marks a practice-time row. */
  const PracticeCharacter: string := "_practice_"

  const Day: int := 86400

  /** `get_groups`: the distinct group numbers of the words, ascending. */
  function GetGroups(words: seq<Word>): (groups: seq<int>)
    ensures forall g :: g in groups <==> exists w :: w in words && w.group == g
    ensures forall i, j :: 0 <= i < j < |groups| ==> groups[i] < groups[j]
  {
    var all := seq(|words|, i requires 0 <= i < |words| => words[i].group);
    var distinct := Dedup(all);
    var sorted := SortBy(distinct, g => (g, 0));
    assert forall g :: g in sorted <==> g in distinct by {
      forall g ensures g in sorted <==> g in distinct {
        assert g in sorted <==> g in multiset(sorted);
        assert g in distinct <==> g in multiset(distinct);
      }
    }
    forall g | g in sorted ensures exists w :: w in words && w.group == g {
      var i :| 0 <= i < |all| && all[i] == g;
      assert words[i] in words;
    }
    forall w | w in words ensures w.group in sorted {
      var i :| 0 <= i < |words| && words[i] == w;
      assert all[i] == w.group;
    }
    StrictlySorted(distinct, sorted);
    sorted
  }

  lemma StrictlySorted(distinct: seq<int>, sorted: seq<int>)
    requires forall i, j :: 0 <= i < j < |distinct| ==> distinct[i] != distinct[j]
    requires multiset(sorted) == multiset(distinct)
    requires SortedBy(sorted, g => (g, 0))
    ensures forall i, j :: 0 <= i < j < |sorted| ==> sorted[i] < sorted[j]
  {
    forall i, j | 0 <= i < j < |sorted| ensures sorted[i] < sorted[j] {
      assert LexLe((sorted[i], 0), (sorted[j], 0));
      if sorted[i] == sorted[j] {
        RepeatCount(sorted, i, j);
        DistinctCount(distinct, sorted[i]);
      }
    }
  }

  /** A value found at two indices occurs at least twice. */
  lemma RepeatCount(s: seq<int>, i: nat, j: nat)
    requires i < j < |s| && s[i] == s[j]
    ensures multiset(s)[s[i]] >= 2
  {
    assert s == s[..j] + s[j..];
    assert s[..j][i] == s[i] && s[j..][0] == s[i];
    assert multiset(s[..j])[s[i]] >= 1 && multiset(s[j..])[s[i]] >= 1;
  }

  lemma DistinctCount(s: seq<int>, x: int)
    requires forall i, j :: 0 <= i < j < |s| ==> s[i] != s[j]
    ensures multiset(s)[x] <= 1
  {
    if |s| > 0 {
      assert s == [s[0]] + s[1..];
      DistinctCount(s[1..], x);
      if s[0] == x {
        assert x !in s[1..];
      }
    }
  }

  /** The time windows offered for mistake review; `AllTime` is every other value of the argument. */
  datatype Period = Today | ThisWeek | ThisMonth | AllTime

  /** The earliest timestamp a mistake may have: one day, one week or thirty days back; None for no limit. */
  function Cutoff(now: int, period: Period): (c: Option<int>)
    ensures period == Today ==> c == Some(now - Day)
    ensures period == ThisWeek ==> c == Some(now - 7 * Day)
    ensures period == ThisMonth ==> c == Some(now - 30 * Day)
    ensures c.None? <==> period == AllTime
    ensures c.Some? ==> c.value < now
  {
    match period
    case Today => Some(now - Day)
    case ThisWeek => Some(now - 7 * Day)
    case ThisMonth => Some(now - 30 * Day)
    case AllTime => None
  }

  predicate NotBefore(t: int, cutoff: Option<int>) {
    cutoff.None? || t >= cutoff.value
  }

  /** The characters with an incorrect result at or after the cutoff. */
  function MistakeCharacters(results: seq<Row>, cutoff: Option<int>): (chars: set<string>)
    ensures forall c :: c in chars <==>
      exists r :: r in results && r.character == c && !r.correct && NotBefore(r.timestamp, cutoff)
  {
    set r | r in results && NotBefore(r.timestamp, cutoff) && !r.correct :: r.character
  }

  /**
    `get_mistake_words`: the words, in file order, whose character had an
    incorrect result in the period (a word is selected by its character, so
    every word sharing a missed character comes along).
   */
  function GetMistakeWords(words: seq<Word>, results: seq<Row>, period: Period, now: int): (picked: seq<Word>)
    ensures Subsequence(picked, words)
    ensures forall w :: w in picked <==> (w in words &&
      exists r :: r in results && r.character == w.character && !r.correct && NotBefore(r.timestamp, Cutoff(now, period)))
    ensures forall w :: w in words && w in picked ==> multiset(picked)[w] == multiset(words)[w]
  {
    var chars := MistakeCharacters(results, Cutoff(now, period));
    Filter(words, (w: Word) => w.character in chars)
  }

  /** Whether the session has words to show, and which. */
  datatype Selection = Chosen(deck: seq<Word>) | NoMistakes | NoWords

  /**
    The word choice at the head of `run_quiz` and `run_practice`: in mistake
    mode, when there are results at all, the mistake words (or the "no
    mistakes" message when there are none); otherwise every word when group
    0 is selected, else the words of the selected groups (or the "no words"
    message when that is empty).
   */
  function SelectDeck(words: seq<Word>, selected: seq<int>, mistakeMode: Option<Period>, results: seq<Row>, now: int): (s: Selection)
    ensures s.Chosen? ==> |s.deck| > 0 && Subsequence(s.deck, words)
    ensures s.NoMistakes? <==> mistakeMode.Some? && |results| > 0 && GetMistakeWords(words, results, mistakeMode.value, now) == []
    ensures (mistakeMode.None? || |results| == 0) && 0 in selected ==> s == (if |words| == 0 then NoWords else Chosen(words))
    ensures (mistakeMode.None? || |results| == 0) && 0 !in selected && s.Chosen? ==>
      forall w :: w in s.deck <==> w in words && w.group in selected
    ensures (mistakeMode.None? || |results| == 0) && 0 !in selected && s.Chosen? ==>
      forall w :: multiset(s.deck)[w] == (if w.group in selected then multiset(words)[w] else 0)
    ensures mistakeMode.Some? && |results| > 0 && GetMistakeWords(words, results, mistakeMode.value, now) != [] ==>
      s == Chosen(GetMistakeWords(words, results, mistakeMode.value, now))
    ensures s.NoWords? <==> (mistakeMode.None? || |results| == 0) && forall w :: w in words ==> 0 !in selected && w.group !in selected
  {
    if mistakeMode.Some? && |results| > 0 then
      var picked := GetMistakeWords(words, results, mistakeMode.value, now);
      if |picked| == 0 then NoMistakes else Chosen(picked)
    else
      var deck := if 0 in selected then words else Filter(words, (w: Word) => w.group in selected);
      SubsequenceRefl(words);
      if |deck| == 0 then NoWords
      else
        assert deck[0] in deck;
        Chosen(deck)
  }

  /** A longer period reviews every mistake a shorter one does: a day within a week within thirty days within all time. */
  lemma MistakeWindowsNest(words: seq<Word>, results: seq<Row>, now: int, w: Word)
    ensures w in GetMistakeWords(words, results, Today, now) ==> w in GetMistakeWords(words, results, ThisWeek, now)
    ensures w in GetMistakeWords(words, results, ThisWeek, now) ==> w in GetMistakeWords(words, results, ThisMonth, now)
    ensures w in GetMistakeWords(words, results, ThisMonth, now) ==> w in GetMistakeWords(words, results, AllTime, now)
  {
  }

  lemma {:induction false} SubsequenceRefl<T>(s: seq<T>)
    ensures Subsequence(s, s)
    decreases |s|
  {
    if |s| > 0 {
      SubsequenceRefl(s[1..]);
    }
  }

  /** Index of the first row equal to `w` (`words.index(w)`); `|words|` when absent. */
  function FirstIndex(words: seq<Word>, w: Word): (k: nat)
    ensures k <= |words|
    ensures k < |words| <==> w in words
    ensures k < |words| ==> words[k] == w && forall j :: 0 <= j < k ==> words[j] != w
  {
    if |words| == 0 then 0 else if words[0] == w then 0 else 1 + FirstIndex(words[1..], w)
  }

  /** The practice sort key: group first, then position in the word list. */
  function PracticeKey(words: seq<Word>): Word -> (int, int) {
    (w: Word) => (w.group, FirstIndex(words, w))
  }

  /** `practice_words.sort(key=lambda w: (w['group'], words.index(w)))`. */
  function PracticeOrder(deck: seq<Word>, words: seq<Word>): (ordered: seq<Word>)
    requires forall w :: w in deck ==> w in words
    ensures multiset(ordered) == multiset(deck)
    ensures forall i, j :: 0 <= i < j < |ordered| ==> ordered[i].group <= ordered[j].group
    ensures forall i, j :: 0 <= i < j < |ordered| && ordered[i].group == ordered[j].group ==>
      FirstIndex(words, ordered[i]) <= FirstIndex(words, ordered[j])
  {
    var r := SortBy(deck, PracticeKey(words));
    assert forall i, j :: 0 <= i < j < |r| ==> LexLe(PracticeKey(words)(r[i]), PracticeKey(words)(r[j]));
    r
  }
}
