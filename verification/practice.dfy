/**
  The navigator of `run_practice`: a cursor over the sorted practice deck
  that shows each card's question, then its answer; space moves forward
  one half-step, b/B goes back to the previous card's question (only when
  there is a previous card), and the quit phrase ends the session.  A
  completed or quit session writes exactly one practice-time record, whose
  duration runs from the start to the last key read.
 */
module Practice {
  import opened Wrappers
  import opened Text
  import opened Keys
  import opened Prompt

  datatype Phase = Question | Answer

  /** The card index `i` and which side of it is showing. */
  datatype Cursor = Cursor(i: nat, phase: Phase)

  /** Practice accepts space everywhere and b/B when a previous card exists; x/X is never a command here. */
  function PracticeStep(c: Cursor): (step: Step)
    ensures !step.markAllowed
    ensures step.backAllowed <==> c.i > 0
  {
    Step(false, c.i > 0)
  }

  /** Where an accepted command moves the cursor. */
  function Navigate(c: Cursor, cmd: Command): (r: Cursor)
    requires cmd == Space || (cmd == Back && c.i > 0)
    ensures cmd == Space && c.phase == Question ==> r == Cursor(c.i, Answer)
    ensures cmd == Space && c.phase == Answer ==> r == Cursor(c.i + 1, Question)
    ensures cmd == Back ==> r == Cursor(c.i - 1, Question)
  {
    if cmd == Back then Cursor(c.i - 1, Question)
    else if c.phase == Question then Cursor(c.i, Answer)
    else Cursor(c.i + 1, Question)
  }

  /** Going back from an answer undoes the advance to it only as far as the card's question: it lands on the previous card. */
  lemma BackFromAnswer(i: nat)
    requires i > 0
    ensures Navigate(Navigate(Cursor(i, Question), Space), Back) == Cursor(i - 1, Question)
    ensures Navigate(Navigate(Cursor(i - 1, Answer), Space), Back) == Cursor(i - 1, Question)
  {
  }

  /** The number of cards the quit message reports as viewed: `current_num - 1` at a question, `current_num` at an answer. */
  function Viewed(c: Cursor): (n: nat)
    ensures c.phase == Question ==> n == c.i
    ensures c.phase == Answer ==> n == c.i + 1
  {
    if c.phase == Question then c.i else c.i + 1
  }

  /** The cursor positions the loop can be in: an answer is only ever shown for an existing card. */
  predicate InDeck(total: nat, c: Cursor) {
    c.i <= total && (c.phase == Answer ==> c.i < total)
  }

  datatype PracticeEnd = Done | Stopped | Stuck

  /**
    How a practice session ends: with all cards seen, with a quit, or with
    the key presses run out; where the cursor stood; the time of the last
    key read; and the duration written to the practice-time record, when
    one is written.
   */
  datatype PracticeRun = PracticeRun(end: PracticeEnd, cursor: Cursor, endAt: int, record: Option<int>)

  /** The navigation loop from cursor `c`, `lastAt` being the time of the last key read so far. */
  function Walk(total: nat, c: Cursor, ps: seq<Press>, start: int, lastAt: int): (r: PracticeRun)
    requires InDeck(total, c)
    ensures InDeck(total, r.cursor)
    ensures r.end == Done <==> r.cursor == Cursor(total, Question)
    ensures r.end == Stopped ==> r.cursor.i < total
    ensures r.record.Some? <==> r.end != Stuck
    ensures r.record.Some? ==> r.record.value == r.endAt - start
    decreases |ps|
  {
    if c.i == total && c.phase == Question then PracticeRun(Done, c, lastAt, Some(lastAt - start))
    else
      var h := Await(ps, PracticeStep(c));
      if h.OutOfInput? then PracticeRun(Stuck, c, lastAt, None)
      else if h.Quitting? then PracticeRun(Stopped, c, h.at, Some(h.at - start))
      else Walk(total, Navigate(c, h.cmd), h.rest, start, h.at)
  }

  /** A practice session over a deck of `total` cards started at time `start`; an empty deck never gets this far. */
  function RunPractice(total: nat, ps: seq<Press>, start: int): (r: PracticeRun)
    requires total > 0
    ensures r.cursor.i <= total
    ensures r.end == Done ==> r.cursor.i == total && Viewed(r.cursor) == total
    ensures r.record.Some? <==> r.end != Stuck
  {
    Walk(total, Cursor(0, Question), ps, start, start)
  }

  predicate AllSpaces(ps: seq<Press>) {
    forall k :: 0 <= k < |ps| ==> ps[k].key == Some(' ')
  }

  /** The half-steps left before the end of the deck. */
  function HalfStepsLeft(total: nat, c: Cursor): nat
    requires InDeck(total, c)
  {
    if c.phase == Question then 2 * (total - c.i) else 2 * (total - c.i) - 1
  }

  /** Pressing space through the deck shows every card and completes the session, with the last space as the end time. */
  lemma {:induction false} SpacesComplete(total: nat, c: Cursor, ps: seq<Press>, start: int, lastAt: int)
    requires InDeck(total, c) && AllSpaces(ps)
    requires |ps| == HalfStepsLeft(total, c)
    ensures Walk(total, c, ps, start, lastAt).end == Done
    ensures |ps| > 0 ==> Walk(total, c, ps, start, lastAt).endAt == ps[|ps| - 1].at
    decreases |ps|
  {
    if |ps| > 0 {
      AwaitAccepted(ps, PracticeStep(c));
      var n := Navigate(c, Space);
      SpacesComplete(total, n, ps[1..], start, ps[0].at);
      assert |ps| > 1 ==> ps[1..][|ps[1..]| - 1] == ps[|ps| - 1];
    }
  }

  /**
    Inside the deck, an accepted command keeps the cursor inside it: space
    is exactly one half-step towards the end, and b lands on a question at
    least a whole card further back.
   */
  lemma NavigateProgress(total: nat, c: Cursor, cmd: Command)
    requires InDeck(total, c) && c != Cursor(total, Question)
    requires cmd == Space || (cmd == Back && c.i > 0)
    ensures InDeck(total, Navigate(c, cmd))
    ensures cmd == Space ==> HalfStepsLeft(total, Navigate(c, cmd)) + 1 == HalfStepsLeft(total, c)
    ensures cmd == Back ==> Navigate(c, cmd).phase == Question && HalfStepsLeft(total, Navigate(c, cmd)) >= HalfStepsLeft(total, c) + 2
  {
  }

  /** A space at a card that is still in the deck moves the cursor one half-step, with the space as the last key read. */
  lemma SpaceStep(total: nat, c: Cursor, ps: seq<Press>, k: nat, start: int, lastAt: int)
    requires InDeck(total, c) && c != Cursor(total, Question)
    requires k < |ps| && ps[k].key == Some(' ')
    ensures Walk(total, c, ps[k..], start, lastAt) == Walk(total, Navigate(c, Space), ps[k + 1..], start, ps[k].at)
  {
    AwaitAccepted(ps[k..], PracticeStep(c));
    assert ps[k..][1..] == ps[k + 1..];
  }

  /** A question and its answer both passed with space move the cursor to the next card's question. */
  lemma SpaceSpace(total: nat, i: nat, ps: seq<Press>, k: nat, start: int, lastAt: int)
    requires i < total && k + 2 <= |ps| && ps[k].key == Some(' ') && ps[k + 1].key == Some(' ')
    ensures Walk(total, Cursor(i, Question), ps[k..], start, lastAt) == Walk(total, Cursor(i + 1, Question), ps[k + 2..], start, ps[k + 1].at)
  {
    assert Navigate(Cursor(i, Question), Space) == Cursor(i, Answer);
    assert Navigate(Cursor(i, Answer), Space) == Cursor(i + 1, Question);
    SpaceStep(total, Cursor(i, Question), ps, k, start, lastAt);
    SpaceStep(total, Cursor(i, Answer), ps, k + 1, start, ps[k].at);
  }

  /** b at the first card is not accepted and is not a q: the quit check reads nothing and the key is dropped. */
  lemma FirstCardBack(total: nat, ps: seq<Press>, start: int, lastAt: int)
    requires 0 < total && |ps| > 0 && ps[0].key == Some('b')
    ensures Walk(total, Cursor(0, Question), ps, start, lastAt) == Walk(total, Cursor(0, Question), ps[1..], start, lastAt)
  {
    assert Lower('b') == 'b';
    assert Accept(PracticeStep(Cursor(0, Question)), 'b') == None;
    AwaitDrops(ps, PracticeStep(Cursor(0, Question)));
  }

  /** A last b at the question of card `i > 0` goes back to card `i - 1`, and then the input is exhausted. */
  lemma LastBack(total: nat, i: nat, p: Press, start: int, lastAt: int)
    requires 0 < i < total && p.key == Some('b')
    ensures Walk(total, Cursor(i, Question), [p], start, lastAt) == PracticeRun(Stuck, Cursor(i - 1, Question), p.at, None)
  {
    assert Lower('b') == 'b';
    AwaitAccepted([p], PracticeStep(Cursor(i, Question)));
    assert [p][1..] == [];
  }

  /** Every press in `ps[lo..hi]` is a space. */
  predicate SpacesBetween(ps: seq<Press>, lo: nat, hi: nat)
    requires lo <= hi <= |ps|
  {
    forall j :: lo <= j < hi ==> ps[j].key == Some(' ')
  }

  /**
    `n` question-answer pairs passed with space and then one b, which is
    the last key: the cursor ends one card before the `n` it advanced to.
   */
  lemma {:induction false} PairsThenBack(total: nat, i: nat, ps: seq<Press>, k: nat, n: nat, start: int, lastAt: int)
    requires 0 < i + n < total && |ps| == k + 2 * n + 1
    requires SpacesBetween(ps, k, k + 2 * n) && ps[k + 2 * n].key == Some('b')
    ensures Walk(total, Cursor(i, Question), ps[k..], start, lastAt)
         == PracticeRun(Stuck, Cursor(i + n - 1, Question), ps[k + 2 * n].at, None)
    decreases n
  {
    if n == 0 {
      assert ps[k..] == [ps[k]];
      LastBack(total, i, ps[k], start, lastAt);
    } else {
      assert ps[k].key == Some(' ') && ps[k + 1].key == Some(' ');
      SpaceSpace(total, i, ps, k, start, lastAt);
      assert SpacesBetween(ps, k + 2, k + 2 + 2 * (n - 1));
      PairsThenBack(total, i + 1, ps, k + 2, n - 1, start, ps[k + 1].at);
    }
  }

  /**
    Five cards: b at the first card does nothing, then four
    question-answer pairs and one b leave the cursor at the question of the
    fourth card (index 3), not 4.
   */
  lemma BackScenario(ps: seq<Press>)
    requires |ps| == 10 && ps[0].key == Some('b') && ps[9].key == Some('b')
    requires SpacesBetween(ps, 1, 9)
    ensures Walk(5, Cursor(0, Question), ps, 0, 0) == PracticeRun(Stuck, Cursor(3, Question), ps[9].at, None)
  {
    FirstCardBack(5, ps, 0, 0);
    PairsThenBack(5, 0, ps, 1, 4, 0, 0);
  }
}
