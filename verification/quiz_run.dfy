/**
  The session driver of `run_quiz`: the main loop over the queue, then the
  drain rounds over the repeats still pending, until the registry is empty
  or the user quits.  A session also stops when the key presses run out
  (`Blocked`): the program itself would wait for the next key for ever.
 */
module QuizRun {
  import opened Wrappers
  import opened Text
  import opened Keys
  import opened Prompt
  import opened Deck
  import opened Registry
  import opened Quiz

  /** How a session ends: the registry drained (`complete=True`), a confirmed quit, or no more input. */
  datatype End = Finished | Quit | Blocked

  datatype Outcome = Outcome(end: End, final: Quiz)

  datatype Progress = Next(state: Quiz, rest: seq<Press>) | Stop(outcome: Outcome)

  /**
    The numbers `random.randint` returns, as raw draws.  The main loop visits
    each position once, so indexing by position keeps every draw distinct:
    `slot(position, k)` for the k-th due repeat, `delay(position)` for the
    repeat registered at that position.
   */
  datatype Oracle = Oracle(slot: (nat, nat) -> nat, delay: nat -> nat)

  /** `random.randint(lo, hi)`, both bounds inclusive, fed by a raw draw. */
  function RandInt(lo: int, hi: int, raw: nat): (r: int)
    requires lo <= hi
    ensures lo <= r <= hi
  {
    lo + raw % (hi - lo + 1)
  }

  /** Every value in range is drawn by some raw number, so the oracle can stand for any run of the program. */
  lemma RandIntCovers(lo: int, hi: int, v: int)
    requires lo <= v <= hi
    ensures RandInt(lo, hi, (v - lo) as nat) == v
  {
  }

  /** The slot of the k-th repeat due at `position`: `random.randint(0, min(3, len(queue)))` with `n + k` entries queued. */
  function SlotDraw(oracle: Oracle, position: nat, n: nat, k: nat): (slot: nat)
    ensures slot <= Min(MaxSlot, n + k)
  {
    var r := RandInt(0, Min(MaxSlot, n + k), oracle.slot(position, k));
    r
  }

  /** The insertion slots of the repeats due at `position`, the queue holding `n` entries before the first insertion. */
  function DrawSlots(oracle: Oracle, position: nat, n: nat, count: nat): (slots: seq<nat>)
    ensures |slots| == count && SlotsFit(n, slots)
  {
    seq(count, k requires 0 <= k < count => SlotDraw(oracle, position, n, k))
  }

  /** Showing one card ends in a verdict (with the presses left) or ends the session. */
  datatype Shown = Judged(v: Verdict, rest: seq<Press>) | Ended(end: End)

  /**
    `rest` is what is left of `ps` after the key that gave verdict `v`:
    space for a correct answer, x or X for an incorrect one.
   */
  predicate JudgedBy(ps: seq<Press>, rest: seq<Press>, v: Verdict) {
    && |rest| < |ps| && LeftOf(ps, rest)
    && var k := ps[|ps| - |rest| - 1].key;
      && k.Some?
      && (v == Correct <==> k.value == ' ')
      && (v == Incorrect <==> Lower(k.value) == 'x')
  }

  /** The answer step of one card: space is a correct answer, x/X an incorrect one. */
  function JudgeCard(ps: seq<Press>): (r: Shown)
    ensures r.Ended? ==> r.end != Finished
    ensures r.Judged? ==> JudgedBy(ps, r.rest, r.v)
  {
    var h := Await(ps, JudgeStep);
    if h.OutOfInput? then Ended(Blocked)
    else if h.Quitting? then Ended(Quit)
    else
      HeardJudged(ps, h);
      Judged(if h.cmd == Mark then Incorrect else Correct, h.rest)
  }

  /** At the answer step a key is accepted as space or as x/X, never both, and never as b. */
  lemma HeardJudged(ps: seq<Press>, h: Heard)
    requires h == Await(ps, JudgeStep) && h.Heard?
    ensures JudgedBy(ps, h.rest, if h.cmd == Mark then Incorrect else Correct)
  {
    assert AcceptedBefore(ps, h.rest, JudgeStep, h.cmd);
    var k := ps[|ps| - |h.rest| - 1].key.value;
    assert Accept(JudgeStep, k) == Some(h.cmd);
    if k == ' ' {
      assert Lower(k) == ' ';
    }
  }

  /**
    One card: wait for space at the question, then for space (correct) or
    x/X (incorrect) at the answer; a quit or the end of the input at either
    step ends the session.
   */
  function ShowCard(ps: seq<Press>): (r: Shown)
    ensures r.Ended? ==> r.end != Finished
    ensures r.Judged? ==> |r.rest| + 2 <= |ps| && JudgedBy(ps, r.rest, r.v)
  {
    var h := Await(ps, AskStep);
    if h.OutOfInput? then Ended(Blocked)
    else if h.Quitting? then Ended(Quit)
    else
      var r := JudgeCard(h.rest);
      if r.Ended? then r
      else
        JudgedBySuffix(ps, h.rest, r.rest, r.v);
        r
  }

  /** A verdict read from a suffix of the presses was read from the presses themselves. */
  lemma JudgedBySuffix(ps: seq<Press>, ps1: seq<Press>, rest: seq<Press>, v: Verdict)
    requires LeftOf(ps, ps1)
    requires JudgedBy(ps1, rest, v)
    ensures JudgedBy(ps, rest, v)
  {
    assert ps1[|ps1| - |rest| - 1] == ps[|ps| - |rest| - 1];
  }

  /** One position of the main loop: pop, move the due repeats in, show the card, judge it. */
  function MainTurn(s: Quiz, ps: seq<Press>, oracle: Oracle): (t: Progress)
    requires |s.queue| > 0
    ensures t.Next? ==> |t.rest| + 2 <= |ps| && LeftOf(ps, t.rest)
    ensures t.Next? ==> t.state.position == s.position + 1
    ensures t.Next? ==> |t.state.saved| == |s.saved| + 1 && t.state.saved[..|s.saved|] == s.saved
    ensures t.Next? ==> t.state.saved[|s.saved|].word == s.queue[0].word
    ensures t.Next? ==> t.state.correctCount + t.state.incorrectCount == s.correctCount + s.incorrectCount + 1
    ensures t.Next? ==> (t.state.saved[|s.saved|].correct <==> t.state.correctCount == s.correctCount + 1)
    ensures t.Stop? ==> t.outcome.end != Finished && t.outcome.final.saved == s.saved
    ensures t.Stop? ==> t.outcome.final.correctCount == s.correctCount && t.outcome.final.incorrectCount == s.incorrectCount
  {
    var slots := DrawSlots(oracle, s.position, |s.queue| - 1, |Due(s.registry, s.position)|);
    var shown := ShowCard(ps);
    if shown.Ended? then Stop(Outcome(shown.end, Dequeue(s, slots).next))
    else
      var delay := RandInt(MinDelay, MaxDelay, oracle.delay(s.position));
      Next(JudgeFront(s, slots, shown.v, delay), shown.rest)
  }

  /** One judged card of the main loop saves exactly one answer, for the card at the front of the queue. */
  function JudgeFront(s: Quiz, slots: seq<nat>, v: Verdict, delay: int): (r: Quiz)
    requires |s.queue| > 0
    requires |slots| == |Due(s.registry, s.position)| && SlotsFit(|s.queue| - 1, slots)
    requires MinDelay <= delay <= MaxDelay
    ensures r.position == s.position + 1
    ensures |r.saved| == |s.saved| + 1 && r.saved[..|s.saved|] == s.saved
    ensures r.saved[|s.saved|] == Answer(s.queue[0].word, v == Correct)
    ensures v == Correct ==> r.correctCount == s.correctCount + 1 && r.incorrectCount == s.incorrectCount
    ensures v == Incorrect ==> r.correctCount == s.correctCount && r.incorrectCount == s.incorrectCount + 1
  {
    var t := Dequeue(s, slots);
    var r := Judge(t.next, t.card, v, delay);
    assert r.saved == s.saved + [Answer(t.card.word, v == Correct)];
    assert r.saved[..|s.saved|] == s.saved;
    r
  }

  lemma MainTurnKeeps(s: Quiz, ps: seq<Press>, oracle: Oracle)
    requires |s.queue| > 0 && Scheduled(s) && Tally(s)
    ensures MainTurn(s, ps, oracle).Next? ==> Scheduled(MainTurn(s, ps, oracle).state) && Tally(MainTurn(s, ps, oracle).state)
    ensures MainTurn(s, ps, oracle).Stop? ==> Streaks(MainTurn(s, ps, oracle).outcome.final) && Tally(MainTurn(s, ps, oracle).outcome.final)
  {
    var slots := DrawSlots(oracle, s.position, |s.queue| - 1, |Due(s.registry, s.position)|);
    var turn := Dequeue(s, slots);
    var sc := ShowCard(ps);
    if sc.Judged? {
      var delay := RandInt(MinDelay, MaxDelay, oracle.delay(s.position));
      assert MainTurn(s, ps, oracle) == Next(Judge(turn.next, turn.card, sc.v, delay), sc.rest);
      MainStepScheduled(s, slots, sc.v, delay);
      CountCorrectAppend(s.saved, Answer(turn.card.word, sc.v == Correct));
    } else {
      assert MainTurn(s, ps, oracle) == Stop(Outcome(sc.end, turn.next));
      DequeueStreaks(s, slots);
    }
  }

  /** One card of a drain round: the same two steps, judged with insert position 0. */
  function DrainTurn(s: Quiz, card: Entry, ps: seq<Press>): (t: Progress)
    ensures t.Next? ==> |t.rest| + 2 <= |ps| && LeftOf(ps, t.rest)
    ensures t.Next? ==> exists v :: t.state == Record(s, card, v, 0)
    ensures t.Next? ==> |t.state.saved| == |s.saved| + 1 && t.state.saved[|s.saved|].word == card.word
    ensures t.Stop? ==> t.outcome.end != Finished && t.outcome.final == s
  {
    var shown := ShowCard(ps);
    if shown.Ended? then Stop(Outcome(shown.end, s))
    else Next(Record(s, card, shown.v, 0), shown.rest)
  }

  /** A drain round over the words pending at its start, each shown once in registry order. */
  function RunRound(s: Quiz, pending: seq<Entry>, ps: seq<Press>): (t: Progress)
    ensures t.Next? ==> |t.rest| + 2 * |pending| <= |ps|
    ensures t.Next? ==> t.state.queue == s.queue && t.state.position == s.position
    ensures t.Next? ==> |t.state.saved| == |s.saved| + |pending| && t.state.saved[..|s.saved|] == s.saved
    ensures t.Stop? ==> t.outcome.end != Finished
    ensures t.Stop? ==> t.outcome.final.queue == s.queue
    ensures t.Stop? ==> |t.outcome.final.saved| >= |s.saved| && t.outcome.final.saved[..|s.saved|] == s.saved
    decreases |pending|
  {
    if |pending| == 0 then Next(s, ps)
    else
      var d := DrainTurn(s, pending[0], ps);
      if d.Stop? then d
      else
        var t := RunRound(d.state, pending[1..], d.rest);
        if t.Next? then
          SavedPrefix(s.saved, d.state.saved, t.state.saved);
          t
        else
          SavedPrefix(s.saved, d.state.saved, t.outcome.final.saved);
          t
  }

  /** A prefix of a prefix is a prefix. */
  lemma SavedPrefix(a: seq<Answer>, b: seq<Answer>, c: seq<Answer>)
    requires |a| <= |b| <= |c| && b[..|a|] == a && c[..|b|] == b
    ensures c[..|a|] == a
  {
    assert c[..|a|] == c[..|b|][..|a|];
  }

  /** The answers name the given cards' words, one each, in order. */
  predicate AnswersFor(answers: seq<Answer>, cards: seq<Entry>) {
    |answers| == |cards| && forall k :: 0 <= k < |cards| ==> answers[k].word == cards[k].word
  }

  /**
    The answer the first card saved, followed by the answers the rest of the
    round saved, are answers for the whole round in order.
   */
  lemma SavedInOrder(a: seq<Answer>, b: seq<Answer>, c: seq<Answer>, pending: seq<Entry>)
    requires |pending| > 0 && |b| == |a| + 1 && b[|a|].word == pending[0].word
    requires |b| <= |c| && c[..|b|] == b && AnswersFor(c[|b|..], pending[1..])
    ensures AnswersFor(c[|a|..], pending)
  {
    forall k | 0 <= k < |pending|
      ensures c[|a|..][k].word == pending[k].word
    {
      if k == 0 {
        assert c[|a|..][0] == c[..|b|][|a|];
      } else {
        assert c[|a|..][k] == c[|b|..][k - 1];
      }
    }
  }

  /** A completed round saved one answer for each pending word, in registry order. */
  lemma {:induction false} RoundSavesPending(s: Quiz, pending: seq<Entry>, ps: seq<Press>)
    requires RunRound(s, pending, ps).Next?
    ensures AnswersFor(RunRound(s, pending, ps).state.saved[|s.saved|..], pending)
    decreases |pending|
  {
    var t := RunRound(s, pending, ps);
    if |pending| == 0 {
      assert t.state.saved[|s.saved|..] == [];
    } else {
      var d := DrainTurn(s, pending[0], ps);
      RoundSavesPending(d.state, pending[1..], d.rest);
      SavedInOrder(s.saved, d.state.saved, t.state.saved, pending);
    }
  }

  /** After the main loop: drain rounds until the registry is empty. */
  function RunDrain(s: Quiz, ps: seq<Press>): (o: Outcome)
    ensures o.final.queue == s.queue
    ensures o.end == Finished ==> o.final.registry == []
    ensures |o.final.saved| >= |s.saved| && o.final.saved[..|s.saved|] == s.saved
    decreases |ps|
  {
    if |s.registry| == 0 then Outcome(Finished, s)
    else
      var t := RunRound(s.(registry := []), Pendings(s.registry), ps);
      if t.Stop? then t.outcome
      else
        var o := RunDrain(t.state, t.rest);
        SavedPrefix(s.saved, t.state.saved, o.final.saved);
        o
  }

  /** The main loop while the queue is not empty, then the drain rounds. */
  function RunMain(s: Quiz, ps: seq<Press>, oracle: Oracle): (o: Outcome)
    ensures o.end == Finished ==> o.final.queue == [] && o.final.registry == []
    ensures |o.final.saved| >= |s.saved| && o.final.saved[..|s.saved|] == s.saved
    decreases |ps|
  {
    if |s.queue| == 0 then RunDrain(s, ps)
    else
      var t := MainTurn(s, ps, oracle);
      if t.Stop? then t.outcome
      else
        var o := RunMain(t.state, t.rest, oracle);
        SavedPrefix(s.saved, t.state.saved, o.final.saved);
        o
  }

  /** A whole quiz session over a deck, `shuffled` being the order `random.shuffle` produced. */
  function RunQuiz(deck: seq<Word>, shuffled: seq<Word>, ps: seq<Press>, oracle: Oracle): (o: Outcome)
    requires multiset(shuffled) == multiset(deck)
    ensures o.end == Finished ==> o.final.queue == [] && o.final.registry == []
    ensures o.final.correctCount == CountCorrect(o.final.saved)
    ensures o.final.correctCount + o.final.incorrectCount == |o.final.saved|
  {
    StartScheduled(deck, shuffled);
    RunMainKeeps(Start(deck, shuffled), ps, oracle);
    RunMain(Start(deck, shuffled), ps, oracle)
  }

  lemma {:induction false} RoundKeeps(s: Quiz, pending: seq<Entry>, ps: seq<Press>)
    requires Streaks(s) && Tally(s)
    requires forall i :: 0 <= i < |pending| ==> pending[i].needed <= 2
    ensures RunRound(s, pending, ps).Next? ==> Streaks(RunRound(s, pending, ps).state) && Tally(RunRound(s, pending, ps).state)
    ensures RunRound(s, pending, ps).Stop? ==> Streaks(RunRound(s, pending, ps).outcome.final) && Tally(RunRound(s, pending, ps).outcome.final)
    decreases |pending|
  {
    if |pending| > 0 {
      var t := DrainTurn(s, pending[0], ps);
      if t.Next? {
        var v :| t.state == Record(s, pending[0], v, 0);
        RecordStreaks(s, pending[0], v);
        RecordTally(s, pending[0], v, 0);
        RoundKeeps(t.state, pending[1..], t.rest);
      }
    }
  }

  lemma {:induction false} RunDrainKeeps(s: Quiz, ps: seq<Press>)
    requires Streaks(s) && Tally(s)
    ensures Streaks(RunDrain(s, ps).final) && Tally(RunDrain(s, ps).final)
    decreases |ps|
  {
    if |s.registry| > 0 {
      var pending := Pendings(s.registry);
      RoundKeeps(s.(registry := []), pending, ps);
      var t := RunRound(s.(registry := []), pending, ps);
      if t.Next? {
        RunDrainKeeps(t.state, t.rest);
      }
    }
  }

  /**
    Whatever the presses and the random draws, the counters always agree
    with the saved results, streaks stay in {1, 2} in the registry and at
    most 2 in the queue, and pinyins stay unique in the registry.
   */
  lemma {:induction false} RunMainKeeps(s: Quiz, ps: seq<Press>, oracle: Oracle)
    requires Scheduled(s) && Tally(s)
    ensures Streaks(RunMain(s, ps, oracle).final) && Tally(RunMain(s, ps, oracle).final)
    decreases |ps|
  {
    if |s.queue| == 0 {
      RunDrainKeeps(s, ps);
    } else {
      MainTurnKeeps(s, ps, oracle);
      var t := MainTurn(s, ps, oracle);
      if t.Next? {
        RunMainKeeps(t.state, t.rest, oracle);
      }
    }
  }

  /** The verdict each saved answer records. */
  function VerdictsOf(answers: seq<Answer>): (vs: seq<Verdict>)
    ensures |vs| == |answers|
    ensures forall i :: 0 <= i < |vs| ==> (vs[i] == Correct <==> answers[i].correct)
  {
    seq(|answers|, i requires 0 <= i < |answers| => if answers[i].correct then Correct else Incorrect)
  }

  lemma VerdictsFrom(saved: seq<Answer>, n: nat)
    requires n < |saved|
    ensures VerdictsOf(saved[n..]) == [if saved[n].correct then Correct else Incorrect] + VerdictsOf(saved[n + 1..])
  {
    assert saved[n..][1..] == saved[n + 1..];
  }

  /** A completed drain round leaves exactly the registry `RoundRegistry` computes from the answers it saved. */
  lemma {:induction false} RoundFollowsAnswers(s: Quiz, pending: seq<Entry>, ps: seq<Press>)
    requires RunRound(s, pending, ps).Next?
    ensures var s1 := RunRound(s, pending, ps).state;
      s1.registry == RoundRegistry(s.registry, pending, VerdictsOf(s1.saved[|s.saved|..]))
    decreases |pending|
  {
    if |pending| > 0 {
      var t := DrainTurn(s, pending[0], ps);
      var v :| t.state == Record(s, pending[0], v, 0);
      var s1 := RunRound(t.state, pending[1..], t.rest).state;
      assert RunRound(s, pending, ps).state == s1;
      RoundFollowsAnswers(t.state, pending[1..], t.rest);
      var n := |s.saved|;
      assert |t.state.saved| == n + 1;
      var answer := Answer(pending[0].word, v == Correct);
      assert t.state.saved == s.saved + [answer];
      assert t.state.saved[n] == answer;
      assert s1.saved[..n + 1] == t.state.saved;
      assert s1.saved[n] == s1.saved[..n + 1][n];
      var vs := VerdictsOf(s1.saved[n..]);
      VerdictsFrom(s1.saved, n);
      assert vs[0] == v && vs[1..] == VerdictsOf(s1.saved[n + 1..]);
      assert Rejudge(s.registry, pending[0], v, 0) == t.state.registry;
      assert RoundRegistry(s.registry, pending, vs) == RoundRegistry(t.state.registry, pending[1..], vs[1..]);
    }
  }

  /** Space at the question, then space or x at the answer: the card is judged and exactly those two keys are read. */
  lemma ShowCardAnswered(ps: seq<Press>, v: Verdict)
    requires |ps| >= 2 && ps[0].key == Some(' ')
    requires ps[1].key == Some(if v == Correct then ' ' else 'x')
    ensures ShowCard(ps) == Judged(v, ps[2..])
  {
    assert Lower('x') == 'x';
    AwaitAccepted(ps, AskStep);
    AwaitAccepted(ps[1..], JudgeStep);
    assert ps[1..][1..] == ps[2..];
  }

  /** A main-loop turn with no repeat due: the front card is judged and the rest of the queue stays as it was. */
  lemma MainTurnNoneDue(s: Quiz, ps: seq<Press>, oracle: Oracle, v: Verdict)
    requires |s.queue| > 0 && Kept(s.registry, s.position) == s.registry
    requires |ps| >= 2 && ps[0].key == Some(' ')
    requires ps[1].key == Some(if v == Correct then ' ' else 'x')
    ensures MainTurn(s, ps, oracle)
         == Next(Judge(s.(queue := s.queue[1..]), s.queue[0], v, RandInt(MinDelay, MaxDelay, oracle.delay(s.position))), ps[2..])
  {
    ShowCardAnswered(ps, v);
    assert Due(s.registry, s.position) == [];
    var slots := DrawSlots(oracle, s.position, |s.queue| - 1, 0);
    assert Dequeue(s, slots).next == s.(queue := s.queue[1..]);
  }

  /** A drain round over one pending word, answered with space or x. */
  lemma RoundOfOne(s: Quiz, e: Entry, ps: seq<Press>, v: Verdict)
    requires |ps| >= 2 && ps[0].key == Some(' ')
    requires ps[1].key == Some(if v == Correct then ' ' else 'x')
    ensures RunRound(s, [e], ps) == Next(Record(s, e, v, 0), ps[2..])
  {
    ShowCardAnswered(ps, v);
    assert [e][1..] == [];
  }

  /**
    The presses of the worked example from its `from`-th key on: space
    everywhere except x at the answer of the second card (key 3).
   */
  predicate ExamplePresses(qs: seq<Press>, from: nat) {
    |qs| + from == 10 && forall i :: 0 <= i < |qs| ==> qs[i].key == Some(if from + i == 3 then 'x' else ' ')
  }

  lemma ExamplePressesTail(qs: seq<Press>, from: nat)
    requires ExamplePresses(qs, from) && |qs| >= 2
    ensures ExamplePresses(qs[2..], from + 2)
    ensures qs[0].key == Some(if from == 3 then 'x' else ' ') && qs[1].key == Some(if from == 2 then 'x' else ' ')
  {
    assert forall i :: 0 <= i < |qs| - 2 ==> qs[2..][i] == qs[2 + i];
  }

  /** The state before the k-th card of the worked example's main loop, `d` being the drawn delay of B's repeat. */
  function ExampleState(a: Word, b: Word, c: Word, d: int, k: nat): Quiz
    requires k <= 3
  {
    if k == 0 then Quiz([Entry(a, 0), Entry(b, 0), Entry(c, 0)], [], 0, 0, 0, [])
    else if k == 1 then Quiz([Entry(b, 0), Entry(c, 0)], [], 1, 1, 0, [Answer(a, true)])
    else if k == 2 then Quiz([Entry(c, 0)], [Pending(b, 2, 1 + d)], 2, 1, 1, [Answer(a, true), Answer(b, false)])
    else Quiz([], [Pending(b, 2, 1 + d)], 3, 2, 1, [Answer(a, true), Answer(b, false), Answer(c, true)])
  }

  /** Where the worked example ends: nothing pending, four right answers and one wrong. */
  function ExampleFinal(a: Word, b: Word, c: Word): Quiz {
    Quiz([], [], 3, 4, 1, [Answer(a, true), Answer(b, false), Answer(c, true), Answer(b, true), Answer(b, true)])
  }

  /** One main-loop turn that continues: the loop goes on from the state and presses it leaves. */
  lemma RunMainStep(s: Quiz, ps: seq<Press>, oracle: Oracle, s1: Quiz, rest: seq<Press>)
    requires |s.queue| > 0 && MainTurn(s, ps, oracle) == Next(s1, rest)
    ensures RunMain(s, ps, oracle) == RunMain(s1, rest, oracle)
  {
  }

  /** With the queue empty the main loop hands over to the drain rounds. */
  lemma RunMainDrains(s: Quiz, ps: seq<Press>, oracle: Oracle)
    requires |s.queue| == 0
    ensures RunMain(s, ps, oracle) == RunDrain(s, ps)
  {
  }

  /** One drain round that continues: the rounds go on from the state and presses it leaves. */
  lemma RunDrainStep(s: Quiz, ps: seq<Press>, s1: Quiz, rest: seq<Press>)
    requires |s.registry| > 0 && RunRound(s.(registry := []), Pendings(s.registry), ps) == Next(s1, rest)
    ensures RunDrain(s, ps) == RunDrain(s1, rest)
  {
  }

  /** The second drain round: B, answered right with streak 1, retires and the session completes. */
  lemma ExampleRoundTwo(a: Word, b: Word, c: Word, s: Quiz, qs: seq<Press>)
    requires ExamplePresses(qs, 8)
    requires s == ExampleFinal(a, b, c).(registry := [Pending(b, 1, 0)], correctCount := 3, saved := ExampleFinal(a, b, c).saved[..4])
    ensures RunDrain(s, qs) == Outcome(Finished, ExampleFinal(a, b, c))
  {
    ExamplePressesTail(qs, 8);
    assert Pendings(s.registry) == [Entry(b, 1)];
    RoundOfOne(s.(registry := []), Entry(b, 1), qs, Correct);
    RunDrainStep(s, qs, ExampleFinal(a, b, c), qs[2..]);
  }

  /** The first drain round: B, answered right with streak 2, stays pending with streak 1. */
  lemma ExampleRoundOne(a: Word, b: Word, c: Word, d: int, qs: seq<Press>)
    requires ExamplePresses(qs, 6)
    ensures RunDrain(ExampleState(a, b, c, d, 3), qs) == Outcome(Finished, ExampleFinal(a, b, c))
  {
    ExamplePressesTail(qs, 6);
    var s := ExampleState(a, b, c, d, 3);
    var s4 := ExampleFinal(a, b, c).(registry := [Pending(b, 1, 0)], correctCount := 3, saved := ExampleFinal(a, b, c).saved[..4]);
    assert Pendings(s.registry) == [Entry(b, 2)];
    RoundOfOne(s.(registry := []), Entry(b, 2), qs, Correct);
    RunDrainStep(s, qs, s4, qs[2..]);
    ExampleRoundTwo(a, b, c, s4, qs[2..]);
  }

  /** The third card, C, answered right: the queue is empty and the drain starts with B pending. */
  lemma ExampleThird(a: Word, b: Word, c: Word, qs: seq<Press>, oracle: Oracle, d: int)
    requires ExamplePresses(qs, 4) && MinDelay <= d <= MaxDelay
    ensures RunMain(ExampleState(a, b, c, d, 2), qs, oracle) == Outcome(Finished, ExampleFinal(a, b, c))
  {
    ExamplePressesTail(qs, 4);
    var s := ExampleState(a, b, c, d, 2);
    assert Kept(s.registry, 2) == s.registry;
    MainTurnNoneDue(s, qs, oracle, Correct);
    var s3 := ExampleState(a, b, c, d, 3);
    assert Judge(s.(queue := s.queue[1..]), s.queue[0], Correct, RandInt(MinDelay, MaxDelay, oracle.delay(2))) == s3;
    RunMainStep(s, qs, oracle, s3, qs[2..]);
    RunMainDrains(s3, qs[2..], oracle);
    ExampleRoundOne(a, b, c, d, qs[2..]);
  }

  /** The second card, B, answered wrong: it is registered with streak 2, due 5 to 10 positions on. */
  lemma ExampleSecond(a: Word, b: Word, c: Word, qs: seq<Press>, oracle: Oracle, d: int)
    requires ExamplePresses(qs, 2) && d == RandInt(MinDelay, MaxDelay, oracle.delay(1))
    ensures RunMain(ExampleState(a, b, c, d, 1), qs, oracle) == Outcome(Finished, ExampleFinal(a, b, c))
  {
    ExamplePressesTail(qs, 2);
    ExampleTurnTwo(a, b, c, qs, oracle, d);
    RunMainStep(ExampleState(a, b, c, d, 1), qs, oracle, ExampleState(a, b, c, d, 2), qs[2..]);
    ExampleThird(a, b, c, qs[2..], oracle, d);
  }

  /** The second turn: B is shown, answered wrong, and registered with streak 2 at position 1 + d. */
  lemma ExampleTurnTwo(a: Word, b: Word, c: Word, qs: seq<Press>, oracle: Oracle, d: int)
    requires |qs| >= 2 && qs[0].key == Some(' ') && qs[1].key == Some('x')
    requires d == RandInt(MinDelay, MaxDelay, oracle.delay(1))
    ensures MainTurn(ExampleState(a, b, c, d, 1), qs, oracle) == Next(ExampleState(a, b, c, d, 2), qs[2..])
  {
    var s := ExampleState(a, b, c, d, 1);
    MainTurnNoneDue(s, qs, oracle, Incorrect);
    var t := s.(queue := s.queue[1..]);
    var p := Pending(b, 2, 1 + d);
    assert Register([], p) == [p];
    assert Record(t, Entry(b, 0), Incorrect, 1 + d) == ExampleState(a, b, c, d, 2).(position := 1);
    assert Judge(t, Entry(b, 0), Incorrect, d) == ExampleState(a, b, c, d, 2);
  }

  /** The first turn: A is shown, answered right, and retires. */
  lemma ExampleTurnOne(a: Word, b: Word, c: Word, qs: seq<Press>, oracle: Oracle, d: int)
    requires |qs| >= 2 && qs[0].key == Some(' ') && qs[1].key == Some(' ')
    ensures MainTurn(ExampleState(a, b, c, d, 0), qs, oracle) == Next(ExampleState(a, b, c, d, 1), qs[2..])
  {
    var s := ExampleState(a, b, c, d, 0);
    MainTurnNoneDue(s, qs, oracle, Correct);
    assert Judge(s.(queue := s.queue[1..]), s.queue[0], Correct, RandInt(MinDelay, MaxDelay, oracle.delay(0))) == ExampleState(a, b, c, d, 1);
  }

  /** The first card, A, answered right: it retires. */
  lemma ExampleFirst(a: Word, b: Word, c: Word, qs: seq<Press>, oracle: Oracle, d: int)
    requires ExamplePresses(qs, 0) && d == RandInt(MinDelay, MaxDelay, oracle.delay(1))
    ensures RunMain(ExampleState(a, b, c, d, 0), qs, oracle) == Outcome(Finished, ExampleFinal(a, b, c))
  {
    ExamplePressesTail(qs, 0);
    ExampleTurnOne(a, b, c, qs, oracle, d);
    RunMainStep(ExampleState(a, b, c, d, 0), qs, oracle, ExampleState(a, b, c, d, 1), qs[2..]);
    ExampleSecond(a, b, c, qs[2..], oracle, d);
  }

  /**
    Deck A, B, C in that order: A right, B wrong, C right; the queue is then
    empty and B, pending with streak 2 at a position the main loop never
    reaches, is drained in two rounds, each answered right.  The session
    completes with 4 correct and 1 incorrect answers, whatever the random
    draws.
   */
  lemma QuizScenario(a: Word, b: Word, c: Word, ps: seq<Press>, oracle: Oracle)
    requires ExamplePresses(ps, 0)
    ensures var o := RunQuiz([a, b, c], [a, b, c], ps, oracle);
      && o.end == Finished && o.final.correctCount == 4 && o.final.incorrectCount == 1
      && o.final.saved == [Answer(a, true), Answer(b, false), Answer(c, true), Answer(b, true), Answer(b, true)]
  {
    var d := RandInt(MinDelay, MaxDelay, oracle.delay(1));
    assert Start([a, b, c], [a, b, c]) == ExampleState(a, b, c, d, 0);
    ExampleFirst(a, b, c, ps, oracle, d);
  }
}
