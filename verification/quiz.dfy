/**
  The quiz scheduler of `run_quiz`: a queue of (word, needed) entries
  shuffled at the start, a pending-repeat registry keyed by pinyin, and a
  position counter.  Words answered wrong, and words that still need a
  correct answer, come back a random 5 to 10 positions later at a random
  slot among the first four of the queue; once the queue is empty the
  remaining repeats are drained in rounds.

  The two sources of variation are inputs: the key presses, and the random
  numbers.  The step functions take the numbers `random.randint` returned,
  within its bounds; the session driver takes an oracle `rng` and reduces
  each raw draw into the range it needs.
 */
module Quiz {
  import opened Wrappers
  import opened Keys
  import opened Prompt
  import opened Deck
  import opened Registry

  datatype Verdict = Correct | Incorrect

  /** One `save_result` call: the word and whether it was answered correctly. */
  datatype Answer = Answer(word: Word, correct: bool)

  datatype Quiz = Quiz(
    queue: seq<Entry>,
    registry: seq<Pending>,
    position: nat,
    correctCount: nat,
    incorrectCount: nat,
    saved: seq<Answer>)

  /** The question step accepts space only; the answer step accepts space (correct) and x/X (incorrect). */
  const AskStep: Step := Step(false, false)
  const JudgeStep: Step := Step(true, false)

  /** Bounds of `random.randint(5, 10)`, the delay before a repeat is due. */
  const MinDelay: int := 5
  const MaxDelay: int := 10

  /** Due repeats go to one of the first `MaxSlot + 1` places of the queue. */
  const MaxSlot: nat := 3

  function Min(a: int, b: int): int {
    if a <= b then a else b
  }

  function WordsOf(q: seq<Entry>): (ws: seq<Word>)
    ensures |ws| == |q|
    ensures forall i :: 0 <= i < |q| ==> ws[i] == q[i].word
  {
    if |q| == 0 then [] else [q[0].word] + WordsOf(q[1..])
  }

  /** The number of correct answers among the saved results. */
  function CountCorrect(saved: seq<Answer>): (n: nat)
    ensures n <= |saved|
  {
    if |saved| == 0 then 0 else (if saved[0].correct then 1 else 0) + CountCorrect(saved[1..])
  }

  lemma {:induction false} CountCorrectAppend(saved: seq<Answer>, a: Answer)
    ensures CountCorrect(saved + [a]) == CountCorrect(saved) + (if a.correct then 1 else 0)
  {
    if |saved| > 0 {
      assert (saved + [a])[1..] == saved[1..] + [a];
      CountCorrectAppend(saved[1..], a);
    }
  }

  /**
    Session start: the shuffled deck (`random.shuffle` is an input, any
    permutation of the deck) becomes the queue with `needed = 0` for every
    entry; empty registry, position and counters at zero.
   */
  function Start(deck: seq<Word>, shuffled: seq<Word>): (s: Quiz)
    requires multiset(shuffled) == multiset(deck)
    ensures WordsOf(s.queue) == shuffled
    ensures multiset(WordsOf(s.queue)) == multiset(deck)
    ensures forall i :: 0 <= i < |s.queue| ==> s.queue[i].needed == 0
    ensures s.registry == [] && s.position == 0 && s.saved == []
    ensures s.correctCount == 0 && s.incorrectCount == 0
  {
    var q := seq(|shuffled|, i requires 0 <= i < |shuffled| => Entry(shuffled[i], 0));
    assert WordsOf(q) == shuffled;
    Quiz(q, [], 0, 0, 0, [])
  }

  /** `queue.insert(i, e)`. */
  function InsertAt(q: seq<Entry>, i: nat, e: Entry): (r: seq<Entry>)
    requires i <= |q|
    ensures |r| == |q| + 1 && r[i] == e
    ensures r[..i] == q[..i] && r[i + 1..] == q[i..]
  {
    q[..i] + [e] + q[i..]
  }

  /** An insertion adds the entry and loses nothing. */
  lemma InsertAtPermutes(q: seq<Entry>, i: nat, e: Entry)
    requires i <= |q|
    ensures multiset(InsertAt(q, i, e)) == multiset(q) + multiset{e}
  {
    var r := InsertAt(q, i, e);
    assert q == q[..i] + q[i..];
    assert r == r[..i] + [e] + r[i + 1..];
  }

  /** The k-th due entry goes to a slot in `0..min(3, len(queue))`, the queue having grown by k already. */
  predicate SlotsFit(n: nat, slots: seq<nat>) {
    forall k :: 0 <= k < |slots| ==> slots[k] <= Min(MaxSlot, n + k)
  }

  /**
    Puts the due entries back into the queue one after the other, each at
    its drawn slot; nothing is lost and nothing is added.
   */
  function InsertDue(queue: seq<Entry>, due: seq<Entry>, slots: seq<nat>): (r: seq<Entry>)
    requires |slots| == |due| && SlotsFit(|queue|, slots)
    ensures |r| == |queue| + |due|
    ensures multiset(r) == multiset(queue) + multiset(due)
    decreases |due|
  {
    if |due| == 0 then queue
    else
      var q1 := InsertAt(queue, slots[0], due[0]);
      SlotsFitTail(queue, slots, due[0]);
      InsertAtPermutes(queue, slots[0], due[0]);
      assert due == [due[0]] + due[1..];
      InsertDue(q1, due[1..], slots[1..])
  }

  /** Inserting the due entries loses nothing and adds nothing else. */
  lemma {:induction false} InsertDuePermutes(queue: seq<Entry>, due: seq<Entry>, slots: seq<nat>)
    requires |slots| == |due| && SlotsFit(|queue|, slots)
    ensures multiset(InsertDue(queue, due, slots)) == multiset(queue) + multiset(due)
    decreases |due|
  {
    if |due| > 0 {
      var q1 := InsertAt(queue, slots[0], due[0]);
      InsertDueStep(queue, due, slots);
      InsertAtPermutes(queue, slots[0], due[0]);
      InsertDuePermutes(q1, due[1..], slots[1..]);
      assert due == [due[0]] + due[1..];
    }
  }

  /** After one insertion the remaining slots still fit the longer queue. */
  lemma SlotsFitTail(queue: seq<Entry>, slots: seq<nat>, e: Entry)
    requires |slots| > 0 && SlotsFit(|queue|, slots) && slots[0] <= |queue|
    ensures SlotsFit(|InsertAt(queue, slots[0], e)|, slots[1..])
  {
    forall k | 0 <= k < |slots[1..]| ensures slots[1..][k] <= Min(MaxSlot, |queue| + 1 + k) {
      assert slots[1..][k] == slots[k + 1];
    }
  }

  /**
    Everything past the first four places of the original queue keeps its
    order, shifted back by the number of entries inserted: due repeats only
    ever land among the first four places.
   */
  lemma InsertDueKeepsTail(queue: seq<Entry>, due: seq<Entry>, slots: seq<nat>)
    requires |slots| == |due| && SlotsFit(|queue|, slots)
    ensures InsertDue(queue, due, slots)[Min(MaxSlot, |queue|) + |due|..] == queue[Min(MaxSlot, |queue|)..]
  {
    var m := Min(MaxSlot, |queue|);
    var head, tail := queue[..m], queue[m..];
    assert queue == head + tail;
    InsertDueAppend(head, tail, due, slots);
  }

  /**
    When every slot lies within `head` (as it grew), inserting into
    `head + tail` is inserting into `head` with `tail` following.
   */
  lemma {:induction false} InsertDueAppend(head: seq<Entry>, tail: seq<Entry>, due: seq<Entry>, slots: seq<nat>)
    requires |slots| == |due| && SlotsFit(|head|, slots) && SlotsFit(|head| + |tail|, slots)
    ensures InsertDue(head + tail, due, slots) == InsertDue(head, due, slots) + tail
    decreases |due|
  {
    if |due| > 0 {
      InsertDueStep(head + tail, due, slots);
      InsertDueStep(head, due, slots);
      InsertAtAppend(head, tail, slots[0], due[0]);
      InsertDueAppend(InsertAt(head, slots[0], due[0]), tail, due[1..], slots[1..]);
    }
  }

  /** An insertion within `head` leaves `tail` behind it untouched. */
  lemma InsertAtAppend(head: seq<Entry>, tail: seq<Entry>, i: nat, e: Entry)
    requires i <= |head|
    ensures InsertAt(head + tail, i, e) == InsertAt(head, i, e) + tail
  {
    assert (head + tail)[..i] == head[..i];
    assert (head + tail)[i..] == head[i..] + tail;
  }

  /** The first due entry goes in first. */
  lemma InsertDueStep(queue: seq<Entry>, due: seq<Entry>, slots: seq<nat>)
    requires |slots| == |due| > 0 && SlotsFit(|queue|, slots)
    ensures slots[0] <= |queue| && SlotsFit(|queue| + 1, slots[1..])
    ensures InsertDue(queue, due, slots) == InsertDue(InsertAt(queue, slots[0], due[0]), due[1..], slots[1..])
  {
    SlotsFitTail(queue, slots, due[0]);
  }

  /** The card shown next and the state after the due repeats were moved into the queue. */
  datatype Turn = Turn(card: Entry, next: Quiz)

  /**
    The head of the main loop: pop the front entry, then move every repeat
    that is due at the current position from the registry into the queue
    (after the pop, so a due repeat is never the card shown in this step).
   */
  function Dequeue(s: Quiz, slots: seq<nat>): (t: Turn)
    requires |s.queue| > 0
    requires |slots| == |Due(s.registry, s.position)| && SlotsFit(|s.queue| - 1, slots)
    ensures t.card == s.queue[0]
    ensures multiset(t.next.queue) == multiset(s.queue[1..]) + multiset(Due(s.registry, s.position))
    ensures forall p :: p in t.next.registry <==> p in s.registry && s.position < p.insertPos
    ensures UniqueKeys(s.registry) ==> UniqueKeys(t.next.registry)
    ensures t.next.position == s.position && t.next.saved == s.saved
    ensures t.next.correctCount == s.correctCount && t.next.incorrectCount == s.incorrectCount
  {
    var due := Due(s.registry, s.position);
    InsertDuePermutes(s.queue[1..], due, slots);
    Turn(s.queue[0], s.(queue := InsertDue(s.queue[1..], due, slots), registry := Kept(s.registry, s.position)))
  }

  /** Whether a judged card leaves the session: a correct answer when at most one more was needed. */
  predicate Retires(card: Entry, v: Verdict) {
    v == Correct && card.needed <= 1
  }

  /** The streak a card is registered with when it does not retire: two after a miss, one fewer after a hit. */
  function NextStreak(card: Entry, v: Verdict): (n: nat)
    requires !Retires(card, v)
    ensures v == Incorrect ==> n == 2
    ensures v == Correct ==> n >= 1 && n + 1 == card.needed
  {
    if v == Incorrect then 2 else card.needed - 1
  }

  /**
    A card needing at most two more correct answers retires on the first
    hit when it needs at most one, and otherwise on the second; after a
    miss it takes two hits in a row.
   */
  lemma RetiresAfter(card: Entry)
    requires card.needed <= 2
    ensures Retires(card, Correct) <==> card.needed <= 1
    ensures !Retires(card, Correct) ==> Retires(Entry(card.word, NextStreak(card, Correct)), Correct)
    ensures !Retires(card, Incorrect)
    ensures var again := Entry(card.word, NextStreak(card, Incorrect));
      !Retires(again, Correct) && Retires(Entry(card.word, NextStreak(again, Correct)), Correct)
  {
  }

  /**
    The registry part of a judgment: unless the card retires, its repeat is
    assigned under its pinyin with the given insert position.
   */
  function Rejudge(reg: seq<Pending>, card: Entry, v: Verdict, insertPos: int): (r: seq<Pending>)
    ensures Retires(card, v) ==> r == reg
    ensures !Retires(card, v) ==> r == Register(reg, Pending(card.word, NextStreak(card, v), insertPos))
    ensures !Retires(card, v) ==>
      AsMap(r) == AsMap(reg)[card.word.pinyin := Pending(card.word, NextStreak(card, v), insertPos)]
    ensures forall p :: p in r ==> p in reg || (p.word == card.word && p.insertPos == insertPos)
    ensures UniqueKeys(reg) ==> UniqueKeys(r)
  {
    if Retires(card, v) then reg
    else
      var p := Pending(card.word, NextStreak(card, v), insertPos);
      RegisterAsMap(reg, p);
      if UniqueKeys(reg) then
        RegisterUnique(reg, p);
        Register(reg, p)
      else Register(reg, p)
  }

  /**
    The judgment common to the main loop and the drain rounds: count it,
    save it, and unless the card retires register a repeat of it under its
    pinyin with the given insert position.
   */
  function Record(s: Quiz, card: Entry, v: Verdict, insertPos: int): (r: Quiz)
    ensures r.queue == s.queue && r.position == s.position
    ensures r.saved == s.saved + [Answer(card.word, v == Correct)]
    ensures v == Correct ==> r.correctCount == s.correctCount + 1 && r.incorrectCount == s.incorrectCount
    ensures v == Incorrect ==> r.incorrectCount == s.incorrectCount + 1 && r.correctCount == s.correctCount
    ensures Retires(card, v) ==> r.registry == s.registry
    ensures !Retires(card, v) ==> r.registry == Register(s.registry, Pending(card.word, NextStreak(card, v), insertPos))
    ensures !Retires(card, v) ==>
      AsMap(r.registry) == AsMap(s.registry)[card.word.pinyin := Pending(card.word, NextStreak(card, v), insertPos)]
    ensures UniqueKeys(s.registry) ==> UniqueKeys(r.registry)
  {
    var saved := s.saved + [Answer(card.word, v == Correct)];
    var registry := Rejudge(s.registry, card, v, insertPos);
    if v == Correct then s.(correctCount := s.correctCount + 1, saved := saved, registry := registry)
    else s.(incorrectCount := s.incorrectCount + 1, saved := saved, registry := registry)
  }

  /**
    The answer step of the main loop: a correct answer retires the card
    unless it needed more than one, in which case it is registered with one
    fewer; an incorrect answer always registers it with streak 2.  The
    repeat is due `delay` (5 to 10) positions on; only the card's pinyin is
    touched in the registry, and the position advances by one.
   */
  function Judge(s: Quiz, card: Entry, v: Verdict, delay: int): (r: Quiz)
    requires MinDelay <= delay <= MaxDelay
    ensures r.queue == s.queue && r.position == s.position + 1
    ensures r.saved == s.saved + [Answer(card.word, v == Correct)]
    ensures v == Correct ==> r.correctCount == s.correctCount + 1 && r.incorrectCount == s.incorrectCount
    ensures v == Incorrect ==> r.incorrectCount == s.incorrectCount + 1 && r.correctCount == s.correctCount
    ensures Retires(card, v) ==> r.registry == s.registry
    ensures !Retires(card, v) ==>
      var m := AsMap(r.registry);
      card.word.pinyin in m && m[card.word.pinyin].word == card.word
      && m[card.word.pinyin].streak == (if v == Incorrect then 2 else card.needed - 1)
      && s.position + MinDelay <= m[card.word.pinyin].insertPos <= s.position + MaxDelay
    ensures forall k :: k != card.word.pinyin ==>
      (k in AsMap(r.registry) <==> k in AsMap(s.registry))
      && (k in AsMap(s.registry) ==> AsMap(r.registry)[k] == AsMap(s.registry)[k])
  {
    var r := Record(s, card, v, s.position + delay);
    r.(position := s.position + 1)
  }

  /**
    The main-loop invariant: queue entries need at most 2 more correct
    answers, pending repeats have streak 1 or 2 and are due within the next
    9 positions (never already overdue), and pinyins are unique.
   */
  predicate Scheduled(s: Quiz) {
    && (forall i :: 0 <= i < |s.queue| ==> s.queue[i].needed <= 2)
    && (forall p :: p in s.registry ==> 1 <= p.streak <= 2 && s.position <= p.insertPos < s.position + MaxDelay)
    && UniqueKeys(s.registry)
  }

  /** The streak part of `Scheduled`, which also holds during the drain rounds. */
  predicate Streaks(s: Quiz) {
    && (forall i :: 0 <= i < |s.queue| ==> s.queue[i].needed <= 2)
    && (forall p :: p in s.registry ==> 1 <= p.streak <= 2)
    && UniqueKeys(s.registry)
  }

  /** The counters agree with the saved results. */
  predicate Tally(s: Quiz) {
    s.correctCount == CountCorrect(s.saved) && s.correctCount + s.incorrectCount == |s.saved|
  }

  lemma StartScheduled(deck: seq<Word>, shuffled: seq<Word>)
    requires multiset(shuffled) == multiset(deck)
    ensures Scheduled(Start(deck, shuffled)) && Tally(Start(deck, shuffled))
  {
  }

  /** Moving the due repeats into the queue keeps every queued streak at most 2. */
  lemma DequeueStreaks(s: Quiz, slots: seq<nat>)
    requires Scheduled(s) && |s.queue| > 0
    requires |slots| == |Due(s.registry, s.position)| && SlotsFit(|s.queue| - 1, slots)
    ensures Streaks(Dequeue(s, slots).next)
  {
    var t := Dequeue(s, slots);
    var due := Due(s.registry, s.position);
    forall i | 0 <= i < |t.next.queue| ensures t.next.queue[i].needed <= 2 {
      var e := t.next.queue[i];
      assert e in multiset(t.next.queue);
      if e in multiset(s.queue[1..]) {
        var j :| 0 <= j < |s.queue[1..]| && s.queue[1..][j] == e;
        assert s.queue[j + 1] == e;
      } else {
        assert e in due;
      }
    }
  }

  /** One judged card of the main loop keeps the schedule invariant. */
  lemma MainStepScheduled(s: Quiz, slots: seq<nat>, v: Verdict, delay: int)
    requires Scheduled(s) && |s.queue| > 0
    requires |slots| == |Due(s.registry, s.position)| && SlotsFit(|s.queue| - 1, slots)
    requires MinDelay <= delay <= MaxDelay
    ensures Scheduled(Judge(Dequeue(s, slots).next, Dequeue(s, slots).card, v, delay))
  {
    var t := Dequeue(s, slots);
    var r := Judge(t.next, t.card, v, delay);
    DequeueStreaks(s, slots);
    assert r.queue == t.next.queue;
    if !Retires(t.card, v) {
      var p := Pending(t.card.word, NextStreak(t.card, v), t.next.position + delay);
      assert r.registry == Register(t.next.registry, p);
      RegisterInPlace(t.next.registry, p);
      forall q | q in r.registry ensures 1 <= q.streak <= 2 && r.position <= q.insertPos < r.position + MaxDelay {
        if q != p {
          assert q in t.next.registry;
        }
      }
    } else {
      assert r.registry == t.next.registry;
    }
  }

  /** A drain-round judgment keeps the streak invariant when the card came from the registry. */
  lemma RecordStreaks(s: Quiz, card: Entry, v: Verdict)
    requires Streaks(s) && card.needed <= 2
    ensures Streaks(Record(s, card, v, 0))
  {
    if !Retires(card, v) {
      RegisterInPlace(s.registry, Pending(card.word, NextStreak(card, v), 0));
    }
  }

  lemma RecordTally(s: Quiz, card: Entry, v: Verdict, insertPos: int)
    requires Tally(s)
    ensures Tally(Record(s, card, v, insertPos))
  {
    CountCorrectAppend(s.saved, Answer(card.word, v == Correct));
  }

  /**
    The registry a drain round leaves behind, given the verdict on each
    pending word in turn: what was there, plus repeats of the round's words
    with insert position 0, pinyins still unique.
   */
  function RoundRegistry(reg: seq<Pending>, pending: seq<Entry>, verdicts: seq<Verdict>): (r: seq<Pending>)
    requires |verdicts| == |pending|
    ensures forall p :: p in r ==> p in reg || (p.insertPos == 0 && p.word in WordsOf(pending))
    ensures UniqueKeys(reg) ==> UniqueKeys(r)
    decreases |pending|
  {
    if |pending| == 0 then reg
    else
      assert WordsOf(pending) == [pending[0].word] + WordsOf(pending[1..]);
      RoundRegistry(Rejudge(reg, pending[0], verdicts[0], 0), pending[1..], verdicts[1..])
  }

  predicate AllCorrect(verdicts: seq<Verdict>) {
    forall i :: 0 <= i < |verdicts| ==> verdicts[i] == Correct
  }

  /** After an all-correct round every word still pending needs exactly one more correct answer. */
  lemma {:induction false} AllCorrectRoundLeavesOnes(reg: seq<Pending>, pending: seq<Entry>, verdicts: seq<Verdict>)
    requires |verdicts| == |pending| && AllCorrect(verdicts)
    requires forall i :: 0 <= i < |pending| ==> pending[i].needed <= 2
    requires forall p :: p in reg ==> p.streak == 1
    ensures forall p :: p in RoundRegistry(reg, pending, verdicts) ==> p.streak == 1
    decreases |pending|
  {
    if |pending| > 0 {
      AllCorrectRoundLeavesOnes(Rejudge(reg, pending[0], verdicts[0], 0), pending[1..], verdicts[1..]);
    }
  }

  /** A round in which every pending word needs at most one more correct answer, all answered correctly, registers nothing. */
  lemma {:induction false} AllCorrectOnesRetire(reg: seq<Pending>, pending: seq<Entry>, verdicts: seq<Verdict>)
    requires |verdicts| == |pending| && AllCorrect(verdicts)
    requires forall i :: 0 <= i < |pending| ==> pending[i].needed <= 1
    ensures RoundRegistry(reg, pending, verdicts) == reg
    decreases |pending|
  {
    if |pending| > 0 {
      AllCorrectOnesRetire(reg, pending[1..], verdicts[1..]);
    }
  }

  /** With every answer correct, the registry is empty after at most two drain rounds. */
  lemma TwoCorrectRoundsEmpty(pending: seq<Entry>, first: seq<Verdict>, second: seq<Verdict>)
    requires forall i :: 0 <= i < |pending| ==> pending[i].needed <= 2
    requires |first| == |pending| && AllCorrect(first)
    requires |second| == |RoundRegistry([], pending, first)| && AllCorrect(second)
    ensures RoundRegistry([], Pendings(RoundRegistry([], pending, first)), second) == []
  {
    var reg := RoundRegistry([], pending, first);
    AllCorrectRoundLeavesOnes([], pending, first);
    AllCorrectOnesRetire([], Pendings(reg), second);
  }

  /** A round never shrinks the registry it adds to, and a wrong answer always leaves a word pending. */
  lemma {:induction false} IncorrectKeepsPending(reg: seq<Pending>, pending: seq<Entry>, verdicts: seq<Verdict>)
    requires |verdicts| == |pending|
    ensures |RoundRegistry(reg, pending, verdicts)| >= |reg|
    ensures Incorrect in verdicts ==> |RoundRegistry(reg, pending, verdicts)| > 0
    decreases |pending|
  {
    if |pending| > 0 {
      IncorrectKeepsPending(Rejudge(reg, pending[0], verdicts[0], 0), pending[1..], verdicts[1..]);
      assert verdicts == [verdicts[0]] + verdicts[1..];
    }
  }
}
