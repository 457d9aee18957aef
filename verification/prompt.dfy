/**
  The inner `while True` loops of `run_quiz` and `run_practice`: read keys
  until one is accepted at this step, skipping None, and hand every other
  key to `check_for_quit`, which may read (and swallow) further keys.
 */
module Prompt {
  import opened Wrappers
  import opened Text
  import opened Keys
  import opened QuitPhrase

  /** What a step can accept: space always, `x`/`X` when judging a quiz answer, `b`/`B` when going back is possible. */
  datatype Command = Space | Mark | Back

  datatype Step = Step(markAllowed: bool, backAllowed: bool)

  /** The accepted command a key stands for at a step, if any. */
  function Accept(step: Step, k: Key): (cmd: Option<Command>)
    ensures cmd == Some(Space) <==> k == ' '
    ensures cmd == Some(Mark) <==> step.markAllowed && Lower(k) == 'x'
    ensures cmd == Some(Back) <==> step.backAllowed && Lower(k) == 'b'
  {
    if k == ' ' then Some(Space)
    else if step.markAllowed && Lower(k) == 'x' then Some(Mark)
    else if step.backAllowed && Lower(k) == 'b' then Some(Back)
    else None
  }

  /** How a step ends: an accepted command (with its arrival time and the presses after it), a confirmed quit (with the time of the last press read), or the input ran out. */
  datatype Heard =
    | Heard(cmd: Command, at: int, rest: seq<Press>)
    | Quitting(at: int)
    | OutOfInput

  /** `rest` is what is left of `ps` once its first `|ps| - |rest|` presses have been read. */
  predicate LeftOf(ps: seq<Press>, rest: seq<Press>) {
    |rest| <= |ps| && rest == ps[|ps| - |rest|..]
  }

  /** The press read just before `rest` carries a key the step accepts as `cmd`. */
  predicate AcceptedBefore(ps: seq<Press>, rest: seq<Press>, step: Step, cmd: Command)
    requires |rest| < |ps|
  {
    var k := ps[|ps| - |rest| - 1].key;
    k.Some? && Accept(step, k.value) == Some(cmd)
  }

  /** Reads presses until the step accepts one or the quit phrase is confirmed. */
  function Await(ps: seq<Press>, step: Step): (r: Heard)
    ensures r.Heard? ==> |r.rest| < |ps| && LeftOf(ps, r.rest)
    ensures r.Heard? ==> AcceptedBefore(ps, r.rest, step, r.cmd)
    ensures r.Heard? && r.cmd == Mark ==> step.markAllowed
    ensures r.Heard? && r.cmd == Back ==> step.backAllowed
    decreases |ps|
  {
    if |ps| == 0 then OutOfInput
    else if ps[0].key.None? then
      var r := Await(ps[1..], step);
      if r.Heard? then LeftOfDrop(ps, 1, r.rest, step, r.cmd); r else r
    else
      var cmd := Accept(step, ps[0].key.value);
      if cmd.Some? then AcceptedFirst(ps, step, cmd.value); Heard(cmd.value, ps[0].at, ps[1..])
      else
        var q := CheckForQuit(ps[0], ps[1..]);
        if q.Starved? then OutOfInput
        else if q.quit then Quitting(ps[q.consumed].at)
        else
          var r := Await(ps[q.consumed + 1..], step);
          if r.Heard? then LeftOfDrop(ps, q.consumed + 1, r.rest, step, r.cmd); r else r
  }

  /** A key accepted from the first press leaves the presses after it. */
  lemma AcceptedFirst(ps: seq<Press>, step: Step, cmd: Command)
    requires |ps| > 0 && ps[0].key.Some? && Accept(step, ps[0].key.value) == Some(cmd)
    ensures LeftOf(ps, ps[1..]) && AcceptedBefore(ps, ps[1..], step, cmd)
  {
  }

  /** What is left of a suffix of the presses is left of the presses themselves, and the press before it is the same one. */
  lemma LeftOfDrop(ps: seq<Press>, n: nat, rest: seq<Press>, step: Step, cmd: Command)
    requires n <= |ps| && |rest| < |ps| - n && LeftOf(ps[n..], rest)
    requires AcceptedBefore(ps[n..], rest, step, cmd)
    ensures LeftOf(ps, rest) && AcceptedBefore(ps, rest, step, cmd)
  {
    assert ps[n..][|ps| - n - |rest| - 1] == ps[|ps| - |rest| - 1];
  }

  /** The first press, when it carries an accepted key, is the answer. */
  lemma AwaitAccepted(ps: seq<Press>, step: Step)
    requires |ps| > 0 && ps[0].key.Some? && Accept(step, ps[0].key.value).Some?
    ensures Await(ps, step) == Heard(Accept(step, ps[0].key.value).value, ps[0].at, ps[1..])
  {
  }

  /** A `q` followed within the second by `u`, `i`, `t` quits the step, whatever the step accepts. */
  lemma AwaitQuits(ps: seq<Press>, step: Step)
    requires |ps| >= 4 && ps[0].key == Some('q')
    requires ps[1].key == Some('u') && ps[2].key == Some('i') && ps[3].key == Some('t')
    requires ps[1].at < ps[0].at + WindowMs && ps[2].at < ps[0].at + WindowMs
    ensures Await(ps, step) == Quitting(ps[3].at)
  {
    QuitTypedFast(ps);
    AwaitQuitCase(ps, step, 3);
  }

  lemma QuitTypedFast(ps: seq<Press>)
    requires |ps| >= 4 && ps[0].key == Some('q')
    requires ps[1].key == Some('u') && ps[2].key == Some('i') && ps[3].key == Some('t')
    requires ps[1].at < ps[0].at + WindowMs && ps[2].at < ps[0].at + WindowMs
    ensures CheckForQuit(ps[0], ps[1..]) == Decided(true, 3)
  {
    var rest := ps[1..];
    assert rest[..3] == [ps[1], ps[2], ps[3]];
    TypedUit(ps[1], ps[2], ps[3]);
    assert rest[..2] == [ps[1], ps[2]];
    assert AllBefore([ps[1], ps[2]], ps[0].at + WindowMs);
    QuitExactly(ps[0], rest, 3);
  }

  /** A key the step does not accept and that is not q is dropped, and reading goes on with the next press. */
  lemma AwaitDrops(ps: seq<Press>, step: Step)
    requires |ps| > 0 && ps[0].key.Some? && Accept(step, ps[0].key.value) == None && !IsQ(ps[0].key)
    ensures Await(ps, step) == Await(ps[1..], step)
  {
    assert CheckForQuit(ps[0], ps[1..]) == Decided(false, 0);
  }

  /** A press that carries no key is skipped. */
  lemma AwaitSkipsNone(ps: seq<Press>, step: Step)
    requires |ps| > 0 && ps[0].key.None?
    ensures Await(ps, step) == Await(ps[1..], step)
  {
  }

  /**
    A key the step does not accept hands over to `check_for_quit`; when the
    scan decides against quitting, reading resumes after the keys it read,
    which are lost to the step.
   */
  lemma AwaitResumes(ps: seq<Press>, step: Step, c: nat)
    requires |ps| > 0 && ps[0].key.Some? && Accept(step, ps[0].key.value) == None
    requires CheckForQuit(ps[0], ps[1..]) == Decided(false, c)
    ensures c < |ps| && Await(ps, step) == Await(ps[c + 1..], step)
  {
    assert !ps[0].key.None? && Accept(step, ps[0].key.value).None?;
    var q := CheckForQuit(ps[0], ps[1..]);
    assert !q.Starved? && !q.quit && q.consumed == c;
  }

  /** When the presses run out while `check_for_quit` is still waiting, the step runs out of input too. */
  lemma AwaitStarved(ps: seq<Press>, step: Step)
    requires |ps| > 0 && ps[0].key.Some? && Accept(step, ps[0].key.value) == None
    requires CheckForQuit(ps[0], ps[1..]).Starved?
    ensures Await(ps, step) == OutOfInput
  {
  }

  lemma AwaitQuitCase(ps: seq<Press>, step: Step, c: nat)
    requires |ps| > 0 && ps[0].key.Some? && Accept(step, ps[0].key.value) == None
    requires CheckForQuit(ps[0], ps[1..]) == Decided(true, c)
    ensures c < |ps| && Await(ps, step) == Quitting(ps[c].at)
  {
  }

  lemma TypedUit(u: Press, i: Press, t: Press)
    requires u.key == Some('u') && i.key == Some('i') && t.key == Some('t')
    ensures Typed([u, i, t]) == "uit"
  {
    assert [u, i, t][1..] == [i, t];
    assert [i, t][1..] == [t];
    assert Typed([t]) == "t";
    assert Typed([i, t]) == "it";
  }
}
