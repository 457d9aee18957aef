/**
  `check_for_quit`: after a `q` or `Q`, the session loops read further keys
  for up to one second and quit only if they spell "quit".  Time is the
  arrival time of the key presses, in milliseconds; processing a key is
  taken to be instantaneous, so "now" at the loop test is the arrival time
  of the last key read (or of the `q` itself on entry).
 */
module QuitPhrase {
  import opened Wrappers
  import opened Text
  import opened Keys

  const Phrase: string := "quit"

  /** The time allowed for typing the phrase after the `q`. */
  const WindowMs: int := 1000

  /** Either a decision together with the number of presses read after the `q`, or the input ran out while the detector was still waiting. */
  datatype Scan = Decided(quit: bool, consumed: nat) | Starved

  /** The lower-cased key of one press, or nothing for a dropped one. */
  function TypedOne(p: Press): string {
    if p.key.Some? then [Lower(p.key.value)] else []
  }

  /** What the presses add to the detector's buffer: their keys, lower-cased, Nones skipped. */
  function Typed(ps: seq<Press>): string {
    if |ps| == 0 then [] else TypedOne(ps[0]) + Typed(ps[1..])
  }

  predicate AllBefore(ps: seq<Press>, deadline: int) {
    forall j :: 0 <= j < |ps| ==> ps[j].at < deadline
  }

  predicate IsQ(k: Option<Key>) {
    k.Some? && Lower(k.value) == 'q'
  }

  /**
    The detector's buffer is always a proper prefix of "quit", so it is
    represented by its length `n`.  Appending `c` gives "quit" exactly when
    `c` is the last missing letter, and keeps a prefix exactly when `c` is
    the next letter.
   */
  lemma BufferStep(n: nat, c: char)
    requires n < |Phrase|
    ensures Phrase[..n] + [c] == Phrase <==> n + 1 == |Phrase| && c == Phrase[n]
    ensures IsPrefix(Phrase[..n] + [c], Phrase) <==> c == Phrase[n]
  {
    if Phrase[..n] + [c] == Phrase {
      assert (Phrase[..n] + [c])[n] == c;
    }
    if IsPrefix(Phrase[..n] + [c], Phrase) {
      assert (Phrase[..n] + [c])[n] == c;
    }
    if c == Phrase[n] {
      assert Phrase[..n] + [c] == Phrase[..n + 1];
    }
  }

  /**
    The loop of `check_for_quit` with `n` letters of "quit" already in the
    buffer: while the clock is before the deadline, read a key; skip None,
    otherwise stop with true when it completes "quit", stop with false as
    soon as it is not the next letter (that key is consumed), and keep
    reading otherwise.
   */
  function ScanFrom(n: nat, deadline: int, now: int, ps: seq<Press>): (r: Scan)
    requires 0 < n < |Phrase|
    ensures r.Decided? ==> r.consumed <= |ps|
    ensures r.Decided? && r.consumed == 0 ==> !r.quit && now >= deadline
    decreases |ps|
  {
    if !(now < deadline) then Decided(false, 0)
    else if |ps| == 0 then Starved
    else if ps[0].key.None? then Shift(ScanFrom(n, deadline, ps[0].at, ps[1..]))
    else if Lower(ps[0].key.value) != Phrase[n] then Decided(false, 1)
    else if n + 1 == |Phrase| then Decided(true, 1)
    else Shift(ScanFrom(n + 1, deadline, ps[0].at, ps[1..]))
  }

  /** Accounts for one more press read. */
  function Shift(r: Scan): Scan {
    match r
    case Decided(q, c) => Decided(q, c + 1)
    case Starved => Starved
  }

  /** `check_for_quit(key)`, where `first` is the press that delivered `key` and `rest` the presses after it. */
  function CheckForQuit(first: Press, rest: seq<Press>): (r: Scan)
    ensures !IsQ(first.key) ==> r == Decided(false, 0)
    ensures r.Decided? ==> r.consumed <= |rest|
    ensures r.Decided? && r.quit ==> r.consumed > 0
  {
    if !IsQ(first.key) then Decided(false, 0)
    else ScanFrom(1, first.at + WindowMs, first.at, rest)
  }

  lemma {:induction false} TypedAppend(a: seq<Press>, b: seq<Press>)
    ensures Typed(a + b) == Typed(a) + Typed(b)
    decreases |a|
  {
    if |a| == 0 {
      assert a + b == b;
    } else {
      assert (a + b)[1..] == a[1..] + b;
      TypedAppend(a[1..], b);
    }
  }

  lemma TypedHead(ps: seq<Press>, k: nat)
    requires 0 < k <= |ps|
    ensures Typed(ps[..k]) == TypedOne(ps[0]) + Typed(ps[1..][..k - 1])
  {
    assert ps[..k] == [ps[0]] + ps[1..][..k - 1];
    TypedAppend([ps[0]], ps[1..][..k - 1]);
    assert [ps[0]][1..] == [];
  }

  /**
    The scan ends with "quit" after exactly `c` presses iff the keys among
    those `c` presses are the missing letters, the `c`-th press carries a
    key, and every earlier press arrived before the deadline (the press
    that completes the phrase may itself arrive late: the clock is only
    looked at before a read).
   */
  lemma {:induction false} ScanQuitsExactly(n: nat, deadline: int, now: int, ps: seq<Press>, c: nat)
    requires 0 < n < |Phrase|
    ensures ScanFrom(n, deadline, now, ps) == Decided(true, c) <==> QuitsAfter(n, deadline, now, ps, c)
    decreases |ps|
  {
    if !(now < deadline) || |ps| == 0 {
    } else if c == 0 || c > |ps| {
    } else {
      var r := ScanFrom(n, deadline, now, ps);
      TypedHead(ps, c);
      if ps[0].key.None? {
        assert r == Shift(ScanFrom(n, deadline, ps[0].at, ps[1..]));
        if c >= 2 {
          ScanQuitsExactly(n, deadline, ps[0].at, ps[1..], c - 1);
          PeelOne(n, deadline, now, ps, c, n);
        }
      } else if Lower(ps[0].key.value) != Phrase[n] {
        assert r == Decided(false, 1);
        assert Typed(ps[..c]) != Phrase[n..] by {
          assert Typed(ps[..c])[0] == Lower(ps[0].key.value);
        }
      } else if n + 1 == |Phrase| {
        assert r == Decided(true, 1);
        if 1 < c && ps[c - 1].key.Some? {
          TypedSomeNonEmpty(ps[1..], c - 1);
        }
      } else {
        assert r == Shift(ScanFrom(n + 1, deadline, ps[0].at, ps[1..]));
        if c >= 2 {
          ScanQuitsExactly(n + 1, deadline, ps[0].at, ps[1..], c - 1);
          PeelOne(n, deadline, now, ps, c, n + 1);
        }
      }
    }
  }

  /**
    The scan stops at the first key that does not continue "quit" and
    counts it as read: after `c - 1` dropped presses in time, a key other
    than the next letter ends the scan with false, `c` presses consumed.
   */
  lemma {:induction false} ScanBreaks(n: nat, deadline: int, now: int, ps: seq<Press>, c: nat)
    requires 0 < n < |Phrase| && now < deadline && 0 < c <= |ps|
    requires forall j :: 0 <= j < c - 1 ==> ps[j].key.None? && ps[j].at < deadline
    requires ps[c - 1].key.Some? && Lower(ps[c - 1].key.value) != Phrase[n]
    ensures ScanFrom(n, deadline, now, ps) == Decided(false, c)
    decreases c
  {
    if c > 1 {
      assert ps[0].key.None?;
      ScanBreaks(n, deadline, ps[0].at, ps[1..], c - 1);
    }
  }

  /** The scan from `n` letters quits after exactly `c` presses, stated without the scan. */
  predicate QuitsAfter(n: nat, deadline: int, now: int, ps: seq<Press>, c: nat)
    requires n <= |Phrase|
  {
    now < deadline && 0 < c <= |ps| && Typed(ps[..c]) == Phrase[n..]
    && ps[c - 1].key.Some? && AllBefore(ps[..c - 1], deadline)
  }

  /** Reading one press that leaves `m` letters matched reduces the question to the remaining presses. */
  lemma PeelOne(n: nat, deadline: int, now: int, ps: seq<Press>, c: nat, m: nat)
    requires 0 < n <= m < |Phrase| && 2 <= c <= |ps| && now < deadline
    requires Phrase[..n] + TypedOne(ps[0]) == Phrase[..m]
    ensures QuitsAfter(n, deadline, now, ps, c) <==> QuitsAfter(m, deadline, ps[0].at, ps[1..], c - 1)
  {
    TypedHead(ps, c);
    assert ps[1..][c - 2] == ps[c - 1];
    AllBeforeHead(ps, c - 1, deadline);
    PhraseSplit(n, m, TypedOne(ps[0]), Typed(ps[1..][..c - 1]));
  }

  lemma AllBeforeHead(ps: seq<Press>, k: nat, deadline: int)
    requires 0 < k <= |ps|
    ensures AllBefore(ps[..k], deadline) <==> ps[0].at < deadline && AllBefore(ps[1..][..k - 1], deadline)
  {
    assert ps[..k] == [ps[0]] + ps[1..][..k - 1];
  }

  lemma PhraseSplit(n: nat, m: nat, t: string, u: string)
    requires n <= m <= |Phrase|
    requires Phrase[..n] + t == Phrase[..m]
    ensures t + u == Phrase[n..] <==> u == Phrase[m..]
  {
    assert t == Phrase[n..m] by {
      assert Phrase[..m] == Phrase[..n] + Phrase[n..m];
    }
    assert Phrase[n..] == Phrase[n..m] + Phrase[m..];
    if t + u == Phrase[n..] {
      assert u == (t + u)[|t|..];
    }
  }

  lemma TypedSomeNonEmpty(ps: seq<Press>, k: nat)
    requires 0 < k <= |ps| && ps[k - 1].key.Some?
    ensures |Typed(ps[..k])| > 0
  {
    assert ps[..k] == ps[..k - 1] + [ps[k - 1]];
    TypedAppend(ps[..k - 1], [ps[k - 1]]);
    assert [ps[k - 1]][1..] == [];
  }

  /**
    `check_for_quit` returns true after reading `c` presses exactly when the
    first key was q or Q and the keys of those presses, lower-cased and with
    dropped ones skipped, are u, i, t, the last of them on the `c`-th press,
    and every press before that one arrived within one second of the q.
   */
  lemma QuitExactly(first: Press, rest: seq<Press>, c: nat)
    ensures CheckForQuit(first, rest) == Decided(true, c) <==>
      IsQ(first.key) && 0 < c <= |rest| && Typed(rest[..c]) == "uit"
      && rest[c - 1].key.Some? && AllBefore(rest[..c - 1], first.at + WindowMs)
  {
    var d := first.at + WindowMs;
    assert Phrase[1..] == "uit";
    if IsQ(first.key) {
      assert CheckForQuit(first, rest) == ScanFrom(1, d, first.at, rest);
      ScanQuitsExactly(1, d, first.at, rest, c);
      assert QuitsAfter(1, d, first.at, rest, c) <==>
        0 < c <= |rest| && Typed(rest[..c]) == "uit" && rest[c - 1].key.Some? && AllBefore(rest[..c - 1], d);
    }
  }

  /** The examples of the quit protocol: a fast "quit", a diverging "qux", a pause after "qu", and a late final "t". */
  lemma QuitExamples()
    ensures CheckForQuit(Press(Some('q'), 0), [Press(Some('u'), 50), Press(Some('i'), 100), Press(Some('t'), 150)]) == Decided(true, 3)
    ensures CheckForQuit(Press(Some('Q'), 0), [Press(Some('U'), 50), Press(None, 60), Press(Some('I'), 100), Press(Some('T'), 150)]) == Decided(true, 4)
    ensures CheckForQuit(Press(Some('q'), 0), [Press(Some('u'), 50), Press(Some('x'), 100), Press(Some('i'), 150)]) == Decided(false, 2)
    ensures CheckForQuit(Press(Some('q'), 0), [Press(Some('u'), 100), Press(Some('i'), 1600), Press(Some('t'), 1650)]) == Decided(false, 2)
    ensures CheckForQuit(Press(Some('q'), 0), [Press(Some('u'), 50), Press(Some('i'), 100), Press(Some('t'), 1700)]) == Decided(true, 3)
    ensures CheckForQuit(Press(Some('x'), 0), [Press(Some('q'), 50)]) == Decided(false, 0)
  {
  }
}
