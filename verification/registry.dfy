/**
  The pending-repeat registry of `run_quiz` (`repeat_words`): a dict keyed
  by pinyin holding (word, streak, insert position).  Python dicts iterate in
  insertion order and an assignment to an existing key keeps its place;
  that order decides the order in which due words are put back in the queue
  and the order of the drain rounds, so the registry is modelled as a list
  with unique keys, and `AsMap` gives its dict view.
 */
module Registry {
  import opened Seqs
  import opened Deck

  /** A queue entry: a word and how many more correct answers it needs (0 or 1 both mean "retire on the next correct answer"). */
  datatype Entry = Entry(word: Word, needed: nat)

  /** A pending repeat, due once the position reaches `insertPos`. */
  datatype Pending = Pending(word: Word, streak: nat, insertPos: int)

  /** Repeats are keyed by pinyin, not by character: two words that share a pinyin share a slot. */
  function KeyOf(p: Pending): string {
    p.word.pinyin
  }

  predicate UniqueKeys(reg: seq<Pending>) {
    forall i, j :: 0 <= i < j < |reg| ==> KeyOf(reg[i]) != KeyOf(reg[j])
  }

  /** The dict view: each key maps to its (first) entry. */
  function AsMap(reg: seq<Pending>): (m: map<string, Pending>)
  {
    if |reg| == 0 then map[] else AsMap(reg[1..])[KeyOf(reg[0]) := reg[0]]
  }

  /** The dict view holds an entry of the registry under its own key, and every key of the registry. */
  lemma {:induction false} AsMapEntries(reg: seq<Pending>)
    ensures forall k :: k in AsMap(reg) ==> AsMap(reg)[k] in reg && KeyOf(AsMap(reg)[k]) == k
    ensures forall p :: p in reg ==> KeyOf(p) in AsMap(reg)
  {
    if |reg| > 0 {
      AsMapEntries(reg[1..]);
      assert forall p :: p in reg ==> p == reg[0] || p in reg[1..];
    }
  }

  /** With unique keys, every entry is what the dict view holds for its key. */
  lemma {:induction false} AsMapAt(reg: seq<Pending>, i: nat)
    requires UniqueKeys(reg) && i < |reg|
    ensures KeyOf(reg[i]) in AsMap(reg) && AsMap(reg)[KeyOf(reg[i])] == reg[i]
  {
    if i > 0 {
      AsMapAt(reg[1..], i - 1);
    }
  }

  /**
    `repeat_words[word['pinyin']] = (word, streak, insert_pos)`: overwrites
    the entry of the same pinyin in place, whatever word it held, or appends
    a new entry at the end.
   */
  function Register(reg: seq<Pending>, p: Pending): (r: seq<Pending>)
    ensures p in r
    ensures forall q :: q in r ==> q == p || q in reg
    ensures |r| >= |reg|
    ensures KeyOf(p) !in AsMap(reg) ==> r == reg + [p]
  {
    if |reg| == 0 then [p]
    else if KeyOf(reg[0]) == KeyOf(p) then [p] + reg[1..]
    else [reg[0]] + Register(reg[1..], p)
  }

  /** In the dict view, registering is the assignment `repeat_words[pinyin] = entry`. */
  lemma {:induction false} RegisterAsMap(reg: seq<Pending>, p: Pending)
    ensures AsMap(Register(reg, p)) == AsMap(reg)[KeyOf(p) := p]
  {
    if |reg| == 0 {
      assert Register(reg, p) == [p];
      assert [p][1..] == [];
    } else {
      var tail := AsMap(reg[1..]);
      var k0 := KeyOf(reg[0]);
      if k0 == KeyOf(p) {
        assert Register(reg, p) == [p] + reg[1..];
        assert ([p] + reg[1..])[1..] == reg[1..];
        Overwrite(tail, k0, reg[0], p);
      } else {
        RegisterAsMap(reg[1..], p);
        assert Register(reg, p)[1..] == Register(reg[1..], p);
        UpdatesCommute(tail, KeyOf(p), p, k0, reg[0]);
      }
    }
  }

  /** A second assignment to the same key wins. */
  lemma Overwrite(m: map<string, Pending>, k: string, a: Pending, b: Pending)
    ensures m[k := a][k := b] == m[k := b]
  {
  }

  /** Assignments to different keys commute. */
  lemma UpdatesCommute(m: map<string, Pending>, k1: string, v1: Pending, k2: string, v2: Pending)
    requires k1 != k2
    ensures m[k1 := v1][k2 := v2] == m[k2 := v2][k1 := v1]
  {
  }

  /** On a registry with unique keys, registering overwrites in place (same length) or appends, and keys stay unique. */
  lemma RegisterInPlace(reg: seq<Pending>, p: Pending)
    requires UniqueKeys(reg)
    ensures UniqueKeys(Register(reg, p))
    ensures |Register(reg, p)| == |reg| + (if KeyOf(p) in AsMap(reg) then 0 else 1)
    ensures forall i :: 0 <= i < |reg| ==>
      Register(reg, p)[i] == if KeyOf(reg[i]) == KeyOf(p) then p else reg[i]
  {
    RegisterUnique(reg, p);
    RegisterLength(reg, p);
    RegisterSlots(reg, p);
  }

  /** Registering grows the registry exactly when the pinyin is new. */
  lemma {:induction false} RegisterLength(reg: seq<Pending>, p: Pending)
    ensures |Register(reg, p)| == |reg| + (if KeyOf(p) in AsMap(reg) then 0 else 1)
  {
    if |reg| > 0 && KeyOf(reg[0]) != KeyOf(p) {
      RegisterLength(reg[1..], p);
      assert KeyOf(p) in AsMap(reg) <==> KeyOf(p) in AsMap(reg[1..]);
    }
  }

  /** With unique keys only the slot of the registered pinyin changes. */
  lemma {:induction false} RegisterSlots(reg: seq<Pending>, p: Pending)
    requires UniqueKeys(reg)
    ensures |Register(reg, p)| >= |reg|
    ensures forall i :: 0 <= i < |reg| ==>
      Register(reg, p)[i] == if KeyOf(reg[i]) == KeyOf(p) then p else reg[i]
  {
    if |reg| == 0 {
    } else if KeyOf(reg[0]) == KeyOf(p) {
      assert forall i :: 0 < i < |reg| ==> KeyOf(reg[i]) != KeyOf(p);
    } else {
      var tail := Register(reg[1..], p);
      RegisterSlots(reg[1..], p);
      assert Register(reg, p) == [reg[0]] + tail;
      assert forall i :: 0 < i < |reg| ==> reg[i] == reg[1..][i - 1];
    }
  }

  /** Registering keeps the pinyins unique. */
  lemma {:induction false} RegisterUnique(reg: seq<Pending>, p: Pending)
    requires UniqueKeys(reg)
    ensures UniqueKeys(Register(reg, p))
  {
    if |reg| > 0 {
      var rest := reg[1..];
      assert UniqueKeys(rest) by {
        assert forall i :: 0 <= i < |rest| ==> rest[i] == reg[i + 1];
      }
      if KeyOf(reg[0]) == KeyOf(p) {
        assert Register(reg, p) == [p] + rest;
        FirstKeyFresh(reg);
        ConsUnique(p, rest);
      } else {
        var tail := Register(rest, p);
        RegisterUnique(rest, p);
        assert Register(reg, p) == [reg[0]] + tail;
        FirstKeyFresh(reg);
        forall j | 0 <= j < |tail| ensures KeyOf(tail[j]) != KeyOf(reg[0]) {
          assert tail[j] == p || tail[j] in rest;
        }
        ConsUnique(reg[0], tail);
      }
    }
  }

  /** With unique keys no later entry shares the first entry's key. */
  lemma FirstKeyFresh(reg: seq<Pending>)
    requires UniqueKeys(reg) && |reg| > 0
    ensures forall q :: q in reg[1..] ==> KeyOf(q) != KeyOf(reg[0])
  {
    forall q | q in reg[1..] ensures KeyOf(q) != KeyOf(reg[0]) {
      var i :| 0 <= i < |reg[1..]| && reg[1..][i] == q;
      assert reg[i + 1] == q;
    }
  }

  /** An entry whose key is new can go in front of a registry with unique keys. */
  lemma ConsUnique(x: Pending, t: seq<Pending>)
    requires UniqueKeys(t)
    requires forall j :: 0 <= j < |t| ==> KeyOf(t[j]) != KeyOf(x)
    ensures UniqueKeys([x] + t)
  {
    var r := [x] + t;
    forall i, j | 0 <= i < j < |r| ensures KeyOf(r[i]) != KeyOf(r[j]) {
      assert r[j] == t[j - 1];
      if i > 0 {
        assert r[i] == t[i - 1];
      }
    }
  }

  /** The entries that stay pending at `position` (`position < insert_pos`), in order. */
  function Kept(reg: seq<Pending>, position: int): (r: seq<Pending>)
    ensures forall p :: p in r <==> p in reg && p.insertPos > position
    ensures Subsequence(r, reg)
    ensures UniqueKeys(reg) ==> UniqueKeys(r)
  {
    if |reg| == 0 then []
    else
      var tail := Kept(reg[1..], position);
      if reg[0].insertPos > position then [reg[0]] + tail else tail
  }

  /** The entries due at `position` (`position >= insert_pos`), in registry order, as queue entries. */
  function Due(reg: seq<Pending>, position: int): (r: seq<Entry>)
    ensures r == Pendings(Filter(reg, (p: Pending) => p.insertPos <= position))
    ensures |r| + |Kept(reg, position)| == |reg|
    ensures forall p :: p in reg && p.insertPos <= position ==> Entry(p.word, p.streak) in r
    ensures forall e :: e in r ==> exists p :: p in reg && p.insertPos <= position && e == Entry(p.word, p.streak)
  {
    if |reg| == 0 then []
    else
      var tail := Due(reg[1..], position);
      DueStep(reg, position);
      if reg[0].insertPos <= position then [Entry(reg[0].word, reg[0].streak)] + tail else tail
  }

  /** The due entries of a registry are its first entry, when due, and then those of the rest. */
  lemma DueStep(reg: seq<Pending>, position: int)
    requires |reg| > 0
    ensures var due := (p: Pending) => p.insertPos <= position;
      Pendings(Filter(reg, due)) ==
        (if reg[0].insertPos <= position then [Entry(reg[0].word, reg[0].streak)] else [])
        + Pendings(Filter(reg[1..], due))
  {
    var due := (p: Pending) => p.insertPos <= position;
    var rest := Filter(reg[1..], due);
    FilterStep(reg, due);
    if reg[0].insertPos <= position {
      PendingsCons(reg[0], rest);
    }
  }

  lemma PendingsCons(p: Pending, reg: seq<Pending>)
    ensures Pendings([p] + reg) == [Entry(p.word, p.streak)] + Pendings(reg)
  {
    assert ([p] + reg)[1..] == reg;
  }

  /** Moving the due entries out deletes exactly their keys from the dict view; the rest is untouched. */
  lemma KeptAsMap(reg: seq<Pending>, position: int)
    requires UniqueKeys(reg)
    ensures AsMap(Kept(reg, position)) ==
      map k | k in AsMap(reg) && AsMap(reg)[k].insertPos > position :: AsMap(reg)[k]
  {
    var kept := Kept(reg, position);
    var m := AsMap(reg);
    var mk := AsMap(kept);
    AsMapEntries(reg);
    AsMapEntries(kept);
    forall k | k in mk ensures k in m && m[k].insertPos > position && mk[k] == m[k] {
      var p := mk[k];
      var i :| 0 <= i < |reg| && reg[i] == p;
      AsMapAt(reg, i);
    }
    forall k | k in m && m[k].insertPos > position ensures k in mk {
      assert m[k] in kept;
    }
  }

  /** The pending words of a drain round, in registry order, with their streaks (`insert_pos` is ignored). */
  function Pendings(reg: seq<Pending>): (r: seq<Entry>)
    ensures |r| == |reg|
    ensures forall i :: 0 <= i < |r| ==> r[i] == Entry(reg[i].word, reg[i].streak)
  {
    if |reg| == 0 then [] else [Entry(reg[0].word, reg[0].streak)] + Pendings(reg[1..])
  }
}
