/**
  The practice-time marker rows of `save_practice_time` and how the
  session history reads the selected groups back out of them.

  A marker row's `group` field holds 0 for "all groups" (an empty
  selection or one containing 0), the group itself for a single group, and
  -1 for several groups, which are then written into the pinyin field as
  `_practice_start_<g1>,<g2>,..._` (and `_practice_end_..._` on the second
  row), sorted ascending.  The history view finds that list with the
  regular expression `_practice_(?:start|end)_([0-9,]+)_` (leftmost match)
  and turns every comma-separated piece into an int.
 */
module Markers {
  import opened Wrappers
  import opened Text
  import opened Seqs
  import opened Deck

  const StartPrefix: string := "_practice_start_"
  const EndPrefix: string := "_practice_end_"

  /** The group codes: every group, and "several groups, listed in the pinyin". */
  const AllGroups: int := 0
  const SeveralGroups: int := -1

  /** The group code and the two pinyin values of the start and end marker rows. */
  datatype Marker = Marker(code: int, startPinyin: string, endPinyin: string)

  /** `str(i)` for any int. */
  function IntToString(i: int): (s: string)
    ensures i >= 0 ==> s == NatToString(i)
    ensures i < 0 ==> |s| > 1 && s[0] == '-' && s[1..] == NatToString(-i)
  {
    if i < 0 then "-" + NatToString(-i) else NatToString(i)
  }

  function IntKey(g: int): (int, int) {
    (g, 0)
  }

  /** `map(str, sorted(selected))`. */
  function SortedStrings(selected: seq<int>): (pieces: seq<string>)
    ensures |pieces| == |selected|
    ensures var sorted := SortBy(selected, IntKey);
      && multiset(sorted) == multiset(selected)
      && (forall i, j :: 0 <= i < j < |sorted| ==> sorted[i] <= sorted[j])
      && forall k :: 0 <= k < |pieces| ==> pieces[k] == IntToString(sorted[k])
  {
    var sorted := SortBy(selected, IntKey);
    assert |sorted| == |multiset(sorted)| == |selected|;
    assert forall i, j :: 0 <= i < j < |sorted| ==> LexLe(IntKey(sorted[i]), IntKey(sorted[j]));
    seq(|sorted|, k requires 0 <= k < |sorted| => IntToString(sorted[k]))
  }

  /** The marker written for a group selection. */
  function EncodeGroups(selected: seq<int>): (m: Marker)
    ensures m.code == AllGroups <==> |selected| == 0 || AllGroups in selected
    ensures |selected| == 1 && selected[0] != AllGroups ==> m == Marker(selected[0], StartPrefix, EndPrefix)
    ensures |selected| > 1 && AllGroups !in selected ==>
      var gs := Join(SortedStrings(selected), ',');
      m == Marker(SeveralGroups, StartPrefix + gs + "_", EndPrefix + gs + "_")
  {
    if |selected| == 0 || AllGroups in selected then Marker(AllGroups, StartPrefix, EndPrefix)
    else if |selected| == 1 then Marker(selected[0], StartPrefix, EndPrefix)
    else
      var gs := Join(SortedStrings(selected), ',');
      Marker(SeveralGroups, StartPrefix + gs + "_", EndPrefix + gs + "_")
  }

  /** The characters of `[0-9,]`. */
  predicate GroupChar(c: char) {
    IsDigit(c) || c == ','
  }

  /** The length of the longest prefix of `t` made of `[0-9,]` (the greedy `[0-9,]+`). */
  function GroupRun(t: string): (n: nat)
    ensures n <= |t|
    ensures forall i :: 0 <= i < n ==> GroupChar(t[i])
    ensures n < |t| ==> !GroupChar(t[n])
  {
    if |t| == 0 || !GroupChar(t[0]) then 0 else 1 + GroupRun(t[1..])
  }

  /** The text after a marker prefix at the start of `t`, if `t` starts with one. */
  function AfterPrefix(t: string): (w: Option<string>)
    ensures w.Some? ==> t == StartPrefix + w.value || t == EndPrefix + w.value
  {
    if IsPrefix(StartPrefix, t) then
      assert t == t[..|StartPrefix|] + t[|StartPrefix|..];
      Some(t[|StartPrefix|..])
    else if IsPrefix(EndPrefix, t) then
      assert t == t[..|EndPrefix|] + t[|EndPrefix|..];
      Some(t[|EndPrefix|..])
    else None
  }

  /**
    The captured group list if the pattern matches at index `i` of `s`.
    Backtracking cannot help the `[0-9,]+`: any shorter run is followed by
    a digit or a comma, never by the closing `_`, so only the longest run
    can match.
   */
  function GroupsAt(s: string, i: nat): (r: Option<string>)
    requires i <= |s|
    ensures r.Some? ==> |r.value| > 0 && forall k :: 0 <= k < |r.value| ==> GroupChar(r.value[k])
  {
    match AfterPrefix(s[i..])
    case None => None
    case Some(w) =>
      var n := GroupRun(w);
      if 0 < n < |w| && w[n] == '_' then Some(w[..n]) else None
  }

  /**
    The text at index `i` of `s` is a marker prefix, then the non-empty
    `[0-9,]` run `g`, then `_`: what the pattern matches there.  The two
    prefixes differ in their eleventh character, and a run followed by `_`
    is the longest one, so at most one `g` fits.
   */
  predicate MarkerAt(s: string, i: nat, g: string)
    requires i <= |s|
  {
    && |g| > 0 && (forall k :: 0 <= k < |g| ==> GroupChar(g[k]))
    && (IsPrefix(StartPrefix + g + "_", s[i..]) || IsPrefix(EndPrefix + g + "_", s[i..]))
  }

  /** The pattern matches at `i`, capturing `g`, exactly when the marker text with `g` stands there. */
  lemma GroupsAtMatches(s: string, i: nat, g: string)
    requires i <= |s|
    ensures GroupsAt(s, i) == Some(g) <==> MarkerAt(s, i, g)
  {
    if GroupsAt(s, i) == Some(g) {
      GroupsAtFound(s, i);
    }
    if MarkerAt(s, i, g) {
      var prefix := if IsPrefix(StartPrefix + g + "_", s[i..]) then StartPrefix else EndPrefix;
      var t := s[i..];
      var m := prefix + g + "_";
      var rest := t[|m|..];
      assert t == m + rest by {
        assert t == t[..|m|] + rest;
      }
      MatchAtPrefix(prefix, g, rest);
    }
  }

  /** What the pattern captures stands between a marker prefix and `_`. */
  lemma GroupsAtFound(s: string, i: nat)
    requires i <= |s| && GroupsAt(s, i).Some?
    ensures MarkerAt(s, i, GroupsAt(s, i).value)
  {
    var g := GroupsAt(s, i).value;
    var t := s[i..];
    var w := AfterPrefix(t).value;
    assert |g| < |w| && w[..|g|] == g && w[|g|] == '_';
    if t == StartPrefix + w {
      PrefixThen(StartPrefix, g, w, t);
    } else {
      PrefixThen(EndPrefix, g, w, t);
    }
  }

  /** A text that is `prefix` and then `g` followed by `_` starts with `prefix + g + "_"`. */
  lemma PrefixThen(prefix: string, g: string, w: string, t: string)
    requires t == prefix + w && |g| < |w| && w[..|g|] == g && w[|g|] == '_'
    ensures IsPrefix(prefix + g + "_", t)
  {
    var m := prefix + g + "_";
    forall k | 0 <= k < |m| ensures t[k] == m[k] {
      if |prefix| <= k < |prefix| + |g| {
        assert w[k - |prefix|] == w[..|g|][k - |prefix|];
      }
    }
    assert t[..|m|] == m;
  }

  /** The pattern matches at the start of a marker prefix, `g` and `_`, whatever follows. */
  lemma MatchAtPrefix(prefix: string, g: string, rest: string)
    requires prefix == StartPrefix || prefix == EndPrefix
    requires |g| > 0 && forall k :: 0 <= k < |g| ==> GroupChar(g[k])
    ensures GroupsAt(prefix + g + "_" + rest, 0) == Some(g)
  {
    var s := prefix + g + "_" + rest;
    var w := g + "_" + rest;
    assert s == prefix + w;
    assert s[0..] == s;
    if prefix == StartPrefix {
      assert s[..|StartPrefix|] == StartPrefix;
      assert s[|StartPrefix|..] == w;
    } else {
      assert !IsPrefix(StartPrefix, s) by {
        assert s[10] == 'e' && StartPrefix[10] == 's';
      }
      assert s[..|EndPrefix|] == EndPrefix;
      assert s[|EndPrefix|..] == w;
    }
    assert AfterPrefix(s) == Some(w);
    assert GroupRun(w) == |g| by {
      assert w[|g|] == '_';
      RunOfGroupChars(w, |g|);
    }
    assert w[..|g|] == g;
  }

  /** No match starts at any index from `lo` up to, not including, `hi`. */
  predicate NoMatchIn(s: string, lo: nat, hi: nat)
    requires lo <= hi <= |s| + 1
  {
    forall k :: lo <= k < hi ==> GroupsAt(s, k).None?
  }

  /** `re.search`: the match at the leftmost index where there is one. */
  function SearchGroups(s: string, i: nat): (r: Option<string>)
    requires i <= |s|
    ensures r.Some? ==> |r.value| > 0 && forall k :: 0 <= k < |r.value| ==> GroupChar(r.value[k])
    ensures r.Some? ==> exists j :: i <= j <= |s| && GroupsAt(s, j) == r && NoMatchIn(s, i, j)
    ensures r.None? ==> NoMatchIn(s, i, |s| + 1)
    decreases |s| - i
  {
    if GroupsAt(s, i).Some? then
      assert NoMatchIn(s, i, i);
      GroupsAt(s, i)
    else if i == |s| then None
    else
      var r := SearchGroups(s, i + 1);
      FirstMatchFrom(s, i, r);
      r
  }

  /** A search that found nothing at `i` finds what the search from `i + 1` finds, first match and all. */
  lemma FirstMatchFrom(s: string, i: nat, r: Option<string>)
    requires i < |s| && GroupsAt(s, i).None?
    requires r.Some? ==> exists j :: i + 1 <= j <= |s| && GroupsAt(s, j) == r && NoMatchIn(s, i + 1, j)
    requires r.None? ==> NoMatchIn(s, i + 1, |s| + 1)
    ensures r.Some? ==> exists j :: i <= j <= |s| && GroupsAt(s, j) == r && NoMatchIn(s, i, j)
    ensures r.None? ==> NoMatchIn(s, i, |s| + 1)
  {
    if r.Some? {
      var j :| i + 1 <= j <= |s| && GroupsAt(s, j) == r && NoMatchIn(s, i + 1, j);
      assert NoMatchIn(s, i, j);
    }
  }

  /** `set(map(int, pieces))`, None where some `int(piece)` raises. */
  function ParseGroups(pieces: seq<string>): (r: Option<set<int>>)
    ensures r.Some? <==> forall i :: 0 <= i < |pieces| ==> ParseNat(pieces[i]).Some?
    ensures r.Some? ==> forall i :: 0 <= i < |pieces| ==> ParseNat(pieces[i]).value in r.value
    ensures r.Some? ==> forall g :: g in r.value ==> exists i :: 0 <= i < |pieces| && ParseNat(pieces[i]) == Some(g)
  {
    if |pieces| == 0 then Some({})
    else match (ParseNat(pieces[0]), ParseGroups(pieces[1..]))
      case (Some(v), Some(rest)) =>
        assert forall g :: g in rest ==> exists i :: 0 <= i < |pieces| && ParseNat(pieces[i]) == Some(g) by {
          forall g | g in rest ensures exists i :: 0 <= i < |pieces| && ParseNat(pieces[i]) == Some(g) {
            var j :| 0 <= j < |pieces[1..]| && ParseNat(pieces[1..][j]) == Some(g);
            assert pieces[j + 1] == pieces[1..][j];
          }
        }
        Some({v} + rest)
      case (None, _) => None
      case (_, None) =>
        var j :| 0 <= j < |pieces[1..]| && ParseNat(pieces[1..][j]).None?;
        assert ParseNat(pieces[j + 1]).None?;
        None
  }

  /** What the history view makes of a marker row's groups: a set, no match (the groups are left as they were), or a ValueError. */
  datatype MarkerGroups = Groups(gs: set<int>) | NoMatch | BadNumber

  /**
    `r` is what `set(map(int, pieces))` gives: a ValueError when some piece
    is not a number, otherwise exactly the pieces' values.
   */
  ghost predicate ReadsPieces(pieces: seq<string>, r: MarkerGroups) {
    && !r.NoMatch?
    && (r.BadNumber? <==> exists k :: 0 <= k < |pieces| && ParseNat(pieces[k]).None?)
    && (r.Groups? ==> forall g :: g in r.gs <==> exists k :: 0 <= k < |pieces| && ParseNat(pieces[k]) == Some(g))
  }

  /** `set(map(int, text.split(',')))` for a captured group list. */
  function ReadGroups(text: string): (r: MarkerGroups)
    ensures ReadsPieces(Split(text, ','), r)
  {
    var pieces := Split(text, ',');
    var parsed := ParseGroups(pieces);
    if parsed.None? then
      assert exists k :: 0 <= k < |pieces| && ParseNat(pieces[k]).None?;
      BadNumber
    else Groups(parsed.value)
  }

  /** The groups the history view reads from a marker row with this group code and pinyin. */
  function DecodeGroups(code: int, pinyin: string): (r: MarkerGroups)
    ensures code == AllGroups ==> r == Groups({AllGroups})
    ensures code != AllGroups && code != SeveralGroups ==> r == Groups({code})
    ensures r.NoMatch? <==> code == SeveralGroups && SearchGroups(pinyin, 0).None?
    ensures code == SeveralGroups && SearchGroups(pinyin, 0).Some? ==>
      ReadsPieces(Split(SearchGroups(pinyin, 0).value, ','), r)
  {
    if code == SeveralGroups then
      match SearchGroups(pinyin, 0)
      case None => NoMatch
      case Some(text) => ReadGroups(text)
    else if code == AllGroups then Groups({AllGroups})
    else Groups({code})
  }

  /** The groups a selection stands for: `{0}` for all groups, otherwise the selected ones. */
  function SelectedSet(selected: seq<int>): (gs: set<int>)
    ensures |selected| == 0 || AllGroups in selected ==> gs == {AllGroups}
    ensures |selected| > 0 && AllGroups !in selected ==> forall g :: g in gs <==> g in selected
  {
    if |selected| == 0 || AllGroups in selected then {AllGroups} else set g | g in selected
  }

  /** Every character of a join is the separator or a character of some piece. */
  lemma {:induction false} JoinChars(pieces: seq<string>, sep: char, k: nat)
    requires k < |Join(pieces, sep)|
    ensures Join(pieces, sep)[k] == sep || exists i, j :: 0 <= i < |pieces| && 0 <= j < |pieces[i]| && pieces[i][j] == Join(pieces, sep)[k]
    decreases |pieces|
  {
    if |pieces| == 1 {
      assert pieces[0][k] == Join(pieces, sep)[k];
    } else if |pieces| > 1 {
      var s := Join(pieces, sep);
      if k < |pieces[0]| {
        assert pieces[0][k] == s[k];
      } else if k > |pieces[0]| {
        var k2 := k - |pieces[0]| - 1;
        assert s[k] == Join(pieces[1..], sep)[k2];
        JoinChars(pieces[1..], sep, k2);
        if s[k] != sep {
          var i, j :| 0 <= i < |pieces[1..]| && 0 <= j < |pieces[1..][i]| && pieces[1..][i][j] == s[k];
          assert pieces[i + 1][j] == s[k];
        }
      }
    }
  }

  /** The join of a non-empty list of non-empty digit strings is a non-empty `[0-9,]` string. */
  lemma GroupTextChars(pieces: seq<string>)
    requires |pieces| > 0 && |pieces[0]| > 0
    requires forall i :: 0 <= i < |pieces| ==> AllDigits(pieces[i])
    ensures |Join(pieces, ',')| > 0
    ensures forall k :: 0 <= k < |Join(pieces, ',')| ==> GroupChar(Join(pieces, ',')[k])
  {
    var s := Join(pieces, ',');
    assert |pieces| == 1 || s == pieces[0] + [','] + Join(pieces[1..], ',');
    forall k | 0 <= k < |s| ensures GroupChar(s[k]) {
      JoinChars(pieces, ',', k);
    }
  }

  /** The pattern matches at the start of a marker pinyin built from a `[0-9,]` list, capturing the list. */
  lemma MatchesOwnPinyin(prefix: string, gs: string)
    requires prefix == StartPrefix || prefix == EndPrefix
    requires |gs| > 0 && forall k :: 0 <= k < |gs| ==> GroupChar(gs[k])
    ensures SearchGroups(prefix + gs + "_", 0) == Some(gs)
  {
    MatchAtPrefix(prefix, gs, "");
    assert prefix + gs + "_" + "" == prefix + gs + "_";
  }

  lemma {:induction false} RunOfGroupChars(w: string, n: nat)
    requires n < |w| && !GroupChar(w[n])
    requires forall i :: 0 <= i < n ==> GroupChar(w[i])
    ensures GroupRun(w) == n
    decreases n
  {
    if n > 0 {
      RunOfGroupChars(w[1..], n - 1);
    }
  }

  lemma ParseGroupsCons(pieces: seq<string>, v: nat, rest: set<int>)
    requires |pieces| > 0 && ParseNat(pieces[0]) == Some(v) && ParseGroups(pieces[1..]) == Some(rest)
    ensures ParseGroups(pieces) == Some({v} + rest)
  {
  }

  lemma SetOfCons(values: seq<int>)
    requires |values| > 0
    ensures (set g | g in values) == {values[0]} + (set g | g in values[1..])
  {
    assert values == [values[0]] + values[1..];
  }

  /** Parsing the decimal renderings of naturals gives back exactly those naturals. */
  lemma {:induction false} ParseRendered(pieces: seq<string>, values: seq<int>)
    requires |pieces| == |values|
    requires forall i :: 0 <= i < |values| ==> values[i] >= 0 && pieces[i] == NatToString(values[i])
    ensures ParseGroups(pieces) == Some(set g | g in values)
    decreases |pieces|
  {
    if |pieces| > 0 {
      ParseNatToString(values[0]);
      ParseRendered(pieces[1..], values[1..]);
      ParseGroupsCons(pieces, values[0], set g | g in values[1..]);
      SetOfCons(values);
    } else {
      assert (set g | g in values) == {};
    }
  }

  /** The decimal renderings of the sorted selection, when every group is positive. */
  lemma SortedRenderings(selected: seq<int>)
    requires |selected| > 0
    requires forall i :: 0 <= i < |selected| ==> selected[i] > 0
    ensures var sorted := SortBy(selected, IntKey);
      && |sorted| == |SortedStrings(selected)|
      && (forall i :: 0 <= i < |sorted| ==> sorted[i] > 0 && SortedStrings(selected)[i] == NatToString(sorted[i]))
      && (set g | g in sorted) == SelectedSet(selected)
  {
    var sorted := SortBy(selected, IntKey);
    var pieces := SortedStrings(selected);
    assert |sorted| == |multiset(sorted)| == |selected|;
    forall i | 0 <= i < |sorted| ensures sorted[i] > 0 && pieces[i] == NatToString(sorted[i]) {
      assert sorted[i] in multiset(selected);
    }
    assert AllGroups !in selected;
    forall g ensures g in sorted <==> g in selected {
      assert g in sorted <==> g in multiset(sorted);
    }
  }

  /** A marker pinyin built from the renderings of some naturals decodes, under code -1, to exactly those naturals. */
  lemma DecodeRendered(prefix: string, pieces: seq<string>, values: seq<int>)
    requires prefix == StartPrefix || prefix == EndPrefix
    requires |pieces| == |values| > 0
    requires forall i :: 0 <= i < |values| ==> values[i] >= 0 && pieces[i] == NatToString(values[i])
    ensures DecodeGroups(SeveralGroups, prefix + Join(pieces, ',') + "_") == Groups(set g | g in values)
  {
    var gs := Join(pieces, ',');
    GroupTextChars(pieces);
    MatchesOwnPinyin(prefix, gs);
    forall i | 0 <= i < |pieces| ensures ',' !in pieces[i] {
      assert AllDigits(pieces[i]);
    }
    SplitJoin(pieces, ',');
    ParseRendered(pieces, values);
  }

  /**
    Round trip: for two or more positive groups, both marker rows decode to
    exactly the selected set, whatever order the selection was in.
   */
  lemma EncodeDecodeSeveral(selected: seq<int>)
    requires |selected| > 1
    requires forall i :: 0 <= i < |selected| ==> selected[i] > 0
    ensures DecodeGroups(EncodeGroups(selected).code, EncodeGroups(selected).startPinyin) == Groups(SelectedSet(selected))
    ensures DecodeGroups(EncodeGroups(selected).code, EncodeGroups(selected).endPinyin) == Groups(SelectedSet(selected))
  {
    var sorted := SortBy(selected, IntKey);
    var pieces := SortedStrings(selected);
    assert AllGroups !in selected by {
      forall i | 0 <= i < |selected| ensures selected[i] != AllGroups {}
    }
    SortedRenderings(selected);
    DecodeRendered(StartPrefix, pieces, sorted);
    DecodeRendered(EndPrefix, pieces, sorted);
  }

  /** A single group other than -1, and the "all groups" selections, decode to what was selected. */
  lemma EncodeDecodeSingle(selected: seq<int>)
    requires |selected| == 0 || AllGroups in selected || (|selected| == 1 && selected[0] != SeveralGroups)
    ensures DecodeGroups(EncodeGroups(selected).code, EncodeGroups(selected).startPinyin) == Groups(SelectedSet(selected))
  {
    if |selected| == 1 && selected[0] != AllGroups {
      assert SelectedSet(selected) == {selected[0]};
    }
  }

  /**
    A selection of the single group -1 is written with the code that means
    "several groups" but with no list in the pinyin, so the history view
    finds no match and keeps whatever groups it had.
   */
  lemma SingleMinusOneUnreadable()
    ensures EncodeGroups([SeveralGroups]) == Marker(SeveralGroups, StartPrefix, EndPrefix)
    ensures DecodeGroups(SeveralGroups, StartPrefix) == NoMatch
  {
    var s := StartPrefix;
    forall i | 0 <= i <= |s| ensures GroupsAt(s, i).None? {
      if i == 0 {
        assert s[0..] == StartPrefix + [];
        assert AfterPrefix(s[0..]) == Some([]);
      }
    }
  }

  /**
    The two rows `save_practice_time` appends.  The clock is read once for
    each row: the start row is stamped `duration` before the first reading
    `t0`, the end row with the second reading `t1`.
   */
  function PracticeRows(sessionId: string, t0: int, t1: int, duration: int, selected: seq<int>): (rows: seq<Row>)
    ensures |rows| == 2
    ensures forall i :: 0 <= i < 2 ==> rows[i].character == PracticeCharacter && rows[i].sessionId == "practice_" + sessionId
    ensures forall i :: 0 <= i < 2 ==> rows[i].group == EncodeGroups(selected).code && !rows[i].correct
    ensures rows[0].pinyin == EncodeGroups(selected).startPinyin && rows[1].pinyin == EncodeGroups(selected).endPinyin
    ensures rows[1].timestamp - rows[0].timestamp == duration + (t1 - t0)
    ensures t0 <= t1 ==> rows[1].timestamp - rows[0].timestamp >= duration
  {
    var m := EncodeGroups(selected);
    [Row(t0 - duration, "practice_" + sessionId, m.startPinyin, PracticeCharacter, m.code, false),
     Row(t1, "practice_" + sessionId, m.endPinyin, PracticeCharacter, m.code, false)]
  }

  /** What the history view gathers for one session: whether it was a practice session, and its groups. */
  datatype SessionView = SessionView(isPractice: bool, groups: set<int>)

  /** One row of the session: a marker sets the groups it decodes to, a graded result adds its group; None where `int` raised. */
  function ViewRow(v: SessionView, r: Row): (n: Option<SessionView>)
    ensures r.character != PracticeCharacter ==> n == Some(v.(groups := v.groups + {r.group}))
    ensures r.character == PracticeCharacter && n.Some? ==> n.value.isPractice
    ensures n.None? <==> r.character == PracticeCharacter && DecodeGroups(r.group, r.pinyin).BadNumber?
  {
    if r.character == PracticeCharacter then
      match DecodeGroups(r.group, r.pinyin)
      case Groups(gs) => Some(SessionView(true, gs))
      case NoMatch => Some(v.(isPractice := true))
      case BadNumber => None
    else Some(v.(groups := v.groups + {r.group}))
  }

  /** A marker row whose group list the history view cannot turn into numbers. */
  predicate Unreadable(r: Row) {
    r.character == PracticeCharacter && DecodeGroups(r.group, r.pinyin).BadNumber?
  }

  /**
    The view of session `sid` after the given rows, in file order: rows of
    other sessions leave it alone, any marker row makes it a practice
    session, and an unreadable marker row of the session raises.
   */
  function ViewSession(rows: seq<Row>, sid: string, v: SessionView): (r: Option<SessionView>)
    ensures r.None? <==> exists row :: row in rows && row.sessionId == sid && Unreadable(row)
    ensures (forall row :: row in rows ==> row.sessionId != sid) ==> r == Some(v)
    ensures r.Some? ==> (r.value.isPractice <==>
      v.isPractice || exists row :: row in rows && row.sessionId == sid && row.character == PracticeCharacter)
    decreases |rows|
  {
    if |rows| == 0 then Some(v)
    else if rows[0].sessionId != sid then ViewSession(rows[1..], sid, v)
    else match ViewRow(v, rows[0])
      case None => None
      case Some(v1) => ViewSession(rows[1..], sid, v1)
  }

  /** The history view reads back, from the two rows a practice session writes, exactly the groups that were selected. */
  lemma PracticeSessionGroups(sessionId: string, t0: int, t1: int, duration: int, selected: seq<int>)
    requires || |selected| == 0 || AllGroups in selected
             || (|selected| == 1 && selected[0] != SeveralGroups)
             || (|selected| > 1 && forall i :: 0 <= i < |selected| ==> selected[i] > 0)
    ensures ViewSession(PracticeRows(sessionId, t0, t1, duration, selected), "practice_" + sessionId, SessionView(false, {}))
         == Some(SessionView(true, SelectedSet(selected)))
  {
    var rows := PracticeRows(sessionId, t0, t1, duration, selected);
    var m := EncodeGroups(selected);
    var sid := "practice_" + sessionId;
    var v := SessionView(true, SelectedSet(selected));
    if |selected| > 1 && AllGroups !in selected {
      EncodeDecodeSeveral(selected);
    } else {
      EncodeDecodeSingle(selected);
      assert DecodeGroups(m.code, m.endPinyin) == DecodeGroups(m.code, m.startPinyin);
    }
    assert ViewRow(SessionView(false, {}), rows[0]) == Some(v);
    assert ViewRow(v, rows[1]) == Some(v);
    assert ViewSession(rows, sid, SessionView(false, {})) == ViewSession(rows[1..], sid, v);
    assert rows[1..][1..] == [];
    assert ViewSession(rows[1..], sid, v) == ViewSession([], sid, v);
  }
}
