/**
  The per-character decision of `get_key`: one raw character read from the
  terminal becomes either a command key or nothing.  The drain loops that
  swallow the rest of an escape or control sequence are modelled as "the
  rest of the pending input is discarded"; their 150 ms / 50 ms timings are
  not modelled.
 */
module Keys {
  import opened Wrappers

  const Esc: char := 27 as char

  /** The characters, besides space, that `get_key` hands back unchanged. */
  const CommandChars: string := "qQxX0123456789pdwmsPDWMSuUiItTbBhH"

  predicate IsCommandChar(c: char) {
    c == ' ' || c in CommandChars
  }

  /** A key that the decoder can return. */
  type Key = c: char | IsCommandChar(c) witness ' '

  predicate IsControl(c: char) {
    c as int < 32
  }

  /** One key press as the session loops see it: the decoded key (None for noise) and its arrival time in milliseconds. */
  datatype Press = Press(key: Option<Key>, at: int)

  /** The decision `get_key` takes on the first character it reads. */
  function ClassifyChar(c: char): (k: Option<Key>)
    ensures k.Some? <==> IsCommandChar(c)
    ensures k.Some? ==> k.value == c
    ensures c == Esc || IsControl(c) ==> k == None
  {
    CommandCharsPrintable(c);
    if c == Esc then None
    else if c as int < 32 && c != ' ' then None
    else if c == ' ' || c in CommandChars then Some(c)
    else None
  }

  /** Every command character is printable: none is a control character or the escape. */
  lemma CommandCharsPrintable(c: char)
    ensures IsCommandChar(c) ==> 32 <= c as int
  {
    if c in CommandChars {
      var i :| 0 <= i < |CommandChars| && CommandChars[i] == c;
    }
  }

  /** Whether reading `c` starts a drain of the pending input. */
  predicate Drains(c: char) {
    c == Esc || IsControl(c)
  }

  datatype Read = Read(key: Option<Key>, rest: seq<char>)

  /**
    One call of `get_key` on the pending input: the first character is
    classified; after an escape or control character everything else that is
    pending is drained, otherwise only that one character is consumed.
   */
  function GetKey(pending: seq<char>): (r: Read)
    requires |pending| > 0
    ensures r.key.Some? ==> r.key.value == pending[0] && r.rest == pending[1..]
    ensures pending[0] == Esc ==> r == Read(None, [])
    ensures IsControl(pending[0]) ==> r == Read(None, [])
    ensures !Drains(pending[0]) && !IsCommandChar(pending[0]) ==> r == Read(None, pending[1..])
  {
    var c := pending[0];
    if Drains(c) then Read(None, []) else Read(ClassifyChar(c), pending[1..])
  }

  /** Calls `get_key` until the pending input is used up, collecting what it returns. */
  function DecodeAll(pending: seq<char>): (keys: seq<Option<Key>>)
    ensures |keys| <= |pending|
    ensures |pending| > 0 ==> |keys| > 0 && keys[0] == ClassifyChar(pending[0])
    decreases |pending|
  {
    if |pending| == 0 then [] else [GetKey(pending).key] + DecodeAll(GetKey(pending).rest)
  }

  /** Without escape or control characters every character is classified on its own. */
  lemma {:induction false} DecodeAllPrintable(pending: seq<char>)
    requires forall i :: 0 <= i < |pending| ==> !Drains(pending[i])
    ensures |DecodeAll(pending)| == |pending|
    ensures forall i :: 0 <= i < |pending| ==> DecodeAll(pending)[i] == ClassifyChar(pending[i])
  {
    if |pending| > 0 {
      DecodeAllPrintable(pending[1..]);
    }
  }

  /** Input that begins with ESC, whatever follows it, yields a single None. */
  lemma EscapeSwallowsSequence(pending: seq<char>)
    requires |pending| > 0 && pending[0] == Esc
    ensures DecodeAll(pending) == [None]
  {
  }
}
