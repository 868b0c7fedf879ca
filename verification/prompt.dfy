/** The elevation-prompt watcher `listenForPasswordPrompt` of
    model/command.go, as a pure function of the session's output stream.

    The Go loop reads one byte at a time and keeps it. On `[` it reads up to
    and including the next `]`; when that bracket text starts with `sudo` it
    reads up to and including the next `:` and then writes the password and a
    newline to the session's input. A read that meets the end of the stream
    before its delimiter ends the watcher, and its partial text is dropped.
    `Listen`, `ReadBracket` and `ReadPromptTail` follow the code's three
    reads; `Run` is the same watcher as a byte-at-a-time state machine, and
    the two are proved equal.
 */
module Prompt {
  import opened Bytes

  /** What the watcher leaves behind: the transcript it prints at the end
      and the writes it made to the session's input, in order. */
  datatype Transcript = Transcript(output: Bytes, writes: seq<Bytes>)

  const Newline: Bytes := "\n"

  /** `t` with `p` read before it. */
  function Prefixed(p: Bytes, t: Transcript): Transcript
  {
    Transcript(p + t.output, t.writes)
  }

  /** `t` with the prompt `p` read and answered with `answer` before it. */
  function Answered(p: Bytes, answer: Bytes, t: Transcript): Transcript
  {
    Transcript(p + t.output, [answer] + t.writes)
  }

  /** The `ReadByte` loop: every byte is kept, and `[` hands over to
      `ReadBracket`. */
  function Listen(password: Bytes, s: Bytes): (t: Transcript)
    ensures |t.writes| <= Count(s, '[')
    ensures forall i :: 0 <= i < |t.writes| ==> t.writes[i] == password + Newline
    decreases |s|
  {
    if |s| == 0 then Transcript([], [])
    else if s[0] != '[' then Prefixed([s[0]], Listen(password, s[1..]))
    else Prefixed([s[0]], ReadBracket(password, s[1..]))
  }

  /** `ReadString(']')` after a `[`: the text up to and including `]` is
      kept; text starting with `sudo` hands over to `ReadPromptTail`. No
      `]` before the end: nothing more is kept. */
  function ReadBracket(password: Bytes, s: Bytes): (t: Transcript)
    ensures |t.writes| <= 1 + Count(s, '[')
    ensures forall i :: 0 <= i < |t.writes| ==> t.writes[i] == password + Newline
    decreases |s|
  {
    var close := IndexOf(s, ']');
    if close == |s| then Transcript([], [])
    else
      CountSuffix(s, close + 1, '[');
      var text := s[..close + 1];
      if HasPrefix(text, "sudo") then Prefixed(text, ReadPromptTail(password, s[close + 1..]))
      else Prefixed(text, Listen(password, s[close + 1..]))
  }

  /** `ReadString(':')` after a `[sudo…]`: the text up to and including `:`
      is kept and the password is written. No `:` before the end: nothing
      more is kept and nothing is written. */
  function ReadPromptTail(password: Bytes, s: Bytes): (t: Transcript)
    ensures |t.writes| <= 1 + Count(s, '[')
    ensures forall i :: 0 <= i < |t.writes| ==> t.writes[i] == password + Newline
    decreases |s|
  {
    var colon := IndexOf(s, ':');
    if colon == |s| then Transcript([], [])
    else
      CountSuffix(s, colon + 1, '[');
      Answered(s[..colon + 1], password + Newline, Listen(password, s[colon + 1..]))
  }

  /** Where the watcher is between two bytes: scanning plain output, inside
      a bracket, or in the tail of a `[sudo…]` prompt. The two collecting
      phases hold the bytes read since the last delimiter; they reach the
      transcript only once the delimiter arrives. */
  datatype Phase = Scanning | InBracket(pending: Bytes) | InPromptTail(pending: Bytes)

  datatype Monitor = Monitor(output: Bytes, writes: seq<Bytes>, phase: Phase)

  /** Bytes read but not yet in the transcript. */
  function Pending(p: Phase): Bytes
  {
    match p
    case Scanning => []
    case InBracket(q) => q
    case InPromptTail(q) => q
  }

  const Start := Monitor([], [], Scanning)

  /** The phase after a bracket closes with text `q` (its `]` included):
      the prompt tail when the text starts with `sudo`. */
  function AfterBracket(q: Bytes): Phase
  {
    if HasPrefix(q, "sudo") then InPromptTail([]) else Scanning
  }

  /** One byte of output moves the watcher on. */
  function Step(password: Bytes, m: Monitor, b: Byte): Monitor
  {
    match m.phase
    case Scanning =>
      Monitor(m.output + [b], m.writes, if b == '[' then InBracket([]) else Scanning)
    case InBracket(q) =>
      if b == ']' then Monitor(m.output + q + [b], m.writes, AfterBracket(q + [b]))
      else m.(phase := InBracket(q + [b]))
    case InPromptTail(q) =>
      if b == ':' then Monitor(m.output + q + [b], m.writes + [password + Newline], Scanning)
      else m.(phase := InPromptTail(q + [b]))
  }

  /** The watcher run over a whole stream. */
  function Run(password: Bytes, m: Monitor, s: Bytes): Monitor
    decreases |s|
  {
    if |s| == 0 then m else Run(password, Step(password, m, s[0]), s[1..])
  }

  /** At the end of the stream the pending bytes are dropped. */
  function Finish(m: Monitor): Transcript
  {
    Transcript(m.output, m.writes)
  }

  /** `t` after a transcript `o` and writes `w` already made. */
  function Extend(o: Bytes, w: seq<Bytes>, t: Transcript): Transcript
  {
    Transcript(o + t.output, w + t.writes)
  }

  lemma ExtendEmpty(o: Bytes, w: seq<Bytes>)
    ensures Extend(o, w, Transcript([], [])) == Transcript(o, w)
  {
    assert o + [] == o && w + [] == w;
  }

  lemma ExtendPrefixed(o: Bytes, w: seq<Bytes>, p: Bytes, t: Transcript)
    ensures Extend(o, w, Prefixed(p, t)) == Extend(o + p, w, t)
  {
    assert o + (p + t.output) == o + p + t.output;
  }

  lemma ExtendAnswered(o: Bytes, w: seq<Bytes>, p: Bytes, a: Bytes, t: Transcript)
    ensures Extend(o, w, Answered(p, a, t)) == Extend(o + p, w + [a], t)
  {
    assert o + (p + t.output) == o + p + t.output;
    assert w + ([a] + t.writes) == w + [a] + t.writes;
  }

  /** Nothing read is lost or reordered: the transcript followed by the
      pending bytes is everything read so far. */
  lemma {:induction false} RunKeepsEveryByte(password: Bytes, m: Monitor, s: Bytes)
    ensures Run(password, m, s).output + Pending(Run(password, m, s).phase)
         == m.output + Pending(m.phase) + s
    decreases |s|
  {
    if |s| > 0 {
      var m' := Step(password, m, s[0]);
      assert m'.output + Pending(m'.phase) == m.output + Pending(m.phase) + [s[0]];
      RunKeepsEveryByte(password, m', s[1..]);
      assert [s[0]] + s[1..] == s;
    }
  }

  /** Inside a bracket with no `]` ahead the watcher only collects. */
  lemma {:induction false} RunInBracketUnclosed(password: Bytes, o: Bytes, w: seq<Bytes>, q: Bytes, s: Bytes)
    requires IndexOf(s, ']') == |s|
    ensures Run(password, Monitor(o, w, InBracket(q)), s) == Monitor(o, w, InBracket(q + s))
    decreases |s|
  {
    if |s| == 0 {
      assert q + s == q;
    } else {
      RunInBracketUnclosed(password, o, w, q + [s[0]], s[1..]);
      assert q + [s[0]] + s[1..] == q + s;
    }
  }

  /** Inside a bracket the watcher collects up to the first `]` and then
      closes the bracket. */
  lemma {:induction false} RunInBracketClosed(password: Bytes, o: Bytes, w: seq<Bytes>, q: Bytes, s: Bytes, j: nat)
    requires j == IndexOf(s, ']') < |s|
    ensures Run(password, Monitor(o, w, InBracket(q)), s) ==
      Run(password, Monitor(o + q + s[..j + 1], w, AfterBracket(q + s[..j + 1])), s[j + 1..])
    decreases |s|
  {
    if s[0] == ']' {
      assert s[..1] == [s[0]];
    } else {
      assert Step(password, Monitor(o, w, InBracket(q)), s[0]) == Monitor(o, w, InBracket(q + [s[0]]));
      RunInBracketClosed(password, o, w, q + [s[0]], s[1..], j - 1);
      assert q + [s[0]] + s[1..][..j] == q + s[..j + 1];
      assert o + (q + [s[0]]) + s[1..][..j] == o + q + s[..j + 1];
      assert s[1..][j..] == s[j + 1..];
    }
  }

  /** In a prompt tail with no `:` ahead the watcher only collects. */
  lemma {:induction false} RunInPromptTailUnclosed(password: Bytes, o: Bytes, w: seq<Bytes>, q: Bytes, s: Bytes)
    requires IndexOf(s, ':') == |s|
    ensures Run(password, Monitor(o, w, InPromptTail(q)), s) == Monitor(o, w, InPromptTail(q + s))
    decreases |s|
  {
    if |s| == 0 {
      assert q + s == q;
    } else {
      RunInPromptTailUnclosed(password, o, w, q + [s[0]], s[1..]);
      assert q + [s[0]] + s[1..] == q + s;
    }
  }

  /** In a prompt tail the watcher collects up to the first `:` and then
      answers with the password. */
  lemma {:induction false} RunInPromptTailClosed(password: Bytes, o: Bytes, w: seq<Bytes>, q: Bytes, s: Bytes, j: nat)
    requires j == IndexOf(s, ':') < |s|
    ensures Run(password, Monitor(o, w, InPromptTail(q)), s) ==
      Run(password, Monitor(o + q + s[..j + 1], w + [password + Newline], Scanning), s[j + 1..])
    decreases |s|
  {
    if s[0] == ':' {
      assert s[..1] == [s[0]];
    } else {
      assert Step(password, Monitor(o, w, InPromptTail(q)), s[0]) == Monitor(o, w, InPromptTail(q + [s[0]]));
      RunInPromptTailClosed(password, o, w, q + [s[0]], s[1..], j - 1);
      assert q + [s[0]] + s[1..][..j] == q + s[..j + 1];
      assert o + (q + [s[0]]) + s[1..][..j] == o + q + s[..j + 1];
      assert s[1..][j..] == s[j + 1..];
    }
  }

  /** A bracket opened with nothing collected closes on its first `]`. */
  lemma RunFreshBracketClosed(password: Bytes, o: Bytes, w: seq<Bytes>, s: Bytes, j: nat)
    requires j == IndexOf(s, ']') < |s|
    ensures Run(password, Monitor(o, w, InBracket([])), s) ==
      Run(password, Monitor(o + s[..j + 1], w, AfterBracket(s[..j + 1])), s[j + 1..])
  {
    RunInBracketClosed(password, o, w, [], s, j);
    assert [] + s[..j + 1] == s[..j + 1];
    assert o + [] + s[..j + 1] == o + s[..j + 1];
  }

  /** A prompt tail entered with nothing collected is answered at its
      first `:`. */
  lemma RunFreshPromptTailClosed(password: Bytes, o: Bytes, w: seq<Bytes>, s: Bytes, j: nat)
    requires j == IndexOf(s, ':') < |s|
    ensures Run(password, Monitor(o, w, InPromptTail([])), s) ==
      Run(password, Monitor(o + s[..j + 1], w + [password + Newline], Scanning), s[j + 1..])
  {
    RunInPromptTailClosed(password, o, w, [], s, j);
    assert o + [] + s[..j + 1] == o + s[..j + 1];
  }

  /** In the scanning phase the state machine produces what `Listen`
      produces, after what it had already. */
  lemma {:induction false} ScanningMatchesListen(password: Bytes, o: Bytes, w: seq<Bytes>, s: Bytes)
    ensures Finish(Run(password, Monitor(o, w, Scanning), s)) == Extend(o, w, Listen(password, s))
    decreases |s|
  {
    if |s| == 0 {
      ExtendEmpty(o, w);
    } else if s[0] != '[' {
      ScanningMatchesListen(password, o + [s[0]], w, s[1..]);
      ExtendPrefixed(o, w, [s[0]], Listen(password, s[1..]));
    } else {
      BracketMatchesReadBracket(password, o + [s[0]], w, s[1..]);
      ExtendPrefixed(o, w, [s[0]], ReadBracket(password, s[1..]));
    }
  }

  /** Inside a fresh bracket the state machine produces what `ReadBracket`
      produces. */
  lemma {:induction false} BracketMatchesReadBracket(password: Bytes, o: Bytes, w: seq<Bytes>, s: Bytes)
    ensures Finish(Run(password, Monitor(o, w, InBracket([])), s)) == Extend(o, w, ReadBracket(password, s))
    decreases |s|
  {
    var close := IndexOf(s, ']');
    if close == |s| {
      RunInBracketUnclosed(password, o, w, [], s);
      ExtendEmpty(o, w);
    } else {
      var text := s[..close + 1];
      RunFreshBracketClosed(password, o, w, s, close);
      if HasPrefix(text, "sudo") {
        assert AfterBracket(text) == InPromptTail([]);
        TailMatchesReadPromptTail(password, o + text, w, s[close + 1..]);
        ExtendPrefixed(o, w, text, ReadPromptTail(password, s[close + 1..]));
      } else {
        assert AfterBracket(text) == Scanning;
        ScanningMatchesListen(password, o + text, w, s[close + 1..]);
        ExtendPrefixed(o, w, text, Listen(password, s[close + 1..]));
      }
    }
  }

  /** In a fresh prompt tail the state machine produces what
      `ReadPromptTail` produces. */
  lemma {:induction false} TailMatchesReadPromptTail(password: Bytes, o: Bytes, w: seq<Bytes>, s: Bytes)
    ensures Finish(Run(password, Monitor(o, w, InPromptTail([])), s)) == Extend(o, w, ReadPromptTail(password, s))
    decreases |s|
  {
    var colon := IndexOf(s, ':');
    if colon == |s| {
      RunInPromptTailUnclosed(password, o, w, [], s);
      ExtendEmpty(o, w);
    } else {
      var text := s[..colon + 1];
      RunFreshPromptTailClosed(password, o, w, s, colon);
      assert ReadPromptTail(password, s) == Answered(text, password + Newline, Listen(password, s[colon + 1..]));
      ScanningMatchesListen(password, o + text, w + [password + Newline], s[colon + 1..]);
      ExtendAnswered(o, w, text, password + Newline, Listen(password, s[colon + 1..]));
    }
  }

  /** The code's reads and the state machine agree on every stream. */
  lemma ListenIsStateMachine(password: Bytes, s: Bytes)
    ensures Listen(password, s) == Finish(Run(password, Start, s))
  {
    ScanningMatchesListen(password, [], [], s);
    var t := Listen(password, s);
    assert [] + t.output == t.output && [] + t.writes == t.writes;
  }

  /** The transcript is the stream less the bytes still pending when it
      ended: always a prefix of the stream, and the whole stream exactly
      when no bytes are pending, that is when the stream does not end with
      text read after an unclosed `[`, or after the `]` of an unanswered
      `[sudo…]`. */
  lemma TranscriptIsStreamLessPending(password: Bytes, s: Bytes)
    ensures Listen(password, s).output + Pending(Run(password, Start, s).phase) == s
    ensures Listen(password, s).output <= s
    ensures Listen(password, s).output == s <==> Pending(Run(password, Start, s).phase) == []
  {
    ListenIsStateMachine(password, s);
    RunKeepsEveryByte(password, Start, s);
    var t := Listen(password, s).output;
    var p := Pending(Run(password, Start, s).phase);
    assert [] + [] + s == s;
    assert t + p == s;
    assert t == s[..|t|];
    if t == s {
      assert |p| == 0;
    }
    if p == [] {
      assert t + [] == t;
    }
  }

  lemma Reassociate(a: Bytes, b: Bytes, c: Bytes, d: Bytes, e: Bytes, f: Bytes, g: Bytes)
    ensures a + (b + (c + d + (e + f + g))) == a + b + c + d + e + f + g
  {
  }

  lemma ReassociateShort(a: Bytes, b: Bytes, c: Bytes, d: Bytes, e: Bytes)
    ensures a + (b + (c + d + e)) == a + b + c + d + e
  {
  }

  /** Output with no `[` is copied through and nothing is written. */
  lemma {:induction false} ListenPlain(password: Bytes, pre: Bytes, rest: Bytes)
    requires '[' !in pre
    ensures Listen(password, pre + rest) == Prefixed(pre, Listen(password, rest))
  {
    if |pre| == 0 {
      assert pre + rest == rest;
    } else {
      assert (pre + rest)[1..] == pre[1..] + rest;
      ListenPlain(password, pre[1..], rest);
      assert [pre[0]] + (pre[1..] + Listen(password, rest).output) == pre + Listen(password, rest).output;
    }
  }

  /** A bracket `[text]` is kept whole; only text starting with `sudo`
      moves on to the prompt tail. */
  lemma ReadBracketAt(password: Bytes, text: Bytes, rest: Bytes)
    requires ']' !in text
    ensures ReadBracket(password, text + "]" + rest) ==
      if HasPrefix(text + "]", "sudo") then Prefixed(text + "]", ReadPromptTail(password, rest))
      else Prefixed(text + "]", Listen(password, rest))
  {
    var s := text + "]" + rest;
    IndexOfAfter(text, ']', rest);
    assert s[..|text| + 1] == text + "]";
    assert s[|text| + 1..] == rest;
  }

  /** A prompt tail is answered at its first `:`. */
  lemma ReadPromptTailAt(password: Bytes, tail: Bytes, rest: Bytes)
    requires ':' !in tail
    ensures ReadPromptTail(password, tail + ":" + rest) ==
      Answered(tail + ":", password + Newline, Listen(password, rest))
  {
    var s := tail + ":" + rest;
    IndexOfAfter(tail, ':', rest);
    assert s[..|tail| + 1] == tail + ":";
    assert s[|tail| + 1..] == rest;
  }

  /** A `[sudo…]` prompt ending in `:` is answered with exactly one write
      of the password and a newline, and the prompt stays in the
      transcript. */
  lemma PromptAnswered(password: Bytes, pre: Bytes, text: Bytes, tail: Bytes, rest: Bytes)
    requires '[' !in pre && ']' !in text && ':' !in tail
    requires HasPrefix(text, "sudo")
    ensures var prompt := pre + "[" + text + "]" + tail + ":";
      Listen(password, prompt + rest) ==
        Transcript(prompt + Listen(password, rest).output, [password + Newline] + Listen(password, rest).writes)
  {
    var after := Listen(password, rest);
    var t := ReadPromptTail(password, tail + ":" + rest);
    ReadPromptTailAt(password, tail, rest);
    var b := ReadBracket(password, text + "]" + (tail + ":" + rest));
    assert HasPrefix(text + "]", "sudo") by {
      assert (text + "]")[..4] == text[..4];
    }
    ReadBracketAt(password, text, tail + ":" + rest);
    assert b == Transcript(text + "]" + (tail + ":" + after.output), [password + Newline] + after.writes);
    var s := "[" + (text + "]" + (tail + ":" + rest));
    assert Listen(password, s) == Prefixed("[", b);
    ListenPlain(password, pre, s);
    Reassociate(pre, "[", text, "]", tail, ":", rest);
    Reassociate(pre, "[", text, "]", tail, ":", after.output);
  }

  /** A bracket whose text does not start with `sudo` is only copied: the
      watcher goes back to scanning right after the `]`. */
  lemma OtherBracketIgnored(password: Bytes, pre: Bytes, text: Bytes, rest: Bytes)
    requires '[' !in pre && ']' !in text
    requires !HasPrefix(text + "]", "sudo")
    ensures var bracket := pre + "[" + text + "]";
      Listen(password, bracket + rest) == Prefixed(bracket, Listen(password, rest))
  {
    var after := Listen(password, rest);
    ReadBracketAt(password, text, rest);
    var s := "[" + (text + "]" + rest);
    assert Listen(password, s) == Prefixed("[", Prefixed(text + "]", after));
    ListenPlain(password, pre, s);
    ReassociateShort(pre, "[", text, "]", rest);
    ReassociateShort(pre, "[", text, "]", after.output);
  }

  /** A `[sudo…]` prompt whose `:` never arrives is not answered, and the
      bytes read after its `]` are dropped from the transcript. */
  lemma PromptUnanswered(password: Bytes, pre: Bytes, text: Bytes, tail: Bytes)
    requires '[' !in pre && ']' !in text && ':' !in tail
    requires HasPrefix(text, "sudo")
    ensures Listen(password, pre + "[" + text + "]" + tail) == Transcript(pre + "[" + text + "]", [])
  {
    assert ReadPromptTail(password, tail) == Transcript([], []);
    assert HasPrefix(text + "]", "sudo") by {
      assert (text + "]")[..4] == text[..4];
    }
    ReadBracketAt(password, text, tail);
    var s := "[" + (text + "]" + tail);
    assert Listen(password, s) == Transcript("[" + (text + "]" + []), []);
    ListenPlain(password, pre, s);
    ReassociateShort(pre, "[", text, "]", tail);
    ReassociateShort(pre, "[", text, "]", []);
  }

  lemma SudoPromptSpelling(pre: Bytes, text: Bytes, tail: Bytes, prompt: Bytes)
    requires pre == "..." && text == "sudo" && tail == " password for bob"
    requires prompt == "...[sudo] password for bob:"
    ensures pre + "[" + text + "]" + tail + ":" == prompt
  {
  }

  /** The shape of a real elevation prompt: one write of the password. */
  lemma SudoPromptExample(password: Bytes)
    ensures Listen(password, "...[sudo] password for bob:") ==
      Transcript("...[sudo] password for bob:", [password + Newline])
  {
    var e: Bytes := [];
    var pre: Bytes := "...";
    var text: Bytes := "sudo";
    var tail: Bytes := " password for bob";
    var prompt: Bytes := "...[sudo] password for bob:";
    SudoPromptSpelling(pre, text, tail, prompt);
    assert prompt + e == prompt;
    assert Listen(password, e) == Transcript([], []);
    assert [password + Newline] + [] == [password + Newline];
    PromptAnswered(password, pre, text, tail, e);
  }

  /** Bracketed text that is not a `sudo` prompt: no write at all. */
  lemma OtherBracketExample(password: Bytes)
    ensures Listen(password, "[other] text") == Transcript("[other] text", [])
  {
    var e: Bytes := [];
    var text: Bytes := "other";
    var rest: Bytes := " text";
    var whole: Bytes := "[other] text";
    assert e + "[" + text + "]" + rest == whole;
    assert !HasPrefix(text + "]", "sudo") by {
      assert (text + "]")[0] != 's';
    }
    ListenPlain(password, rest, e);
    assert rest + e == rest;
    assert Listen(password, e) == Transcript([], []);
    OtherBracketIgnored(password, e, text, rest);
    assert e + "[" + text + "]" + (rest + []) == whole;
  }
}
