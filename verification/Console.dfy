/** The serial console: line editing and the in-place tokeniser. */
module Console {
  import opened Words
  import S = Session

  const INPUT_BUF_SIZE := 256
  const MAX_ARGS := 8
  const NUL := '\0'
  const DEL: u8 := 127

  // ------------------------------------------------------------------ specification

  /** The number of characters before the first space. */
  function TokenLen(s: string): (n: nat)
    ensures n <= |s| && (forall k | 0 <= k < n :: s[k] != ' ') && (n < |s| ==> s[n] == ' ')
  {
    if s == [] || s[0] == ' ' then 0 else 1 + TokenLen(s[1..])
  }

  /** The maximal runs of characters other than space. */
  function Tokens(s: string): seq<string>
    decreases |s|
  {
    if s == [] then []
    else if s[0] == ' ' then Tokens(s[1..])
    else
      var n := TokenLen(s);
      assert n > 0;
      [s[..n]] + Tokens(s[n..])
  }

  function FirstArgs(tokens: seq<string>): seq<string> {
    if |tokens| <= 8 then tokens else tokens[..8]
  }

  /** The C string that starts at the beginning of `s`. */
  function CString(s: string): string {
    if s == [] || s[0] == NUL then [] else [s[0]] + CString(s[1..])
  }

  predicate NoNul(s: string) { forall k | 0 <= k < |s| :: s[k] != NUL }

  /** What one received byte does to the line, and the line it completes. */
  function Edit(line: string, c: u8): (string, Option<string>) {
    if c == 13 || c == 10 then ([], if line == [] then None else Some(line))
    else if (c == 127 || c == 8) && line != [] then (line[..|line| - 1], None)
    else if c >= 32 && |line| < INPUT_BUF_SIZE - 1 then (line + [c as char], None)
    else (line, None)
  }

  // --------------------------------------------------------------------- tokeniser

  lemma TokenFound(line: string, start: nat, end: nat)
    requires start < end <= |line|
    requires forall k | start <= k < end :: line[k] != ' '
    requires end < |line| ==> line[end] == ' '
    ensures Tokens(line[start..]) == [line[start..end]] + Tokens(line[end..])
  {
    var s := line[start..];
    var n := TokenLen(s);
    assert n < |s| ==> s[n] == line[start + n];
    assert end < |line| ==> s[end - start] == line[end];
    assert s[..n] == line[start..end] && s[n..] == line[end..];
  }

  lemma SpaceSkipped(line: string, p: nat)
    requires p < |line| && line[p] == ' '
    ensures Tokens(line[p..]) == Tokens(line[p + 1..])
  {
    assert line[p..][1..] == line[p + 1..];
  }

  lemma {:induction false} CStringIs(s: string, n: nat)
    requires n < |s| && NoNul(s[..n]) && s[n] == NUL
    ensures CString(s) == s[..n]
    decreases n
  {
    if n > 0 {
      assert s[0] == s[..n][0];
      assert s[1..][..n - 1] == s[..n][1..];
      CStringIs(s[1..], n - 1);
    }
  }

  /** The strings at `argv` in `b`, all ended at or before `p`, are `tokens`. */
  ghost predicate Holds(b: string, argv: seq<nat>, tokens: seq<string>, p: nat) {
    && |argv| == |tokens|
    && forall i | 0 <= i < |argv| ::
         && tokens[i] != [] && argv[i] + |tokens[i]| <= p && argv[i] + |tokens[i]| < |b|
         && b[argv[i]..argv[i] + |tokens[i]|] == tokens[i] && NoNul(tokens[i])
         && b[argv[i] + |tokens[i]|] == NUL
  }

  lemma HoldsNone(b: string)
    ensures Holds(b, [], [], 0)
  {
  }

  lemma HoldsLater(b: string, argv: seq<nat>, tokens: seq<string>, p: nat, p': nat)
    requires Holds(b, argv, tokens, p) && p <= p'
    ensures Holds(b, argv, tokens, p')
  {
  }

  /** Ending one more token keeps the earlier ones. */
  lemma HoldsMore(b: string, b': string, argv: seq<nat>, tokens: seq<string>, start: nat, end: nat)
    requires Holds(b, argv, tokens, start) && start < end < |b|
    requires b' == b[end := NUL] && NoNul(b[start..end])
    ensures Holds(b', argv + [start], tokens + [b[start..end]], end)
  {
    forall i | 0 <= i < |argv| ensures b'[argv[i]..argv[i] + |tokens[i]|] == tokens[i] {
      assert b'[argv[i]..argv[i] + |tokens[i]|] == b[argv[i]..argv[i] + |tokens[i]|];
    }
    assert b'[start..end] == b[start..end];
  }

  /** Once the line is used up, or eight tokens are found, `argv` is the result. */
  lemma HoldsReads(b: string, argv: seq<nat>, tokens: seq<string>, p: nat, line: string)
    requires Holds(b, argv, tokens, p) && p <= |line| < |b|
    requires Tokens(line) == tokens + Tokens(line[p..])
    requires |argv| <= MAX_ARGS && (|argv| == MAX_ARGS || p == |line|)
    ensures IsArgv(b, argv, line)
  {
    assert FirstArgs(Tokens(line)) == tokens by {
      hide Holds;
      if p == |line| {
        assert line[p..] == [];
      }
    }
    hide Tokens;
    forall i | 0 <= i < |argv| ensures CString(b[argv[i]..]) == tokens[i] {
      var s := b[argv[i]..];
      assert s[..|tokens[i]|] == tokens[i];
      CStringIs(s, |tokens[i]|);
    }
  }

  /** The strings at `argv` are the first eight tokens of the line, and lie in it. */
  ghost predicate IsArgv(b: string, argv: seq<nat>, line: string) {
    var expected := FirstArgs(Tokens(line));
    && |argv| == |expected|
    && forall i | 0 <= i < |argv| :: argv[i] < |line| <= |b| && CString(b[argv[i]..]) == expected[i]
  }

  /** `process_line` up to the dispatch: `argv` holds offsets into the buffer. */
  method ProcessLine(buf: array<char>, len: nat) returns (argv: seq<nat>)
    requires len < buf.Length && buf[len] == NUL && NoNul(buf[..len])
    modifies buf
    ensures IsArgv(buf[..], argv, old(buf[..len]))
    ensures buf[len..] == old(buf[len..])
  {
    hide Tokens, TokenLen, CString, Holds, IsArgv;
    ghost var line := buf[..len];
    ghost var tokens: seq<string> := [];
    argv := [];
    var p := 0;
    assert line[0..] == line && tokens + Tokens(line) == Tokens(line);
    HoldsNone(buf[..]);
    while buf[p] != NUL && |argv| < MAX_ARGS
      invariant p <= len && |argv| <= MAX_ARGS
      invariant forall k | p <= k < buf.Length :: buf[k] == old(buf[k])
      invariant buf[len..] == old(buf[len..])
      invariant Holds(buf[..], argv, tokens, p)
      invariant Tokens(line) == tokens + Tokens(line[p..])
      decreases len - p
    {
      ghost var (b, earlier, q) := (buf[..], argv, p);
      while buf[p] == ' '
        invariant q <= p <= len && buf[..] == b
        invariant Tokens(line) == tokens + Tokens(line[p..])
        decreases len - p
      {
        SpaceSkipped(line, p);
        p := p + 1;
      }
      HoldsLater(b, argv, tokens, q, p);
      if buf[p] == NUL {
        break;
      }
      argv := argv + [p];
      ghost var start := p;
      while buf[p] != NUL && buf[p] != ' '
        invariant start <= p <= len && buf[..] == b
        invariant forall k | start <= k < p :: line[k] != ' '
        decreases len - p
      {
        p := p + 1;
      }
      ghost var end := p;
      TokenFound(line, start, end);
      if buf[p] != NUL {
        buf[p] := NUL;
        SpaceSkipped(line, p);
        p := p + 1;
      }
      assert b[start..end] == line[start..end] by {
        assert forall k | start <= k < end :: b[k] == line[k];
      }
      HoldsMore(b, buf[..], earlier, tokens, start, end);
      HoldsLater(buf[..], argv, tokens + [line[start..end]], end, p);
      tokens := tokens + [line[start..end]];
    }
    HoldsReads(buf[..], argv, tokens, p, line);
  }

  // ---------------------------------------------------------------------- the console

  class Console {
    const buf: array<char>
    var inputLen: nat

    ghost predicate Valid() reads this, buf {
      buf.Length == INPUT_BUF_SIZE && inputLen < INPUT_BUF_SIZE && NoNul(buf[..inputLen])
    }

    /** The characters typed so far. */
    ghost function Line(): string reads this, buf requires Valid() { buf[..inputLen] }

    constructor ()
      ensures Valid() && Line() == [] && fresh(buf)
    {
      buf := new char[INPUT_BUF_SIZE](_ => NUL);
      inputLen := 0;
    }

    /** `console_task` for one received byte: the arguments to dispatch, if any. */
    method Receive(c: u8) returns (argv: seq<nat>)
      requires Valid()
      modifies this, buf
      ensures Valid() && Line() == Edit(old(Line()), c).0
      ensures match Edit(old(Line()), c).1
              case None => argv == []
              case Some(line) => IsArgv(buf[..], argv, line)
    {
      argv := [];
      if c == 13 || c == 10 {
        if inputLen > 0 {
          assert buf[..inputLen] == Line();
          buf[inputLen] := NUL;
          argv := ProcessLine(buf, inputLen);
          inputLen := 0;
        }
      } else if (c == 127 || c == 8) && inputLen > 0 {
        inputLen := inputLen - 1;
      } else if c >= 32 && inputLen < INPUT_BUF_SIZE - 1 {
        buf[inputLen] := c as char;
        inputLen := inputLen + 1;
      }
    }

    /** The host went away. */
    method Disconnect()
      requires Valid()
      modifies this`inputLen
      ensures Valid() && Line() == []
    {
      inputLen := 0;
    }
  }

  // -------------------------------------------------------------------------- results

  function Spaces(n: nat): (s: string)
    ensures |s| == n
  {
    if n == 0 then [] else [' '] + Spaces(n - 1)
  }

  /** The words with the given numbers of spaces before each, and some at the end. */
  function Spaced(words: seq<string>, gaps: seq<nat>, tail: nat): string
    requires |gaps| == |words|
  {
    if words == [] then Spaces(tail)
    else Spaces(gaps[0]) + (words[0] + Spaced(words[1..], gaps[1..], tail))
  }

  predicate IsWord(w: string) { w != [] && ' ' !in w }

  lemma {:induction false} SpacesSkipped(n: nat, s: string)
    ensures Tokens(Spaces(n) + s) == Tokens(s)
  {
    hide TokenLen;
    if n == 0 {
      assert Spaces(n) + s == s;
    } else {
      SpacesSkipped(n - 1, s);
      assert (Spaces(n) + s)[1..] == Spaces(n - 1) + s;
    }
  }

  /** However words are spaced out, the tokens are the words. */
  lemma {:induction false} TokensOfSpaced(words: seq<string>, gaps: seq<nat>, tail: nat)
    requires |gaps| == |words| && forall w | w in words :: IsWord(w)
    requires forall i | 0 < i < |gaps| :: gaps[i] > 0
    ensures Tokens(Spaced(words, gaps, tail)) == words
  {
    if words == [] {
      assert Tokens([]) == [];
      SpacesSkipped(tail, []);
      assert Spaces(tail) + [] == Spaces(tail);
    } else {
      hide Tokens;
      var rest := Spaced(words[1..], gaps[1..], tail);
      var s := words[0] + rest;
      TokensOfSpaced(words[1..], gaps[1..], tail);
      SpacesSkipped(gaps[0], s);
      StartsSpaced(words[1..], gaps[1..], tail);
      assert words[0] in words && IsWord(words[0]);
      TokenFound(s, 0, |words[0]|);
      assert s[0..] == s && s[0..|words[0]|] == words[0] && s[|words[0]|..] == rest;
    }
  }

  lemma StartsSpaced(words: seq<string>, gaps: seq<nat>, tail: nat)
    requires |gaps| == |words| && forall i | 0 <= i < |gaps| :: gaps[i] > 0
    ensures var s := Spaced(words, gaps, tail); s == [] || s[0] == ' '
  {
  }

  /** Dropping the tokens after the eighth makes no difference to the dispatcher:
      a line that long is refused either way. */
  lemma TruncationUnseen<W>(permits: (W, u16, u32) -> bool, s: S.Session, line: string, call: S.Call<W>)
    requires Tokens(line) != []
    ensures S.Dispatched(permits, s, FirstArgs(Tokens(line)), call) == S.Dispatched(permits, s, Tokens(line), call)
    ensures |Tokens(line)| > 3 ==> !S.Accepted(s, FirstArgs(Tokens(line)), call.mounted, call.checked)
  {
    hide S.Commands, S.Handle, S.Expired, Tokens;
    var (cut, all) := (FirstArgs(Tokens(line)), Tokens(line));
    if cut != all {
      var c := S.Find(cut[0], 0);
      assert c.Some? ==> c.value.maxArgs <= 2;
    }
  }

  /** The line after some bytes. */
  function Typed(received: bytes): string {
    if received == [] then [] else Edit(Typed(received[..|received| - 1]), received[|received| - 1]).0
  }

  /** The bytes that show, as characters. */
  function Shown(received: bytes): string {
    if received == [] then []
    else
      var (before, c) := (Shown(received[..|received| - 1]), received[|received| - 1]);
      if c >= 32 then before + [c as char] else before
  }

  function First255(s: string): string {
    if |s| <= 255 then s else s[..255]
  }

  /** Without deletes and line ends, the line is what shows of the bytes received, up to
      255 characters, and either line end completes exactly that. */
  lemma {:induction false} ShownIsTyped(received: bytes, eol: u8)
    requires forall i | 0 <= i < |received| :: received[i] !in [8, 10, 13, 127]
    requires eol == 13 || eol == 10
    ensures Typed(received) == First255(Shown(received))
    ensures Edit(Typed(received), eol) ==
              ([], if Shown(received) == [] then None else Some(First255(Shown(received))))
    decreases |received|
  {
    if received != [] {
      ShownIsTyped(received[..|received| - 1], eol);
    }
  }

  /** A delete takes back the character before it, except behind a full line, which had
      no room for that character. */
  lemma DeleteTakesBackIff(line: string, c: u8, delete: u8)
    requires |line| <= 255 && c >= 32 && c != 127 && (delete == 127 || delete == 8)
    ensures Edit(Edit(line, c).0, delete) == (line, None) <==> |line| < 255
    ensures |line| == 255 ==> Edit(Edit(line, c).0, delete) == (line[..254], None)
  {
    if |line| < 255 {
      assert (line + [c as char])[..|line|] == line;
    }
  }

  /** Words typed with spaces between them, in 255 characters or fewer, reach the
      dispatcher as those words, the first eight of them. */
  lemma WordsArrive(received: bytes, eol: u8, words: seq<string>, gaps: seq<nat>, tail: nat)
    requires |gaps| == |words| && words != [] && forall w | w in words :: IsWord(w)
    requires forall i | 0 < i < |gaps| :: gaps[i] > 0
    requires forall i | 0 <= i < |received| :: received[i] !in [8, 10, 13, 127]
    requires Shown(received) == Spaced(words, gaps, tail) && |Shown(received)| <= 255
    requires eol == 13 || eol == 10
    ensures var line := Edit(Typed(received), eol).1;
            && line == Some(Spaced(words, gaps, tail))
            && FirstArgs(Tokens(line.value)) == if |words| <= 8 then words else words[..8]
  {
    hide Shown, Typed, Tokens;
    ShownIsTyped(received, eol);
    TokensOfSpaced(words, gaps, tail);
    assert words[0] in words && IsWord(words[0]);
  }

  /** The line was empty before byte `i` and never again. */
  ghost predicate Began(received: bytes, i: int): (began: bool)
    ensures began ==> 0 <= i < |received|
  {
    && 0 <= i < |received| && Typed(received[..i]) == []
    && forall m | i < m <= |received| :: Typed(received[..m]) != []
  }

  /** The byte with which a line began is its first character; no later one is a delete. */
  lemma {:induction false} LineBegins(received: bytes) returns (i: nat)
    requires Typed(received) != []
    ensures Began(received, i) && Typed(received)[0] == received[i] as char
    ensures forall k | 0 < k < |Typed(received)| :: Typed(received)[k] != DEL as char
    decreases |received|
  {
    var last := |received| - 1;
    var before := received[..last];
    assert received[..|received|] == received;
    if Typed(before) == [] {
      i := last;
    } else {
      i := LineBegins(before);
      assert before[..i] == received[..i];
      forall m | i < m <= |received| ensures Typed(received[..m]) != [] {
        if m < |received| {
          assert before[..m] == received[..m];
        }
      }
      Grows(Typed(before), received[last]);
    }
  }

  lemma Grows(line: string, c: u8)
    requires line != [] && forall k | 0 < k < |line| :: line[k] != DEL as char
    ensures var next := Edit(line, c).0;
            next != [] ==> next[0] == line[0] && forall k | 0 < k < |next| :: next[k] != DEL as char
  {
  }

  lemma BeganOnce(received: bytes, i: int, i': int)
    requires Began(received, i) && Began(received, i')
    ensures i == i'
  {
  }

  /** A completed line holds a delete if and only if it began with one: the byte
      that came when the line was last empty. */
  lemma DeleteInLineIff(received: bytes, eol: u8)
    requires eol == 13 || eol == 10
    requires Typed(received) != []
    ensures Edit(Typed(received), eol) == ([], Some(Typed(received)))
    ensures DEL as char in Typed(received) <==> exists i :: Began(received, i) && received[i] == DEL
  {
    hide Began, Typed;
    var i := LineBegins(received);
    if i' :| Began(received, i') && received[i'] == DEL {
      BeganOnce(received, i, i');
    }
  }
}
