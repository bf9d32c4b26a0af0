/**
 The shell's tokeniser: it ends each word of the command buffer with a NUL in place and
 collects the words' addresses.
 */
module Shell {
  import opened Options
  import opened Words

  const MAX_CMD_LEN := 256
  const MAX_ARGS := 32

  predicate IsSep(c: char) { c in {' ', '\t', '|', '>', '<', '&'} }

  // ---------------------------------------------------------------- splitting a line

  function SkipSeps(s: string): (r: string)
    ensures |r| <= |s| && (r == "" || !IsSep(r[0]))
  {
    if s == "" || !IsSep(s[0]) then s else SkipSeps(s[1..])
  }

  /** The longest prefix without separators. */
  function FirstRun(s: string): (w: string)
    ensures |w| <= |s| && w == s[..|w|] && (|w| == |s| || IsSep(s[|w|]))
    ensures forall i :: 0 <= i < |w| ==> !IsSep(w[i])
  {
    if s == "" || IsSep(s[0]) then "" else [s[0]] + FirstRun(s[1..])
  }

  /** The maximal runs of characters that are no separators, in order. */
  function Split(s: string): (ws: seq<string>)
    decreases |s|
  {
    var t := SkipSeps(s);
    if t == "" then [] else [FirstRun(t)] + Split(t[|FirstRun(t)|..])
  }

  function Join(ws: seq<string>): string {
    if ws == [] then "" else ws[0] + " " + Join(ws[1..])
  }

  predicate IsWord(w: string) { w != "" && forall i :: 0 <= i < |w| ==> !IsSep(w[i]) }

  lemma {:induction false} RunStops(w: string, rest: string)
    requires forall i :: 0 <= i < |w| ==> !IsSep(w[i])
    requires rest == "" || IsSep(rest[0])
    ensures FirstRun(w + rest) == w
  {
    if w == "" {
      assert w + rest == rest;
    } else {
      RunStops(w[1..], rest);
      assert (w + rest)[1..] == w[1..] + rest;
    }
  }

  /** Splitting undoes joining: words joined by spaces are found again. */
  lemma {:induction false} SplitOfJoin(ws: seq<string>)
    requires forall k :: 0 <= k < |ws| ==> IsWord(ws[k])
    ensures Split(Join(ws)) == ws
  {
    if ws != [] {
      var w, rest := ws[0], Join(ws[1..]);
      var s := Join(ws);
      assert s == w + (" " + rest);
      assert s[0] == w[0];
      RunStops(w, " " + rest);
      assert s[|w|..] == " " + rest;
      SeparatorFirst(' ', rest);
      SplitOfJoin(ws[1..]);
    }
  }

  lemma SeparatorFirst(c: char, rest: string)
    requires IsSep(c)
    ensures Split([c] + rest) == Split(rest)
  {
    assert ([c] + rest)[1..] == rest;
  }

  // The six separators, and the characters of words.
  predicate AllSeparators(s: string) { forall i :: 0 <= i < |s| ==> s[i] in " \t|><&" }

  predicate NoSeparator(w: string) { w != "" && forall i :: 0 <= i < |w| ==> w[i] !in " \t|><&" }

  function JoinWith(ws: seq<string>, gaps: seq<string>): string
    requires |gaps| == |ws|
  {
    if ws == [] then "" else ws[0] + gaps[0] + JoinWith(ws[1..], gaps[1..])
  }

  /** A line of words with separators in front, between and behind, of any of the six kinds and
      as many as one likes, is split into these words. */
  lemma {:induction false} SplitOfSeparated(lead: string, ws: seq<string>, gaps: seq<string>)
    requires |gaps| == |ws| && AllSeparators(lead)
    requires forall k :: 0 <= k < |ws| ==> NoSeparator(ws[k]) && AllSeparators(gaps[k])
    requires forall k :: 0 <= k < |ws| - 1 ==> gaps[k] != ""
    ensures Split(lead + JoinWith(ws, gaps)) == ws
    decreases |ws|, |lead|
  {
    hide Split, FirstRun, IsSep;
    SixSeparators();
    var line := JoinWith(ws, gaps);
    if lead != "" {
      SplitOfSeparated(lead[1..], ws, gaps);
      assert lead + line == [lead[0]] + (lead[1..] + line);
      SeparatorFirst(lead[0], lead[1..] + line);
    } else if ws != [] {
      var w, rest := ws[0], gaps[0] + JoinWith(ws[1..], gaps[1..]);
      SplitOfSeparated(gaps[0], ws[1..], gaps[1..]);
      assert lead + line == w + rest && (w + rest)[0] == w[0];
      assert gaps[0] == "" ==> |ws| == 1 && rest == "";
      RunStops(w, rest);
      FirstWord(w, rest);
    } else {
      NoWords();
    }
  }

  lemma NoWords()
    ensures Split("") == []
  {
  }

  lemma FirstWord(w: string, rest: string)
    requires w != "" && FirstRun(w + rest) == w && !IsSep(w[0])
    ensures Split(w + rest) == [w] + Split(rest)
  {
    assert (w + rest)[0] == w[0] && (w + rest)[|w|..] == rest;
  }

  lemma SixSeparators()
    ensures forall c :: IsSep(c) <==> c in " \t|><&"
  {
    var six := " \t|><&";
    assert six[0] == ' ' && six[1] == '\t' && six[2] == '|' && six[3] == '>' && six[4] == '<' && six[5] == '&';
  }

  // ---------------------------------------------------------------- C strings

  function CString(s: string): (r: string)
    ensures |r| <= |s|
  {
    if s == "" || s[0] == '\0' then "" else [s[0]] + CString(s[1..])
  }

  // A word that stands in the buffer with a NUL behind it, all before `i` or at the end `n`.
  ghost predicate Placed(buf: string, at: nat, w: string, i: nat, n: nat) {
    && at + |w| < |buf| && buf[at..at + |w|] == w && buf[at + |w|] == '\0'
    && (forall k :: 0 <= k < |w| ==> w[k] != '\0')
    && (at + |w| < i || at + |w| == i == n)
  }

  lemma {:induction false} PlacedReads(buf: string, at: nat, w: string, i: nat, n: nat)
    requires Placed(buf, at, w, i, n)
    ensures CString(buf[at..]) == w
    decreases |w|
  {
    if w != "" {
      assert buf[at] == buf[at..at + |w|][0];
      assert buf[at + 1..at + |w|] == buf[at..at + |w|][1..];
      PlacedReads(buf, at + 1, w[1..], i, n);
      assert buf[at..][1..] == buf[at + 1..] && buf[at..][0] == w[0];
    } else {
      assert buf[at..][0] == '\0';
    }
  }

  // ---------------------------------------------------------------- the tokeniser

  /** shell_parse_line: `argv` points at the first 31 words of the line, as C strings in the
      command buffer. A line longer than the buffer is cut. */
  method ParseLine(line: string, command: array<char>, argv: array<Option<nat>>) returns (argc: nat)
    requires command.Length == MAX_CMD_LEN && argv.Length == MAX_ARGS
    requires forall i :: 0 <= i < |line| ==> line[i] != '\0'
    modifies command, argv
    ensures var words := Split(line[..Lesser(|line|, 255)]);
      && argc == Lesser(|words|, 31)
      && (forall k :: 0 <= k < argc ==>
            argv[k].Some? && argv[k].value < MAX_CMD_LEN && CString(command[argv[k].value..]) == words[k])
    ensures forall k :: argc <= k < MAX_ARGS ==> argv[k] == None
  {
    ghost var s := line[..Lesser(|line|, MAX_CMD_LEN - 1)];
    var n := CopyLine(line, command, argv);
    argc := 0;
    var i := 0;
    ghost var done: seq<string> := [];
    assert s[0..] == s && [] + Split(s) == Split(s);
    while i < n && argc < MAX_ARGS - 1
      invariant i <= n == |s| && |done| == argc <= MAX_ARGS - 1
      invariant Rest(command[..], s, i) && Found(command[..], argv[..], done, i, n)
      invariant Split(s) == done + Split(s[i..])
      decreases n - i
    {
      i, argc, done := Token(command, argv, argc, s, i, n, done);
    }
    assert i == n ==> s[i..] == "";
    forall k | 0 <= k < argc
      ensures argv[k].Some? && argv[k].value < MAX_CMD_LEN && CString(command[argv[k].value..]) == done[k]
    {
      assert argv[..][k] == argv[k];
      PlacedReads(command[..], argv[k].value, done[k], i, n);
      assert command[..][argv[k].value..] == command[argv[k].value..];
    }
  }

  // From `i` on the buffer still holds the line, and NUL behind it.
  ghost predicate Rest(buf: string, s: string, i: nat) {
    && |buf| == MAX_CMD_LEN && i <= |s| < MAX_CMD_LEN && buf[i..|s|] == s[i..] && buf[|s|] == '\0'
    && forall k :: 0 <= k < |s| ==> s[k] != '\0'
  }

  // Clears the result and copies the line into it, cut to the size of the buffer.
  method CopyLine(line: string, command: array<char>, argv: array<Option<nat>>) returns (n: nat)
    requires command.Length == MAX_CMD_LEN && argv.Length == MAX_ARGS
    requires forall i :: 0 <= i < |line| ==> line[i] != '\0'
    modifies command, argv
    ensures n == Lesser(|line|, MAX_CMD_LEN - 1) && Rest(command[..], line[..n], 0)
    ensures forall k :: 0 <= k < MAX_ARGS ==> argv[k] == None
  {
    forall k | 0 <= k < MAX_CMD_LEN {
      command[k] := '\0';
    }
    forall k | 0 <= k < MAX_ARGS {
      argv[k] := None;
    }
    n := 0;
    while n < |line| && n < MAX_CMD_LEN - 1
      invariant n <= |line| && n <= MAX_CMD_LEN - 1 && command[..n] == line[..n]
      invariant forall k :: n <= k < MAX_CMD_LEN ==> command[k] == '\0'
      invariant forall k :: 0 <= k < MAX_ARGS ==> argv[k] == None
    {
      command[n] := line[n];
      n := n + 1;
    }
  }

  // The words found so far stand in the buffer and are pointed at.
  ghost predicate Found(buf: string, argv: seq<Option<nat>>, done: seq<string>, i: nat, n: nat) {
    && |argv| == MAX_ARGS && |done| < MAX_ARGS
    && (forall k :: 0 <= k < |done| ==> argv[k].Some? && Placed(buf, argv[k].value, done[k], i, n))
    && (forall k :: |done| <= k < MAX_ARGS ==> argv[k] == None)
  }

  // Writing a NUL at or behind `i` and moving on leaves them there.
  lemma FoundKept(buf: string, argv: seq<Option<nat>>, done: seq<string>, i: nat, n: nat, buf': string, i': nat)
    requires Found(buf, argv, done, i, n) && i <= n && i <= i' && (i < n || i' == i)
    requires i <= |buf| == |buf'| && buf'[..i] == buf[..i] && (i == n ==> buf' == buf)
    ensures Found(buf', argv, done, i', n)
  {
    forall k | 0 <= k < |done|
      ensures Placed(buf', argv[k].value, done[k], i', n)
    {
      assert Placed(buf, argv[k].value, done[k], i, n);
      if i < n {
        PlacedKept(buf, argv[k].value, done[k], i, n, buf', i');
      }
    }
  }

  lemma PlacedKept(buf: string, at: nat, w: string, i: nat, n: nat, buf': string, i': nat)
    requires Placed(buf, at, w, i, n) && i < n && i <= i'
    requires i <= |buf| == |buf'| && buf'[..i] == buf[..i]
    ensures Placed(buf', at, w, i', n)
  {
    assert forall k :: 0 <= k < i ==> buf'[k] == buf'[..i][k] == buf[..i][k] == buf[k];
    assert buf'[at..at + |w|] == buf[at..at + |w|];
  }

  // One round of the loop: skips separators up to a word, and takes the word.
  method Token(command: array<char>, argv: array<Option<nat>>, argc: nat, ghost s: string, i: nat, n: nat,
      ghost done: seq<string>) returns (i': nat, argc': nat, ghost done': seq<string>)
    requires command.Length == MAX_CMD_LEN && argv.Length == MAX_ARGS
    requires i < n == |s| && |done| == argc < MAX_ARGS - 1
    requires Rest(command[..], s, i) && Found(command[..], argv[..], done, i, n)
    requires Split(s) == done + Split(s[i..])
    modifies command, argv
    ensures i < i' <= n && |done'| == argc' <= MAX_ARGS - 1
    ensures Rest(command[..], s, i') && Found(command[..], argv[..], done', i', n)
    ensures Split(s) == done' + Split(s[i'..])
  {
    hide Split, Found, Placed;
    i', argc', done' := i, argc, done;
    ghost var buf := command[..];
    while i' < n && (command[i'] == ' ' || command[i'] == '\t')
      invariant i <= i' <= n && command[..] == buf && argv[..] == old(argv[..]) && Split(s) == done + Split(s[i'..])
      decreases n - i'
    {
      StepOver(s, i', buf);
      i' := i' + 1;
    }
    FoundKept(buf, argv[..], done, i, n, buf, i');
    LaterRest(buf, s, i, i');
    if i' == n {
      return;
    }
    if command[i'] == '&' {
      StepOver(s, i', buf);
      EndHere(command, argv, s, i', n, done);
      i' := i' + 1;
      return;
    }
    if command[i'] == '|' || command[i'] == '>' || command[i'] == '<' {
      StepOver(s, i', buf);
      i' := i' + 1;
      LaterRest(buf, s, i, i');
      FoundKept(buf, argv[..], done, i, n, buf, i');
      return;
    }
    i', argc', done' := Word(command, argv, argc, s, i', n, done);
  }

  // Puts a NUL over the separator at `i`.
  method EndHere(command: array<char>, argv: array<Option<nat>>, ghost s: string, i: nat, n: nat, ghost done: seq<string>)
    requires command.Length == MAX_CMD_LEN && argv.Length == MAX_ARGS && i < n == |s|
    requires Rest(command[..], s, i) && Found(command[..], argv[..], done, i, n)
    modifies command
    ensures Rest(command[..], s, i + 1) && Found(command[..], argv[..], done, i + 1, n)
    ensures command[..] == old(command[..])[i := '\0']
  {
    hide Found;
    ghost var buf := command[..];
    command[i] := '\0';
    assert command[..] == buf[i := '\0'];
    FoundKept(buf, argv[..], done, i, n, command[..], i + 1);
    LaterRest(buf, s, i, i + 1);
    assert command[..][i + 1..|s|] == buf[i + 1..|s|];
  }

  // Takes the word at `i`.
  method Word(command: array<char>, argv: array<Option<nat>>, argc: nat, ghost s: string, i: nat, n: nat,
      ghost done: seq<string>) returns (i': nat, argc': nat, ghost done': seq<string>)
    requires command.Length == MAX_CMD_LEN && argv.Length == MAX_ARGS
    requires i < n == |s| < MAX_CMD_LEN && |done| == argc < MAX_ARGS - 1 && !IsSep(command[i])
    requires Rest(command[..], s, i) && Found(command[..], argv[..], done, i, n)
    requires Split(s) == done + Split(s[i..])
    modifies command, argv
    ensures i < i' <= n && |done'| == argc' <= MAX_ARGS - 1
    ensures Rest(command[..], s, i') && Found(command[..], argv[..], done', i', n)
    ensures Split(s) == done' + Split(s[i'..])
  {
    hide Split, Found, Placed, FirstRun;
    ghost var buf := command[..];
    LaterRest(buf, s, i, i);
    ghost var w := TakeWord(s, i);
    argv[argc] := Some(i);
    argc' := argc + 1;
    i' := i;
    while i' < n && !IsSep(command[i'])
      invariant i <= i' <= i + |w| && command[..] == buf
      decreases n - i'
    {
      assert buf[i'] == s[i'];
      i' := i' + 1;
    }
    assert i' < n ==> buf[i'] == s[i'];
    done' := done + [w];
    assert Split(s) == done' + Split(s[i'..]);
    LaterRest(buf, s, i, i');
    if i' < n {
      StepOver(s, i', buf);
      command[i'] := '\0';
      assert command[..] == buf[i' := '\0'];
    }
    WordFound(buf, old(argv[..]), done, i, n, s, w);
    assert argv[..] == old(argv[..])[argc := Some(i)];
    if i' < n {
      i' := i' + 1;
    }
  }

  // The word taken at `i`, ended by a NUL, joins those found.
  lemma WordFound(buf: string, argv: seq<Option<nat>>, done: seq<string>, i: nat, n: nat, s: string, w: string)
    requires Rest(buf, s, i) && Found(buf, argv, done, i, n) && i < n == |s| && |done| + 1 < MAX_ARGS
    requires i + |w| <= n && w == s[i..i + |w|]
    ensures var end := i + |w|;
      var buf' := if end < n then buf[end := '\0'] else buf;
      var i' := if end < n then end + 1 else end;
      Rest(buf', s, i') && Found(buf', argv[|done| := Some(i)], done + [w], i', n)
  {
    hide Found;
    var end := i + |w|;
    var buf' := if end < n then buf[end := '\0'] else buf;
    var i' := if end < n then end + 1 else end;
    LaterRest(buf, s, i, i');
    assert buf'[i'..n] == buf[i'..n];
    FoundKept(buf, argv, done, i, n, buf', i');
    assert forall k :: i <= k < n ==> buf[k] == s[k] by { InRest(buf, s, i); }
    assert buf'[i..end] == w;
    FoundOneMore(buf', argv, done, i, w, i', n);
  }

  lemma FoundOneMore(buf: string, argv: seq<Option<nat>>, done: seq<string>, at: nat, w: string, i: nat, n: nat)
    requires Found(buf, argv, done, i, n) && Placed(buf, at, w, i, n) && |done| + 1 < MAX_ARGS
    ensures Found(buf, argv[|done| := Some(at)], done + [w], i, n)
  {
  }

  lemma InRest(buf: string, s: string, i: nat)
    requires Rest(buf, s, i)
    ensures forall k :: i <= k < |s| ==> buf[k] == s[k]
  {
    assert forall k :: i <= k < |s| ==> buf[k] == buf[i..|s|][k - i] && s[k] == s[i..][k - i];
  }

  lemma LaterRest(buf: string, s: string, i: nat, i': nat)
    requires Rest(buf, s, i) && i <= i' <= |s|
    ensures Rest(buf, s, i') && forall k :: i <= k < |s| ==> buf[k] == s[k]
  {
    InRest(buf, s, i);
  }

  lemma StepOver(s: string, i: nat, buf: string)
    requires i < |s| <= |buf| && buf[i] == s[i] && IsSep(buf[i])
    ensures Split(s[i..]) == Split(s[i + 1..])
  {
    assert s[i..] == [s[i]] + s[i + 1..];
    SeparatorFirst(s[i], s[i + 1..]);
  }

  // The word at the front.
  lemma TakeWord(s: string, i: nat) returns (w: string)
    requires i < |s| && !IsSep(s[i])
    ensures w != "" && i + |w| <= |s| && w == s[i..i + |w|] && Split(s[i..]) == [w] + Split(s[i + |w|..])
    ensures (forall k :: i <= k < i + |w| ==> !IsSep(s[k])) && (i + |w| < |s| ==> IsSep(s[i + |w|]))
  {
    w := FirstRun(s[i..]);
    assert s[i..][|w|..] == s[i + |w|..];
    assert forall k :: i <= k < i + |w| ==> s[k] == w[k - i];
  }
}
