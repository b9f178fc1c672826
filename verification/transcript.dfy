/**
 * The terminal-transcript parser: the body of a fence tagged with a shell language is split into
 * lines, and each line either matches the prompt pattern
 *   `^\(([^@]+)@([^\)]+)\)-\[([^\]]+)\]\$\s*(.*)$`
 * and opens an entry whose output is the non-prompt lines that follow it, or belongs to the run of
 * non-prompt lines at the top of the fence, which becomes one bare command entry.
 */
module Transcript {
  import opened Wrappers
  import opened Strings

  /** The four captures of the prompt pattern: user, host, working directory and command. */
  datatype Prompt = Prompt(user: string, machine: string, path: string, command: string)

  /** One shell interaction as the terminal renderer receives it; absent fields are `undefined`. */
  datatype Entry = Entry(
    command: string,
    output: Option<string>,
    user: Option<string>,
    machine: Option<string>,
    path: Option<string>)

  /** `.` can match every character of `s`. */
  predicate NoLineTerminator(s: string) {
    s == "" || (!IsLineTerminator(s[0]) && NoLineTerminator(s[1..]))
  }

  /**
   * Captures the pattern can produce: each bracketed part non-empty and free of the character
   * that closes it, and a command that `.` can match to the end of the line after `\s*` has
   * taken the leading whitespace.
   */
  predicate ValidPrompt(p: Prompt) {
    && p.user != "" && '@' !in p.user
    && p.machine != "" && ')' !in p.machine
    && p.path != "" && ']' !in p.path
    && NoLineTerminator(p.command)
    && (p.command == "" || !IsWhitespace(p.command[0]))
  }

  /** The text in front of the whitespace and the command: `(user@host)-[path]$`. */
  function PromptHead(p: Prompt): string {
    "(" + p.user + "@" + p.machine + ")-[" + p.path + "]$"
  }

  /** A prompt line: its head, some whitespace, then the command. */
  function PromptText(p: Prompt, ws: string): string {
    PromptHead(p) + ws + p.command
  }

  /**
   * `line` is `p` written out: the head `(user@host)-[path]$`, then text whose leading
   * whitespace (what `\s*` takes) leaves exactly the command.
   */
  predicate IsPromptLine(line: string, p: Prompt) {
    var h := |PromptHead(p)|;
    h <= |line| && line[..h] == PromptHead(p) && TrimStart(line[h..]) == p.command
  }

  /**
   * The prompt pattern applied to one line. Every greedy part is followed by the character it
   * excludes, so the captures are fixed by where the first `@`, `)` and `]` fall; the stages
   * below find them in turn.
   */
  function MatchPrompt(line: string): (r: Option<Prompt>)
    ensures r.Some? ==> ValidPrompt(r.value) && IsPromptLine(line, r.value)
  {
    if |line| == 0 || line[0] != '(' then None
    else MatchAfterUser(line, SpanUntil(line, 1, {'@'}))
  }

  function MatchAfterUser(line: string, at: nat): (r: Option<Prompt>)
    requires 1 <= at <= |line| && line[0] == '('
    requires at < |line| ==> line[at] == '@'
    requires forall k :: 1 <= k < at ==> line[k] != '@'
    ensures r.Some? ==> ValidPrompt(r.value) && IsPromptLine(line, r.value)
  {
    if at == 1 || at == |line| then None
    else MatchAfterHost(line, at, SpanUntil(line, at + 1, {')'}))
  }

  function MatchAfterHost(line: string, at: nat, rp: nat): (r: Option<Prompt>)
    requires 1 < at < rp <= |line| && line[0] == '(' && line[at] == '@'
    requires rp < |line| ==> line[rp] == ')'
    requires forall k :: 1 <= k < at ==> line[k] != '@'
    requires forall k :: at + 1 <= k < rp ==> line[k] != ')'
    ensures r.Some? ==> ValidPrompt(r.value) && IsPromptLine(line, r.value)
  {
    if rp == at + 1 || rp + 3 > |line| || line[rp + 1] != '-' || line[rp + 2] != '[' then None
    else MatchAfterPath(line, at, rp, SpanUntil(line, rp + 3, {']'}))
  }

  function MatchAfterPath(line: string, at: nat, rp: nat, rb: nat): (r: Option<Prompt>)
    requires 1 < at && at + 1 < rp && rp + 3 <= rb <= |line| && line[0] == '(' && line[at] == '@'
    requires line[rp] == ')' && line[rp + 1] == '-' && line[rp + 2] == '['
    requires rb < |line| ==> line[rb] == ']'
    requires forall k :: 1 <= k < at ==> line[k] != '@'
    requires forall k :: at + 1 <= k < rp ==> line[k] != ')'
    requires forall k :: rp + 3 <= k < rb ==> line[k] != ']'
    ensures r.Some? ==> ValidPrompt(r.value) && IsPromptLine(line, r.value)
  {
    if rb == rp + 3 || rb + 2 > |line| || line[rb + 1] != '$' then None
    else
      var command := TrimStart(line[rb + 2..]);
      TrimStartSpec(line[rb + 2..]);
      if !NoLineTerminator(command) then None
      else
        var p := Prompt(line[1..at], line[at + 1..rp], line[rp + 3..rb], command);
        PromptLineAt(line, p, at, rp, rb);
        CharNotInSlice(line, 1, at, '@');
        CharNotInSlice(line, at + 1, rp, ')');
        CharNotInSlice(line, rp + 3, rb, ']');
        Some(p)
  }

  lemma CharNotInSlice(s: string, i: nat, j: nat, c: char)
    requires i <= j <= |s|
    requires forall k :: i <= k < j ==> s[k] != c
    ensures c !in s[i..j]
  {
  }

  /** The captures cut out of a line at the positions of `@`, `)` and `]` describe that line. */
  lemma PromptLineAt(line: string, p: Prompt, at: nat, rp: nat, rb: nat)
    requires 1 < at < rp < rp + 3 < rb && rb + 2 <= |line|
    requires line[0] == '(' && line[at] == '@'
    requires line[rp] == ')' && line[rp + 1] == '-' && line[rp + 2] == '['
    requires line[rb] == ']' && line[rb + 1] == '$'
    requires p == Prompt(line[1..at], line[at + 1..rp], line[rp + 3..rb], TrimStart(line[rb + 2..]))
    ensures IsPromptLine(line, p)
  {
    PromptHeadAt(line, p, at, rp, rb);
  }

  lemma PromptHeadAt(line: string, p: Prompt, at: nat, rp: nat, rb: nat)
    requires 1 < at < rp < rp + 3 < rb && rb + 2 <= |line|
    requires line[0] == '(' && line[at] == '@'
    requires line[rp] == ')' && line[rp + 1] == '-' && line[rp + 2] == '['
    requires line[rb] == ']' && line[rb + 1] == '$'
    requires p.user == line[1..at] && p.machine == line[at + 1..rp] && p.path == line[rp + 3..rb]
    ensures line[..rb + 2] == PromptHead(p)
  {
    assert line[..at] == "(" + p.user;
    assert line[..at + 1] == line[..at] + "@";
    assert line[..rp] == line[..at + 1] + p.machine;
    assert line[..rp + 3] == line[..rp] + ")-[";
    assert line[..rb] == line[..rp + 3] + p.path;
    assert line[..rb + 2] == line[..rb] + "]$";
  }

  /** Every line of prompt shape is recognised, with exactly its captures. */
  lemma MatchPromptComplete(p: Prompt, ws: string)
    requires ValidPrompt(p) && AllWhitespace(ws)
    ensures MatchPrompt(PromptText(p, ws)) == Some(p)
  {
    var at := 1 + |p.user|;
    var rp := at + 1 + |p.machine|;
    var rb := rp + 3 + |p.path|;
    PromptLineLayout(PromptText(p, ws), p, ws, at, rp, rb);
    MatchPromptAt(PromptText(p, ws), p, at, rp, rb);
  }

  /** The positions of the captures in a line of prompt shape. */
  lemma PromptLineLayout(line: string, p: Prompt, ws: string, at: nat, rp: nat, rb: nat)
    requires ValidPrompt(p) && AllWhitespace(ws)
    requires line == PromptText(p, ws)
    requires at == 1 + |p.user| && rp == at + 1 + |p.machine| && rb == rp + 3 + |p.path|
    ensures rb + 2 <= |line|
    ensures line[0] == '(' && line[at] == '@' && line[rp] == ')' && line[rb] == ']'
    ensures line[rp + 1] == '-' && line[rp + 2] == '[' && line[rb + 1] == '$'
    ensures line[1..at] == p.user && line[at + 1..rp] == p.machine && line[rp + 3..rb] == p.path
    ensures TrimStart(line[rb + 2..]) == p.command
  {
    var h := PromptHead(p);
    PromptHeadLayout(p);
    assert line == h + (ws + p.command);
    PrefixLayout(line, h, ws + p.command, at, rp, rb);
    TrimStartOfPadded(ws, p.command);
  }

  /** The head's characters and slices survive appending the rest of the line. */
  lemma PrefixLayout(line: string, h: string, tail: string, at: nat, rp: nat, rb: nat)
    requires line == h + tail
    requires 1 <= at < rp && rp + 3 <= rb && |h| == rb + 2
    ensures line[rb + 2..] == tail
    ensures line[0] == h[0] && line[at] == h[at] && line[rp] == h[rp] && line[rb] == h[rb]
    ensures line[rp + 1] == h[rp + 1] && line[rp + 2] == h[rp + 2] && line[rb + 1] == h[rb + 1]
    ensures line[1..at] == h[1..at] && line[at + 1..rp] == h[at + 1..rp]
    ensures line[rp + 3..rb] == h[rp + 3..rb]
  {
  }

  /** A line with the captures of `p` at the given positions matches with captures `p`. */
  lemma MatchPromptAt(line: string, p: Prompt, at: nat, rp: nat, rb: nat)
    requires ValidPrompt(p)
    requires at == 1 + |p.user| && rp == at + 1 + |p.machine| && rb == rp + 3 + |p.path|
    requires rb + 2 <= |line|
    requires line[0] == '(' && line[at] == '@' && line[rp] == ')' && line[rb] == ']'
    requires line[rp + 1] == '-' && line[rp + 2] == '[' && line[rb + 1] == '$'
    requires line[1..at] == p.user && line[at + 1..rp] == p.machine && line[rp + 3..rb] == p.path
    requires TrimStart(line[rb + 2..]) == p.command
    ensures MatchPrompt(line) == Some(p)
  {
    PromptSpans(line, p, at, rp, rb);
    MatchAfterPathAt(line, p, at, rp, rb);
    MatchAfterHostAt(line, p, at, rp, rb);
    MatchAfterUserAt(line, p, at, rp);
  }

  /** Where the searches for `@`, `)` and `]` stop in a line of prompt shape. */
  lemma PromptSpans(line: string, p: Prompt, at: nat, rp: nat, rb: nat)
    requires ValidPrompt(p)
    requires at == 1 + |p.user| && rp == at + 1 + |p.machine| && rb == rp + 3 + |p.path|
    requires rb + 2 <= |line|
    requires line[at] == '@' && line[rp] == ')' && line[rb] == ']'
    requires line[1..at] == p.user && line[at + 1..rp] == p.machine && line[rp + 3..rb] == p.path
    ensures SpanUntil(line, 1, {'@'}) == at
    ensures SpanUntil(line, at + 1, {')'}) == rp
    ensures SpanUntil(line, rp + 3, {']'}) == rb
    ensures forall k :: 1 <= k < at ==> line[k] != '@'
    ensures forall k :: at + 1 <= k < rp ==> line[k] != ')'
    ensures forall k :: rp + 3 <= k < rb ==> line[k] != ']'
  {
    AbsentFromSlice(line, 1, at, '@');
    AbsentFromSlice(line, at + 1, rp, ')');
    AbsentFromSlice(line, rp + 3, rb, ']');
    SpanUntilIs(line, 1, at, {'@'});
    SpanUntilIs(line, at + 1, rp, {')'});
    SpanUntilIs(line, rp + 3, rb, {']'});
  }

  lemma AbsentFromSlice(s: string, i: nat, j: nat, c: char)
    requires i <= j <= |s| && c !in s[i..j]
    ensures forall k :: i <= k < j ==> s[k] !in {c}
  {
    forall k | i <= k < j ensures s[k] !in {c} {
      assert s[k] == s[i..j][k - i];
    }
  }

  lemma MatchAfterPathAt(line: string, p: Prompt, at: nat, rp: nat, rb: nat)
    requires ValidPrompt(p)
    requires at == 1 + |p.user| && rp == at + 1 + |p.machine| && rb == rp + 3 + |p.path|
    requires rb + 2 <= |line|
    requires line[0] == '(' && line[at] == '@' && line[rp] == ')' && line[rb] == ']'
    requires line[rp + 1] == '-' && line[rp + 2] == '[' && line[rb + 1] == '$'
    requires line[1..at] == p.user && line[at + 1..rp] == p.machine && line[rp + 3..rb] == p.path
    requires TrimStart(line[rb + 2..]) == p.command
    ensures MatchAfterPath(line, at, rp, rb) == Some(p)
  {
  }

  lemma MatchAfterHostAt(line: string, p: Prompt, at: nat, rp: nat, rb: nat)
    requires at == 1 + |p.user| && rp == at + 1 + |p.machine| && rb == rp + 3 + |p.path|
    requires rb + 2 <= |line| && p.user != "" && p.machine != "" && p.path != ""
    requires line[0] == '(' && line[at] == '@' && line[rp] == ')' && line[rb] == ']'
    requires line[rp + 1] == '-' && line[rp + 2] == '['
    requires forall k :: 1 <= k < at ==> line[k] != '@'
    requires forall k :: at + 1 <= k < rp ==> line[k] != ')'
    requires SpanUntil(line, rp + 3, {']'}) == rb
    requires forall k :: rp + 3 <= k < rb ==> line[k] != ']'
    requires MatchAfterPath(line, at, rp, rb) == Some(p)
    ensures MatchAfterHost(line, at, rp) == Some(p)
  {
  }

  lemma MatchAfterUserAt(line: string, p: Prompt, at: nat, rp: nat)
    requires at == 1 + |p.user| && rp == at + 1 + |p.machine| && rp + 3 <= |line|
    requires p.user != "" && p.machine != ""
    requires line[0] == '(' && line[at] == '@' && line[rp] == ')'
    requires line[rp + 1] == '-' && line[rp + 2] == '['
    requires forall k :: 1 <= k < at ==> line[k] != '@'
    requires SpanUntil(line, at + 1, {')'}) == rp
    requires MatchAfterHost(line, at, rp) == Some(p)
    ensures MatchAfterUser(line, at) == Some(p)
  {
  }

  /** Where the captures sit inside `(user@host)-[path]$`. */
  lemma PromptHeadLayout(p: Prompt)
    ensures var h := PromptHead(p);
      var at := 1 + |p.user|;
      var rp := at + 1 + |p.machine|;
      var rb := rp + 3 + |p.path|;
      && |h| == rb + 2
      && h[0] == '(' && h[1..at] == p.user && h[at] == '@' && h[at + 1..rp] == p.machine
      && h[rp] == ')' && h[rp + 1] == '-' && h[rp + 2] == '[' && h[rp + 3..rb] == p.path
      && h[rb] == ']' && h[rb + 1] == '$'
  {
  }

  function DropCarriageReturn(line: string): string {
    if |line| > 0 && line[|line| - 1] == '\r' then line[..|line| - 1] else line
  }

  /**
   * `content.split(/\r?\n/)`: the lines between line feeds, each losing one carriage return in
   * front of its line feed. There is one more line than line feeds, no line holds a line feed,
   * and without carriage returns joining the lines with line feeds gives the content back.
   */
  function SplitLines(content: string): (lines: seq<string>)
    ensures |lines| == Count(content, '\n') + 1
    ensures forall i :: 0 <= i < |lines| ==> '\n' !in lines[i]
    ensures '\r' !in content ==> Join(lines, "\n") == content
  {
    var parts := Split(content, '\n');
    var lines := seq(|parts|, i requires 0 <= i < |parts| =>
      if i < |parts| - 1 then DropCarriageReturn(parts[i]) else parts[i]);
    if '\r' in content then lines
    else
      SplitAbsent(content, '\n', '\r');
      assert lines == parts;
      lines
  }

  /** A line of a terminal fence together with what the prompt pattern makes of it. */
  datatype Line = Line(text: string, prompt: Option<Prompt>)

  /** Each line paired with its match against the prompt pattern. */
  function ClassifyLines(lines: seq<string>): (ls: seq<Line>)
    ensures |ls| == |lines|
    ensures forall i :: 0 <= i < |ls| ==> ls[i].text == lines[i] && ls[i].prompt == MatchPrompt(lines[i])
  {
    seq(|lines|, i requires 0 <= i < |lines| => Line(lines[i], MatchPrompt(lines[i])))
  }

  function Texts(ls: seq<Line>): (r: seq<string>)
    ensures |r| == |ls| && forall i :: 0 <= i < |ls| ==> r[i] == ls[i].text
  {
    seq(|ls|, i requires 0 <= i < |ls| => ls[i].text)
  }

  /** Classifying the lines loses none of their text. */
  lemma ClassifiedTexts(lines: seq<string>)
    ensures Texts(ClassifyLines(lines)) == lines
  {
  }

  /** The first prompt line at or after `i`, or `|ls|`. */
  function NextPrompt(ls: seq<Line>, i: nat): (k: nat)
    requires i <= |ls|
    ensures i <= k <= |ls|
    ensures forall j :: i <= j < k ==> ls[j].prompt.None?
    ensures k < |ls| ==> ls[k].prompt.Some?
    decreases |ls| - i
  {
    if i == |ls| || ls[i].prompt.Some? then i else NextPrompt(ls, i + 1)
  }

  /** The entry a prompt line opens, given the output lines that follow it. */
  function PromptEntry(p: Prompt, output: seq<string>): Entry {
    Entry(Trim(p.command),
          if |output| == 0 then None else Some(Trim(Join(output, "\n"))),
          Some(p.user), Some(p.machine), Some(p.path))
  }

  /** The entry a run of non-prompt lines becomes: the trimmed text as a command and nothing else. */
  function BareEntry(block: seq<string>): Entry {
    Entry(Trim(Join(block, "\n")), None, None, None, None)
  }

  /**
   * The terminal loop of the page, from line `i` on: a prompt line opens an entry and the
   * non-prompt lines after it are its output; a run of non-prompt lines not preceded by a prompt
   * becomes a bare entry unless it is all whitespace.
   */
  function EntriesFrom(ls: seq<Line>, i: nat): seq<Entry>
    requires i <= |ls|
    decreases |ls| - i
  {
    if i == |ls| then [] else TurnEntries(ls, i, NextPrompt(ls, i + 1)) + EntriesFrom(ls, NextPrompt(ls, i + 1))
  }

  /** What one turn of the loop, over lines `i` up to the next prompt line `k`, pushes. */
  function TurnEntries(ls: seq<Line>, i: nat, k: nat): seq<Entry>
    requires i < k <= |ls|
  {
    match ls[i].prompt
    case Some(p) => [PromptEntry(p, Texts(ls[i + 1..k]))]
    case None => if Trim(Concat(Texts(ls[i..k]))) != "" then [BareEntry(Texts(ls[i..k]))] else []
  }

  /** The entries of a terminal fence's content. */
  function ParseTerminal(content: string): seq<Entry> {
    EntriesFrom(ClassifyLines(SplitLines(content)), 0)
  }

  /** Number of prompt lines among `ls[i..n]`. */
  function PromptsIn(ls: seq<Line>, i: nat, n: nat): nat
    requires i <= n <= |ls|
    decreases n - i
  {
    if i == n then 0 else (if ls[i].prompt.Some? then 1 else 0) + PromptsIn(ls, i + 1, n)
  }

  lemma {:induction false} PromptsInSkip(ls: seq<Line>, i: nat, k: nat, n: nat)
    requires i <= k <= n <= |ls|
    requires forall j :: i <= j < k ==> ls[j].prompt.None?
    ensures PromptsIn(ls, i, n) == PromptsIn(ls, k, n)
    decreases k - i
  {
    if i < k {
      PromptsInSkip(ls, i + 1, k, n);
    }
  }

  /** The bare entry, if any, that the lines above the first prompt line become. */
  function LeadingBare(ls: seq<Line>): (r: seq<Entry>)
    ensures |r| <= 1
  {
    var b := NextPrompt(ls, 0);
    if Trim(Concat(Texts(ls[..b]))) != "" then [BareEntry(Texts(ls[..b]))] else []
  }

  /** The loop first deals with the lines above the first prompt line, then with the prompts. */
  lemma EntriesSplit(ls: seq<Line>)
    ensures EntriesFrom(ls, 0) == LeadingBare(ls) + EntriesFrom(ls, NextPrompt(ls, 0))
  {
    var b := NextPrompt(ls, 0);
    if |ls| > 0 && ls[0].prompt.None? {
      assert NextPrompt(ls, 1) == b;
      assert ls[0..b] == ls[..b];
    } else {
      assert b == 0;
      assert Texts(ls[..b]) == [];
      assert LeadingBare(ls) == [];
    }
  }

  /** One turn of the loop at a prompt line. */
  lemma PromptStep(ls: seq<Line>, i: nat)
    requires i < |ls| && ls[i].prompt.Some?
    ensures EntriesFrom(ls, i)
            == [PromptEntry(ls[i].prompt.value, Texts(ls[i + 1..NextPrompt(ls, i + 1)]))]
               + EntriesFrom(ls, NextPrompt(ls, i + 1))
  {
  }

  /** From a prompt line (or the end) on, the loop yields one entry per prompt line. */
  lemma {:induction false} PromptEntriesFrom(ls: seq<Line>, i: nat)
    requires i <= |ls| && (i == |ls| || ls[i].prompt.Some?)
    ensures |EntriesFrom(ls, i)| == PromptsIn(ls, i, |ls|)
    decreases |ls| - i
  {
    if i < |ls| {
      var k := NextPrompt(ls, i + 1);
      PromptEntriesFrom(ls, k);
      PromptsInSkip(ls, i + 1, k, |ls|);
      PromptStep(ls, i);
    }
  }

  /** From a prompt line (or the end) on, every entry carries prompt captures. */
  lemma {:induction false} PromptEntriesHaveUser(ls: seq<Line>, i: nat)
    requires i <= |ls| && (i == |ls| || ls[i].prompt.Some?)
    ensures forall j :: 0 <= j < |EntriesFrom(ls, i)| ==> EntriesFrom(ls, i)[j].user.Some?
    decreases |ls| - i
  {
    if i < |ls| {
      var k := NextPrompt(ls, i + 1);
      PromptEntriesHaveUser(ls, k);
      PromptStep(ls, i);
    }
  }

  /**
   * The entry of prompt line `n`, counted from prompt line `i`: it sits after one entry for each
   * earlier prompt line, and its output is the lines strictly between line `n` and the next
   * prompt line.
   */
  lemma {:induction false} EntryOfPromptFrom(ls: seq<Line>, i: nat, n: nat)
    requires i <= n < |ls| && ls[i].prompt.Some? && ls[n].prompt.Some?
    ensures PromptsIn(ls, i, n) < |EntriesFrom(ls, i)|
    ensures EntriesFrom(ls, i)[PromptsIn(ls, i, n)]
            == PromptEntry(ls[n].prompt.value, Texts(ls[n + 1..NextPrompt(ls, n + 1)]))
    decreases n - i
  {
    if i < n {
      var k := NextPrompt(ls, i + 1);
      EntryOfPromptFrom(ls, k, n);
      PromptsInSkip(ls, i + 1, k, n);
      EntriesAfterPrompt(ls, i, PromptsIn(ls, k, n));
    } else {
      EntriesFirst(ls, i);
    }
  }

  lemma EntriesFirst(ls: seq<Line>, i: nat)
    requires i < |ls| && ls[i].prompt.Some?
    ensures 0 < |EntriesFrom(ls, i)|
    ensures EntriesFrom(ls, i)[0] == PromptEntry(ls[i].prompt.value, Texts(ls[i + 1..NextPrompt(ls, i + 1)]))
  {
    PromptStep(ls, i);
  }

  lemma EntriesAfterPrompt(ls: seq<Line>, i: nat, m: nat)
    requires i < |ls| && ls[i].prompt.Some?
    requires m < |EntriesFrom(ls, NextPrompt(ls, i + 1))|
    ensures m + 1 < |EntriesFrom(ls, i)|
    ensures EntriesFrom(ls, i)[m + 1] == EntriesFrom(ls, NextPrompt(ls, i + 1))[m]
  {
    PromptStep(ls, i);
  }

  /**
   * The entry of prompt line `n` in the whole fence: it sits after the optional bare entry and
   * one entry for each prompt line above `n`; it carries the captures of line `n`, and its
   * output is made of the lines strictly between line `n` and the next prompt line.
   */
  lemma EntryAtPromptLine(ls: seq<Line>, n: nat)
    requires n < |ls| && ls[n].prompt.Some?
    ensures |LeadingBare(ls)| + PromptsIn(ls, 0, n) < |EntriesFrom(ls, 0)|
    ensures EntriesFrom(ls, 0)[|LeadingBare(ls)| + PromptsIn(ls, 0, n)]
            == PromptEntry(ls[n].prompt.value, Texts(ls[n + 1..NextPrompt(ls, n + 1)]))
  {
    var b := NextPrompt(ls, 0);
    EntriesSplit(ls);
    PromptsInSkip(ls, 0, b, n);
    EntryOfPromptFrom(ls, b, n);
  }

  /**
   * Nothing but the optional bare entry and the prompt entries: there are as many entries as
   * the bare one (if any) plus one per prompt line, and all but the bare one carry captures.
   */
  lemma EntriesShape(ls: seq<Line>)
    ensures |EntriesFrom(ls, 0)| == |LeadingBare(ls)| + PromptsIn(ls, 0, |ls|)
    ensures forall j :: |LeadingBare(ls)| <= j < |EntriesFrom(ls, 0)| ==> EntriesFrom(ls, 0)[j].user.Some?
  {
    var b := NextPrompt(ls, 0);
    EntriesSplit(ls);
    PromptEntriesFrom(ls, b);
    PromptEntriesHaveUser(ls, b);
    PromptsInSkip(ls, 0, b, |ls|);
  }

  /** Number of entries that came from a prompt line, recognisable by their user field. */
  function PromptEntryCount(es: seq<Entry>): nat {
    if es == [] then 0 else (if es[0].user.Some? then 1 else 0) + PromptEntryCount(es[1..])
  }

  lemma PromptEntryCountAppend(a: seq<Entry>, b: seq<Entry>)
    ensures PromptEntryCount(a + b) == PromptEntryCount(a) + PromptEntryCount(b)
  {
    if a != [] {
      assert (a + b)[1..] == a[1..] + b;
    } else {
      assert a + b == b;
    }
  }

  /** The loop produces exactly one prompt entry per line that matches the prompt pattern. */
  lemma PromptEntriesCounted(ls: seq<Line>)
    ensures PromptEntryCount(EntriesFrom(ls, 0)) == PromptsIn(ls, 0, |ls|)
  {
    var b := NextPrompt(ls, 0);
    EntriesSplit(ls);
    PromptEntriesFrom(ls, b);
    PromptEntriesHaveUser(ls, b);
    PromptsInSkip(ls, 0, b, |ls|);
    PromptEntryCountAppend(LeadingBare(ls), EntriesFrom(ls, b));
    AllPromptEntries(EntriesFrom(ls, b));
  }

  lemma {:induction false} AllPromptEntries(es: seq<Entry>)
    requires forall j :: 0 <= j < |es| ==> es[j].user.Some?
    ensures PromptEntryCount(es) == |es|
  {
    if es != [] {
      AllPromptEntries(es[1..]);
    }
  }

  /**
   * What the loop makes of a prompt line: an entry with the captures as user, machine and path,
   * the trimmed command, and an output that is absent exactly when the next line is a prompt
   * line or there is no next line, and otherwise the trimmed text of the lines up to the next
   * prompt line.
   */
  lemma EntryOfPromptLine(ls: seq<Line>, i: nat)
    requires i < |ls| && ls[i].prompt.Some?
    ensures var e := EntriesFrom(ls, i)[0];
      var p := ls[i].prompt.value;
      var k := NextPrompt(ls, i + 1);
      && e.user == Some(p.user) && e.machine == Some(p.machine) && e.path == Some(p.path)
      && e.command == Trim(p.command)
      && (e.output.None? <==> i + 1 == |ls| || ls[i + 1].prompt.Some?)
      && (e.output.Some? ==> e.output.value == Trim(Join(Texts(ls[i + 1..k]), "\n")))
  {
  }

  /** The only entry without prompt captures is a bare entry in front, and its command is not blank. */
  lemma BareEntryOnlyFirst(ls: seq<Line>, j: nat)
    requires j < |EntriesFrom(ls, 0)| && EntriesFrom(ls, 0)[j].user.None?
    ensures j == 0 && LeadingBare(ls) != []
    ensures EntriesFrom(ls, 0)[j].command != ""
    ensures EntriesFrom(ls, 0)[j].output.None? && EntriesFrom(ls, 0)[j].path.None?
  {
    EntriesShape(ls);
    var b := NextPrompt(ls, 0);
    TrimConcatJoin(Texts(ls[..b]));
  }

  /** A block whose concatenation is not blank is not blank when joined with line feeds either. */
  lemma TrimConcatJoin(block: seq<string>)
    ensures Trim(Concat(block)) != "" ==> Trim(Join(block, "\n")) != ""
  {
    if Trim(Concat(block)) != "" {
      TrimEmptyIff(Concat(block));
      var c :| 0 <= c < |Concat(block)| && !IsWhitespace(Concat(block)[c]);
      ConcatCharInJoin(block, c);
      var d :| 0 <= d < |Join(block, "\n")| && Join(block, "\n")[d] == Concat(block)[c];
      TrimEmptyIff(Join(block, "\n"));
    }
  }

  /** Every character of the concatenation also occurs in the line-feed join. */
  lemma {:induction false} ConcatCharInJoin(block: seq<string>, c: nat)
    requires c < |Concat(block)|
    ensures exists d :: 0 <= d < |Join(block, "\n")| && Join(block, "\n")[d] == Concat(block)[c]
    decreases |block|
  {
    var x := block[0];
    if |block| == 1 {
      assert Concat(block) == x + Concat(block[1..]);
      assert Concat(block[1..]) == "";
      assert Join(block, "\n")[c] == Concat(block)[c];
    } else if c < |x| {
      assert Concat(block)[c] == x[c];
      assert Join(block, "\n")[c] == x[c];
    } else {
      var rest := block[1..];
      assert Concat(block) == x + Concat(rest);
      ConcatCharInJoin(rest, c - |x|);
      var d :| 0 <= d < |Join(rest, "\n")| && Join(rest, "\n")[d] == Concat(rest)[c - |x|];
      assert Join(block, "\n") == x + "\n" + Join(rest, "\n");
      assert Join(block, "\n")[|x| + 1 + d] == Concat(block)[c];
    }
  }

  lemma NextPromptIs(ls: seq<Line>, i: nat, k: nat)
    requires i <= k <= |ls|
    requires forall j :: i <= j < k ==> ls[j].prompt.None?
    requires k == |ls| || ls[k].prompt.Some?
    ensures NextPrompt(ls, i) == k
    decreases k - i
  {
    if i < k {
      NextPromptIs(ls, i + 1, k);
    }
  }

  /**
   * The inner loop of the page: from line `from`, gather lines while they are not prompt lines.
   * It stops at the next prompt line (or the end) and returns the lines passed.
   */
  method GatherNonPrompt(ls: seq<Line>, from: nat) returns (block: seq<string>, next: nat)
    requires from <= |ls|
    ensures next == NextPrompt(ls, from)
    ensures block == Texts(ls[from..next])
  {
    next := from;
    block := [];
    while next < |ls| && ls[next].prompt.None?
      invariant from <= next <= |ls|
      invariant forall j :: from <= j < next ==> ls[j].prompt.None?
      invariant block == Texts(ls[from..next])
      decreases |ls| - next
    {
      block := block + [ls[next].text];
      next := next + 1;
    }
    NextPromptIs(ls, from, next);
  }

  /** One turn of the terminal loop, from line `i` up to the next prompt line. */
  method Turn(ls: seq<Line>, i: nat) returns (turn: seq<Entry>, next: nat)
    requires i < |ls|
    ensures next == NextPrompt(ls, i + 1)
    ensures turn == TurnEntries(ls, i, next)
  {
    if ls[i].prompt.Some? {
      var outputLines;
      outputLines, next := GatherNonPrompt(ls, i + 1);
      turn := [PromptEntry(ls[i].prompt.value, outputLines)];
    } else {
      var codeBlock;
      codeBlock, next := GatherNonPrompt(ls, i);
      assert NextPrompt(ls, i) == NextPrompt(ls, i + 1);
      turn := if Trim(Concat(codeBlock)) != "" then [BareEntry(codeBlock)] else [];
    }
  }

  /**
   * The terminal loop as the page runs it, over lines already paired with their prompt match:
   * an index that only moves forward; a prompt line opens an entry whose output the inner loop
   * gathers, any other line starts a run the inner loop gathers into a bare command. It pushes
   * exactly the entries described above.
   */
  method TerminalLoop(ls: seq<Line>) returns (entries: seq<Entry>)
    ensures entries == EntriesFrom(ls, 0)
  {
    var i := 0;
    entries := [];
    while i < |ls|
      invariant i <= |ls|
      invariant entries + EntriesFrom(ls, i) == EntriesFrom(ls, 0)
      decreases |ls| - i
    {
      var turn, next := Turn(ls, i);
      assert EntriesFrom(ls, i) == turn + EntriesFrom(ls, next);
      entries := entries + turn;
      i := next;
    }
  }
}
