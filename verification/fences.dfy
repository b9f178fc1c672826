/**
 * The fence splitter (`parseMarkdownWithTerminals`): the page body is cut at every code fence
 * matched by the pattern ``` ```(?:([\w-]+))?\n([\s\S]*?)``` ``` into a list of render pieces.
 * Text between fences becomes a markdown piece; a fence tagged with a shell language becomes a
 * terminal piece holding its parsed transcript; a fence tagged with a programming language
 * becomes a code piece; any other fence passes its body on as markdown, without the fence marks.
 *
 * Like the embed pattern, the fence pattern never profits from backtracking: the tag is the
 * longest run of `[A-Za-z0-9_-]` after the opening marks and must be followed by a newline, and
 * the lazy body ends at the first ``` ``` ``` after that newline. A match is a function of the text
 * at the scan position, and `exec` with the `g` flag finds the first position, at or after
 * `lastIndex`, where it succeeds.
 */
module Fences {
  import opened Wrappers
  import opened Strings
  import opened Transcript

  /** Fence tags that mark a terminal transcript. */
  const TerminalLangs: set<string> := {"cmd", "bash", "sh", "zsh", "shell", "ps", "powershell"}

  /** Fence tags that mark a program listing. */
  const CodeLangs: set<string> := {
    "python", "js", "javascript", "typescript", "java", "c", "cpp", "go",
    "rust", "php", "html", "css", "json", "yaml", "yml", "sql"
  }

  /** One block of the rendered page. */
  datatype Piece =
    | Md(text: string)
    | Term(entries: seq<Entry>)
    | Code(lang: string, code: string)

  /** A matched fence: the tag after the opening marks (if any) and the body up to the closing marks. */
  datatype Fence = Fence(tag: Option<string>, content: string)

  /** `[\w-]` without the `u` flag. */
  predicate IsTagChar(c: char) {
    'a' <= c <= 'z' || 'A' <= c <= 'Z' || '0' <= c <= '9' || c == '_' || c == '-'
  }

  predicate ValidTag(t: string) {
    t != "" && forall i :: 0 <= i < |t| ==> IsTagChar(t[i])
  }

  /** Three backticks start at position `i` of `s`. */
  predicate TicksAt(s: string, i: int) {
    0 <= i && i + 3 <= |s| && s[i] == '`' && s[i + 1] == '`' && s[i + 2] == '`'
  }

  /**
   * A body the lazy capture can stop after: no ``` ``` ``` starts inside it, not even one that runs
   * on into the closing marks.
   */
  predicate ValidContent(c: string) {
    forall i :: 0 <= i < |c| ==> !TicksAt(c + "```", i)
  }

  predicate ValidFence(f: Fence) {
    (f.tag.Some? ==> ValidTag(f.tag.value)) && ValidContent(f.content)
  }

  function TagText(tag: Option<string>): string {
    if tag.Some? then tag.value else ""
  }

  /** The text a fence is written as. */
  function FenceSource(f: Fence): string {
    "```" + TagText(f.tag) + "\n" + f.content + "```"
  }

  /** End of the run of tag characters starting at `i`. */
  function TagEnd(s: string, i: nat): (j: nat)
    requires i <= |s|
    ensures i <= j <= |s|
    ensures forall k :: i <= k < j ==> IsTagChar(s[k])
    ensures j < |s| ==> !IsTagChar(s[j])
    decreases |s| - i
  {
    if i < |s| && IsTagChar(s[i]) then TagEnd(s, i + 1) else i
  }

  /** First position at or after `i` where three backticks start. */
  function FirstTicks(s: string, i: nat): (r: Option<nat>)
    requires i <= |s|
    ensures r.Some? ==> i <= r.value && TicksAt(s, r.value)
    ensures r.Some? ==> forall k :: i <= k < r.value ==> !TicksAt(s, k)
    ensures r.None? ==> forall k :: i <= k ==> !TicksAt(s, k)
    decreases |s| - i
  {
    if i + 3 > |s| then None
    else if TicksAt(s, i) then Some(i)
    else FirstTicks(s, i + 1)
  }

  /** Three backticks inside a slice are three backticks of the whole text, and conversely. */
  lemma TicksInSlice(s: string, a: nat, b: nat, i: nat)
    requires a <= b <= |s| && i + 3 <= b - a
    ensures TicksAt(s[a..b], i) <==> TicksAt(s, a + i)
  {
    assert s[a..b][i] == s[a + i] && s[a..b][i + 1] == s[a + i + 1] && s[a..b][i + 2] == s[a + i + 2];
  }

  /** The match of the fence pattern at the start of `s`, if there is one. */
  function FenceAt(s: string): Option<Fence> {
    if !TicksAt(s, 0) then None
    else
      var t := TagEnd(s, 3);
      if t == |s| || s[t] != '\n' then None
      else match FirstTicks(s, t + 1)
        case None => None
        case Some(j) => Some(Fence(if t == 3 then None else Some(s[3..t]), s[t + 1..j]))
  }

  /** A body that runs up to the first three backticks is one the lazy capture stops after. */
  lemma ContentUpToTicks(s: string, a: nat, j: nat)
    requires a <= j && TicksAt(s, j)
    requires forall k :: a <= k < j ==> !TicksAt(s, k)
    ensures ValidContent(s[a..j])
  {
    var c := s[a..j];
    assert c + "```" == s[a..j + 3];
    forall i | 0 <= i < |c| ensures !TicksAt(c + "```", i) {
      TicksInSlice(s, a, j + 3, i);
    }
  }

  /** What the pattern matches is always a well-formed fence written at the front of the text. */
  lemma FenceAtSound(s: string)
    ensures FenceAt(s).Some? ==> ValidFence(FenceAt(s).value) && FenceSource(FenceAt(s).value) <= s
  {
    if FenceAt(s).Some? {
      var t := TagEnd(s, 3);
      var j := FirstTicks(s, t + 1).value;
      var f := FenceAt(s).value;
      ContentUpToTicks(s, t + 1, j);
      assert TagText(f.tag) == s[3..t];
      SourceOfParts(s, f, t, j);
    }
  }

  lemma SourceOfParts(s: string, f: Fence, t: nat, j: nat)
    requires 3 <= t < j && j + 3 <= |s| && TicksAt(s, 0) && TicksAt(s, j) && s[t] == '\n'
    requires TagText(f.tag) == s[3..t] && f.content == s[t + 1..j]
    ensures FenceSource(f) == s[..j + 3]
  {
    assert s[..j + 3] == s[..3] + s[3..t] + [s[t]] + s[t + 1..j] + s[j..j + 3];
  }

  /** Every well-formed fence written at the front of the text is found, tag and body alike. */
  lemma FenceAtComplete(f: Fence, s: string)
    requires ValidFence(f) && FenceSource(f) <= s
    ensures FenceAt(s) == Some(f)
  {
    var t := 3 + |TagText(f.tag)|;
    var j := t + 1 + |f.content|;
    FenceLayout(f, s);
    TagRunEnd(f, s);
    NoTicksInContent(f, s, t, j);
    FirstTicksIs(s, t + 1, j);
    FenceAtUnfold(s, t, j);
  }

  lemma TagRunEnd(f: Fence, s: string)
    requires ValidFence(f)
    requires var t := 3 + |TagText(f.tag)|; t < |s| && s[3..t] == TagText(f.tag) && s[t] == '\n'
    ensures TagEnd(s, 3) == 3 + |TagText(f.tag)|
  {
    var t := 3 + |TagText(f.tag)|;
    forall k | 3 <= k < t ensures IsTagChar(s[k]) {
      assert s[k] == s[3..t][k - 3];
    }
    TagEndIs(s, 3, t);
  }

  lemma FirstTicksIs(s: string, i: nat, j: nat)
    requires i <= j && TicksAt(s, j)
    requires forall k :: i <= k < j ==> !TicksAt(s, k)
    ensures FirstTicks(s, i) == Some(j)
  {
  }

  lemma FenceAtUnfold(s: string, t: nat, j: nat)
    requires TicksAt(s, 0) && TagEnd(s, 3) == t && t < |s| && s[t] == '\n'
    requires FirstTicks(s, t + 1) == Some(j)
    ensures FenceAt(s) == Some(Fence(if t == 3 then None else Some(s[3..t]), s[t + 1..j]))
  {
  }

  /** Where the parts of a fence sit in text that starts with it. */
  lemma FenceLayout(f: Fence, s: string)
    requires FenceSource(f) <= s
    ensures var t := 3 + |TagText(f.tag)|; var j := t + 1 + |f.content|;
      && TicksAt(s, 0) && s[3..t] == TagText(f.tag) && s[t] == '\n'
      && TicksAt(s, j) && s[t + 1..j] == f.content && s[t + 1..j + 3] == f.content + "```"
  {
    var src := FenceSource(f);
    var t := 3 + |TagText(f.tag)|;
    var j := t + 1 + |f.content|;
    assert s[..|src|] == src;
    assert s[0] == src[0] && s[1] == src[1] && s[2] == src[2];
    assert s[j] == src[j] && s[j + 1] == src[j + 1] && s[j + 2] == src[j + 2];
  }

  lemma NoTicksInContent(f: Fence, s: string, t: nat, j: nat)
    requires ValidContent(f.content)
    requires t + 1 + |f.content| == j && j + 3 <= |s|
    requires s[t + 1..j + 3] == f.content + "```"
    ensures forall k :: t + 1 <= k < j ==> !TicksAt(s, k)
  {
    forall k | t + 1 <= k < j ensures !TicksAt(s, k) {
      TicksInSlice(s, t + 1, j + 3, k - t - 1);
    }
  }

  lemma TagEndIs(s: string, i: nat, j: nat)
    requires i <= j < |s|
    requires forall k :: i <= k < j ==> IsTagChar(s[k])
    requires !IsTagChar(s[j])
    ensures TagEnd(s, i) == j
  {
  }

  /** A match of the fence pattern: where it starts, where `lastIndex` goes next, and the fence. */
  datatype Match = Match(start: nat, end: nat, fence: Fence)

  /**
   * What `fenceRe.exec` finds when the scan starts at `i`: the first position where the pattern
   * matches, with the fence found there.
   */
  function NextFence(s: string, i: nat): (r: Option<Match>)
    requires i <= |s|
    ensures r.Some? ==> i <= r.value.start < r.value.end <= |s|
    decreases |s| - i
  {
    if i == |s| then None
    else
      match FenceAt(s[i..])
      case Some(f) =>
        FenceAtSound(s[i..]);
        Some(Match(i, i + |FenceSource(f)|, f))
      case None => NextFence(s, i + 1)
  }

  /** The match found is the fence written where it starts, and it ends where that fence's text ends. */
  lemma {:induction false} NextFenceFound(s: string, i: nat)
    requires i <= |s| && NextFence(s, i).Some?
    ensures FenceAt(s[NextFence(s, i).value.start..]) == Some(NextFence(s, i).value.fence)
    ensures NextFence(s, i).value.end == NextFence(s, i).value.start + |FenceSource(NextFence(s, i).value.fence)|
    decreases |s| - i
  {
    if FenceAt(s[i..]).None? {
      NextFenceFound(s, i + 1);
    }
  }

  /** No match starts before the one found; no match at all means the pattern matches nowhere. */
  lemma {:induction false} NextFenceFirst(s: string, i: nat)
    requires i <= |s|
    ensures NextFence(s, i).Some? ==> forall k :: i <= k < NextFence(s, i).value.start ==> FenceAt(s[k..]).None?
    ensures NextFence(s, i).None? ==> forall k :: i <= k <= |s| ==> FenceAt(s[k..]).None?
    decreases |s| - i
  {
    if i == |s| {
      assert !TicksAt(s[i..], 0);
    } else if FenceAt(s[i..]).None? {
      NextFenceFirst(s, i + 1);
    }
  }

  /** A fence at `p` with no match anywhere between `i` and `p` is what the scan from `i` finds. */
  lemma {:induction false} NextFenceIs(s: string, i: nat, p: nat, f: Fence)
    requires i <= p <= |s|
    requires FenceAt(s[p..]) == Some(f)
    requires forall k :: i <= k < p ==> FenceAt(s[k..]).None?
    ensures NextFence(s, i) == Some(Match(p, p + |FenceSource(f)|, f))
    decreases p - i
  {
    if i < p {
      NextFenceIs(s, i + 1, p, f);
    } else {
      FenceAtSound(s[p..]);
    }
  }

  /** No fence match starts at any of the first `n` positions of `s`. */
  predicate NoFenceBefore(s: string, n: nat)
    requires n <= |s|
  {
    forall k :: 0 <= k < n ==> FenceAt(s[k..]).None?
  }

  /** Three backticks in a row occur nowhere in `s`; single and double backticks may. */
  predicate NoTicks(s: string) {
    forall k :: 0 <= k < |s| ==> !TicksAt(s, k)
  }

  /** When the pattern matches at no position from `i` on, the scan finds nothing. */
  lemma {:induction false} NextFenceNone(s: string, i: nat)
    requires i <= |s|
    requires forall k :: i <= k < |s| ==> FenceAt(s[k..]).None?
    ensures NextFence(s, i).None?
    decreases |s| - i
  {
    if i < |s| {
      NextFenceNone(s, i + 1);
    }
  }

  /** No fence starts in text where three backticks never occur in a row. */
  lemma NoTicksNoFence(s: string)
    requires NoTicks(s)
    ensures NoFenceBefore(s, |s|)
  {
    forall k | 0 <= k < |s| ensures FenceAt(s[k..]).None? {
      if k + 3 <= |s| {
        TicksInSlice(s, k, |s|, 0);
      }
    }
  }

  /** How a fence tag is rendered. */
  datatype Kind = Shell | Program(lang: string) | Prose

  /**
   * The tag lower-cased and looked up in the two language lists; an untagged fence and an
   * unknown tag are prose. The two lists share no name, so a tag is never both.
   */
  function Classify(tag: Option<string>): (k: Kind)
    ensures k.Shell? <==> tag.Some? && ToLowerAscii(tag.value) in TerminalLangs
    ensures k.Program? <==> tag.Some? && ToLowerAscii(tag.value) in CodeLangs
    ensures k.Program? ==> k.lang == ToLowerAscii(tag.value)
  {
    if tag.None? then Prose
    else
      var lang := ToLowerAscii(tag.value);
      if lang in TerminalLangs then Shell
      else if lang in CodeLangs then Program(lang)
      else Prose
  }

  /** What one fence contributes: a terminal only when its transcript has entries. */
  function FencePieces(f: Fence): seq<Piece> {
    match Classify(f.tag)
    case Shell =>
      var entries := ParseTerminal(f.content);
      if entries == [] then [] else [Term(entries)]
    case Program(lang) => [Code(lang, Trim(f.content))]
    case Prose => [Md(f.content)]
  }

  /**
   * What one turn of the loop pushes for a match in `rest`: the markdown before it, when there
   * is any, and then what the fence yields.
   */
  function TurnPieces(rest: string, m: Match): seq<Piece>
    requires m.start <= |rest|
  {
    (if m.start > 0 then [Md(rest[..m.start])] else []) + FencePieces(m.fence)
  }

  /** `parseMarkdownWithTerminals` on the text from `lastIndex` on. */
  function ParseMarkdown(s: string): seq<Piece>
    decreases |s|
  {
    match NextFence(s, 0)
    case None => if s == "" then [] else [Md(s)]
    case Some(m) => TurnPieces(s, m) + ParseMarkdown(s[m.end..])
  }

  /** The while loop of `parseMarkdownWithTerminals`, with `lastIndex` stepping over each match. */
  method ParseMarkdownWithTerminals(md: string) returns (pieces: seq<Piece>)
    ensures pieces == ParseMarkdown(md)
  {
    pieces := [];
    var lastIndex: nat := 0;
    var rest := md;
    var m := NextFence(rest, 0);
    while m.Some?
      invariant lastIndex <= |md| && rest == md[lastIndex..]
      invariant m == NextFence(rest, 0)
      invariant pieces + ParseMarkdown(rest) == ParseMarkdown(md)
      decreases |rest|
    {
      var turn := TurnPieces(rest, m.value);
      LoopTurn(rest, m.value, pieces, ParseMarkdown(md));
      pieces := pieces + turn;
      DropDrop(md, lastIndex, m.value.end);
      lastIndex := lastIndex + m.value.end;
      rest := rest[m.value.end..];
      m := NextFence(rest, 0);
    }
    ParseMarkdownNone(rest);
    if lastIndex < |md| {
      pieces := pieces + [Md(md[lastIndex..])];
    }
  }

  /** One turn of the loop keeps the pieces pushed so far and the pieces still to come in step. */
  lemma LoopTurn(rest: string, m: Match, pieces: seq<Piece>, whole: seq<Piece>)
    requires NextFence(rest, 0) == Some(m)
    requires pieces + ParseMarkdown(rest) == whole
    ensures (pieces + TurnPieces(rest, m)) + ParseMarkdown(rest[m.end..]) == whole
  {
    ParseMarkdownAt(rest, m, rest[m.end..]);
    AppendAssoc(pieces, TurnPieces(rest, m), ParseMarkdown(rest[m.end..]));
  }

  lemma AppendAssoc(a: seq<Piece>, b: seq<Piece>, c: seq<Piece>)
    ensures (a + b) + c == a + (b + c)
  {
  }

  lemma DropDrop(s: string, a: nat, b: nat)
    requires a + b <= |s|
    ensures s[a..][b..] == s[a + b..]
  {
  }

  lemma ParseMarkdownNone(s: string)
    requires NextFence(s, 0).None?
    ensures ParseMarkdown(s) == GapPieces(s)
  {
  }

  /** A page as an author writes it: runs of plain text, each followed by a fence. */
  datatype Block = Block(gap: string, fence: Fence)

  function Write(blocks: seq<Block>, tail: string): string {
    if blocks == [] then tail
    else blocks[0].gap + FenceSource(blocks[0].fence) + Write(blocks[1..], tail)
  }

  function GapPieces(gap: string): seq<Piece> {
    if gap == "" then [] else [Md(gap)]
  }

  /** The pieces such a page should become: each gap as markdown, then what its fence contributes. */
  function Expected(blocks: seq<Block>, tail: string): seq<Piece> {
    if blocks == [] then GapPieces(tail)
    else GapPieces(blocks[0].gap) + FencePieces(blocks[0].fence) + Expected(blocks[1..], tail)
  }

  /**
   * Parsing a written page gives back its blocks: when three backticks never occur in a row
   * outside the fences, every gap comes out as one markdown piece and every fence is found whole.
   * Inline code spans with one or two backticks may appear anywhere in the gaps.
   */
  lemma {:induction false} ParseWritten(blocks: seq<Block>, tail: string)
    requires forall i :: 0 <= i < |blocks| ==> ValidFence(blocks[i].fence) && NoTicks(blocks[i].gap)
    requires NoTicks(tail)
    ensures ParseMarkdown(Write(blocks, tail)) == Expected(blocks, tail)
    decreases |blocks|
  {
    if blocks == [] {
      NoTicksNoFence(tail);
      NextFenceNone(tail, 0);
    } else {
      var b := blocks[0];
      var rest := Write(blocks[1..], tail);
      ParseWritten(blocks[1..], tail);
      GapHasNoFence(b.gap + FenceSource(b.fence) + rest, b, rest);
      LeadingBlock(b, rest);
    }
  }

  /**
   * One gap and one fence in front of the rest of a page, when no match starts inside the gap:
   * the gap is one markdown piece, the fence is found whole, and the scan goes on after it.
   */
  lemma LeadingBlock(b: Block, rest: string)
    requires ValidFence(b.fence)
    requires NoFenceBefore(b.gap + FenceSource(b.fence) + rest, |b.gap|)
    ensures ParseMarkdown(b.gap + FenceSource(b.fence) + rest)
            == GapPieces(b.gap) + FencePieces(b.fence) + ParseMarkdown(rest)
  {
    var s := b.gap + FenceSource(b.fence) + rest;
    var m := Match(|b.gap|, |b.gap| + |FenceSource(b.fence)|, b.fence);
    LeadingMatch(s, b, rest);
    ParseMarkdownAt(s, m, rest);
    assert s[..m.start] == b.gap;
  }

  /** The first match in a block written in front of the rest is the block's own fence. */
  lemma LeadingMatch(s: string, b: Block, rest: string)
    requires ValidFence(b.fence)
    requires s == b.gap + FenceSource(b.fence) + rest
    requires NoFenceBefore(s, |b.gap|)
    ensures NextFence(s, 0) == Some(Match(|b.gap|, |b.gap| + |FenceSource(b.fence)|, b.fence))
    ensures s[|b.gap| + |FenceSource(b.fence)|..] == rest
  {
    var p := |b.gap|;
    var src := FenceSource(b.fence);
    assert s[p..] == src + rest;
    FenceAtComplete(b.fence, s[p..]);
    NextFenceIs(s, 0, p, b.fence);
    assert s[p + |src|..] == rest;
  }

  /**
   * No match starts inside a gap without three backticks in a row when a fence follows it: a run
   * of backticks reaching from the gap into the fence's opening marks is followed by a backtick,
   * which is neither a tag character nor a newline.
   */
  lemma GapHasNoFence(s: string, b: Block, rest: string)
    requires s == b.gap + FenceSource(b.fence) + rest && NoTicks(b.gap)
    ensures NoFenceBefore(s, |b.gap|)
  {
    var p := |b.gap|;
    assert s[..p] == b.gap;
    assert s[p] == '`' && s[p + 1] == '`' && s[p + 2] == '`' by {
      assert s[p..p + 3] == "```";
    }
    forall k | 0 <= k < p ensures FenceAt(s[k..]).None? {
      if k + 3 <= p {
        TicksInSlice(s, 0, p, k);
      } else {
        StraddlingTicks(s[k..]);
      }
    }
  }

  /** Three backticks followed by a fourth are not a fence opener. */
  lemma StraddlingTicks(u: string)
    requires |u| > 3 && u[3] == '`'
    ensures FenceAt(u).None?
  {
    assert TagEnd(u, 3) == 3;
  }

  lemma ParseMarkdownAt(s: string, m: Match, tail: string)
    requires NextFence(s, 0) == Some(m) && s[m.end..] == tail
    ensures ParseMarkdown(s) == TurnPieces(s, m) + ParseMarkdown(tail)
  {
  }

  /** Shell and program tags are matched without regard to ASCII case. */
  lemma ClassifyIgnoresCase(t: string)
    ensures Classify(Some(t)) == Classify(Some(ToLowerAscii(t)))
  {
    var lower := ToLowerAscii(t);
    assert ToLowerAscii(lower) == lower by {
      forall i | 0 <= i < |lower| ensures LowerChar(lower[i]) == lower[i] {
        assert !IsAsciiUpper(lower[i]);
      }
    }
  }

  /** The pieces that carry structure are well formed. */
  predicate WellFormedPiece(piece: Piece) {
    match piece
    case Md(_) => true
    case Term(entries) => entries != []
    case Code(lang, code) => lang in CodeLangs && Trim(code) == code
  }

  predicate AllWellFormed(pieces: seq<Piece>) {
    forall i :: 0 <= i < |pieces| ==> WellFormedPiece(pieces[i])
  }

  /** A terminal piece always holds entries; a code piece names a known language and is trimmed. */
  lemma FencePiecesWellFormed(f: Fence)
    ensures AllWellFormed(FencePieces(f))
  {
    if Classify(f.tag).Program? {
      TrimIdempotent(f.content);
    }
  }

  lemma {:induction false} PiecesWellFormed(s: string)
    ensures AllWellFormed(ParseMarkdown(s))
    decreases |s|
  {
    match NextFence(s, 0)
    case None =>
    case Some(m) =>
      FencePiecesWellFormed(m.fence);
      PiecesWellFormed(s[m.end..]);
      var gap := if m.start > 0 then [Md(s[..m.start])] else [];
      AppendWellFormed(gap, FencePieces(m.fence));
      AppendWellFormed(gap + FencePieces(m.fence), ParseMarkdown(s[m.end..]));
  }

  lemma AppendWellFormed(a: seq<Piece>, b: seq<Piece>)
    requires AllWellFormed(a) && AllWellFormed(b)
    ensures AllWellFormed(a + b)
  {
    forall i | 0 <= i < |a + b| ensures WellFormedPiece((a + b)[i]) {
      if i >= |a| {
        assert (a + b)[i] == b[i - |a|];
      }
    }
  }
}
