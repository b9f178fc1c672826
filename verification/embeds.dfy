/**
 * The page-time embed rewriter (`convertObsidianEmbeds`): every `![[target]]` or
 * `![[target|alias]]` becomes a markdown image `![target](/labs/<slug>/<path>)` whose path is the
 * trimmed target with each `/`-separated segment percent-encoded.
 *
 * The regular expression `!\[\[([^\]|]+)(?:\|[^\]]+)?\]\]` never profits from backtracking: the
 * target is the longest run free of `]` and `|`, the alias the longest run free of `]`, and each
 * must be followed by exactly what comes next in the pattern. A match is therefore a function of
 * the text at the scan position, and global replacement is a left-to-right scan that copies one
 * character whenever no match starts there.
 */
module Embeds {
  import opened Wrappers
  import opened Strings
  import opened UriEncode

  /** One embed: the captured target and the alias after `|`, if any. */
  datatype Embed = Embed(target: string, alias: Option<string>)

  predicate ValidTarget(t: string) { t != "" && ']' !in t && '|' !in t }

  predicate ValidAlias(a: string) { a != "" && ']' !in a }

  predicate ValidEmbed(e: Embed) {
    ValidTarget(e.target) && (e.alias.Some? ==> ValidAlias(e.alias.value))
  }

  /** The text an embed is written as. */
  function Source(e: Embed): string {
    "![[" + e.target + (if e.alias.Some? then "|" + e.alias.value else "") + "]]"
  }

  /**
   * The match of the embed pattern at the start of `s`, if there is one: it is always a
   * well-formed embed written at the front of `s`.
   */
  function EmbedAt(s: string): (r: Option<Embed>)
    ensures r.Some? ==> ValidEmbed(r.value) && Source(r.value) <= s
  {
    if !OpensAt(s, 0) then None
    else
      var t := SpanUntil(s, 3, {']', '|'});
      if t == 3 then None
      else if t + 2 <= |s| && s[t] == ']' && s[t + 1] == ']' then
        PlainSource(s, t);
        Some(Embed(s[3..t], None))
      else if t < |s| && s[t] == '|' then
        var a := SpanUntil(s, t + 1, {']'});
        if a > t + 1 && a + 2 <= |s| && s[a + 1] == ']' then
          AliasSource(s, t, a);
          Some(Embed(s[3..t], Some(s[t + 1..a])))
        else None
      else None
  }

  lemma PlainSource(s: string, t: nat)
    requires OpensAt(s, 0) && 3 <= t && t + 2 <= |s| && s[t] == ']' && s[t + 1] == ']'
    ensures Source(Embed(s[3..t], None)) == s[..t + 2]
  {
    assert s[..t + 2] == s[..3] + s[3..t] + s[t..t + 2];
  }

  lemma AliasSource(s: string, t: nat, a: nat)
    requires OpensAt(s, 0) && 3 <= t < a && a + 2 <= |s| && s[t] == '|' && s[a] == ']' && s[a + 1] == ']'
    ensures Source(Embed(s[3..t], Some(s[t + 1..a]))) == s[..a + 2]
  {
    assert s[..a + 2] == s[..3] + s[3..t] + [s[t]] + s[t + 1..a] + s[a..a + 2];
  }

  /** Every well-formed embed written at the front of the text is found, alias and all. */
  lemma EmbedAtComplete(e: Embed, s: string)
    requires ValidEmbed(e) && Source(e) <= s
    ensures EmbedAt(s) == Some(e)
  {
    var t := 3 + |e.target|;
    EmbedLayout(e, s);
    SpanUntilIs(s, 3, t, {']', '|'});
    if e.alias.Some? {
      var a := t + 1 + |e.alias.value|;
      SpanUntilIs(s, t + 1, a, {']'});
      EmbedAtAlias(s, t, a);
    } else {
      EmbedAtPlain(s, t);
    }
  }

  /** Where the parts of an embed sit in text that starts with it. */
  lemma EmbedLayout(e: Embed, s: string)
    requires ValidEmbed(e) && Source(e) <= s
    ensures var t := 3 + |e.target|;
      && OpensAt(s, 0) && t < |s| && s[3..t] == e.target
      && (forall k :: 3 <= k < t ==> s[k] !in {']', '|'})
      && s[t] == (if e.alias.Some? then '|' else ']')
      && (e.alias.None? ==> t + 2 <= |s| && s[t + 1] == ']')
      && (e.alias.Some? ==>
            var a := t + 1 + |e.alias.value|;
            a + 2 <= |s| && s[t + 1..a] == e.alias.value && s[a] == ']' && s[a + 1] == ']'
            && forall k :: t + 1 <= k < a ==> s[k] != ']')
  {
    var t := 3 + |e.target|;
    var src := Source(e);
    assert s[..|src|] == src;
    assert s[..3] == "![[";
    assert s[3..t] == e.target;
    forall k | 3 <= k < t ensures s[k] !in {']', '|'} {
      assert s[k] == e.target[k - 3];
    }
    if e.alias.Some? {
      var a := t + 1 + |e.alias.value|;
      assert s[t + 1..a] == e.alias.value;
      forall k | t + 1 <= k < a ensures s[k] != ']' {
        assert s[k] == e.alias.value[k - t - 1];
      }
    }
  }

  lemma EmbedAtPlain(s: string, t: nat)
    requires OpensAt(s, 0) && 3 < t && t + 2 <= |s| && SpanUntil(s, 3, {']', '|'}) == t
    requires s[t] == ']' && s[t + 1] == ']'
    ensures EmbedAt(s) == Some(Embed(s[3..t], None))
  {
  }

  lemma EmbedAtAlias(s: string, t: nat, a: nat)
    requires OpensAt(s, 0) && 3 < t && t + 1 < a && a + 2 <= |s| && SpanUntil(s, 3, {']', '|'}) == t
    requires s[t] == '|' && SpanUntil(s, t + 1, {']'}) == a && s[a + 1] == ']'
    ensures EmbedAt(s) == Some(Embed(s[3..t], Some(s[t + 1..a])))
  {
  }

  /**
   * The path part of an embed's image link: the target split on `/`, each segment passed
   * through `encodeURIComponent`, rejoined with `/`. Slashes stay directory separators: the
   * link has exactly the target's segments, and decoding each gives the segment back.
   */
  function EncodePath(t: string): (r: string)
    ensures |Split(r, '/')| == |Split(t, '/')|
    ensures forall i :: 0 <= i < |Split(t, '/')| ==>
              DecodeComponent(Split(r, '/')[i]) == Some(Split(t, '/')[i])
    ensures forall k :: 0 <= k < |r| ==> IsPathChar(r[k])
  {
    var segments := Split(t, '/');
    var encoded := seq(|segments|, i requires 0 <= i < |segments| => EncodeComponent(segments[i]));
    var r := Join(encoded, "/");
    JoinKeeps(encoded, "/", IsPathChar);
    forall i | 0 <= i < |encoded| ensures '/' !in encoded[i] {
      assert forall k :: 0 <= k < |encoded[i]| ==> IsEncodedChar(encoded[i][k]);
    }
    SplitJoin(encoded, '/');
    forall i | 0 <= i < |segments|
      ensures DecodeComponent(Split(r, '/')[i]) == Some(segments[i])
    {
      EncodeDecodeRoundTrip(segments[i]);
    }
    r
  }

  /** What an encoded path is made of: unreserved characters, `%` and `/`. */
  predicate IsPathChar(c: char) { IsEncodedChar(c) || c == '/' }

  /** What follows `](` in an image link: `/labs/<slug>/<path>)`. */
  function LinkTail(slug: string, path: string): string {
    "/labs/" + slug + "/" + path + ")"
  }

  /** The markdown image an embed becomes; the alias plays no part. */
  function Replacement(target: string, slug: string): string {
    "![" + target + "](" + LinkTail(slug, EncodePath(Trim(target)))
  }

  /** `convertObsidianEmbeds(md, slug)`. */
  function ConvertEmbeds(s: string, slug: string): string
    decreases |s|
  {
    if s == "" then ""
    else match EmbedAt(s)
      case Some(e) => Replacement(e.target, slug) + ConvertEmbeds(s[|Source(e)|..], slug)
      case None => [s[0]] + ConvertEmbeds(s[1..], slug)
  }

  predicate OpensAt(s: string, i: int) {
    0 <= i && i + 3 <= |s| && s[i] == '!' && s[i + 1] == '[' && s[i + 2] == '['
  }

  /** Text in which `![[` never occurs. */
  predicate NoEmbedOpener(s: string) {
    forall i :: 0 <= i < |s| ==> !OpensAt(s, i)
  }

  /** Text without any `![[` comes back unchanged. */
  lemma {:induction false} ConvertWithoutOpener(s: string, slug: string)
    requires NoEmbedOpener(s)
    ensures ConvertEmbeds(s, slug) == s
  {
    if s != "" {
      var t := s[1..];
      assert s == [s[0]] + t;
      ConvertStepText(s, s[0], t, slug);
      assert NoEmbedOpener(t) by {
        forall i | 0 <= i < |t| ensures !OpensAt(t, i) {
          assert !OpensAt(s, i + 1);
        }
      }
      ConvertWithoutOpener(t, slug);
    }
  }

  /** Where no embed starts, one character is copied and the scan moves on. */
  lemma ConvertStepText(s: string, c: char, t: string, slug: string)
    requires s == [c] + t && EmbedAt(s).None?
    ensures ConvertEmbeds(s, slug) == [c] + ConvertEmbeds(t, slug)
  {
    assert s[1..] == t;
  }

  /** An embed at the front is replaced by its image link, and the scan goes on after it. */
  lemma ConvertLeadingEmbed(e: Embed, rest: string, slug: string)
    requires ValidEmbed(e)
    ensures ConvertEmbeds(Source(e) + rest, slug)
            == Replacement(e.target, slug) + ConvertEmbeds(rest, slug)
  {
    EmbedAtComplete(e, Source(e) + rest);
    assert (Source(e) + rest)[|Source(e)|..] == rest;
  }

  /** No embed match starts at any of the first `n` positions of `s`. */
  predicate NoEmbedBefore(s: string, n: nat)
    requires n <= |s|
  {
    forall i :: 0 <= i < n ==> NoEmbedAt(s, i)
  }

  /** No embed match starts at position `i` of `s`. */
  predicate NoEmbedAt(s: string, i: nat)
    requires i <= |s|
  {
    EmbedAt(s[i..]).None?
  }

  /** Text in front of the rest, at none of whose positions an embed starts, passes through untouched. */
  lemma ConvertLeadingText(x: string, rest: string, slug: string)
    requires NoEmbedBefore(x + rest, |x|)
    ensures ConvertEmbeds(x + rest, slug) == x + ConvertEmbeds(rest, slug)
  {
    var s := x + rest;
    ConvertLeadingFrom(s, 0, |x|, slug);
    assert s[0..] == s && s[0..|x|] == x && s[|x|..] == rest;
  }

  /** From position `k` up to `n`, where no embed starts, the text is copied one character at a time. */
  lemma {:induction false} ConvertLeadingFrom(s: string, k: nat, n: nat, slug: string)
    requires k <= n <= |s| && NoEmbedBefore(s, n)
    ensures ConvertEmbeds(s[k..], slug) == s[k..n] + ConvertEmbeds(s[n..], slug)
    decreases n - k
  {
    if k < n {
      ConvertLeadingFrom(s, k + 1, n, slug);
      ConvertLeadingStep(s, k, n, slug);
    } else {
      assert s[k..n] == [];
    }
  }

  /** One more copied character in front of a copied stretch. */
  lemma ConvertLeadingStep(s: string, k: nat, n: nat, slug: string)
    requires k < n <= |s| && NoEmbedAt(s, k)
    requires ConvertEmbeds(s[k + 1..], slug) == s[k + 1..n] + ConvertEmbeds(s[n..], slug)
    ensures ConvertEmbeds(s[k..], slug) == s[k..n] + ConvertEmbeds(s[n..], slug)
  {
    ConvertCharAt(s, k, slug);
    assert s[k..n] == [s[k]] + s[k + 1..n];
    ConsChain(ConvertEmbeds(s[k..], slug), ConvertEmbeds(s[k + 1..], slug), s[k],
              s[k..n], s[k + 1..n], ConvertEmbeds(s[n..], slug));
  }

  lemma ConvertCharAt(s: string, k: nat, slug: string)
    requires k < |s| && NoEmbedAt(s, k)
    ensures ConvertEmbeds(s[k..], slug) == [s[k]] + ConvertEmbeds(s[k + 1..], slug)
  {
    ConvertStepText(s[k..], s[k], s[k + 1..], slug);
  }

  /** The alias never reaches the output: an embed converts the same with or without one. */
  lemma AliasDropped(t: string, a: string, rest: string, slug: string)
    requires ValidTarget(t) && ValidAlias(a)
    ensures ConvertEmbeds("![[" + t + "|" + a + "]]" + rest, slug)
            == ConvertEmbeds("![[" + t + "]]" + rest, slug)
  {
    var withAlias := Embed(t, Some(a));
    var without := Embed(t, None);
    assert Source(withAlias) + rest == "![[" + t + "|" + a + "]]" + rest;
    assert Source(without) + rest == "![[" + t + "]]" + rest;
    ConvertLeadingEmbed(withAlias, rest, slug);
    ConvertLeadingEmbed(without, rest, slug);
  }

  /**
   * Converting is idempotent when the slug holds no `![[`: the converted text has no embed left
   * in it, so a second pass copies it as it is.
   */
  lemma ConvertIdempotent(s: string, slug: string)
    requires NoEmbedOpener(slug)
    ensures ConvertEmbeds(ConvertEmbeds(s, slug), slug) == ConvertEmbeds(s, slug)
  {
    ConvertedHasNoEmbed(s, slug);
    ConvertNoEmbed(ConvertEmbeds(s, slug), slug);
  }

  /** Text in which no embed match starts anywhere is copied as it is. */
  lemma ConvertNoEmbed(x: string, slug: string)
    requires NoEmbedBefore(x, |x|)
    ensures ConvertEmbeds(x, slug) == x
  {
    assert x + "" == x;
    ConvertLeadingText(x, "", slug);
  }

  /**
   * When the slug holds no `![[`, no embed match starts anywhere in converted text: every match
   * became an image link in which no match can start, and a position that was copied cannot
   * start a match that was not there before.
   */
  lemma {:induction false} ConvertedHasNoEmbed(s: string, slug: string)
    requires NoEmbedOpener(slug)
    ensures NoEmbedBefore(ConvertEmbeds(s, slug), |ConvertEmbeds(s, slug)|)
    decreases |s|
  {
    if s != "" {
      match EmbedAt(s)
      case Some(e) =>
        var rest := s[|Source(e)|..];
        ConvertedHasNoEmbed(rest, slug);
        ReplacementOpaque(e.target, slug, ConvertEmbeds(rest, slug));
        NoEmbedAfter(Replacement(e.target, slug), ConvertEmbeds(rest, slug));
      case None =>
        var t := s[1..];
        assert [s[0]] + t == s;
        ConvertedHasNoEmbed(t, slug);
        NoMatchSurvives([s[0]], t, slug);
        NoEmbedAfter([s[0]], ConvertEmbeds(t, slug));
    }
  }

  /** Text free of embed matches keeps that freedom behind a front that starts none. */
  lemma NoEmbedAfter(x: string, u: string)
    requires NoEmbedBefore(x + u, |x|) && NoEmbedBefore(u, |u|)
    ensures NoEmbedBefore(x + u, |x + u|)
  {
    forall i | |x| <= i < |x + u| ensures NoEmbedAt(x + u, i) {
      assert (x + u)[i..] == u[i - |x|..];
      assert NoEmbedAt(u, i - |x|);
    }
  }

  /**
   * Where no embed starts in front of some text, none starts after the text is converted either:
   * a match reaching into an image link would need `]]` where the link has `](`.
   */
  lemma {:induction false} NoMatchSurvives(p: string, t: string, slug: string)
    requires EmbedAt(p + t).None?
    ensures EmbedAt(p + ConvertEmbeds(t, slug)).None?
    decreases |t|
  {
    if t == "" {
      assert p + t == p + ConvertEmbeds(t, slug);
    } else {
      match EmbedAt(t)
      case Some(e1) =>
        NoMatchBeforeConverted(p, t, e1, slug);
      case None =>
        var c := t[0];
        assert (p + [c]) + t[1..] == p + t;
        NoMatchSurvives(p + [c], t[1..], slug);
        NoMatchAfterCopy(p, t, slug);
    }
  }

  /** The step of `NoMatchSurvives` where `t` starts with an embed. */
  lemma NoMatchBeforeConverted(p: string, t: string, e1: Embed, slug: string)
    requires EmbedAt(p + t).None? && t != "" && EmbedAt(t) == Some(e1)
    ensures EmbedAt(p + ConvertEmbeds(t, slug)).None?
  {
    var u := ConvertEmbeds(t[|Source(e1)|..], slug);
    assert ConvertEmbeds(t, slug) == Replacement(e1.target, slug) + u;
    NoMatchBeforeLink(p, t, e1.target, slug, u);
  }

  /** The step of `NoMatchSurvives` where the first character of `t` is copied. */
  lemma NoMatchAfterCopy(p: string, t: string, slug: string)
    requires t != "" && EmbedAt(t).None?
    requires EmbedAt((p + [t[0]]) + ConvertEmbeds(t[1..], slug)).None?
    ensures EmbedAt(p + ConvertEmbeds(t, slug)).None?
  {
    ConvertStepText(t, t[0], t[1..], slug);
    ShiftChar(p, t[0], ConvertEmbeds(t[1..], slug), ConvertEmbeds(t, slug));
  }

  lemma ShiftChar(p: string, c: char, x: string, y: string)
    requires y == [c] + x
    ensures (p + [c]) + x == p + y
  {
  }

  /** No match starts in front of an image link if none started there in the text it replaced. */
  lemma NoMatchBeforeLink(p: string, t: string, target: string, slug: string, u: string)
    requires ValidTarget(target) && EmbedAt(p + t).None?
    ensures EmbedAt(p + (Replacement(target, slug) + u)).None?
  {
    var w := p + (Replacement(target, slug) + u);
    LinkStopsMatch(p, target, slug, u);
    if EmbedAt(w).Some? {
      MatchWithinFront(EmbedAt(w).value, p, w, t);
    }
  }

  /** A match found in front of an image link lies in the text before the link. */
  lemma LinkStopsMatch(p: string, target: string, slug: string, u: string)
    requires ValidTarget(target)
    ensures var w := p + (Replacement(target, slug) + u);
      EmbedAt(w).Some? ==> |Source(EmbedAt(w).value)| <= |p|
  {
    var r := Replacement(target, slug);
    var w := p + (r + u);
    var k0 := 2 + |target|;
    ReplacementLayout(target, slug);
    forall m | |p| <= m < |p| + k0 ensures w[m] != ']' {
      assert w[m] == r[m - |p|];
    }
    assert w[|p| + k0] == r[k0] && w[|p| + k0 + 1] == r[k0 + 1];
    BracketStops(w, 0, |p|, |p| + k0);
    assert w[0..] == w;
  }

  /** A match that fits in `p` is a match in front of `p + t` as well. */
  lemma MatchWithinFront(e: Embed, p: string, w: string, t: string)
    requires ValidEmbed(e) && Source(e) <= w && |Source(e)| <= |p| && p <= w
    ensures EmbedAt(p + t) == Some(e)
  {
    var n := |Source(e)|;
    assert Source(e) == w[..n] == p[..n] == (p + t)[..n];
    EmbedAtComplete(e, p + t);
  }

  /** A match cannot run over a `]` that is not followed by another `]`. */
  lemma BracketStops(w: string, i: nat, j: nat, k: nat)
    requires i <= k && j < k && k + 1 < |w| && w[k] == ']' && w[k + 1] != ']'
    requires forall m :: j <= m < k ==> w[m] != ']'
    ensures EmbedAt(w[i..]).Some? ==> i + |Source(EmbedAt(w[i..]).value)| <= j
  {
    if EmbedAt(w[i..]).Some? {
      var e := EmbedAt(w[i..]).value;
      var src := Source(e);
      SourceBrackets(e);
      var q := i + |src| - 2;
      assert w[q] == src[|src| - 2] && w[q + 1] == src[|src| - 1];
      forall m | i <= m < q ensures w[m] != ']' {
        assert w[m] == src[m - i];
      }
    }
  }

  /** An embed's only `]`s are its closing pair. */
  lemma SourceBrackets(e: Embed)
    requires ValidEmbed(e)
    ensures var src := Source(e);
      && |src| >= 6 && src[|src| - 2] == ']' && src[|src| - 1] == ']'
      && forall m :: 0 <= m < |src| - 2 ==> src[m] != ']'
  {
    var mid := e.target + (if e.alias.Some? then "|" + e.alias.value else "");
    var src := Source(e);
    assert src == "![[" + mid + "]]";
    forall m | 0 <= m < |mid| ensures mid[m] != ']' {
      if m < |e.target| {
        assert mid[m] == e.target[m];
      } else if m > |e.target| {
        assert mid[m] == e.alias.value[m - |e.target| - 1];
      }
    }
    forall m | 0 <= m < |src| - 2 ensures src[m] != ']' {
      if m >= 3 {
        assert src[m] == mid[m - 3];
      }
    }
  }

  /**
   * An image link is `![`, the target, `](`, then a tail in which no `![[` can start, whatever
   * follows it.
   */
  lemma ReplacementLayout(target: string, slug: string)
    requires ValidTarget(target)
    ensures var r := Replacement(target, slug); var k := 2 + |target|;
      && k + 1 < |r| && r[k] == ']' && r[k + 1] == '('
      && (forall m :: 0 <= m < k ==> r[m] != ']')
      && (NoEmbedOpener(slug) ==> NoOpenerFrom(r[k + 2..]))
  {
    var r := Replacement(target, slug);
    var k := 2 + |target|;
    var path := EncodePath(Trim(target));
    var b := LinkTail(slug, path);
    assert r == ("![" + target + "](") + b;
    assert r[k + 2..] == b;
    forall m | 0 <= m < k ensures r[m] != ']' {
      if m >= 2 {
        assert r[m] == target[m - 2];
      }
    }
    if NoEmbedOpener(slug) {
      LinkTailOpenerFree(slug, path);
    }
  }

  /** No `![[` starts in the part of a link after `](` unless the slug holds one. */
  lemma LinkTailOpenerFree(slug: string, path: string)
    requires NoEmbedOpener(slug) && forall k :: 0 <= k < |path| ==> IsPathChar(path[k])
    ensures NoOpenerFrom(LinkTail(slug, path))
  {
    var tail := "/" + path + ")";
    forall m | 0 <= m < |tail| ensures tail[m] != '[' {
      if 0 < m < |tail| - 1 {
        assert tail[m] == path[m - 1];
      }
    }
    NoBracketNoOpener(tail);
    OpenerFreeJoin(slug, tail);
    assert '!' !in "/labs/";
    NoBangPrefix("/labs/", slug + tail);
    assert "/labs/" + (slug + tail) == LinkTail(slug, path);
  }

  /** No `![[` starts anywhere in `v`, even if `[[` follows it. */
  predicate NoOpenerFrom(v: string) {
    forall i :: 0 <= i < |v| ==> !OpensAt(v + "[[", i)
  }

  /** Such text starts no `![[`, whatever follows it. */
  lemma NoOpenerExtends(v: string, u: string, i: nat)
    requires NoOpenerFrom(v) && i < |v|
    ensures !OpensAt(v + u, i)
  {
    assert !OpensAt(v + "[[", i);
  }

  lemma NoBracketNoOpener(v: string)
    requires |v| > 0 && v[|v| - 1] != '!' && forall m :: 0 <= m < |v| ==> v[m] != '['
    ensures NoOpenerFrom(v)
  {
    forall i | 0 <= i < |v| ensures !OpensAt(v + "[[", i) {
      if i + 1 < |v| {
        assert (v + "[[")[i + 1] == v[i + 1];
      } else {
        assert (v + "[[")[i] == v[i];
      }
    }
  }

  lemma OpenerFreeJoin(x: string, y: string)
    requires NoEmbedOpener(x) && NoOpenerFrom(y) && |y| > 0 && y[0] != '['
    ensures NoOpenerFrom(x + y)
  {
    var v := x + y + "[[";
    assert v == x + (y + "[[");
    forall i | 0 <= i < |x + y| ensures !OpensAt(v, i) {
      if i >= |x| {
        ShiftOpens(x, y + "[[", i);
      } else if i + 2 < |x| {
        assert !OpensAt(x, i);
      } else {
        assert v[|x|] == y[0];
      }
    }
  }

  lemma NoBangPrefix(x: string, y: string)
    requires '!' !in x && NoOpenerFrom(y)
    ensures NoOpenerFrom(x + y)
  {
    var v := x + y + "[[";
    assert v == x + (y + "[[");
    forall i | 0 <= i < |x + y| ensures !OpensAt(v, i) {
      if i >= |x| {
        ShiftOpens(x, y + "[[", i);
      } else {
        assert v[i] == x[i];
      }
    }
  }

  /** Whether `![[` starts at a position past `x` depends on what follows `x` only. */
  lemma ShiftOpens(x: string, y: string, i: nat)
    requires |x| <= i
    ensures OpensAt(x + y, i) == OpensAt(y, i - |x|)
  {
    if i + 3 <= |x + y| {
      assert (x + y)[i] == y[i - |x|];
      assert (x + y)[i + 1] == y[i - |x| + 1];
      assert (x + y)[i + 2] == y[i - |x| + 2];
    }
  }

  /** Where no `![[` starts, no embed starts. */
  lemma ClosedAt(w: string, i: nat)
    requires i <= |w| && !OpensAt(w, i)
    ensures NoEmbedAt(w, i)
  {
    assert !OpensAt(w[i..], 0);
  }

  /** No embed match starts anywhere inside an image link, whatever text follows the link. */
  lemma ReplacementOpaque(target: string, slug: string, u: string)
    requires ValidTarget(target) && NoEmbedOpener(slug)
    ensures NoEmbedBefore(Replacement(target, slug) + u, |Replacement(target, slug)|)
  {
    var r := Replacement(target, slug);
    var w := r + u;
    var k := 2 + |target|;
    ReplacementLayout(target, slug);
    forall i | 0 <= i < |r| ensures NoEmbedAt(w, i) {
      if i <= k + 1 {
        LinkHeadClosed(target, slug, w, i);
      } else {
        var b := r[k + 2..];
        NoOpenerExtends(b, u, i - (k + 2));
        assert w == r[..k + 2] + (b + u);
        ShiftOpens(r[..k + 2], b + u, i);
        ClosedAt(w, i);
      }
    }
  }

  /**
   * A slug that is itself an embed breaks idempotence: the slug is copied into the link
   * unescaped, and the second pass rewrites the embed inside it.
   */
  lemma SlugWithEmbedRewritten(target: string, b: Embed)
    requires ValidTarget(target) && ValidEmbed(b)
    ensures var once := ConvertEmbeds("![[" + target + "]]", Source(b));
      ConvertEmbeds(once, Source(b)) != once
  {
    var slug := Source(b);
    var e := Embed(target, None);
    assert Source(e) + "" == "![[" + target + "]]";
    ConvertLeadingEmbed(e, "", slug);
    var once := Replacement(target, slug);
    assert ConvertEmbeds("![[" + target + "]]", slug) == once + ConvertEmbeds("", slug) == once;
    var n := |target| + 10;
    var rest := "/" + EncodePath(Trim(target)) + ")";
    LinkFrontClosed(target, slug);
    LinkAroundSlug(target, slug);
    var x := once[..n];
    ConvertLeadingText(x, slug + rest, slug);
    ConvertLeadingEmbed(b, rest, slug);
    var y := Replacement(b.target, slug);
    var twice := ConvertEmbeds(once, slug);
    assert twice == x + (y + ConvertEmbeds(rest, slug));
    var q := n + 2 + |b.target|;
    ReplacementLayout(b.target, slug);
    SourceBrackets(b);
    assert twice[q] == y[2 + |b.target|] == ']';
    assert once[q] == slug[2 + |b.target|] != ']';
  }

  /** An image link is its front, then the slug, then the rest of its path. */
  lemma LinkAroundSlug(target: string, slug: string)
    ensures var r := Replacement(target, slug); var n := |target| + 10;
      n <= |r| && r == r[..n] + (slug + ("/" + EncodePath(Trim(target)) + ")"))
  {
    LinkAroundSlugOf(target, slug, EncodePath(Trim(target)));
  }

  lemma LinkAroundSlugOf(target: string, slug: string, path: string)
    ensures var r := "![" + target + "](" + LinkTail(slug, path); var n := |target| + 10;
      n <= |r| && r == r[..n] + (slug + ("/" + path + ")"))
  {
    assert LinkTail(slug, path) == "/labs/" + slug + ("/" + path + ")");
    Regroup("![" + target + "](", "/labs/", slug, "/" + path + ")");
  }

  lemma Regroup(a: string, b: string, c: string, d: string)
    ensures var r := a + (b + c + d); r[..|a + b|] == a + b && r == r[..|a + b|] + (c + d)
  {
    var r := a + (b + c + d);
    assert r == (a + b) + (c + d);
  }

  /** No embed starts in an image link before its slug, whatever the slug is. */
  lemma LinkFrontClosed(target: string, slug: string)
    requires ValidTarget(target)
    ensures |target| + 10 <= |Replacement(target, slug)|
    ensures NoEmbedBefore(Replacement(target, slug), |target| + 10)
  {
    var r := Replacement(target, slug);
    var k := 2 + |target|;
    LinkAroundSlug(target, slug);
    forall i | 0 <= i < k + 8 ensures NoEmbedAt(r, i) {
      if i <= k + 1 {
        LinkHeadClosed(target, slug, r, i);
      } else {
        LinkLabsClosed(target, slug, i);
      }
    }
  }

  /** No embed starts in the `![target](` head of an image link, whatever follows it. */
  lemma LinkHeadClosed(target: string, slug: string, w: string, i: nat)
    requires ValidTarget(target) && Replacement(target, slug) <= w && i <= 3 + |target|
    ensures NoEmbedAt(w, i)
  {
    var r := Replacement(target, slug);
    var k := 2 + |target|;
    ReplacementLayout(target, slug);
    if i <= k {
      forall m | 0 <= m < k ensures w[m] != ']' {
        assert w[m] == r[m];
      }
      assert w[k] == r[k] && w[k + 1] == r[k + 1];
      BracketStops(w, i, 0, k);
    } else {
      assert w[i] == r[i];
      ClosedAt(w, i);
    }
  }

  /** No embed starts in the `/labs/` that follows the head of an image link. */
  lemma LinkLabsClosed(target: string, slug: string, i: nat)
    requires 4 + |target| <= i < 10 + |target|
    ensures i < |Replacement(target, slug)| && NoEmbedAt(Replacement(target, slug), i)
  {
    var r := Replacement(target, slug);
    var front := "![" + target + "](" + "/labs/";
    LinkAroundSlug(target, slug);
    assert r[..|front|] == front;
    assert r[i] == front[i] == "/labs/"[i - 4 - |target|];
    ClosedAt(r, i);
  }
}
