/**
 * The pure part of the build step that indexes the labs: for every `<lab>/<file>.md` it
 * rewrites `![[file]]` embeds into relative image links (the rewritten body is written back),
 * derives the slug, picks a poster image and appends a summary record; the records, in file
 * order, make up the index. A title that cannot be lower-cased throws and ends the build before
 * the index is written.
 *
 * The build's embed pattern `!\[\[([^\]]+)\]\]` cannot backtrack profitably either: the name is
 * the longest run free of `]`, and it must be followed by `]]`.
 */
module BuildLabs {
  import opened Wrappers
  import opened Strings
  import opened JsValue
  import opened Embeds
  import opened Slug

  /** The text a build-time link is written as. */
  function LinkSource(name: string): string {
    "![[" + name + "]]"
  }

  /** A name the pattern can capture: non-empty and free of `]`. */
  predicate ValidName(name: string) { name != "" && ']' !in name }

  /** The match of the build's embed pattern at the start of `s`: the captured name. */
  function LinkAt(s: string): (r: Option<string>)
    ensures r.Some? ==> ValidName(r.value) && LinkSource(r.value) <= s
  {
    if !OpensAt(s, 0) then None
    else
      var t := SpanUntil(s, 3, {']'});
      if t > 3 && t + 2 <= |s| && s[t + 1] == ']' then
        assert LinkSource(s[3..t]) == s[..t + 2];
        Some(s[3..t])
      else None
  }

  /** Every link written at the front of the text is found. */
  lemma LinkAtComplete(name: string, s: string)
    requires ValidName(name) && LinkSource(name) <= s
    ensures LinkAt(s) == Some(name)
  {
    var t := 3 + |name|;
    assert s[..3] == "![[";
    assert OpensAt(s, 0);
    assert s[3..t] == name;
    assert s[t] == ']' && s[t + 1] == ']';
    SpanUntilIs(s, 3, t, {']'});
  }

  /** The relative image link a build-time embed becomes: the name trimmed, the alt text empty. */
  function LinkReplacement(name: string): string {
    "![](./" + Trim(name) + ")"
  }

  /** `content.replace(/\!\[\[([^\]]+)\]\]/g, ...)`. */
  function BuildEmbeds(s: string): string
    decreases |s|
  {
    if s == "" then ""
    else match LinkAt(s)
      case Some(name) => LinkReplacement(name) + BuildEmbeds(s[|LinkSource(name)|..])
      case None => [s[0]] + BuildEmbeds(s[1..])
  }

  /** Text without any `![[` is written back unchanged. */
  lemma {:induction false} BuildWithoutOpener(s: string)
    requires NoEmbedOpener(s)
    ensures BuildEmbeds(s) == s
    decreases |s|
  {
    if s != "" {
      assert !OpensAt(s, 0);
      assert NoEmbedOpener(s[1..]) by {
        forall i | 0 <= i < |s[1..]| ensures !OpensAt(s[1..], i) {
          assert !OpensAt(s, i + 1);
        }
      }
      BuildWithoutOpener(s[1..]);
      assert [s[0]] + s[1..] == s;
    }
  }

  /** A link at the front is replaced, and the scan goes on after it. */
  lemma BuildLeadingLink(name: string, rest: string)
    requires ValidName(name)
    ensures BuildEmbeds(LinkSource(name) + rest) == LinkReplacement(name) + BuildEmbeds(rest)
  {
    LinkAtComplete(name, LinkSource(name) + rest);
    assert (LinkSource(name) + rest)[|LinkSource(name)|..] == rest;
  }

  /** Text in front of the rest at none of whose positions `![[` starts is copied as it is. */
  lemma {:induction false} BuildLeadingText(x: string, rest: string)
    requires forall i :: 0 <= i < |x| ==> !OpensAt(x + rest, i)
    ensures BuildEmbeds(x + rest) == x + BuildEmbeds(rest)
    decreases |x|
  {
    if x != "" {
      var t := x[1..] + rest;
      assert x + rest == [x[0]] + t;
      assert !OpensAt(x + rest, 0);
      BuildStepText(x + rest, x[0], t);
      NoOpenerAfterFirst(x, rest);
      BuildLeadingText(x[1..], rest);
      assert x == [x[0]] + x[1..];
      ConsChain(BuildEmbeds(x + rest), BuildEmbeds(t), x[0], x, x[1..], BuildEmbeds(rest));
    } else {
      assert x + rest == rest;
    }
  }

  lemma NoOpenerAfterFirst(x: string, rest: string)
    requires x != "" && forall i :: 0 <= i < |x| ==> !OpensAt(x + rest, i)
    ensures forall i :: 0 <= i < |x| - 1 ==> !OpensAt(x[1..] + rest, i)
  {
    var s := x + rest;
    assert s[1..] == x[1..] + rest;
    forall i | 0 <= i < |x| - 1 ensures !OpensAt(s[1..], i) {
      OpensAfterFirst(s, i);
    }
  }

  lemma BuildStepText(s: string, c: char, t: string)
    requires s == [c] + t && !OpensAt(s, 0)
    ensures BuildEmbeds(s) == [c] + BuildEmbeds(t)
  {
    assert s[1..] == t;
  }

  lemma OpensAfterFirst(s: string, i: nat)
    requires s != ""
    ensures OpensAt(s[1..], i) <==> OpensAt(s, i + 1)
  {
    if i + 3 <= |s| - 1 {
      assert s[1..][i] == s[i + 1] && s[1..][i + 1] == s[i + 2] && s[1..][i + 2] == s[i + 3];
    }
  }

  /** The front of a rewritten link holds no `![[` of its own and is copied by a later build. */
  lemma ImageFrontCopied(rest: string)
    ensures BuildEmbeds("![](./" + rest) == "![](./" + BuildEmbeds(rest)
  {
    var front := "![](./";
    var s := front + rest;
    forall i | 0 <= i < |front| ensures !OpensAt(s, i) {
      assert s[i] == front[i];
      if i == 0 {
        assert s[2] == front[2];
      }
    }
    BuildLeadingText(front, rest);
  }

  /** A link whose name starts with `![[` becomes an image link that holds another link. */
  lemma NestedOnce(a: string)
    requires ValidName(a) && !IsWhitespace(a[|a| - 1])
    ensures BuildEmbeds(LinkSource("![[" + a) + "]]") == "![](./" + LinkSource(a + ")")
  {
    var outer := "![[" + a;
    TrimNonBlank(outer);
    BuildLeadingLink(outer, "]]");
    BuildWithoutOpener("]]");
    NestedShape(a);
  }

  lemma NestedShape(a: string)
    ensures ("![](./" + ("![[" + a) + ")") + "]]" == "![](./" + LinkSource(a + ")")
  {
    var p := "![](./";
    assert LinkSource(a + ")") == "![[" + a + ")" + "]]";
    assert (p + ("![[" + a) + ")") + "]]" == p + ("![[" + a + ")" + "]]");
  }

  /** The next build finds that inner link, and the text grows by the two characters of `](`. */
  lemma NestedTwice(a: string)
    requires ValidName(a) && !IsWhitespace(a[0])
    ensures var once := "![](./" + LinkSource(a + ")");
      BuildEmbeds(once) == "![](./" + LinkReplacement(a + ")") && |BuildEmbeds(once)| == |once| + 2
  {
    var inner := a + ")";
    TrimNonBlank(inner);
    BuildLeadingLink(inner, "");
    assert LinkSource(inner) + "" == LinkSource(inner);
    assert LinkReplacement(inner) + "" == LinkReplacement(inner);
    ImageFrontCopied(LinkSource(inner));
  }

  /**
   * Rewriting twice is not rewriting once: a name that itself starts with `![[` comes out as a
   * link whose text still holds `![[`, and the next build rewrites that again.
   */
  lemma BuildEmbedsNotIdempotent(a: string)
    requires ValidName(a) && !IsWhitespace(a[0]) && !IsWhitespace(a[|a| - 1])
    ensures var once := BuildEmbeds(LinkSource("![[" + a) + "]]"); BuildEmbeds(once) != once
  {
    NestedOnce(a);
    NestedTwice(a);
  }

  /**
   * `data.slug || data.title?.toLowerCase()...`: a truthy `slug` field wins; otherwise a string
   * title gives its slug, a missing or null title gives `undefined`, and any other title has no
   * `toLowerCase` to call, which throws.
   */
  function DeriveSlug(data: Record): (r: Result<Value>)
    ensures Truthy(Get(data, "slug")) ==> r == Ok(Get(data, "slug"))
    ensures !Truthy(Get(data, "slug")) && Get(data, "title").Str? ==> r == Ok(Str(Slugify(Get(data, "title").s)))
    ensures !Truthy(Get(data, "slug")) && (Get(data, "title").Undefined? || Get(data, "title").Null?) ==> r == Ok(Undefined)
    ensures r.Failure? <==> !Truthy(Get(data, "slug"))
                            && !(Get(data, "title").Str? || Get(data, "title").Undefined? || Get(data, "title").Null?)
  {
    var given := Get(data, "slug");
    if Truthy(given) then Ok(given)
    else match Get(data, "title")
      case Str(t) => Ok(Str(Slugify(t)))
      case Undefined => Ok(Undefined)
      case Null => Ok(Undefined)
      case _ => Failure("TypeError: title.toLowerCase is not a function")
  }

  /**
   * A slug made from the title is the words of the lower-cased title joined by dashes: lower-case
   * letters, digits and inner dashes.
   */
  lemma DerivedSlugShape(data: Record)
    requires !Truthy(Get(data, "slug")) && Get(data, "title").Str?
    ensures DeriveSlug(data).Ok? && DeriveSlug(data).value.Str?
    ensures DeriveSlug(data).value.s == Join(Words(ToLowerAscii(Get(data, "title").s)), "-")
    ensures var s := DeriveSlug(data).value.s;
      SlugText(s) && (s != "" ==> IsSlugChar(s[0]) && IsSlugChar(s[|s| - 1]))
  {
    SlugifyWords(Get(data, "title").s);
    SlugifyShape(Get(data, "title").s);
  }

  /** `data.slug = slug`: deriving again from the record with the slug stored gives the same slug. */
  lemma DeriveSlugStable(data: Record)
    requires DeriveSlug(data).Ok?
    ensures DeriveSlug(data["slug" := DeriveSlug(data).value]) == DeriveSlug(data)
  {
    var v := DeriveSlug(data).value;
    var stored := data["slug" := v];
    assert Get(stored, "slug") == v;
    assert Get(stored, "title") == Get(data, "title");
  }

  /**
   * The poster: when `screenshots` is truthy and so is its first element, the path of that
   * element inside the lab's folder; otherwise `null`.
   */
  function Poster(dir: string, data: Record): (r: Value)
    ensures r.Null? || r.Str?
    ensures r.Str? <==> Truthy(Get(data, "screenshots")) && Truthy(Index0(Get(data, "screenshots")))
  {
    var shots := Get(data, "screenshots");
    if Truthy(shots) && Truthy(Index0(shots)) then Str("/labs/" + dir + "/" + ToStr(Index0(shots)))
    else Null
  }

  /** A list of screenshot file names gives the first one, inside the lab's folder. */
  lemma PosterOfList(dir: string, data: Record, first: string, more: seq<Value>)
    requires Get(data, "screenshots") == Arr([Str(first)] + more)
    ensures first != "" ==> Poster(dir, data) == Str("/labs/" + dir + "/" + first)
    ensures first == "" ==> Poster(dir, data) == Null
  {
  }

  /** A single file name given as a string is indexed like a list: only its first character is used. */
  lemma PosterOfString(dir: string, data: Record, name: string)
    requires Get(data, "screenshots") == Str(name) && name != ""
    ensures Poster(dir, data) == Str("/labs/" + dir + "/" + [name[0]])
  {
  }

  /** One lab file as found by the build: its folder name, its file name and its parsed parts. */
  datatype LabFile = LabFile(dir: string, name: string, data: Record, content: string)

  /** One record of the index. */
  datatype Summary = Summary(
    title: Value,
    slug: Value,
    date: Value,
    difficulty: Value,
    os: Value,
    summary: Value,
    tags: Value,
    poster: Value,
    mdPath: string)

  /**
   * The record pushed for one file: the header's title, date, difficulty, os and summary as they
   * are, the derived slug, the header's tags or an empty list when they are falsy, the poster,
   * and the path of the markdown file inside its lab's folder.
   */
  function SummaryOf(f: LabFile, slug: Value): (s: Summary)
    ensures s.title == Get(f.data, "title") && s.slug == slug && s.date == Get(f.data, "date")
    ensures s.difficulty == Get(f.data, "difficulty") && s.os == Get(f.data, "os")
    ensures s.summary == Get(f.data, "summary")
    ensures Truthy(s.tags)
    ensures Truthy(Get(f.data, "tags")) ==> s.tags == Get(f.data, "tags")
    ensures !Truthy(Get(f.data, "tags")) ==> s.tags == Arr([])
    ensures s.poster == Poster(f.dir, f.data)
    ensures s.mdPath == "/labs/" + f.dir + "/" + f.name
  {
    Summary(
      Get(f.data, "title"),
      slug,
      Get(f.data, "date"),
      Get(f.data, "difficulty"),
      Get(f.data, "os"),
      Get(f.data, "summary"),
      Or(Get(f.data, "tags"), Arr([])),
      Poster(f.dir, f.data),
      "/labs/" + f.dir + "/" + f.name)
  }

  /** The record's markdown path splits back into the lab's folder and file name. */
  lemma MdPathSplits(f: LabFile, slug: Value)
    requires '/' !in f.dir && '/' !in f.name
    ensures Split(SummaryOf(f, slug).mdPath, '/') == ["", "labs", f.dir, f.name]
  {
    var parts := ["", "labs", f.dir, f.name];
    assert parts[1..][1..] == [f.dir, f.name];
    assert Join([f.dir, f.name], "/") == f.dir + "/" + f.name;
    assert Join(parts[1..], "/") == "labs" + "/" + (f.dir + "/" + f.name);
    assert Join(parts, "/") == SummaryOf(f, slug).mdPath;
    SplitJoin(parts, '/');
  }

  /** `written` holds the rewritten bodies of the first files, in order. */
  predicate Rewritten(files: seq<LabFile>, written: seq<string>) {
    |written| <= |files| && forall i :: 0 <= i < |written| ==> written[i] == BuildEmbeds(files[i].content)
  }

  /** `records` holds the summaries of the first files, each of whose slugs could be derived. */
  predicate Indexed(files: seq<LabFile>, records: seq<Summary>) {
    && |records| <= |files|
    && (forall i :: 0 <= i < |records| ==> DeriveSlug(files[i].data).Ok?)
    && (forall i :: 0 <= i < |records| ==> records[i] == SummaryOf(files[i], DeriveSlug(files[i].data).value))
  }

  lemma RewrittenStep(files: seq<LabFile>, written: seq<string>)
    requires Rewritten(files, written) && |written| < |files|
    ensures Rewritten(files, written + [BuildEmbeds(files[|written|].content)])
  {
  }

  lemma IndexedStep(files: seq<LabFile>, records: seq<Summary>)
    requires Indexed(files, records) && |records| < |files| && DeriveSlug(files[|records|].data).Ok?
    ensures Indexed(files, records + [SummaryOf(files[|records|], DeriveSlug(files[|records|].data).value)])
  {
    var k := |records|;
    var next := records + [SummaryOf(files[k], DeriveSlug(files[k].data).value)];
    forall i | 0 <= i < |next|
      ensures DeriveSlug(files[i].data).Ok? && next[i] == SummaryOf(files[i], DeriveSlug(files[i].data).value)
    {
      if i < k {
        assert next[i] == records[i];
      }
    }
  }

  /**
   * The build loop: every file is rewritten and written back in turn, and then contributes one
   * record; the first file whose slug cannot be derived stops the build with no index written.
   */
  method Build(files: seq<LabFile>) returns (written: seq<string>, index: Option<seq<Summary>>)
    ensures Rewritten(files, written)
    ensures index.Some? <==> forall i :: 0 <= i < |files| ==> DeriveSlug(files[i].data).Ok?
    ensures index.Some? ==> |written| == |files| && |index.value| == |files| && Indexed(files, index.value)
    ensures index.None? ==> 1 <= |written| <= |files| && DeriveSlug(files[|written| - 1].data).Failure?
                            && forall i :: 0 <= i < |written| - 1 ==> DeriveSlug(files[i].data).Ok?
  {
    written := [];
    var records: seq<Summary> := [];
    var k := 0;
    while k < |files|
      invariant k <= |files| && |written| == k && |records| == k
      invariant Rewritten(files, written)
      invariant Indexed(files, records)
    {
      RewrittenStep(files, written);
      written := written + [BuildEmbeds(files[k].content)];
      var slug := DeriveSlug(files[k].data);
      if slug.Failure? {
        assert files[|written| - 1] == files[k];
        index := None;
        return;
      }
      IndexedStep(files, records);
      records := records + [SummaryOf(files[k], slug.value)];
      k := k + 1;
    }
    index := Some(records);
  }
}
