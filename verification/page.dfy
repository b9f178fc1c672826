/**
 * What the lab page does with a loaded document once its header is parsed: the body goes
 * through the embed rewriter and then the fence splitter, and the `tags` header field is
 * normalised to a list.
 */
module Page {
  import opened Strings
  import opened JsValue
  import opened Embeds
  import opened Fences

  /** The pieces the page renders for a document body; an empty body renders nothing. */
  function PagePieces(body: string, slug: string): seq<Piece> {
    var content := ConvertEmbeds(body, slug);
    if content == "" then [] else ParseMarkdown(content)
  }

  /** Prose in which no embed and no fence starts renders as one markdown piece of itself. */
  lemma PlainPage(body: string, slug: string)
    requires NoEmbedBefore(body, |body|) && NoFenceBefore(body, |body|)
    ensures PagePieces(body, slug) == (if body == "" then [] else [Md(body)])
  {
    ConvertLeadingText(body, "", slug);
    assert body + "" == body;
    NextFenceNone(body, 0);
    ParseMarkdownNone(body);
  }

  /**
   * The `tags` field as the page lists it: an array is taken as it is, a string is split at
   * commas with each part trimmed, and anything else gives no tags.
   */
  function NormalizeTags(v: Value): (tags: seq<Value>)
    ensures v.Str? ==> |tags| == Count(v.s, ',') + 1
    ensures v.Str? ==> forall i :: 0 <= i < |tags| ==> tags[i].Str?
    ensures v.Arr? ==> tags == v.items
    ensures !v.Arr? && !v.Str? ==> tags == []
  {
    match v
    case Arr(items) => items
    case Str(s) =>
      var parts := Split(s, ',');
      seq(|parts|, i requires 0 <= i < |parts| => Str(Trim(parts[i])))
    case _ => []
  }

  /** Every tag read from a string is trimmed and holds no comma. */
  lemma StringTagsClean(s: string)
    ensures forall i :: 0 <= i < |NormalizeTags(Str(s))| ==>
              Trim(NormalizeTags(Str(s))[i].s) == NormalizeTags(Str(s))[i].s
              && ',' !in NormalizeTags(Str(s))[i].s
  {
    var parts := Split(s, ',');
    forall i | 0 <= i < |parts|
      ensures Trim(Trim(parts[i])) == Trim(parts[i]) && ',' !in Trim(parts[i])
    {
      TrimIdempotent(parts[i]);
      TrimSpec(parts[i]);
      var k := LeadingWhitespace(parts[i]);
      assert forall j :: 0 <= j < |Trim(parts[i])| ==> Trim(parts[i])[j] == parts[i][k + j];
    }
  }

  /**
   * Writing tags as one comma-separated string and reading it back gives each tag trimmed:
   * spacing around the commas is lost, nothing else is.
   */
  lemma TagsRoundTrip(tags: seq<string>)
    requires |tags| >= 1
    requires forall i :: 0 <= i < |tags| ==> ',' !in tags[i]
    ensures NormalizeTags(Str(Join(tags, ","))) == seq(|tags|, i requires 0 <= i < |tags| => Str(Trim(tags[i])))
  {
    SplitJoin(tags, ',');
  }

  /** Tags that are already trimmed come back exactly. */
  lemma TrimmedTagsRoundTrip(tags: seq<string>)
    requires |tags| >= 1
    requires forall i :: 0 <= i < |tags| ==> ',' !in tags[i] && Trim(tags[i]) == tags[i]
    ensures NormalizeTags(Str(Join(tags, ","))) == seq(|tags|, i requires 0 <= i < |tags| => Str(tags[i]))
  {
    TagsRoundTrip(tags);
  }
}
