# Lab pages: from markdown to render pieces

This project models, in Dafny, the text processing behind the lab write-ups of a personal
portfolio site. There are two parts.

* **The lab page** (`src/pages/LabDetail.tsx`). The page loads a lab document and rewrites its
  Obsidian embeds (`![[target]]`, `![[target|alias]]`) into image links under
  `/labs/<slug>/`. The target path is percent-encoded one segment at a time. The page then cuts
  the body at every code fence into render pieces:
  * text between fences becomes a markdown piece;
  * a fence tagged with a shell language becomes a terminal piece. Its body is parsed as a
    transcript of `(user@host)-[path]$ command` prompt lines and their output.
  * a fence tagged with a programming language becomes a code piece with trimmed code;
  * any other fence becomes markdown.

  The page also normalises the `tags` header field to a list.
* **The build step** (`src/tools/build-labs.js`). For each lab file, the build:
  * rewrites `![[file]]` into `![](./file)`, and the rewritten body is what gets written back;
  * derives a slug from the title when none is given;
  * picks a poster image;
  * appends one summary record to the index.

  When no truthy `slug` is given, a title that is neither a string, nor missing, nor null cannot
  be lower-cased. It throws, which ends the build before the index is written.

Modules follow the program's structure:

* `Strings`: JavaScript `trim`, `split`, `join` and ASCII `toLowerCase`.
* `JsValue`: loosely typed header values, truthiness and `String()`.
* `UriEncode`: `encodeURIComponent` over UTF-8, with a decoder.
* `Embeds`: the page's embed rewriter.
* `Transcript`: the prompt pattern and the terminal loop.
* `Fences`: the fence scan and its classification.
* `Page`: how the page uses the two.
* `Slug`: the title-to-slug pipeline, and a word-based reference definition of it.
* `BuildLabs`: the build loop.

Each of the three regular expressions is modelled as a function of the text at the scan
position:
* embeds: `!\[\[([^\]|]+)(?:\|[^\]]+)?\]\]`
* build links: `!\[\[([^\]]+)\]\]`
* fences: `` ```(?:([\w-]+))?\n([\s\S]*?)``` ``

This is exact because none of them can succeed by backtracking into a shorter run. A global
replace or an `exec` loop is then a left-to-right scan over suffixes. Each operation is paired
with a partner: a soundness and completeness pair for each matcher, round trips for writing and
parsing, a word-based reference definition for the slug, and loop methods proved equal to their
recursive definitions.

## Model

| member | source | states |
|---|---|---|
| Strings.TrimSpec | src/pages/LabDetail.tsx:79 | `trim` keeps a contiguous middle part of the text; what it drops on both sides is ECMAScript whitespace, and the result neither starts nor ends with whitespace |
| Strings.TrimEmptyIff | src/pages/LabDetail.tsx:91 | a text trims to the empty string exactly when it is all whitespace, which is when the non-prompt block is dropped |
| Strings.TrimIdempotent | src/pages/LabDetail.tsx:219 | trimming a trimmed tag changes nothing |
| Strings.Split | src/pages/LabDetail.tsx:219 | `split(",")` gives one more part than there are commas, no part holds a comma, and joining the parts with commas gives the text back |
| Strings.SplitJoin | src/pages/LabDetail.tsx:219 | splitting comma-joined comma-free parts gives exactly those parts back |
| Strings.ToLowerAscii | src/pages/LabDetail.tsx:61 | lower-casing keeps the length, leaves no ASCII capital in the result, keeps every character that is not a capital, and turns each capital into the small letter 32 code points above it |
| Strings.ToLowerAsciiIdempotent | src/pages/LabDetail.tsx:61 | lower-casing twice is the same as lower-casing once |
| JsValue.Or | src/tools/build-labs.js:44 | `a \|\| b` is truthy exactly when either operand is; it is `a` when `a` is truthy and `b` otherwise |
| JsValue.NatToStringRoundTrip | src/tools/build-labs.js:35 | the decimal text a number is written as reads back as that number |
| UriEncode.EncodeComponent | src/pages/LabDetail.tsx:46 | `encodeURIComponent` emits only unreserved characters and `%`, and leaves text made of unreserved characters unchanged |
| UriEncode.Utf8RoundTrip | src/pages/LabDetail.tsx:46 | the UTF-8 bytes of a text decode back to the text |
| UriEncode.EncodeDecodeRoundTrip | src/pages/LabDetail.tsx:46 | percent-decoding an encoded path segment gives the segment back |
| Embeds.EmbedAt | src/pages/LabDetail.tsx:41 | a match of the embed pattern is a well-formed embed (non-empty target without `]` or `\|`, optional non-empty alias without `]`) written at the front of the text |
| Embeds.EmbedAtComplete | src/pages/LabDetail.tsx:41 | every well-formed embed at the front of the text is matched with its own target and alias |
| Embeds.EncodePath | src/pages/LabDetail.tsx:43-47 | the encoded path has as many `/`-separated segments as the target, each decodes back to the target's segment, and the path holds only unreserved characters, `%` and `/` |
| Embeds.ConvertWithoutOpener | src/pages/LabDetail.tsx:39-51 | text in which `![[` never occurs is returned unchanged |
| Embeds.ConvertLeadingEmbed | src/pages/LabDetail.tsx:40-49 | an embed at the front becomes `![target](/labs/<slug>/<encoded trimmed target>)` and the scan resumes right after it |
| Embeds.ConvertLeadingText | src/pages/LabDetail.tsx:40-50 | text in front of the rest, at none of whose positions an embed match starts, is copied as it is |
| Embeds.AliasDropped | src/pages/LabDetail.tsx:41-48 | an embed converts the same with or without an alias |
| Embeds.ConvertIdempotent | src/pages/LabDetail.tsx:39-51 | for a slug in which `![[` does not occur, converting already converted text changes nothing |
| Embeds.ConvertedHasNoEmbed | src/pages/LabDetail.tsx:39-51 | for a slug in which `![[` does not occur, no embed match starts anywhere in converted text |
| Embeds.ConvertNoEmbed | src/pages/LabDetail.tsx:40-50 | text at none of whose positions an embed match starts is returned unchanged |
| Embeds.NoMatchSurvives | src/pages/LabDetail.tsx:40-50 | where no embed match starts in front of some text, none starts there once that text is converted |
| Embeds.ReplacementOpaque | src/pages/LabDetail.tsx:48 | no embed match starts anywhere inside an image link `![target](/labs/<slug>/<path>)`, whatever follows it, when the slug holds no `![[` |
| Embeds.SlugWithEmbedRewritten | src/pages/LabDetail.tsx:48 | when the slug is itself an embed, a second pass changes the converted text |
| Transcript.MatchPrompt | src/pages/LabDetail.tsx:58 | a line the prompt pattern matches is the prompt's head `(user@host)-[path]$`, then whitespace, then the command; each capture is non-empty and free of its closing character, and the command holds no line terminator |
| Transcript.MatchPromptComplete | src/pages/LabDetail.tsx:58 | every such prompt written with any amount of whitespace is matched with exactly its four captures |
| Transcript.SplitLines | src/pages/LabDetail.tsx:67 | splitting on `\r?\n` gives one more line than there are line feeds, no line holds a line feed, and without carriage returns the lines join back to the body |
| Transcript.GatherNonPrompt | src/pages/LabDetail.tsx:76-77 | the inner loop collects exactly the lines up to the next prompt line |
| Transcript.Turn | src/pages/LabDetail.tsx:71-93 | one turn of the outer loop pushes what the reference definition says for the lines up to the next prompt line |
| Transcript.TerminalLoop | src/pages/LabDetail.tsx:67-94 | the nested while loops compute the reference transcript of the fence body |
| Transcript.EntriesSplit | src/pages/LabDetail.tsx:87-92 | the transcript is the optional bare entry for the lines above the first prompt, followed by what the prompt lines yield |
| Transcript.EntriesShape | src/pages/LabDetail.tsx:68-94 | there is at most one bare entry plus exactly one entry per prompt line, and every entry after the bare one carries a user |
| Transcript.EntryAtPromptLine | src/pages/LabDetail.tsx:72-86 | the entry of prompt line n comes after the bare entry and one entry per earlier prompt line, and its output is the lines strictly between n and the next prompt line |
| Transcript.EntryOfPromptLine | src/pages/LabDetail.tsx:78-85 | a prompt entry carries the trimmed command and the user, host and path; its output is absent exactly when a prompt line or the end follows at once, and is the trimmed newline-join of the output lines otherwise |
| Transcript.BareEntryOnlyFirst | src/pages/LabDetail.tsx:87-92 | an entry without a user is the first one, has a non-empty command and has no output or path |
| Transcript.PromptEntriesCounted | src/pages/LabDetail.tsx:70-94 | the entries carrying a user are exactly as many as the prompt lines |
| Fences.FenceAtSound | src/pages/LabDetail.tsx:55 | a match of the fence pattern is a well-formed fence written at the front of the text: a tag of `[\w-]` characters or none, a newline, and a body in which no three backticks start |
| Fences.FenceAtComplete | src/pages/LabDetail.tsx:55 | every well-formed fence at the front of the text is matched with its own tag and body |
| Fences.NextFence | src/pages/LabDetail.tsx:60 | `exec` finds a match at or after the scan position, and `lastIndex` moves past it within the text |
| Fences.NextFenceFound | src/pages/LabDetail.tsx:60 | the fence found is the pattern's match at its start, and the match ends right after the fence's text |
| Fences.NextFenceFirst | src/pages/LabDetail.tsx:60 | no match starts between the scan position and the match found, and when none is found there is none anywhere further on |
| Fences.NextFenceNone | src/pages/LabDetail.tsx:60 | when the pattern matches at no position from the scan position on, `exec` finds nothing |
| Fences.NoTicksNoFence | src/pages/LabDetail.tsx:55 | no fence starts in text where three backticks never occur in a row |
| Fences.GapHasNoFence | src/pages/LabDetail.tsx:55-60 | no match starts inside a gap without three backticks in a row when a fence follows it, even where the gap ends in backticks |
| Fences.Classify | src/pages/LabDetail.tsx:61-99 | a fence is a terminal exactly when its lower-cased tag is a shell language, and a program listing exactly when the lower-cased tag is a programming language, the language being that lower-cased tag; otherwise it is prose |
| Fences.ClassifyIgnoresCase | src/pages/LabDetail.tsx:61 | tags differing in ASCII case are classified alike |
| Fences.ParseMarkdownWithTerminals | src/pages/LabDetail.tsx:53-106 | the `exec` loop with `lastIndex` and the tail push computes the recursive reference definition of the pieces |
| Fences.ParseMarkdownNone | src/pages/LabDetail.tsx:103-104 | with no fence left, the rest is one markdown piece, or nothing when it is empty |
| Fences.LeadingBlock | src/pages/LabDetail.tsx:60-101 | a gap inside which no match starts, followed by a well-formed fence, yields the gap as markdown (when non-empty), then the fence's pieces, then the pieces of the rest |
| Fences.ParseWritten | src/pages/LabDetail.tsx:53-106 | a page written as gaps and well-formed fences, with three backticks never in a row outside the fences (inline code is allowed), parses back to its gaps and fences in order |
| Fences.FencePiecesWellFormed | src/pages/LabDetail.tsx:95-99 | a terminal piece is only pushed with entries, and a code piece carries a known language and trimmed code |
| Fences.PiecesWellFormed | src/pages/LabDetail.tsx:53-106 | every piece of every page is well formed in that sense |
| Page.PlainPage | src/pages/LabDetail.tsx:201-214 | a body at none of whose positions an embed or a fence starts renders as one markdown piece of itself, or nothing when empty |
| Page.NormalizeTags | src/pages/LabDetail.tsx:216-220 | an array is taken as it is; a string gives one tag more than it has commas, each a string; anything else gives no tags |
| Page.StringTagsClean | src/pages/LabDetail.tsx:219 | every tag read from a string is trimmed and holds no comma |
| Page.TagsRoundTrip | src/pages/LabDetail.tsx:216-220 | writing comma-free tags as one comma-separated string and reading it back gives each tag trimmed, in order |
| Page.TrimmedTagsRoundTrip | src/pages/LabDetail.tsx:216-220 | already-trimmed tags come back exactly |
| Slug.CollapseWords | src/tools/build-labs.js:31 | replacing each run of non-`[a-z0-9]` characters with `-` gives the words joined by `-`, with one `-` in front or behind when the text starts or ends outside a word |
| Slug.SlugifyWords | src/tools/build-labs.js:31 | the slug of a title is the words of its lower-cased form (maximal `[a-z0-9]` runs) joined by `-` |
| Slug.SlugifyShape | src/tools/build-labs.js:31 | a slug holds only `[a-z0-9-]` and, when non-empty, starts and ends with a letter or digit |
| Slug.SlugifyEmptyIff | src/tools/build-labs.js:31 | the slug is empty exactly when the lower-cased title has no letter or digit |
| Slug.WordsOfJoin | src/tools/build-labs.js:31 | the words of words joined by `-` are those words |
| Slug.SlugifyIdempotent | src/tools/build-labs.js:31 | slugifying a slug gives it back |
| BuildLabs.LinkAt | src/tools/build-labs.js:22 | a match of the build's embed pattern is `![[name]]` at the front of the text with a non-empty name free of `]` |
| BuildLabs.LinkAtComplete | src/tools/build-labs.js:22 | every such link at the front is matched with its own name |
| BuildLabs.BuildWithoutOpener | src/tools/build-labs.js:22-25 | text in which `![[` never occurs is written back unchanged |
| BuildLabs.BuildLeadingLink | src/tools/build-labs.js:22-25 | a link at the front becomes `![](./<trimmed name>)` and the scan resumes right after it |
| BuildLabs.BuildLeadingText | src/tools/build-labs.js:22 | text at none of whose positions `![[` starts is copied as it is |
| BuildLabs.ImageFrontCopied | src/tools/build-labs.js:24 | the front `![](./` of a rewritten link is never rewritten again |
| BuildLabs.NestedOnce | src/tools/build-labs.js:22-25 | a name starting with `![[` is rewritten into an image link that still holds a link |
| BuildLabs.NestedTwice | src/tools/build-labs.js:22-25 | the next build rewrites that inner link too, and the text grows by two characters |
| BuildLabs.BuildEmbedsNotIdempotent | src/tools/build-labs.js:22-28 | rewriting the written-back body again can change it |
| BuildLabs.DeriveSlug | src/tools/build-labs.js:31 | a truthy `slug` field is kept as it is; otherwise the slug comes from a string title, is `undefined` for a missing or null title, and the derivation throws exactly for any other title |
| BuildLabs.DerivedSlugShape | src/tools/build-labs.js:31 | a slug derived from a title is the words of the lower-cased title joined by `-`: lower-case letters, digits and inner dashes |
| BuildLabs.DeriveSlugStable | src/tools/build-labs.js:31-32 | storing the derived slug back into the header and deriving again gives the same result |
| BuildLabs.Poster | src/tools/build-labs.js:35 | the poster is a path exactly when `screenshots` and its first element are truthy, and `null` otherwise |
| BuildLabs.PosterOfList | src/tools/build-labs.js:35 | a list of screenshot names gives `/labs/<folder>/<first name>`, or `null` when that name is empty |
| BuildLabs.PosterOfString | src/tools/build-labs.js:35 | a single screenshot string gives a path to its first character only |
| BuildLabs.SummaryOf | src/tools/build-labs.js:37-47 | the record copies the header's title, date, difficulty, os and summary and carries the derived slug and the poster; its tags are the header's when truthy and an empty list otherwise, so they are always truthy; its markdown path is `/labs/<folder>/<file>` |
| BuildLabs.MdPathSplits | src/tools/build-labs.js:46 | the record's markdown path is `/labs/<folder>/<file>`, splitting back into those names |
| BuildLabs.Build | src/tools/build-labs.js:11-47 | every file visited is written back with its embeds rewritten; the index is produced exactly when every slug can be derived, and then holds one record per file in order; otherwise the build stops at the first file whose slug derivation throws, after writing that file back |

## Left out

- Fetching the lab, front-matter parsing (`fm`, `gray-matter`), React state and rendering, `formatDateField`, and the components that draw terminal and code pieces: this is I/O, framework code and date formatting. A parsed header is modelled as a record of loosely typed values.
- The written-back file header (`matter.stringify(...)`), `JSON.stringify` of the index and the file writes themselves: the model keeps the rewritten body and the records, not their serialised bytes.
- The file list from `glob.sync` is taken as an input sequence in the order the glob returns it.
- Strings.ToLowerAscii: the model lower-cases ASCII letters only. Fence tags are `[\w-]` and are covered exactly. For slugs, non-ASCII letters whose lower-case form is ASCII (U+0130 `İ`, U+212A Kelvin sign) are not mapped, because full Unicode case mapping is not modelled.
- Strings are sequences of Unicode scalar values. JavaScript strings are UTF-16, so `encodeURIComponent` on a lone surrogate (a `URIError`) cannot arise in the model. Characters outside the Basic Multilingual Plane count as one position, not two.
- BuildLabs.PosterOfString: a `screenshots` string is indexed with `[0]`, which in JavaScript gives one UTF-16 code unit. When the name starts with a character outside the Basic Multilingual Plane (`"😀.png"`), the source puts a lone high surrogate in the poster path, while the model's `JsValue.Index0` gives the whole character. Every other output is independent of UTF-16 positions.
- JsValue.ToStr: header numbers are modelled as unbounded integers, while JavaScript numbers are doubles, and YAML dates are modelled as plain objects. So the model does not cover `String()` of a fractional number, of an integer whose magnitude is at least 1e21 (printed in exponent form such as `1e+21`) or above 2^53 (rounded to the nearest double), of NaN (`.nan`, which is also falsy) or of the infinities (`Infinity`), nor of a `Date`. These values reach the poster path (`Poster`) and the truthiness of `slug` and `tags`.
- Embeds.ConvertIdempotent: idempotence is stated only for slugs in which `![[` does not occur. The slug is put into the link unescaped, so a slug that holds an embed (such as `![[b]]`) is rewritten by a second pass (Embeds.SlugWithEmbedRewritten).
- Transcript.SplitLines: the join-back round trip is stated only for bodies without carriage returns, because `\r?\n` drops the carriage return in front of each line feed.

## Behaviour worth knowing

- Rewriting build-time embeds is not idempotent (BuildLabs.BuildEmbedsNotIdempotent). A name that itself starts with `![[`, as in `![[![[a]]]]`, becomes `![](./![[a)]]`. The next build rewrites the inner link once more, to `![](./![](./a))`, growing the body by two characters (BuildLabs.NestedTwice). No `![[` is left after that, so from the third build on the body is stable (BuildLabs.BuildWithoutOpener).
- The page's embed rewriter leaves its own output alone (Embeds.ConvertIdempotent): an embed target cannot contain `]`, so no match can run past the `](` of an image link. This holds for every slug without `![[`. The page passes the route's `id` parameter as the slug (src/pages/LabDetail.tsx:201), so a slug that holds an embed is a crafted URL rather than a lab name.
- A prompt line whose command is empty, such as `(u@h)-[~]$`, gives an entry with an empty command. Only the bare block above the first prompt is dropped when it is blank.
- Trimming of commands, output and code removes all ECMAScript whitespace, including no-break and other Unicode spaces, not only spaces and blank lines.
- A `screenshots` field that is a single string gives a poster path to its first character only (BuildLabs.PosterOfString).
- When the header has no truthy `slug`, a title that is a number, boolean, list or object makes the slug derivation throw, and the build stops before the index is written. The files visited up to and including that one have already been rewritten.
