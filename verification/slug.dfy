/**
 * The slug the build derives from a title:
 *   title.toLowerCase().replace(/[^a-z0-9]+/g, "-").replace(/(^-|-$)/g, "")
 * Lower-casing is modelled on ASCII letters. The first replacement turns every maximal run of
 * characters outside `[a-z0-9]` into one dash; the second drops a dash at the very start and a
 * dash at the very end. The result is the title's alphanumeric words joined by single dashes.
 */
module Slug {
  import opened Strings

  predicate IsSlugChar(c: char) { 'a' <= c <= 'z' || '0' <= c <= '9' }

  /** Text made of slug characters and dashes only. */
  predicate SlugText(s: string) {
    forall i :: 0 <= i < |s| ==> IsSlugChar(s[i]) || s[i] == '-'
  }

  /** A non-empty word of slug characters. */
  predicate IsWord(w: string) {
    w != "" && forall i :: 0 <= i < |w| ==> IsSlugChar(w[i])
  }

  /** End of the run, from `i`, of characters that are slug characters exactly when `slug` holds. */
  function RunEnd(s: string, i: nat, slug: bool): (j: nat)
    requires i <= |s|
    ensures i <= j <= |s|
    ensures forall k :: i <= k < j ==> IsSlugChar(s[k]) == slug
    ensures j < |s| ==> IsSlugChar(s[j]) != slug
    decreases |s| - i
  {
    if i < |s| && IsSlugChar(s[i]) == slug then RunEnd(s, i + 1, slug) else i
  }

  /** `replace(/[^a-z0-9]+/g, "-")`: slug characters are kept, each maximal run of others is one dash. */
  function Collapse(s: string): string
    decreases |s|
  {
    if s == "" then ""
    else if IsSlugChar(s[0]) then
      var k := RunEnd(s, 0, true);
      s[..k] + Collapse(s[k..])
    else "-" + Collapse(s[RunEnd(s, 0, false)..])
  }

  /** `replace(/(^-|-$)/g, "")`: a dash at the very start and a dash at the very end are dropped. */
  function StripDashes(s: string): string {
    var t := if s != "" && s[0] == '-' then s[1..] else s;
    if t != "" && t[|t| - 1] == '-' then t[..|t| - 1] else t
  }

  function Slugify(title: string): string {
    StripDashes(Collapse(ToLowerAscii(title)))
  }

  /** The maximal runs of slug characters, in order: the reference the slug is compared with. */
  function Words(s: string): seq<string>
    decreases |s|
  {
    if s == "" then []
    else if IsSlugChar(s[0]) then
      var k := RunEnd(s, 0, true);
      [s[..k]] + Words(s[k..])
    else Words(s[RunEnd(s, 0, false)..])
  }

  predicate AllWords(ws: seq<string>) {
    forall i :: 0 <= i < |ws| ==> IsWord(ws[i])
  }

  /** Joining with a dash one more word in front. */
  lemma JoinDashCons(w: string, ws: seq<string>)
    requires ws != []
    ensures Join([w] + ws, "-") == w + "-" + Join(ws, "-")
  {
    assert ([w] + ws)[1..] == ws;
  }

  /** Words joined by dashes start and end with a slug character and hold nothing but words and dashes. */
  lemma {:induction false} JoinWordsShape(ws: seq<string>)
    requires ws != [] && AllWords(ws)
    ensures var j := Join(ws, "-"); j != "" && IsSlugChar(j[0]) && IsSlugChar(j[|j| - 1]) && SlugText(j)
    decreases |ws|
  {
    var w := ws[0];
    assert IsWord(w);
    if |ws| == 1 {
      assert Join(ws, "-") == w;
    } else {
      var rest := ws[1..];
      assert AllWords(rest) by {
        forall i | 0 <= i < |rest| ensures IsWord(rest[i]) {
          assert rest[i] == ws[i + 1];
        }
      }
      JoinWordsShape(rest);
      assert [w] + rest == ws;
      JoinDashCons(w, rest);
      var j := w + "-" + Join(rest, "-");
      forall i | 0 <= i < |j| ensures IsSlugChar(j[i]) || j[i] == '-' {
        if i > |w| {
          assert j[i] == Join(rest, "-")[i - |w| - 1];
        }
      }
    }
  }

  /** The words of a text are words. */
  lemma {:induction false} WordsAreWords(s: string)
    ensures AllWords(Words(s))
    decreases |s|
  {
    if s != "" {
      if IsSlugChar(s[0]) {
        var k := RunEnd(s, 0, true);
        WordsAreWords(s[k..]);
        assert IsWord(s[..k]);
        var ws := [s[..k]] + Words(s[k..]);
        forall i | 1 <= i < |ws| ensures IsWord(ws[i]) {
          assert ws[i] == Words(s[k..])[i - 1];
        }
      } else {
        WordsAreWords(s[RunEnd(s, 0, false)..]);
      }
    }
  }

  /** A text has no words exactly when it has no slug character. */
  lemma {:induction false} WordsEmptyIff(s: string)
    ensures Words(s) == [] <==> forall i :: 0 <= i < |s| ==> !IsSlugChar(s[i])
    decreases |s|
  {
    if s != "" && !IsSlugChar(s[0]) {
      var k := RunEnd(s, 0, false);
      WordsEmptyIff(s[k..]);
      assert forall i :: k <= i < |s| ==> s[i] == s[k..][i - k];
    }
  }

  /** The dash `Collapse` leaves at the end: there is one when the text ends outside a word. */
  function Trail(s: string): string {
    if Words(s) != [] && !IsSlugChar(s[|s| - 1]) then "-" else ""
  }

  function Lead(s: string): string {
    if s != "" && !IsSlugChar(s[0]) then "-" else ""
  }

  /** Collapsing the runs leaves the words joined by dashes, with a dash for a leading and a trailing run. */
  lemma CollapseWords(s: string)
    ensures Collapse(s) == Lead(s) + Join(Words(s), "-") + Trail(s)
  {
    if s == "" {
    } else if IsSlugChar(s[0]) {
      CollapseWordFirst(s);
    } else {
      CollapseGapFirst(s);
    }
  }

  lemma {:induction false} CollapseWordFirst(s: string)
    requires s != "" && IsSlugChar(s[0])
    ensures Collapse(s) == Join(Words(s), "-") + Trail(s)
    decreases |s|, 0
  {
    var k := RunEnd(s, 0, true);
    var r := s[k..];
    if r == "" {
      assert s[..k] == s;
      assert Join([s], "-") == s;
    } else {
      CollapseGapFirst(r);
      WordThenGap(s, k);
    }
  }

  /** The step of `CollapseWordFirst` when a run of other characters follows the first word. */
  lemma WordThenGap(s: string, k: nat)
    requires s != "" && IsSlugChar(s[0]) && k == RunEnd(s, 0, true) && k < |s|
    requires Collapse(s[k..]) == "-" + Join(Words(s[k..]), "-") + Trail(s[k..])
    ensures Collapse(s) == Join(Words(s), "-") + Trail(s)
  {
    var w := s[..k];
    var r := s[k..];
    WordFirstUnfold(s);
    TrailAfterWord(s, k);
    JoinDashStep(w, Words(r), Trail(r));
  }

  lemma WordFirstUnfold(s: string)
    requires s != "" && IsSlugChar(s[0])
    ensures Words(s) == [s[..RunEnd(s, 0, true)]] + Words(s[RunEnd(s, 0, true)..])
    ensures Collapse(s) == s[..RunEnd(s, 0, true)] + Collapse(s[RunEnd(s, 0, true)..])
  {
  }

  /** After the first word, the trailing dash is the rest's, or the rest is one run of others. */
  lemma TrailAfterWord(s: string, k: nat)
    requires s != "" && IsSlugChar(s[0]) && k == RunEnd(s, 0, true) && k < |s|
    ensures Words(s[k..]) == [] ==> Trail(s[k..]) == "" && Trail(s) == "-"
    ensures Words(s[k..]) != [] ==> Trail(s) == Trail(s[k..])
  {
    var r := s[k..];
    WordFirstUnfold(s);
    assert Words(s) != [];
    assert r[|r| - 1] == s[|s| - 1];
    if Words(r) == [] {
      WordsEmptyIff(r);
      assert !IsSlugChar(r[|r| - 1]);
    }
  }

  /** The dash `Collapse` puts after a word, joined with what follows. */
  lemma JoinDashStep(w: string, ws: seq<string>, t: string)
    requires ws == [] ==> t == ""
    ensures w + ("-" + Join(ws, "-") + t) == Join([w] + ws, "-") + (if ws == [] then "-" else t)
  {
    if ws == [] {
      assert Join([w], "-") == w;
    } else {
      JoinDashCons(w, ws);
    }
  }

  lemma {:induction false} CollapseGapFirst(s: string)
    requires s != "" && !IsSlugChar(s[0])
    ensures Collapse(s) == "-" + Join(Words(s), "-") + Trail(s)
    decreases |s|, 1
  {
    var k := RunEnd(s, 0, false);
    var r := s[k..];
    if r != "" {
      CollapseWordFirst(r);
      assert r[|r| - 1] == s[|s| - 1];
    } else {
      WordsEmptyIff(s);
    }
  }

  /** The slug is the title's lower-cased alphanumeric words joined by single dashes. */
  lemma SlugifyWords(title: string)
    ensures Slugify(title) == Join(Words(ToLowerAscii(title)), "-")
  {
    var s := ToLowerAscii(title);
    var j := Join(Words(s), "-");
    CollapseWords(s);
    if Words(s) == [] {
      assert Collapse(s) == Lead(s);
    } else {
      WordsAreWords(s);
      JoinWordsShape(Words(s));
      StripDashesAround(Lead(s), j, Trail(s));
    }
  }

  /** Dropping the dashes at both ends recovers text that neither starts nor ends with one. */
  lemma StripDashesAround(lead: string, j: string, trail: string)
    requires lead == "" || lead == "-"
    requires trail == "" || trail == "-"
    requires j != "" && j[0] != '-' && j[|j| - 1] != '-'
    ensures StripDashes(lead + j + trail) == j
  {
    var c := lead + j + trail;
    var t := if c != "" && c[0] == '-' then c[1..] else c;
    assert t == j + trail;
  }

  /** A title without any ASCII letter or digit gives the empty slug, and only such a title does. */
  lemma SlugifyEmptyIff(title: string)
    ensures Slugify(title) == "" <==> forall i :: 0 <= i < |ToLowerAscii(title)| ==> !IsSlugChar(ToLowerAscii(title)[i])
  {
    var s := ToLowerAscii(title);
    SlugifyWords(title);
    WordsEmptyIff(s);
    if Words(s) != [] {
      WordsAreWords(s);
      JoinWordsShape(Words(s));
    }
  }

  /** The slug is made of `[a-z0-9]` and dashes, and starts and ends with a letter or digit. */
  lemma SlugifyShape(title: string)
    ensures SlugText(Slugify(title))
    ensures Slugify(title) != "" ==> IsSlugChar(Slugify(title)[0]) && IsSlugChar(Slugify(title)[|Slugify(title)| - 1])
  {
    var s := ToLowerAscii(title);
    SlugifyWords(title);
    if Words(s) != [] {
      WordsAreWords(s);
      JoinWordsShape(Words(s));
    }
  }

  /** Splitting words joined by dashes gives the words back. */
  lemma {:induction false} WordsOfJoin(ws: seq<string>)
    requires AllWords(ws)
    ensures Words(Join(ws, "-")) == ws
    decreases |ws|
  {
    if ws != [] {
      var w := ws[0];
      var rest := ws[1..];
      assert AllWords(rest) by {
        forall i | 0 <= i < |rest| ensures IsWord(rest[i]) {
          assert rest[i] == ws[i + 1];
        }
      }
      WordsOfJoin(rest);
      assert [w] + rest == ws;
      WordsOfJoinCons(w, rest);
    }
  }

  /** One more word in front: the step of `WordsOfJoin`. */
  lemma WordsOfJoinCons(w: string, rest: seq<string>)
    requires IsWord(w) && AllWords(rest)
    requires Words(Join(rest, "-")) == rest
    ensures Words(Join([w] + rest, "-")) == [w] + rest
  {
    if rest == [] {
      WordsOfWord(w, "");
      assert w + "" == w;
      assert Join([w], "-") == w;
    } else {
      var j := Join(rest, "-");
      JoinDashCons(w, rest);
      JoinWordsShape(rest);
      WordsOfWord(w, "-" + j);
      assert w + "-" + j == w + ("-" + j);
      WordsOfDash(j);
    }
  }

  /** A word in front of text that does not continue it is the first word. */
  lemma WordsOfWord(w: string, r: string)
    requires IsWord(w) && (r == "" || !IsSlugChar(r[0]))
    ensures Words(w + r) == [w] + Words(r)
  {
    var s := w + r;
    assert RunEnd(s, 0, true) == |w| by {
      RunEndIs(s, 0, |w|, true);
    }
    assert s[..|w|] == w && s[|w|..] == r;
  }

  /** A dash in front of a word is skipped. */
  lemma WordsOfDash(r: string)
    requires r != "" && IsSlugChar(r[0])
    ensures Words("-" + r) == Words(r)
  {
    var s := "-" + r;
    assert RunEnd(s, 0, false) == 1 by {
      RunEndIs(s, 0, 1, false);
    }
    assert s[1..] == r;
  }

  lemma RunEndIs(s: string, i: nat, j: nat, slug: bool)
    requires i <= j <= |s|
    requires forall k :: i <= k < j ==> IsSlugChar(s[k]) == slug
    requires j < |s| ==> IsSlugChar(s[j]) != slug
    ensures RunEnd(s, i, slug) == j
  {
  }

  /** Lower-casing leaves slug text alone. */
  lemma LowerSlugText(s: string)
    requires SlugText(s)
    ensures ToLowerAscii(s) == s
  {
    forall i | 0 <= i < |s| ensures LowerChar(s[i]) == s[i] {
      assert !IsAsciiUpper(s[i]);
    }
  }

  /** Deriving a slug from a slug changes nothing. */
  lemma SlugifyIdempotent(title: string)
    ensures Slugify(Slugify(title)) == Slugify(title)
  {
    var slug := Slugify(title);
    var ws := Words(ToLowerAscii(title));
    SlugifyWords(title);
    SlugifyShape(title);
    WordsAreWords(ToLowerAscii(title));
    LowerSlugText(slug);
    SlugifyWords(slug);
    WordsOfJoin(ws);
  }
}
