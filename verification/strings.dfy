/**
 * The ECMAScript string primitives the pipeline is built from: the whitespace set shared by
 * `String.prototype.trim` and the regular-expression class `\s`, trimming, splitting on a
 * one-character separator, joining, and ASCII lower-casing.
 */
module Strings {

  /** ECMAScript WhiteSpace and LineTerminator code points: what `\s` matches and `trim` strips. */
  const WhitespaceChars: set<char> := {
    '\t', '\n', '\U{B}', '\U{C}', '\r', ' ', '\U{A0}', '\U{1680}',
    '\U{2000}', '\U{2001}', '\U{2002}', '\U{2003}', '\U{2004}', '\U{2005}', '\U{2006}',
    '\U{2007}', '\U{2008}', '\U{2009}', '\U{200A}',
    '\U{2028}', '\U{2029}', '\U{202F}', '\U{205F}', '\U{3000}', '\U{FEFF}'
  }

  predicate IsWhitespace(c: char) {
    c in WhitespaceChars
  }

  /** The code points a regular-expression `.` does not match (ECMAScript LineTerminator). */
  predicate IsLineTerminator(c: char) {
    c == '\n' || c == '\r' || c == '\U{2028}' || c == '\U{2029}'
  }

  predicate AllWhitespace(s: string) {
    forall i :: 0 <= i < |s| ==> IsWhitespace(s[i])
  }

  /** `String.prototype.trimStart`: drops the longest all-whitespace prefix. */
  function TrimStart(s: string): string {
    if |s| > 0 && IsWhitespace(s[0]) then TrimStart(s[1..]) else s
  }

  /** `String.prototype.trimEnd`: drops the longest all-whitespace suffix. */
  function TrimEnd(s: string): string {
    if |s| > 0 && IsWhitespace(s[|s| - 1]) then TrimEnd(s[..|s| - 1]) else s
  }

  /** `String.prototype.trim`: both at once. */
  function Trim(s: string): string {
    TrimEnd(TrimStart(s))
  }

  /** What `trimStart` leaves is a suffix, all that it drops is whitespace, and it stops at text. */
  lemma {:induction false} TrimStartSpec(s: string)
    ensures |TrimStart(s)| <= |s| && TrimStart(s) == s[|s| - |TrimStart(s)|..]
    ensures AllWhitespace(s[..|s| - |TrimStart(s)|])
    ensures TrimStart(s) == [] || !IsWhitespace(TrimStart(s)[0])
  {
    if |s| > 0 && IsWhitespace(s[0]) {
      var r := TrimStart(s[1..]);
      TrimStartSpec(s[1..]);
      WhitespaceCons(s[0], s[1..][..|s| - 1 - |r|]);
      assert s[..|s| - |r|] == [s[0]] + s[1..][..|s| - 1 - |r|];
      assert s[1..][|s| - 1 - |r|..] == s[|s| - |r|..];
    } else {
      assert s[..0] == [];
    }
  }

  /** What `trimEnd` leaves is a prefix, all that it drops is whitespace, and it stops at text. */
  lemma {:induction false} TrimEndSpec(s: string)
    ensures |TrimEnd(s)| <= |s| && TrimEnd(s) == s[..|TrimEnd(s)|]
    ensures AllWhitespace(s[|TrimEnd(s)|..])
    ensures TrimEnd(s) == [] || !IsWhitespace(TrimEnd(s)[|TrimEnd(s)| - 1])
  {
    if |s| > 0 && IsWhitespace(s[|s| - 1]) {
      var t := s[..|s| - 1];
      var r := TrimEnd(t);
      TrimEndSpec(t);
      assert s[|r|..] == t[|r|..] + [s[|s| - 1]];
      WhitespaceSnoc(t[|r|..], s[|s| - 1]);
      assert t[..|r|] == s[..|r|];
    } else {
      assert s[|s|..] == [];
    }
  }

  lemma WhitespaceCons(c: char, w: string)
    requires IsWhitespace(c) && AllWhitespace(w)
    ensures AllWhitespace([c] + w)
  {
    assert forall i :: 1 <= i < |w| + 1 ==> ([c] + w)[i] == w[i - 1];
  }

  lemma WhitespaceSnoc(w: string, c: char)
    requires IsWhitespace(c) && AllWhitespace(w)
    ensures AllWhitespace(w + [c])
  {
    assert forall i :: 0 <= i < |w| ==> (w + [c])[i] == w[i];
  }

  /** Length of the whitespace prefix that `trimStart` drops: all of it is whitespace, and it stops at text. */
  function LeadingWhitespace(s: string): (k: nat)
    ensures k <= |s| && AllWhitespace(s[..k])
    ensures k == |s| || !IsWhitespace(s[k])
  {
    TrimStartSpec(s);
    |s| - |TrimStart(s)|
  }

  /**
   * `trim` keeps the text between the whitespace prefix and the whitespace suffix: it starts
   * where `trimStart` starts, drops only whitespace at the end, and neither starts nor ends
   * with whitespace.
   */
  lemma TrimSpec(s: string)
    ensures LeadingWhitespace(s) + |Trim(s)| <= |s|
    ensures AllWhitespace(s[..LeadingWhitespace(s)])
    ensures s[LeadingWhitespace(s)..LeadingWhitespace(s) + |Trim(s)|] == Trim(s)
    ensures AllWhitespace(s[LeadingWhitespace(s) + |Trim(s)|..])
    ensures Trim(s) == [] || (!IsWhitespace(Trim(s)[0]) && !IsWhitespace(Trim(s)[|Trim(s)| - 1]))
  {
    var a := TrimStart(s);
    var r := Trim(s);
    var k := LeadingWhitespace(s);
    TrimStartSpec(s);
    TrimEndSpec(a);
    assert a == s[k..];
    assert s[k..k + |r|] == a[..|r|];
    assert s[k + |r|..] == a[|r|..];
    if r != [] {
      assert r[0] == a[0];
    }
  }

  /** Trimming removes nothing but whitespace, so it is empty exactly for all-whitespace input. */
  lemma TrimEmptyIff(s: string)
    ensures Trim(s) == [] <==> AllWhitespace(s)
  {
    var a := TrimStart(s);
    TrimStartSpec(s);
    TrimEndSpec(a);
    var k := |s| - |a|;
    if Trim(s) == [] {
      assert a == [];
      assert s[..k] == s;
    } else {
      assert a != [];
      assert !IsWhitespace(s[k]);
    }
  }

  /** A trimmed string is its own trim. */
  lemma TrimIdempotent(s: string)
    ensures Trim(Trim(s)) == Trim(s)
  {
    var r := Trim(s);
    TrimSpec(s);
    if r != [] {
      assert TrimStart(r) == r;
      assert TrimEnd(r) == r;
    }
  }

  /** Text whose first and last characters are not whitespace trims to itself. */
  lemma TrimNonBlank(s: string)
    requires s != "" && !IsWhitespace(s[0]) && !IsWhitespace(s[|s| - 1])
    ensures Trim(s) == s
  {
    assert TrimStart(s) == s;
  }

  /** Whitespace in front of text that does not start with whitespace is what `trimStart` drops. */
  lemma {:induction false} TrimStartOfPadded(ws: string, s: string)
    requires AllWhitespace(ws)
    requires s == "" || !IsWhitespace(s[0])
    ensures TrimStart(ws + s) == s
  {
    if ws != "" {
      assert (ws + s)[1..] == ws[1..] + s;
      assert IsWhitespace(ws[0]);
      TrimStartOfPadded(ws[1..], s);
    } else {
      assert ws + s == s;
    }
  }

  /** The first index at or after `i` holding a character of `stop`, or `|s|`. */
  function SpanUntil(s: string, i: nat, stop: set<char>): (j: nat)
    requires i <= |s|
    ensures i <= j <= |s|
    ensures forall k :: i <= k < j ==> s[k] !in stop
    ensures j < |s| ==> s[j] in stop
    decreases |s| - i
  {
    if i == |s| || s[i] in stop then i else SpanUntil(s, i + 1, stop)
  }

  lemma SpanUntilIs(s: string, i: nat, j: nat, stop: set<char>)
    requires i <= j < |s| && s[j] in stop
    requires forall k :: i <= k < j ==> s[k] !in stop
    ensures SpanUntil(s, i, stop) == j
  {
  }

  /** Number of occurrences of `c` in `s`. */
  function Count(s: string, c: char): nat {
    if s == "" then 0 else (if s[0] == c then 1 else 0) + Count(s[1..], c)
  }

  /** `Array.prototype.join(sep)` on strings. */
  function Join(parts: seq<string>, sep: string): string {
    if |parts| == 0 then ""
    else if |parts| == 1 then parts[0]
    else parts[0] + sep + Join(parts[1..], sep)
  }

  /** Every character of a join is a character of one of the parts or of the separator. */
  lemma {:induction false} JoinKeeps(parts: seq<string>, sep: string, ok: char -> bool)
    requires forall i, k :: 0 <= i < |parts| && 0 <= k < |parts[i]| ==> ok(parts[i][k])
    requires forall k :: 0 <= k < |sep| ==> ok(sep[k])
    ensures forall k :: 0 <= k < |Join(parts, sep)| ==> ok(Join(parts, sep)[k])
    decreases |parts|
  {
    if |parts| > 1 {
      var tail := parts[1..];
      assert forall i, k :: 0 <= i < |tail| && 0 <= k < |tail[i]| ==> ok(tail[i][k]) by {
        forall i, k | 0 <= i < |tail| && 0 <= k < |tail[i]| ensures ok(tail[i][k]) {
          assert tail[i] == parts[i + 1];
        }
      }
      JoinKeeps(tail, sep, ok);
      var r := Join(tail, sep);
      var whole := parts[0] + sep + r;
      forall k | 0 <= k < |whole| ensures ok(whole[k]) {
        if k >= |parts[0]| + |sep| {
          assert whole[k] == r[k - |parts[0]| - |sep|];
        } else if k >= |parts[0]| {
          assert whole[k] == sep[k - |parts[0]|];
        } else {
          assert whole[k] == parts[0][k];
        }
      }
    }
  }

  /** `Array.prototype.join("")`: plain concatenation. */
  function Concat(parts: seq<string>): string {
    if |parts| == 0 then "" else parts[0] + Concat(parts[1..])
  }

  /** Growing the first piece grows the joined text in front. */
  lemma JoinGrowHead(x: string, parts: seq<string>, sep: string)
    requires |parts| >= 1
    ensures Join([x + parts[0]] + parts[1..], sep) == x + Join(parts, sep)
  {
    var grown := [x + parts[0]] + parts[1..];
    assert grown[1..] == parts[1..];
  }

  /**
   * `String.prototype.split(sep)` for a one-character separator: the pieces between
   * consecutive separators, so there is always one more piece than separators.
   */
  function Split(s: string, sep: char): (parts: seq<string>)
    ensures |parts| == Count(s, sep) + 1
    ensures forall i :: 0 <= i < |parts| ==> sep !in parts[i]
    ensures Join(parts, [sep]) == s
    decreases |s|
  {
    if |s| == 0 then [""]
    else
      var rest := Split(s[1..], sep);
      if s[0] == sep then
        var parts := [""] + rest;
        assert parts[1..] == rest;
        assert [s[0]] + s[1..] == s;
        parts
      else
        var parts := [[s[0]] + rest[0]] + rest[1..];
        JoinGrowHead([s[0]], rest, [sep]);
        assert [s[0]] + s[1..] == s;
        assert forall i :: 1 <= i < |parts| ==> parts[i] == rest[i];
        parts
  }

  /** Joining pieces free of the separator and splitting again gives the pieces back. */
  lemma {:induction false} SplitJoin(parts: seq<string>, sep: char)
    requires |parts| >= 1
    requires forall i :: 0 <= i < |parts| ==> sep !in parts[i]
    ensures Split(Join(parts, [sep]), sep) == parts
    decreases |parts|, |parts[0]|, 1
  {
    if |parts| == 1 {
      SplitNoSeparator(parts[0], sep);
    } else if parts[0] == [] {
      SplitJoinEmptyHead(parts, sep);
    } else {
      SplitJoinLongHead(parts, sep);
    }
  }

  lemma {:induction false} SplitJoinEmptyHead(parts: seq<string>, sep: char)
    requires |parts| >= 2 && parts[0] == []
    requires forall i :: 0 <= i < |parts| ==> sep !in parts[i]
    ensures Split(Join(parts, [sep]), sep) == parts
    decreases |parts|, 0, 0
  {
    var tail := parts[1..];
    assert forall i :: 0 <= i < |tail| ==> sep !in tail[i] by {
      forall i | 0 <= i < |tail| ensures sep !in tail[i] {
        assert tail[i] == parts[i + 1];
      }
    }
    SplitJoin(tail, sep);
    assert Join(parts, [sep]) == [sep] + Join(tail, [sep]);
    SplitCons(sep, Join(tail, [sep]), sep);
    assert parts == [""] + tail;
  }

  lemma {:induction false} SplitJoinLongHead(parts: seq<string>, sep: char)
    requires |parts| >= 2 && parts[0] != []
    requires forall i :: 0 <= i < |parts| ==> sep !in parts[i]
    ensures Split(Join(parts, [sep]), sep) == parts
    decreases |parts|, |parts[0]|, 0
  {
    var c := parts[0][0];
    var shorter := [parts[0][1..]] + parts[1..];
    assert c != sep by {
      assert c == parts[0][0];
    }
    assert forall i :: 0 <= i < |shorter| ==> sep !in shorter[i] by {
      forall i | 0 <= i < |shorter| ensures sep !in shorter[i] {
        if i == 0 {
          assert parts[0] == [c] + shorter[0];
        } else {
          assert shorter[i] == parts[i];
        }
      }
    }
    SplitJoin(shorter, sep);
    assert parts[0] == [c] + parts[0][1..];
    assert shorter[1..] == parts[1..];
    JoinGrowHead([c], shorter, [sep]);
    assert [[c] + shorter[0]] + shorter[1..] == parts;
    SplitCons(c, Join(shorter, [sep]), sep);
  }

  /** A character absent from the input is absent from every piece. */
  lemma {:induction false} SplitAbsent(s: string, sep: char, c: char)
    requires c !in s
    ensures forall i :: 0 <= i < |Split(s, sep)| ==> c !in Split(s, sep)[i]
    decreases |s|
  {
    if s != "" {
      assert c !in s[1..] by {
        assert forall k :: 0 <= k < |s[1..]| ==> s[1..][k] == s[k + 1];
      }
      SplitAbsent(s[1..], sep, c);
      SplitCons(s[0], s[1..], sep);
      assert s == [s[0]] + s[1..];
    }
  }

  /** Splitting a string with one more character in front. */
  lemma SplitCons(c: char, t: string, sep: char)
    ensures c == sep ==> Split([c] + t, sep) == [""] + Split(t, sep)
    ensures c != sep ==> Split([c] + t, sep) == [[c] + Split(t, sep)[0]] + Split(t, sep)[1..]
  {
    assert ([c] + t)[1..] == t;
  }

  lemma {:induction false} SplitNoSeparator(s: string, sep: char)
    requires sep !in s
    ensures Split(s, sep) == [s]
    decreases |s|
  {
    if |s| > 0 {
      assert sep !in s[1..] by {
        assert forall k :: 0 <= k < |s[1..]| ==> s[1..][k] == s[k + 1];
      }
      SplitNoSeparator(s[1..], sep);
      SplitCons(s[0], s[1..], sep);
      assert [s[0]] + s[1..] == s;
    }
  }

  predicate IsAsciiUpper(c: char) { 'A' <= c <= 'Z' }

  /**
   * `toLowerCase` on the ASCII letters: no capital is left, a character changes exactly when it
   * is a capital, and a capital becomes the small letter 32 code points above it.
   */
  function LowerChar(c: char): (d: char)
    ensures !IsAsciiUpper(d)
    ensures d != c <==> IsAsciiUpper(c)
    ensures IsAsciiUpper(c) ==> 'a' <= d <= 'z' && d as int - c as int == 32
  {
    if IsAsciiUpper(c) then (c as int + 32) as char else c
  }

  /**
   * ASCII lower-casing keeps the length, leaves no capital behind, keeps every character that
   * is not a capital, and turns each capital into its small letter.
   */
  function ToLowerAscii(s: string): (r: string)
    ensures |r| == |s|
    ensures forall i :: 0 <= i < |r| ==> !IsAsciiUpper(r[i])
    ensures forall i :: 0 <= i < |s| && !IsAsciiUpper(s[i]) ==> r[i] == s[i]
    ensures forall i :: 0 <= i < |s| && IsAsciiUpper(s[i]) ==> r[i] as int == s[i] as int + 32
  {
    seq(|s|, i requires 0 <= i < |s| => LowerChar(s[i]))
  }

  /** Lower-casing lower-case text changes nothing, so lower-casing twice is lower-casing once. */
  lemma ToLowerAsciiIdempotent(s: string)
    ensures ToLowerAscii(ToLowerAscii(s)) == ToLowerAscii(s)
  {
  }

  /** `a = c·b`, `b = y·z` and `x = c·y` give `a = x·z`. */
  lemma ConsChain(a: string, b: string, c: char, x: string, y: string, z: string)
    requires a == [c] + b && b == y + z && x == [c] + y
    ensures a == x + z
  {
  }
}
