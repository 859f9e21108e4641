/** Colouring of @tags in a rendered line (template_export.rb lines 71-79): the colour in force
    before the tags is the last escape sequence that some tag text follows, or the default
    colour; every tag preceded by whitespace or by the `m` that ends an escape is wrapped in the
    tag colour and that colour. */
module Tags {

  import opened Wrappers
  import opened Strings
  import opened Backrefs

  /** The value of a colour name in the colour table; Ruby interpolates a missing one (nil)
      as the empty text. */
  function Lookup(colors: map<string, string>, name: string): string {
    if name in colors then colors[name] else []
  }

  // ---------------------------------------------------------------------------------------
  // Character runs

  /** Length of the run of characters in a class that starts at `i`. */
  function ClassRun(s: string, i: nat, inClass: char -> bool): (n: nat)
    requires i <= |s|
    ensures i + n <= |s|
    ensures i + n < |s| ==> !inClass(s[i + n])
    decreases |s| - i
  {
    if i < |s| && inClass(s[i]) then 1 + ClassRun(s, i + 1, inClass) else 0
  }

  /** The run holds characters of the class only. */
  lemma {:induction false} ClassRunAll(s: string, i: nat, inClass: char -> bool)
    requires i <= |s|
    ensures forall j :: i <= j < i + ClassRun(s, i, inClass) ==> inClass(s[j])
    decreases |s| - i
  {
    if i < |s| && inClass(s[i]) {
      ClassRunAll(s, i + 1, inClass);
    }
  }

  /** A run of known extent. */
  lemma {:induction false} ClassRunFrom(s: string, i: nat, n: nat, inClass: char -> bool)
    requires i + n <= |s|
    requires forall j :: i <= j < i + n ==> inClass(s[j])
    requires i + n == |s| || !inClass(s[i + n])
    ensures ClassRun(s, i, inClass) == n
    decreases n
  {
    if n > 0 {
      ClassRunFrom(s, i + 1, n - 1, inClass);
    }
  }

  /** `[\d;]` */
  predicate IsCodeChar(c: char) {
    IsDigit(c) || c == ';'
  }

  /** `[^\e]` */
  predicate NotEsc(c: char) {
    c != ESC
  }

  /** `[^ (]` */
  predicate IsTagChar(c: char) {
    c != ' ' && c != '('
  }

  // ---------------------------------------------------------------------------------------
  // The colour before the tags (lines 72-77)

  /** `\e\[[\d;]+m` */
  predicate IsEscapeCode(e: string) {
    |e| >= 4 && e[0] == ESC && e[1] == '[' && e[|e| - 1] == 'm'
    && forall k :: 2 <= k < |e| - 1 ==> IsCodeChar(e[k])
  }

  /** The last position in `[lo, hi)` holding `c`. */
  function LastAt(s: string, lo: nat, hi: nat, c: char): (r: Option<nat>)
    requires hi <= |s|
    ensures r.Some? ==> lo <= r.value < hi && s[r.value] == c
    ensures r.Some? ==> forall q :: r.value < q < hi ==> s[q] != c
    ensures r.None? ==> forall q :: lo <= q < hi ==> s[q] != c
    decreases hi
  {
    if hi <= lo then None
    else if s[hi - 1] == c then Some(hi - 1)
    else LastAt(s, lo, hi - 1, c)
  }

  /** A match of `(\e\[[\d;]+m)[^\e]+@` at `i`: the escape it captures and the position after
      it. The code run cannot end early (a shorter run is followed by a code character, not
      `m`), and `[^\e]+` backs off to the last `@` of the text up to the next escape, leaving
      at least one character in front of it. */
  function EscapeMatch(s: string, i: nat): (r: Option<(string, nat)>)
    ensures r.Some? ==> i < r.value.1 <= |s| && IsEscapeCode(r.value.0)
    ensures r.Some? ==> i + |r.value.0| < r.value.1 - 1 && r.value.0 == s[i..i + |r.value.0|]
    ensures r.Some? ==> s[r.value.1 - 1] == '@'
  {
    if i + 1 < |s| && s[i] == ESC && s[i + 1] == '[' then
      var d := ClassRun(s, i + 2, IsCodeChar);
      if d > 0 && i + 2 + d < |s| && s[i + 2 + d] == 'm' then
        var p := i + 3 + d;
        var n := ClassRun(s, p, NotEsc);
        match LastAt(s, p + 1, p + n, '@')
        case Some(q) =>
          EscapeSlice(s, i, d);
          Some((s[i..p], q + 1))
        case None => None
      else None
    else None
  }

  /** An escape character, a bracket, a run of code characters and an `m` make an escape. */
  lemma EscapeSlice(s: string, i: nat, d: nat)
    requires i + 3 + d <= |s| && s[i] == ESC && s[i + 1] == '[' && s[i + 2 + d] == 'm'
    requires d > 0 && ClassRun(s, i + 2, IsCodeChar) >= d
    ensures IsEscapeCode(s[i..i + 3 + d])
  {
    ClassRunAll(s, i + 2, IsCodeChar);
    var e := s[i..i + 3 + d];
    assert forall k :: 2 <= k < |e| - 1 ==> e[k] == s[i + k];
  }

  /** `scan` from `i` on: the captured escapes in order. Matches never overlap a later escape
      character, so the scan resumes after each match. */
  function Scan(s: string, i: nat): (r: seq<string>)
    requires i <= |s|
    ensures forall k :: 0 <= k < |r| ==> IsEscapeCode(r[k])
    ensures (forall k :: i <= k < |s| ==> s[k] != ESC) ==> r == []
    decreases |s| - i
  {
    if i == |s| then []
    else match EscapeMatch(s, i)
      case Some((e, j)) => [e] + Scan(s, j)
      case None => Scan(s, i + 1)
  }

  /** Lines 73-77: the last captured escape, else the default colour. */
  function LastColor(s: string, colors: map<string, string>): string {
    var es := Scan(s, 0);
    if |es| > 0 then es[|es| - 1] else Lookup(colors, "default")
  }

  /** Without an escape character the default colour is used. */
  lemma LastColorPlain(s: string, colors: map<string, string>)
    requires ESC !in s
    ensures LastColor(s, colors) == Lookup(colors, "default")
  {
    assert forall k :: 0 <= k < |s| ==> s[k] != ESC by {
      forall k | 0 <= k < |s| ensures s[k] != ESC {
        assert s[k] in s;
      }
    }
  }

  /** An escape followed by text holding an `@` after its first character is captured, and
      when no escape comes later it is the colour in force. */
  lemma LastColorEscape(code: string, x: string, colors: map<string, string>)
    requires IsEscapeCode(code) && ESC !in x
    requires |x| > 0 && '@' in x[1..]
    ensures LastColor(code + x, colors) == code
  {
    var s := code + x;
    var m := EscapeMatch(s, 0);
    assert m.Some? && m.value.0 == code by {
      EscapeMatchAt(code, x);
    }
    var j := m.value.1;
    assert Scan(s, j) == [] by {
      forall k | j <= k < |s| ensures s[k] != ESC {
        assert s[k] == x[k - |code|] && x[k - |code|] in x;
      }
    }
  }

  /** The match at the escape of `code + x`. */
  lemma EscapeMatchAt(code: string, x: string)
    requires IsEscapeCode(code) && ESC !in x
    requires |x| > 0 && '@' in x[1..]
    ensures var m := EscapeMatch(code + x, 0); m.Some? && m.value.0 == code
  {
    var s := code + x;
    var d := |code| - 3;
    var p := |code|;
    assert s[..p] == code;
    assert ClassRun(s, 2, IsCodeChar) == d by {
      ClassRunFrom(s, 2, d, IsCodeChar);
    }
    var n := |x|;
    assert ClassRun(s, p, NotEsc) == n by {
      forall k | p <= k < p + n ensures NotEsc(s[k]) {
        assert s[k] == x[k - p] && x[k - p] in x;
      }
      ClassRunFrom(s, p, n, NotEsc);
    }
    assert LastAt(s, p + 1, p + n, '@').Some? by {
      var k :| 0 <= k < |x[1..]| && x[1..][k] == '@';
      assert s[p + 1 + k] == '@';
    }
  }

  // ---------------------------------------------------------------------------------------
  // The tag gsub (line 78)

  /** A match of `(\s|m)(@[^ (]+)` at `i`, by the position after it; `[^ (]+` is greedy and
      nothing follows it, so the match is as long as the run. */
  function TagAt(s: string, i: nat): (r: Option<nat>)
    ensures r.Some? ==> i + 3 <= r.value <= |s|
  {
    if i + 2 < |s| && (IsSpace(s[i]) || s[i] == 'm') && s[i + 1] == '@' then
      var n := ClassRun(s, i + 2, IsTagChar);
      if n > 0 then Some(i + 2 + n) else None
    else None
  }

  /** The gsub from `i` on with the replacement string `rep`, expanded for each match with the
      match, the two groups and the text around the match. The first expansion that raises
      ends the pass. */
  function TagFrom(s: string, i: nat, rep: string): (r: Result<string, SubError>)
    requires i <= |s|
    decreases |s| - i
  {
    if i == |s| then Success([])
    else match TagAt(s, i)
      case Some(e) =>
        var v :- Expand(rep, [s[i..e], s[i..i + 1], s[i + 1..e]], s[..i], s[e..]);
        var rest :- TagFrom(s, e, rep);
        Success(v + rest)
      case None =>
        var rest :- TagFrom(s, i + 1, rep);
        Success([s[i]] + rest)
  }

  /** Lines 71-79: without a tag colour the text is left alone; with one, each tag is wrapped
      in the tag colour and the colour found before the tags. */
  function TagPass(s: string, tagsColor: Option<string>, colors: map<string, string>): (r: Result<string, SubError>)
    ensures tagsColor.None? ==> r == Success(s)
  {
    match tagsColor
    case None => Success(s)
    case Some(name) => TagFrom(s, 0, "\\1" + Lookup(colors, name) + "\\2" + LastColor(s, colors))
  }

  /** The same pass stated without replacement strings: each tag gets `tc` in front and `lc`
      after it. */
  function HighlightFrom(s: string, i: nat, tc: string, lc: string): (r: string)
    requires i <= |s|
    decreases |s| - i
  {
    if i == |s| then []
    else match TagAt(s, i)
      case Some(e) => [s[i]] + tc + s[i + 1..e] + lc + HighlightFrom(s, e, tc, lc)
      case None => [s[i]] + HighlightFrom(s, i + 1, tc, lc)
  }

  function Highlight(s: string, tc: string, lc: string): string {
    HighlightFrom(s, 0, tc, lc)
  }

  /** With colours free of backslashes the replacement string expands to the boundary
      character, the tag colour, the tag and the colour after it. */
  lemma TagReplacement(tc: string, lc: string, m: string, g1: string, g2: string, pre: string, post: string)
    requires '\\' !in tc && '\\' !in lc
    ensures Expand("\\1" + tc + "\\2" + lc, [m, g1, g2], pre, post) == Success(g1 + tc + g2 + lc)
  {
    var groups := [m, g1, g2];
    ExpandPlain(lc, groups, pre, post);
    ExpandGroupFront('2', lc, groups, pre, post, lc);
    assert "\\2" + lc == ['\\', '2'] + lc;
    ExpandPlainPrefix(tc, "\\2" + lc, groups, pre, post);
    ExpandGroupFront('1', tc + ("\\2" + lc), groups, pre, post, tc + (g2 + lc));
    assert "\\1" + tc + "\\2" + lc == ['\\', '1'] + (tc + ("\\2" + lc));
    assert g1 + (tc + (g2 + lc)) == g1 + tc + g2 + lc;
  }

  /** The gsub computes the highlight whenever the colours hold no backslash. */
  lemma {:induction false} TagFromClean(s: string, i: nat, tc: string, lc: string)
    requires i <= |s| && '\\' !in tc && '\\' !in lc
    ensures TagFrom(s, i, "\\1" + tc + "\\2" + lc) == Success(HighlightFrom(s, i, tc, lc))
    decreases |s| - i
  {
    if i < |s| {
      var rep := "\\1" + tc + "\\2" + lc;
      match TagAt(s, i)
      case Some(e) =>
        TagReplacement(tc, lc, s[i..e], s[i..i + 1], s[i + 1..e], s[..i], s[e..]);
        TagFromClean(s, e, tc, lc);
        assert s[i..i + 1] == [s[i]];
      case None =>
        TagFromClean(s, i + 1, tc, lc);
    }
  }

  /** The tag pass inserts the two colours around each tag when they are free of
      backslashes. */
  lemma TagPassHighlights(s: string, name: string, colors: map<string, string>)
    requires '\\' !in Lookup(colors, name) && '\\' !in LastColor(s, colors)
    ensures TagPass(s, Some(name), colors) == Success(Highlight(s, Lookup(colors, name), LastColor(s, colors)))
  {
    TagFromClean(s, 0, Lookup(colors, name), LastColor(s, colors));
  }

  /** Highlighting only inserts: with empty colours the text is unchanged. */
  lemma {:induction false} HighlightNothing(s: string, i: nat)
    requires i <= |s|
    ensures HighlightFrom(s, i, [], []) == s[i..]
    decreases |s| - i
  {
    if i < |s| {
      match TagAt(s, i)
      case Some(e) =>
        HighlightNothing(s, e);
        assert [s[i]] + [] + s[i + 1..e] + [] + s[e..] == s[i..];
      case None =>
        HighlightNothing(s, i + 1);
        assert [s[i]] + s[i + 1..] == s[i..];
    }
  }

  /** A text without `@` has no tags and is left alone. */
  lemma {:induction false} HighlightNoTags(s: string, i: nat, tc: string, lc: string)
    requires i <= |s| && '@' !in s
    ensures HighlightFrom(s, i, tc, lc) == s[i..]
    decreases |s| - i
  {
    if i < |s| {
      assert TagAt(s, i).None? by {
        if i + 1 < |s| {
          assert s[i + 1] in s;
        }
      }
      HighlightNoTags(s, i + 1, tc, lc);
      assert [s[i]] + s[i + 1..] == s[i..];
    }
  }

  /** Whatever the replacement string, a text without `@` goes through the gsub unchanged. */
  lemma {:induction false} TagFromNoTags(s: string, i: nat, rep: string)
    requires i <= |s| && '@' !in s
    ensures TagFrom(s, i, rep) == Success(s[i..])
    decreases |s| - i
  {
    if i < |s| {
      assert TagAt(s, i).None? by {
        if i + 1 < |s| {
          assert s[i + 1] in s;
        }
      }
      TagFromNoTags(s, i + 1, rep);
      assert [s[i]] + s[i + 1..] == s[i..];
    } else {
      assert s[i..] == [];
    }
  }

  /** A whole tag after a space is wrapped in the two colours. */
  lemma HighlightOneTag(t: string, tc: string, lc: string)
    requires |t| > 0 && forall k :: 0 <= k < |t| ==> IsTagChar(t[k])
    ensures Highlight(" @" + t, tc, lc) == " " + tc + "@" + t + lc
  {
    var s := " @" + t;
    assert ClassRun(s, 2, IsTagChar) == |t| by {
      ClassRunFrom(s, 2, |t|, IsTagChar);
    }
    assert TagAt(s, 0) == Some(|s|);
    assert HighlightFrom(s, |s|, tc, lc) == [];
    assert s[1..|s|] == "@" + t;
  }
}
