/** The note of an item as the template renderer handles it: its lines are prepared (stripped,
    blank ones dropped, the bullet normalised, two spaces appended, optionally word-wrapped),
    then the note directives of the template are filled in with them, or deleted when there is
    nothing to show. */
module Notes {

  import opened Wrappers
  import opened Strings
  import opened Backrefs
  import opened Wrap

  const EmDash: char := '\U{2014}'

  // ---------------------------------------------------------------------------------------
  // Preparing the lines

  /** A stripped line is its own strip. */
  lemma StripStable(x: string)
    requires |x| > 0 ==> !IsStripChar(x[0]) && !IsStripChar(x[|x| - 1])
    ensures Strip(x) == x
  {
  }

  /** `note.map(&:strip).delete_if(&:empty?)`. */
  function NonBlank(note: seq<string>): (r: seq<string>)
    ensures |r| <= |note|
    decreases |note|
  {
    if |note| == 0 then []
    else
      var x := Strip(note[0]);
      (if |x| > 0 then [x] else []) + NonBlank(note[1..])
  }

  /** Filtering works line by line: the kept lines of a note are those of its first part
      followed by those of the rest, so their order and repetitions are the note's. */
  lemma {:induction false} NonBlankAppend(a: seq<string>, b: seq<string>)
    ensures NonBlank(a + b) == NonBlank(a) + NonBlank(b)
    decreases |a|
  {
    if |a| > 0 {
      assert (a + b)[0] == a[0] && (a + b)[1..] == a[1..] + b;
      NonBlankAppend(a[1..], b);
    } else {
      assert a + b == b;
    }
  }

  /** One line is kept, stripped, exactly when its strip is not empty. */
  lemma NonBlankOne(x: string)
    ensures NonBlank([x]) == if |Strip(x)| > 0 then [Strip(x)] else []
  {
    assert [x][1..] == [];
  }

  /** The kept lines are exactly the non-empty strips of the note's lines. */
  lemma {:induction false} NonBlankMembers(note: seq<string>)
    ensures forall x :: x in NonBlank(note) <==> exists k :: 0 <= k < |note| && x == Strip(note[k]) && |x| > 0
    decreases |note|
  {
    if |note| > 0 {
      var rest := note[1..];
      var h := Strip(note[0]);
      var head := if |h| > 0 then [h] else [];
      assert NonBlank(note) == head + NonBlank(rest);
      NonBlankMembers(rest);
      forall x ensures x in NonBlank(note) <==> exists k :: 0 <= k < |note| && x == Strip(note[k]) && |x| > 0 {
        if x in NonBlank(rest) {
          var k :| 0 <= k < |rest| && x == Strip(rest[k]) && |x| > 0;
          assert rest[k] == note[k + 1];
        }
        if exists k :: 0 <= k < |note| && x == Strip(note[k]) && |x| > 0 {
          var k :| 0 <= k < |note| && x == Strip(note[k]) && |x| > 0;
          if k > 0 {
            assert rest[k - 1] == note[k];
          }
        }
      }
    }
  }

  /** Every kept line is non-empty and already stripped. */
  lemma NonBlankStripped(note: seq<string>)
    ensures forall x :: x in NonBlank(note) ==> |x| > 0 && Strip(x) == x
  {
    NonBlankMembers(note);
    forall x | x in NonBlank(note) ensures |x| > 0 && Strip(x) == x {
      StripStable(x);
    }
  }

  /** `sub(/^\t*(— )?/, '')`: leading tabs, then one "— ", are removed. */
  function DropBullet(s: string): (r: string)
    ensures |r| <= |s| && r == s[|s| - |r|..]
  {
    var u := s[CharRun(s, 0, '\t')..];
    if |u| >= 2 && u[0] == EmDash && u[1] == ' ' then u[2..] else u
  }

  /** "- " at `p`, which is the start of the text or follows a line feed. */
  predicate DashAt(s: string, p: nat) {
    p + 2 <= |s| && (p == 0 || s[p - 1] == '\n') && s[p] == '-' && s[p + 1] == ' '
  }

  /** The first line-start "- " at or after `p`. */
  function FindDash(s: string, p: nat): (r: Option<nat>)
    requires p <= |s|
    ensures r.Some? ==> p <= r.value && DashAt(s, r.value)
    ensures r.Some? ==> forall q :: p <= q < r.value ==> !DashAt(s, q)
    ensures r.None? ==> forall q :: p <= q <= |s| ==> !DashAt(s, q)
    decreases |s| - p
  {
    if DashAt(s, p) then Some(p) else if p == |s| then None else FindDash(s, p + 1)
  }

  /** `sub(/^- /, '— ')`. */
  function Rebullet(s: string): (r: string)
    ensures |r| == |s|
  {
    match FindDash(s, 0)
    case None => s
    case Some(p) => s[..p] + [EmDash, ' '] + s[p + 2..]
  }

  /** One note line as line 33 prepares it. */
  function FormatLine(s: string): string {
    Rebullet(DropBullet(s)) + "  "
  }

  /** A dash bullet becomes an em-dash bullet. */
  lemma FormatDash(y: string)
    ensures FormatLine("- " + y) == [EmDash, ' '] + y + "  "
  {
    var s := "- " + y;
    assert CharRun(s, 0, '\t') == 0;
    assert DropBullet(s) == s;
    assert DashAt(s, 0);
    assert s[2..] == y;
  }

  /** An em-dash bullet is dropped: the line keeps no bullet at all (unless its text itself
      starts with "- "). */
  lemma FormatEmDash(y: string)
    requires forall q :: 0 <= q <= |y| ==> !DashAt(y, q)
    ensures FormatLine([EmDash, ' '] + y) == y + "  "
  {
    var s := [EmDash, ' '] + y;
    assert CharRun(s, 0, '\t') == 0;
    assert s[2..] == y;
    assert DropBullet(s) == y;
    assert FindDash(y, 0).None?;
  }

  /** A line without a bullet only gets the two trailing spaces. */
  lemma FormatPlain(y: string)
    requires |y| > 0 ==> y[0] != '\t'
    requires !(|y| >= 2 && y[0] == EmDash && y[1] == ' ')
    requires forall q :: 0 <= q <= |y| ==> !DashAt(y, q)
    ensures FormatLine(y) == y + "  "
  {
    assert CharRun(y, 0, '\t') == 0;
    assert y[0..] == y;
    assert FindDash(y, 0).None?;
  }

  /** Stripping a stripped text with two trailing spaces gives the text back. */
  lemma StripTwoSpaces(x: string)
    requires |x| > 0 && !IsStripChar(x[0]) && !IsStripChar(x[|x| - 1])
    ensures Strip(x + "  ") == x
  {
    var y := x + "  ";
    assert LStrip(y) == y;
    assert y[..|y| - 1] == x + " ";
    assert (x + " ")[..|x|] == x;
    assert RStrip(x + " ") == RStrip(x);
  }

  /** Preparing a prepared dash line again loses its bullet: the formatting is not idempotent. */
  lemma FormatTwice(y: string)
    requires |y| > 0 && !IsStripChar(y[0]) && !IsStripChar(y[|y| - 1])
    requires forall q :: 0 <= q <= |y| ==> !DashAt(y, q)
    ensures FormatLine("- " + y) == [EmDash, ' '] + y + "  "
    ensures FormatLine(Strip(FormatLine("- " + y))) == y + "  "
  {
    FormatDash(y);
    FormatAgain([EmDash, ' '] + y, y);
  }

  lemma FormatAgain(x: string, y: string)
    requires x == [EmDash, ' '] + y
    requires |y| > 0 && !IsStripChar(y[|y| - 1])
    requires forall q :: 0 <= q <= |y| ==> !DashAt(y, q)
    ensures FormatLine(Strip(x + "  ")) == y + "  "
  {
    assert x[|x| - 1] == y[|y| - 1];
    StripTwoSpaces(x);
    FormatEmDash(y);
  }

  /** The intended line preparation: leading tabs are dropped and a dash bullet becomes an
      em-dash bullet, but an em-dash bullet already there is kept. */
  function FormatLineKept(s: string): string {
    Rebullet(s[CharRun(s, 0, '\t')..]) + "  "
  }

  /** On a single line only a bullet at its start is rewritten. */
  lemma RebulletLine(s: string)
    requires '\n' !in s
    ensures Rebullet(s) == if DashAt(s, 0) then [EmDash, ' '] + s[2..] else s
  {
    forall q | 0 < q <= |s| ensures !DashAt(s, q) {
      assert s[q - 1] in s;
    }
    assert s[..0] == [];
  }

  /** Preparing a prepared single line again changes nothing: the bullet is neither lost nor
      doubled. */
  lemma FormatLineKeptIdempotent(s: string)
    requires '\n' !in s && |s| > 0 && !IsStripChar(s[0]) && !IsStripChar(s[|s| - 1])
    ensures FormatLineKept(Strip(FormatLineKept(s))) == FormatLineKept(s)
  {
    KeptNoTabs(s);
    RebulletStripped(s);
    StripTwoSpaces(Rebullet(s));
    KeptNoTabs(Rebullet(s));
    RebulletLine(Rebullet(s));
  }

  /** A line that does not start with a tab loses nothing in front. */
  lemma KeptNoTabs(s: string)
    requires |s| > 0 && s[0] != '\t'
    ensures FormatLineKept(s) == Rebullet(s) + "  "
  {
    assert s[0..] == s;
  }

  /** The rewritten single line is still stripped, holds no line feed, and starts with no
      dash bullet. */
  lemma RebulletStripped(s: string)
    requires '\n' !in s && |s| > 0 && !IsStripChar(s[0]) && !IsStripChar(s[|s| - 1])
    ensures var r := Rebullet(s);
      |r| > 0 && !IsStripChar(r[0]) && !IsStripChar(r[|r| - 1]) && '\n' !in r && !DashAt(r, 0)
  {
    RebulletLine(s);
    if DashAt(s, 0) {
      var r := [EmDash, ' '] + s[2..];
      assert r[|r| - 1] == s[|s| - 1];
      assert forall k :: 2 <= k < |r| ==> r[k] == s[k];
    }
  }

  /** Lines 31-40: the lines of the note as the template shows them; none when the item has no
      note, an empty one, or notes are switched off. Each kept line is formatted and, with a
      positive wrap width, wrapped with line feeds. */
  function PrepareNote(note: Option<seq<string>>, includeNotes: bool, wrapWidth: int): (r: seq<string>)
    ensures !(note.Some? && |note.value| > 0 && includeNotes) ==> r == []
    ensures note.Some? && |note.value| > 0 && includeNotes ==> |r| == |NonBlank(note.value)|
  {
    if note.Some? && |note.value| > 0 && includeNotes then
      var kept := NonBlank(note.value);
      var lines := seq(|kept|, k requires 0 <= k < |kept| => FormatLine(kept[k]));
      if wrapWidth > 0 then seq(|lines|, k requires 0 <= k < |lines| => WrapText(Strip(lines[k]), wrapWidth, "\n"))
      else lines
    else []
  }

  /** Each prepared line comes from the kept line at the same place: it is that line formatted
      and, with a positive width, wrapped, which keeps its words whole and in order. */
  lemma PrepareNoteWords(note: seq<string>, wrapWidth: int)
    requires |note| > 0
    ensures var r := PrepareNote(Some(note), true, wrapWidth);
      forall k :: 0 <= k < |r| ==>
        if wrapWidth > 0 then Words(r[k]) == Words(Strip(FormatLine(NonBlank(note)[k])))
        else r[k] == FormatLine(NonBlank(note)[k])
  {
    var r := PrepareNote(Some(note), true, wrapWidth);
    if wrapWidth > 0 {
      forall k | 0 <= k < |r| ensures Words(r[k]) == Words(Strip(FormatLine(NonBlank(note)[k]))) {
        WrapKeepsWords(Strip(FormatLine(NonBlank(note)[k])), wrapWidth, "\n");
      }
    }
  }

  // ---------------------------------------------------------------------------------------
  // Words and whitespace

  /** Whitespace at the front adds no word. */
  lemma WordsAfterSpace(c: char, y: string)
    requires IsSpace(c)
    ensures Words([c] + y) == Words(y)
  {
    WordsSkipSpaceFrom([c], y, 0);
  }

  /** Whitespace at the end adds no word. */
  lemma WordsBeforeSpace(y: string, c: char)
    requires IsSpace(c)
    ensures Words(y + [c]) == Words(y)
  {
    WordsAppend(y, [c]);
    assert Words([c]) == WordsFrom([c], 1);
  }

  /** A text without whitespace is one word, or none when empty. */
  lemma {:induction false} WordsOfWord(w: string)
    requires forall j :: 0 <= j < |w| ==> !IsSpace(w[j])
    ensures Words(w) == if |w| == 0 then [] else [w]
  {
    if |w| > 0 {
      WordRunAll(w, 0);
      assert WordRun(w, 0) == |w|;
      WordsStepAt(w, 0, [w[0..|w|]], |w|);
      assert w[0..|w|] == w;
    }
  }

  /** A text that starts with a non-whitespace character has a word. */
  lemma WordsNonEmpty(r: string)
    requires |r| > 0 && !IsSpace(r[0])
    ensures |Words(r)| > 0
  {
    var (ws, j) := NextWord(r, 0);
    WordsStepAt(r, 0, ws, j);
  }

  // ---------------------------------------------------------------------------------------
  // %chompnote: each line on one line, whitespace squeezed

  /** `gsub(/\n+/, ' ')`: every run of line feeds becomes one space. */
  function NewlinesToSpace(s: string): (r: string)
    ensures |r| > 0 <==> |s| > 0
    ensures |s| > 0 ==> r[0] == (if s[0] == '\n' then ' ' else s[0])
    decreases |s|
  {
    if |s| == 0 then []
    else if s[0] == '\n' then " " + NewlinesToSpace(s[CharRun(s, 0, '\n')..])
    else [s[0]] + NewlinesToSpace(s[1..])
  }

  /** Leading whitespace removed. */
  function TrimLeft(s: string): (r: string)
    ensures |r| <= |s| && r == s[|s| - |r|..]
    ensures |r| > 0 ==> !IsSpace(r[0])
    decreases |s|
  {
    if |s| > 0 && IsSpace(s[0]) then TrimLeft(s[1..]) else s
  }

  /** Trailing whitespace removed. */
  function TrimRight(s: string): (r: string)
    ensures |r| <= |s| && r == s[..|r|]
    ensures |r| > 0 ==> !IsSpace(r[|r| - 1])
    decreases |s|
  {
    if |s| > 0 && IsSpace(s[|s| - 1]) then TrimRight(s[..|s| - 1]) else s
  }

  /** `gsub(/(^\s*|\s*$)/, '')` on a text without line feeds, where `^` and `$` only match at
      its ends: the whitespace at both ends is removed. */
  function TrimSpace(s: string): (r: string)
    ensures |r| > 0 ==> !IsSpace(r[0]) && !IsSpace(r[|r| - 1])
  {
    var l := TrimLeft(s);
    var r := TrimRight(l);
    assert |r| > 0 ==> r[0] == l[0];
    r
  }

  /** What `gsub(/\s+/, ' ')` produces at `i` and where it resumes: one space for the
      whitespace run there, or the character copied. */
  function SqueezeStep(s: string, i: nat): (r: (string, nat))
    requires i < |s|
    ensures i < r.1 <= |s|
  {
    if IsSpace(s[i]) then (" ", i + SpaceRun(s, i)) else ([s[i]], i + 1)
  }

  /** `gsub(/\s+/, ' ')` from position `i` on. */
  function SqueezeFrom(s: string, i: nat): string
    requires i <= |s|
    decreases |s| - i
  {
    if i == |s| then []
    else
      var p := SqueezeStep(s, i);
      p.0 + SqueezeFrom(s, p.1)
  }

  lemma SqueezeStepAt(s: string, i: nat, piece: string, j: nat)
    requires i < |s| && SqueezeStep(s, i) == (piece, j)
    ensures SqueezeFrom(s, i) == piece + SqueezeFrom(s, j)
  {
  }

  function Squeeze(s: string): string {
    SqueezeFrom(s, 0)
  }

  /** Line 101: one note line as %chompnote shows it. */
  function ChompLine(l: string): string {
    Squeeze(TrimSpace(NewlinesToSpace(l)))
  }

  /** Lines 99-104: the note's lines, each chomped, joined by spaces. */
  function ChompNote(note: seq<string>): string {
    Join(seq(|note|, k requires 0 <= k < |note| => ChompLine(note[k])), " ")
  }

  /** Replacing line feeds by spaces keeps the words. */
  lemma {:induction false} NewlinesWords(s: string)
    ensures Words(NewlinesToSpace(s)) == Words(s)
    decreases |s|
  {
    if |s| > 0 {
      if s[0] == '\n' {
        var k := CharRun(s, 0, '\n');
        NewlinesWords(s[k..]);
        NewlinesRun(s, k);
      } else {
        NewlinesWords(s[1..]);
        NewlinesCopy(s);
      }
    }
  }

  /** The step of NewlinesWords over a run of line feeds. */
  lemma NewlinesRun(s: string, k: nat)
    requires |s| > 0 && s[0] == '\n' && k == CharRun(s, 0, '\n')
    requires Words(NewlinesToSpace(s[k..])) == Words(s[k..])
    ensures Words(NewlinesToSpace(s)) == Words(s)
  {
    var rest := NewlinesToSpace(s[k..]);
    assert Words([' '] + rest) == Words(rest) by {
      WordsAfterSpace(' ', rest);
    }
    assert NewlinesToSpace(s) == [' '] + rest;
    assert Words(s) == Words(s[k..]) by {
      CharRunAll(s, 0, '\n');
      assert AllSpace(s[..k]) by {
        forall j | 0 <= j < k ensures IsSpace(s[..k][j]) {
          assert s[..k][j] == s[j];
        }
      }
      WordsSkipSpaceFrom(s[..k], s[k..], 0);
      assert s[..k] + s[k..] == s;
    }
  }

  /** The step of NewlinesWords over any other character. */
  lemma NewlinesCopy(s: string)
    requires |s| > 0 && s[0] != '\n'
    requires Words(NewlinesToSpace(s[1..])) == Words(s[1..])
    ensures Words(NewlinesToSpace(s)) == Words(s)
  {
    var x := NewlinesToSpace(s[1..]);
    assert Words(x) == WordsFrom(s, 1) by {
      WordsDrop(s, 1);
    }
    assert Words([s[0]] + x) == WordsFrom(s, 0) by {
      assert |s| > 1 ==> s[1..][0] == s[1];
      WordsCons(s, 0, x);
    }
    assert NewlinesToSpace(s) == [s[0]] + x;
  }

  lemma {:induction false} TrimLeftWords(s: string)
    ensures Words(TrimLeft(s)) == Words(s)
    decreases |s|
  {
    if |s| > 0 && IsSpace(s[0]) {
      TrimLeftWords(s[1..]);
      WordsAfterSpace(s[0], s[1..]);
      assert [s[0]] + s[1..] == s;
    }
  }

  lemma {:induction false} TrimRightWords(s: string)
    ensures Words(TrimRight(s)) == Words(s)
    decreases |s|
  {
    if |s| > 0 && IsSpace(s[|s| - 1]) {
      var p := s[..|s| - 1];
      TrimRightWords(p);
      WordsBeforeSpace(p, s[|s| - 1]);
      assert p + [s[|s| - 1]] == s;
    }
  }

  /** A run without whitespace is copied. */
  lemma {:induction false} SqueezeWordFrom(t: string, i: nat, m: nat)
    requires i <= m <= |t|
    requires forall j :: i <= j < m ==> !IsSpace(t[j])
    ensures SqueezeFrom(t, i) == t[i..m] + SqueezeFrom(t, m)
    decreases m - i
  {
    if i < m {
      SqueezeStepAt(t, i, [t[i]], i + 1);
      SqueezeWordFrom(t, i + 1, m);
      assert [t[i]] + t[i + 1..m] == t[i..m];
    }
  }

  /** Joining a word in front of at least one more. */
  lemma JoinCons(x: string, ws: seq<string>, sep: string)
    requires |ws| > 0
    ensures Join([x] + ws, sep) == x + sep + Join(ws, sep)
  {
    assert ([x] + ws)[1..] == ws;
  }

  /** A whitespace run inside a text that does not end with whitespace stops before a
      non-whitespace character. */
  lemma GapEnd(t: string, k: nat)
    requires k < |t| && !IsSpace(t[|t| - 1])
    ensures k + SpaceRun(t, k) < |t| && !IsSpace(t[k + SpaceRun(t, k)])
  {
    SpaceRunAll(t, k);
    assert IsSpace(t[|t| - 1]) || |t| - 1 >= k + SpaceRun(t, k);
  }

  /** From a word on, squeezing a text that does not end with whitespace joins its words with
      single spaces. */
  lemma {:induction false} SqueezeJoinFrom(t: string, i: nat)
    requires i <= |t| && (i == |t| || !IsSpace(t[i]))
    requires |t| > 0 ==> !IsSpace(t[|t| - 1])
    ensures SqueezeFrom(t, i) == Join(WordsFrom(t, i), " ")
    decreases |t| - i
  {
    if i < |t| {
      var m := WordRun(t, i);
      var w := t[i..i + m];
      WordRunAll(t, i);
      SqueezeWordFrom(t, i, i + m);
      NextWordAt(t, i, m);
      WordsStepAt(t, i, [w], i + m);
      if i + m == |t| {
        assert SqueezeFrom(t, i + m) == [] && WordsFrom(t, i + m) == [];
        assert w + [] == w;
      } else {
        SqueezeJoinGap(t, i + m, w);
      }
    }
  }

  /** The step of SqueezeJoinFrom past the whitespace after the word `w`. */
  lemma SqueezeJoinGap(t: string, k: nat, w: string)
    requires k < |t| && IsSpace(t[k]) && !IsSpace(t[|t| - 1])
    ensures w + SqueezeFrom(t, k) == Join([w] + WordsFrom(t, k), " ")
    decreases |t| - k, 0
  {
    var e := k + SpaceRun(t, k);
    GapFacts(t, k);
    SqueezeJoinFrom(t, e);
    JoinAfterGap(w, SqueezeFrom(t, k), WordsFrom(t, e));
  }

  /** A whitespace run squeezes to one space and separates no words. */
  lemma GapFacts(t: string, k: nat)
    requires k < |t| && IsSpace(t[k]) && !IsSpace(t[|t| - 1])
    ensures k + SpaceRun(t, k) < |t| && !IsSpace(t[k + SpaceRun(t, k)])
    ensures SqueezeFrom(t, k) == " " + SqueezeFrom(t, k + SpaceRun(t, k))
    ensures WordsFrom(t, k) == WordsFrom(t, k + SpaceRun(t, k)) && |WordsFrom(t, k)| > 0
  {
    var e := k + SpaceRun(t, k);
    GapEnd(t, k);
    SqueezeStepAt(t, k, " ", e);
    WordsSkipRun(t, k);
    var (ws, j) := NextWord(t, e);
    WordsStepAt(t, e, ws, j);
  }

  lemma JoinAfterGap(w: string, x: string, rest: seq<string>)
    requires |rest| > 0 && x == " " + Join(rest, " ")
    ensures w + x == Join([w] + rest, " ")
  {
    JoinCons(w, rest, " ");
  }

  /** Squeezing a text without whitespace at its ends joins its words with single spaces. */
  lemma SqueezeJoin(t: string)
    requires |t| > 0 ==> !IsSpace(t[0]) && !IsSpace(t[|t| - 1])
    ensures Squeeze(t) == Join(Words(t), " ")
  {
    SqueezeJoinFrom(t, 0);
  }

  /** %chompnote shows a line's words separated by single spaces. */
  lemma ChompLineWords(l: string)
    ensures ChompLine(l) == Join(Words(l), " ")
  {
    var n := NewlinesToSpace(l);
    NewlinesWords(l);
    TrimLeftWords(n);
    TrimRightWords(TrimLeft(n));
    SqueezeJoin(TrimSpace(n));
  }

  // ---------------------------------------------------------------------------------------
  // Note directives

  /** The two patterns that find note directives. `Deleting` is the one that removes them when
      there is no note (line 82):
        %([io]d|(\^.)?(([ _t]|[^a-z0-9])?\d+)?(.[ _t]?)?)?note
      `Filling` is the one whose first match is replaced by the note (line 87):
        (?mi)%(?:\^(?<mchar>.))?(?:(?<ichar>[ _t]|[^a-z0-9])?(?<icount>\d+))?(?<prefix>.[ _t]?)?note
      Apart from the [io]d alternative they differ in their flags: under (?mi) `.` also matches
      a line feed and letters match in either case. */
  datatype Pattern = Deleting | Filling

  /** `.` */
  predicate Dot(c: char, p: Pattern) {
    p == Filling || c != '\n'
  }

  /** `[ _t]` */
  predicate Pad(c: char, p: Pattern) {
    c == ' ' || c == '_' || c == 't' || (p == Filling && c == 'T')
  }

  /** `[ _t]|[^a-z0-9]`; under /i the negated class excludes the capitals too. */
  predicate IndentChar(c: char, p: Pattern) {
    Pad(c, p) || !(IsLower(c) || IsDigit(c) || (p == Filling && IsUpper(c)))
  }

  /** `note` at `j`. */
  predicate NoteWordAt(s: string, j: nat, p: Pattern) {
    j + 4 <= |s| && (if p == Filling then CiEqual(s[j..j + 4], "note") else s[j..j + 4] == "note")
  }

  predicate AllDigits(s: string) {
    forall k :: 0 <= k < |s| ==> IsDigit(s[k])
  }

  /** How a match ends: the prefix group, if it took part, and the position after "note". */
  datatype Tail = Tail(prefix: Option<string>, end: nat)

  /** `(.[ _t]?)?note` at `j`, its alternatives in the order the regex engine tries them. */
  function PrefixNote(s: string, j: nat, p: Pattern): (r: Option<Tail>)
    ensures r.Some? ==> j + 4 <= r.value.end <= |s| && NoteWordAt(s, r.value.end - 4, p)
  {
    if j + 1 < |s| && Dot(s[j], p) && Pad(s[j + 1], p) && NoteWordAt(s, j + 2, p) then Some(Tail(Some(s[j..j + 2]), j + 6))
    else if j < |s| && Dot(s[j], p) && NoteWordAt(s, j + 1, p) then Some(Tail(Some(s[j..j + 1]), j + 5))
    else if NoteWordAt(s, j, p) then Some(Tail(None, j + 4))
    else None
  }

  /** `\d+` at `k` followed by the prefix and "note", trying `n` digits first and then fewer,
      down to one: the digit count and the tail. */
  function CountNote(s: string, k: nat, n: nat, p: Pattern): (r: Option<(nat, Tail)>)
    ensures r.Some? ==> 1 <= r.value.0 <= n
    ensures r.Some? ==> k + r.value.0 + 4 <= r.value.1.end <= |s| && NoteWordAt(s, r.value.1.end - 4, p)
    decreases n
  {
    if n == 0 then None
    else match PrefixNote(s, k + n, p)
      case Some(t) => Some((n, t))
      case None => CountNote(s, k, n - 1, p)
  }

  /** The groups of a match and the position after it. The indent count is empty when the
      indent group did not take part. */
  datatype NoteMatch = NoteMatch(mark: Option<char>, ichar: Option<char>, icount: string, prefix: Option<string>, end: nat)

  /** `(icount)(prefix)?note` at `k`, the indent character (if any) already matched. */
  function CountMatch(s: string, k: nat, p: Pattern, mark: Option<char>, ichar: Option<char>): (r: Option<NoteMatch>)
    requires k <= |s|
    ensures r.Some? ==> k + 5 <= r.value.end <= |s| && NoteWordAt(s, r.value.end - 4, p)
    ensures r.Some? ==> r.value.mark == mark && r.value.ichar == ichar && AllDigits(r.value.icount)
  {
    match CountNote(s, k, DigitRun(s, k), p)
    case None => None
    case Some((n, t)) =>
      DigitRunAll(s, k);
      Some(NoteMatch(mark, ichar, s[k..k + n], t.prefix, t.end))
  }

  /** `(?:(ichar)?(icount))?(prefix)?note` at `k`. */
  function IndentNote(s: string, k: nat, p: Pattern, mark: Option<char>): (r: Option<NoteMatch>)
    requires k <= |s|
    ensures r.Some? ==> k + 4 <= r.value.end <= |s| && NoteWordAt(s, r.value.end - 4, p)
    ensures r.Some? ==> r.value.mark == mark && AllDigits(r.value.icount)
  {
    var withChar := if k < |s| && IndentChar(s[k], p) then CountMatch(s, k + 1, p, mark, Some(s[k])) else None;
    if withChar.Some? then withChar
    else
      var bare := CountMatch(s, k, p, mark, None);
      if bare.Some? then bare
      else
        match PrefixNote(s, k, p)
        case Some(t) => Some(NoteMatch(mark, None, "", t.prefix, t.end))
        case None => None
  }

  /** A note directive that starts at `i`. At most one end position can complete a match
      there, and the captures are those of the first path the regex engine tries. */
  function DirectiveAt(s: string, i: nat, p: Pattern): (r: Option<NoteMatch>)
    ensures r.Some? ==> i + 5 <= r.value.end <= |s| && NoteWordAt(s, r.value.end - 4, p)
    ensures r.Some? ==> AllDigits(r.value.icount)
  {
    if i >= |s| || s[i] != '%' then None
    else if p == Deleting && i + 2 < |s| && (s[i + 1] == 'i' || s[i + 1] == 'o') && s[i + 2] == 'd' && NoteWordAt(s, i + 3, p) then
      Some(NoteMatch(None, None, "", None, i + 7))
    else
      var marked := if i + 2 < |s| && s[i + 1] == '^' && Dot(s[i + 2], p) then IndentNote(s, i + 3, p, Some(s[i + 2])) else None;
      if marked.Some? then marked else IndentNote(s, i + 1, p, None)
  }

  /** Lines 89-95: the indent is the count of tabs when the indent character is a lower-case
      t, of spaces for any other indent character, and empty without one, whatever the count. */
  function Indent(m: NoteMatch): (r: string)
    requires AllDigits(m.icount)
    ensures m.ichar.None? ==> r == []
    ensures m.ichar.Some? ==> |r| == DigitsValue(m.icount)
    ensures forall k :: 0 <= k < |r| ==> r[k] == (if m.ichar == Some('t') then '\t' else ' ')
  {
    if m.ichar.None? then [] else Repeat(if m.ichar.value == 't' then '\t' else ' ', DigitsValue(m.icount))
  }

  /** Lines 89-97: what goes in front of every note line: the mark, the indent, the prefix. */
  function Lead(m: NoteMatch): (r: string)
    requires AllDigits(m.icount)
  {
    (if m.mark.Some? then [m.mark.value] else []) + Indent(m) + m.prefix.GetOr([])
  }

  /** A line feed, then the note's lines, each stripped between `lead` and two spaces, one per
      line: what every note directive is replaced by. */
  function NoteBlock(lines: seq<string>, lead: string): string {
    "\n" + Join(NoteLines(lines, lead), "\n")
  }

  /** The note's lines as the block shows them. */
  function NoteLines(lines: seq<string>, lead: string): (r: seq<string>)
    ensures |r| == |lines|
    ensures forall k :: 0 <= k < |lines| ==> r[k] == lead + Strip(lines[k]) + "  "
  {
    seq(|lines|, k requires 0 <= k < |lines| => lead + Strip(lines[k]) + "  ")
  }

  /** The block's lines follow the note's: the lines of a note split in two are the lines of
      each part, one after the other. */
  lemma NoteLinesAppend(a: seq<string>, b: seq<string>, lead: string)
    ensures NoteLines(a + b, lead) == NoteLines(a, lead) + NoteLines(b, lead)
    ensures NoteLines([], lead) == []
  {
  }

  /** A text without line feeds is one line. */
  lemma {:induction false} LinesPlain(x: string)
    requires '\n' !in x
    ensures Lines(x) == [x]
    decreases |x|
  {
    if |x| > 0 {
      assert x[0] != '\n' by { assert x[0] in x; }
      assert forall c :: c in x[1..] ==> c in x;
      LinesPlain(x[1..]);
      assert [x[0]] + x[1..] == x;
    }
  }

  /** Joining texts without line feeds by line feeds makes them the lines. */
  lemma {:induction false} LinesJoin(parts: seq<string>)
    requires |parts| > 0 && forall k :: 0 <= k < |parts| ==> '\n' !in parts[k]
    ensures Lines(Join(parts, "\n")) == parts
    decreases |parts|
  {
    if |parts| == 1 {
      LinesPlain(parts[0]);
    } else {
      var rest := parts[1..];
      assert forall k :: 0 <= k < |rest| ==> rest[k] == parts[k + 1];
      LinesJoin(rest);
      LinesAfterBreak(parts[0], Join(rest, "\n"));
      assert [parts[0]] + rest == parts;
    }
  }

  /** The block starts a new line, then shows each note line on a line of its own. */
  lemma NoteBlockLines(lines: seq<string>, lead: string)
    requires |lines| > 0 && '\n' !in lead
    requires forall k :: 0 <= k < |lines| ==> '\n' !in Strip(lines[k])
    ensures Lines(NoteBlock(lines, lead)) == [[]] + NoteLines(lines, lead)
  {
    var parts := NoteLines(lines, lead);
    forall k | 0 <= k < |parts| ensures '\n' !in parts[k] {
      assert '\n' !in Strip(lines[k]);
    }
    LinesJoin(parts);
    LinesAfterBreak([], Join(parts, "\n"));
    assert [] + "\n" + Join(parts, "\n") == NoteBlock(lines, lead);
  }

  // ---------------------------------------------------------------------------------------
  // The passes

  /** What the deleting gsub produces at `i` and where it resumes. */
  function DeleteStep(s: string, i: nat): (r: (string, nat))
    requires i < |s|
    ensures i < r.1 <= |s|
  {
    match DirectiveAt(s, i, Deleting)
    case Some(m) => ([], m.end)
    case None => ([s[i]], i + 1)
  }

  function DeleteFrom(s: string, i: nat): string
    requires i <= |s|
    decreases |s| - i
  {
    if i == |s| then []
    else
      var p := DeleteStep(s, i);
      p.0 + DeleteFrom(s, p.1)
  }

  /** Line 82: without a note every directive the deleting pattern finds is removed. */
  function DeleteDirectives(s: string): string {
    DeleteFrom(s, 0)
  }

  lemma DeleteStepAt(s: string, i: nat, piece: string, j: nat)
    requires i < |s| && DeleteStep(s, i) == (piece, j)
    ensures DeleteFrom(s, i) == piece + DeleteFrom(s, j)
  {
  }

  /** One character that is not a percent sign is copied. */
  lemma DeleteCopyOne(s: string, i: nat, n: nat)
    requires 0 < n && i + n <= |s| && '%' !in s[i..i + n]
    ensures DeleteFrom(s, i) == [s[i]] + DeleteFrom(s, i + 1)
    ensures '%' !in s[i + 1..i + n] && [s[i]] + s[i + 1..i + n] == s[i..i + n]
  {
    assert s[i] == s[i..i + n][0];
    DeleteStepAt(s, i, [s[i]], i + 1);
    assert s[i + 1..i + n] == s[i..i + n][1..];
  }

  lemma Reassociate(whole: string, c: string, rest: string, x: string, tail: string)
    requires whole == c + rest && rest == x + tail
    ensures whole == (c + x) + tail
  {
  }

  /** Text without a percent sign is copied. */
  lemma {:induction false} DeleteCopies(s: string, i: nat, n: nat)
    requires i + n <= |s| && '%' !in s[i..i + n]
    ensures DeleteFrom(s, i) == s[i..i + n] + DeleteFrom(s, i + n)
    decreases n
  {
    if n > 0 {
      DeleteCopyOne(s, i, n);
      DeleteCopies(s, i + 1, n - 1);
      Reassociate(DeleteFrom(s, i), [s[i]], DeleteFrom(s, i + 1), s[i + 1..i + n], DeleteFrom(s, i + n));
    } else {
      assert s[i..i + n] == [];
    }
  }

  /** Every deleted directive ends with "note", so a text without "note" is left alone. */
  lemma {:induction false} DeleteWithoutNote(s: string, i: nat)
    requires i <= |s| && forall j :: !OccursAt(s, "note", j)
    ensures DeleteFrom(s, i) == s[i..]
    decreases |s| - i
  {
    if i < |s| {
      var m := DirectiveAt(s, i, Deleting);
      if m.Some? {
        assert OccursAt(s, "note", m.value.end - 4);
        assert false;
      }
      DeleteStepAt(s, i, [s[i]], i + 1);
      DeleteWithoutNote(s, i + 1);
      assert [s[i]] + s[i + 1..] == s[i..];
    }
  }

  /** %chompnote is not a directive of the deleting pattern: when the scan reaches it, it is
      copied as it is. */
  lemma ChompnoteSurvives(s: string, i: nat)
    requires OccursAt(s, "%chompnote", i)
    ensures DeleteFrom(s, i) == "%chompnote" + DeleteFrom(s, i + 10)
  {
    ChompnoteFirst(s, i);
    ChompnoteRest(s, i);
    PrependPercent(DeleteFrom(s, i + 10));
  }

  lemma PrependPercent(d: string)
    ensures ['%'] + ("chompnote" + d) == "%chompnote" + d
  {
  }

  lemma ChompnoteFirst(s: string, i: nat)
    requires OccursAt(s, "%chompnote", i)
    ensures i < |s| && DeleteFrom(s, i) == ['%'] + DeleteFrom(s, i + 1)
  {
    ChompnoteStep(s, i);
    assert s[i] == '%' by {
      assert s[i..i + 10][0] == s[i];
    }
    DeleteStepAt(s, i, [s[i]], i + 1);
  }

  lemma ChompnoteRest(s: string, i: nat)
    requires OccursAt(s, "%chompnote", i)
    ensures i + 10 <= |s| && DeleteFrom(s, i + 1) == "chompnote" + DeleteFrom(s, i + 10)
  {
    assert s[i + 1..i + 10] == "chompnote" by {
      assert s[i..i + 10] == "%chompnote";
    }
    DeleteCopies(s, i + 1, 9);
  }

  lemma ChompnoteStep(s: string, i: nat)
    requires OccursAt(s, "%chompnote", i)
    ensures i < |s| && DeleteStep(s, i) == ([s[i]], i + 1)
  {
    ChompnoteNoDirective(s, i, Deleting);
  }

  /** "note" cannot start at a character other than n or N. */
  lemma NoNoteAt(s: string, j: nat, p: Pattern)
    requires j < |s| && s[j] != 'n' && s[j] != 'N'
    ensures !NoteWordAt(s, j, p)
  {
    if j + 4 <= |s| {
      assert s[j..j + 4][0] == s[j];
    }
  }

  /** Neither pattern matches at the percent sign of %chompnote. */
  lemma ChompnoteNoDirective(s: string, i: nat, p: Pattern)
    requires OccursAt(s, "%chompnote", i)
    ensures DirectiveAt(s, i, p).None?
  {
    assert i + 10 <= |s| && s[i] == '%' && s[i + 1] == 'c' && s[i + 2] == 'h' by {
      var w := s[i..i + 10];
      assert w == "%chompnote";
      assert w[0] == s[i] && w[1] == s[i + 1] && w[2] == s[i + 2];
    }
    assert PrefixNote(s, i + 1, p).None? by {
      NoNoteAt(s, i + 1, p);
      NoNoteAt(s, i + 2, p);
    }
    assert CountMatch(s, i + 1, p, None, None).None? by {
      assert DigitRun(s, i + 1) == 0;
    }
    assert IndentNote(s, i + 1, p, None).None? by {
      assert !IndentChar(s[i + 1], p);
    }
  }

  /** The first position at or after `i` where the filling pattern matches, and its match. */
  function FirstDirective(s: string, i: nat): (r: Option<(nat, NoteMatch)>)
    requires i <= |s|
    ensures r.Some? ==> i <= r.value.0 < |s| && DirectiveAt(s, r.value.0, Filling) == Some(r.value.1)
    ensures r.Some? ==> forall q :: i <= q < r.value.0 ==> DirectiveAt(s, q, Filling).None?
    ensures r.None? ==> forall q :: i <= q < |s| ==> DirectiveAt(s, q, Filling).None?
    decreases |s| - i
  {
    if i == |s| then None
    else
      var m := DirectiveAt(s, i, Filling);
      if m.Some? then Some((i, m.value)) else FirstDirective(s, i + 1)
  }

  /** Lines 87-98: the first directive the filling pattern finds becomes the note block, with
      the lead its groups describe. */
  function FillDirective(s: string, lines: seq<string>): string {
    match FirstDirective(s, 0)
    case None => s
    case Some((p, m)) => s[..p] + NoteBlock(lines, Lead(m)) + s[m.end..]
  }

  /** Lines 81-105: the note directives of the template with the prepared note lines. Without
      lines every directive is deleted. Otherwise the first %note, %idnote and %odnote get the
      block with one tab, two tabs and no indent (their replacement strings are expanded, so a
      backslash sequence in the note is interpreted), then the first parametrised directive
      gets its block and the first %chompnote the chomped lines, both inserted literally. */
  function NotePass(s: string, lines: seq<string>): (r: Result<string, SubError>)
    ensures |lines| == 0 ==> r == Success(DeleteDirectives(s))
  {
    if |lines| == 0 then Success(DeleteDirectives(s))
    else
      var a :- SubString(s, "%note", NoteBlock(lines, "\t"));
      var b :- SubString(a, "%idnote", NoteBlock(lines, "\t\t"));
      var c :- SubString(b, "%odnote", NoteBlock(lines, ""));
      Success(SubFirst(FillDirective(c, lines), "%chompnote", ChompNote(lines)))
  }

  /** The intended %note family: each block is inserted as it is, as the block form of `sub`
      would insert it, so no note text can make the pass raise. */
  function NotePassLiteral(s: string, lines: seq<string>): (r: string)
    ensures |lines| == 0 ==> r == DeleteDirectives(s)
  {
    if |lines| == 0 then DeleteDirectives(s)
    else
      var a := SubFirst(s, "%note", NoteBlock(lines, "\t"));
      var b := SubFirst(a, "%idnote", NoteBlock(lines, "\t\t"));
      var c := SubFirst(b, "%odnote", NoteBlock(lines, ""));
      SubFirst(FillDirective(c, lines), "%chompnote", ChompNote(lines))
  }

  /** Where the note holds no backslash the pass as written succeeds with the literal result. */
  lemma NotePassLiteralAgrees(s: string, lines: seq<string>)
    requires forall k :: 0 <= k < |lines| ==> '\\' !in lines[k]
    ensures NotePass(s, lines) == Success(NotePassLiteral(s, lines))
  {
    if |lines| > 0 {
      NoteBlockOmits(lines, "\t", '\\');
      NoteBlockOmits(lines, "\t\t", '\\');
      NoteBlockOmits(lines, "", '\\');
      var a := SubFirst(s, "%note", NoteBlock(lines, "\t"));
      var b := SubFirst(a, "%idnote", NoteBlock(lines, "\t\t"));
      SubStringPlain(s, "%note", NoteBlock(lines, "\t"));
      SubStringPlain(a, "%idnote", NoteBlock(lines, "\t\t"));
      SubStringPlain(b, "%odnote", NoteBlock(lines, ""));
    }
  }

  /** A character in none of the lines, the lead or a line feed is not in the block. */
  lemma NoteBlockOmits(lines: seq<string>, lead: string, c: char)
    requires c != '\n' && c != ' ' && c !in lead
    requires forall k :: 0 <= k < |lines| ==> c !in lines[k]
    ensures c !in NoteBlock(lines, lead)
  {
    var parts := NoteLines(lines, lead);
    forall k | 0 <= k < |parts| ensures c !in parts[k] {
      StripOmits(lines[k], c);
    }
    JoinOmits(parts, "\n", c);
  }

  lemma {:induction false} JoinOmits(parts: seq<string>, sep: string, c: char)
    requires c !in sep && forall k :: 0 <= k < |parts| ==> c !in parts[k]
    ensures c !in Join(parts, sep)
    decreases |parts|
  {
    if |parts| > 1 {
      JoinOmits(parts[1..], sep, c);
    }
  }

  /** Stripping only removes characters. */
  lemma StripOmits(x: string, c: char)
    requires c !in x
    ensures c !in Strip(x)
  {
    StripInfix(x);
    var a := |x| - |LStrip(x)|;
    var r := Strip(x);
    forall k | 0 <= k < |r| ensures r[k] != c {
      assert r[k] == x[a + k] && x[a + k] in x;
    }
  }

  // ---------------------------------------------------------------------------------------
  // Examples of the patterns

  /** A text that is one directive is deleted whole. */
  lemma DeleteWhole(s: string)
    requires DirectiveAt(s, 0, Deleting).Some? && DirectiveAt(s, 0, Deleting).value.end == |s|
    ensures DeleteDirectives(s) == ""
  {
    DeleteStepAt(s, 0, [], |s|);
  }

  /** Directives the deleting pattern removes: the in-dent form, and the parametrised forms
      with a mark, an indent character, a count and a prefix, or with a bare count. */
  lemma DeleteIdnote()
    ensures DeleteDirectives("%idnote") == ""
  {
    var s := "%idnote";
    assert NoteWordAt(s, 3, Deleting);
    DeleteWhole(s);
  }

  lemma DeleteMarked()
    ensures DeleteDirectives("%^>t2-note") == ""
  {
    var s := "%^>t2-note";
    assert DigitRun(s, 4) == 1 && NoteWordAt(s, 6, Deleting);
    assert s[5..6] == "-";
    assert PrefixNote(s, 5, Deleting) == Some(Tail(Some("-"), 10));
    DeleteWhole(s);
  }

  lemma DeleteCounted()
    ensures DeleteDirectives("%3note") == ""
  {
    var s := "%3note";
    assert DigitRun(s, 1) == 1 && NoteWordAt(s, 2, Deleting);
    assert PrefixNote(s, 2, Deleting) == Some(Tail(None, 6));
    DeleteWhole(s);
  }

  /** A text that is one directive is replaced whole by the block. */
  lemma FillWhole(s: string, lines: seq<string>, m: NoteMatch)
    requires DirectiveAt(s, 0, Filling) == Some(m) && m.end == |s|
    ensures FillDirective(s, lines) == NoteBlock(lines, Lead(m))
  {
    assert s[..0] == [] && s[|s|..] == [];
  }

  /** The mark, two tabs for "t2" and the prefix lead every line. */
  lemma FillMarked(lines: seq<string>)
    ensures FillDirective("%^>t2-note", lines) == NoteBlock(lines, ">\t\t-")
  {
    var m := NoteMatch(Some('>'), Some('t'), "2", Some("-"), 10);
    MarkedMatch();
    FillWhole("%^>t2-note", lines, m);
    assert Lead(m) == ">\t\t-" by {
      assert DigitsValue("2") == 2;
    }
  }

  /** The groups of "%^>t2-note": mark, indent character, count and prefix. */
  lemma MarkedMatch()
    ensures DirectiveAt("%^>t2-note", 0, Filling) == Some(NoteMatch(Some('>'), Some('t'), "2", Some("-"), 10))
  {
    var s := "%^>t2-note";
    var m := NoteMatch(Some('>'), Some('t'), "2", Some("-"), 10);
    assert CountMatch(s, 4, Filling, Some('>'), Some('t')) == Some(m) by {
      assert DigitRun(s, 4) == 1 && NoteWordAt(s, 6, Filling);
      assert s[5..6] == "-" && s[4..5] == "2";
      assert PrefixNote(s, 5, Filling) == Some(Tail(Some("-"), 10));
    }
    assert IndentNote(s, 3, Filling, Some('>')) == Some(m);
  }

  /** An upper-case T is an indent character under /i, but the indent is made of spaces, since
      only a lower-case t selects tabs. */
  lemma FillUpperT(lines: seq<string>)
    ensures FillDirective("%T2note", lines) == NoteBlock(lines, "  ")
  {
    var s := "%T2note";
    assert DigitRun(s, 2) == 1 && NoteWordAt(s, 3, Filling);
    assert s[2..3] == "2";
    assert PrefixNote(s, 3, Filling) == Some(Tail(None, 7));
    var m := NoteMatch(None, Some('T'), "2", None, 7);
    assert DirectiveAt(s, 0, Filling) == Some(m);
    FillWhole(s, lines, m);
    assert DigitsValue("2") == 2;
    assert Lead(m) == "  ";
  }

  /** A count without an indent character indents nothing. */
  lemma FillBareCount(lines: seq<string>)
    ensures FillDirective("%3note", lines) == NoteBlock(lines, "")
  {
    var s := "%3note";
    assert DigitRun(s, 1) == 1 && NoteWordAt(s, 2, Filling);
    assert s[1..2] == "3";
    assert PrefixNote(s, 2, Filling) == Some(Tail(None, 6));
    var m := NoteMatch(None, None, "3", None, 6);
    assert DirectiveAt(s, 0, Filling) == Some(m);
    FillWhole(s, lines, m);
  }

  /** The filling pattern ignores case. */
  lemma FillUpperCase(lines: seq<string>)
    ensures FillDirective("%NOTE", lines) == NoteBlock(lines, "")
  {
    var s := "%NOTE";
    assert ToLower('N') == 'n' && ToLower('O') == 'o' && ToLower('T') == 't' && ToLower('E') == 'e';
    assert NoteWordAt(s, 1, Filling);
    assert DigitRun(s, 1) == 0;
    var m := NoteMatch(None, None, "", None, 5);
    assert DirectiveAt(s, 0, Filling) == Some(m);
    FillWhole(s, lines, m);
  }

  /** Without a percent sign there is no directive to fill. */
  lemma {:induction false} NoDirectiveWithoutPercent(s: string, i: nat)
    requires i <= |s| && '%' !in s
    ensures FirstDirective(s, i).None?
    decreases |s| - i
  {
    if i < |s| {
      assert s[i] in s;
      NoDirectiveWithoutPercent(s, i + 1);
    }
  }

  /** A template without a percent sign has no directive: the note pass leaves it alone. */
  lemma NotePassNoPercent(s: string, lines: seq<string>)
    requires '%' !in s
    ensures NotePass(s, lines) == Success(s)
  {
    if |lines| == 0 {
      assert s[0..|s|] == s;
      DeleteCopies(s, 0, |s|);
      assert DeleteFrom(s, |s|) == [];
      assert s + [] == s;
    } else {
      FindAbsent(s, "%note");
      FindAbsent(s, "%idnote");
      FindAbsent(s, "%odnote");
      NoDirectiveWithoutPercent(s, 0);
      FindAbsent(s, "%chompnote");
    }
  }

  /** The note text goes through the expansion of the replacement string: a note whose first
      line starts with `\k<` makes %note raise, since the pattern has no named group. */
  lemma NotePassBackslash(s: string, lines: seq<string>)
    requires |lines| > 0 && Find(s, "%note").Some?
    requires |Strip(lines[0])| >= 3 && Strip(lines[0])[..3] == "\\k<"
    ensures NotePass(s, lines).Failure?
  {
    SubNoteFails(s, lines);
    NotePassFirstSub(s, lines);
  }

  lemma SubNoteFails(s: string, lines: seq<string>)
    requires |lines| > 0 && Find(s, "%note").Some?
    requires |Strip(lines[0])| >= 3 && Strip(lines[0])[..3] == "\\k<"
    ensures SubString(s, "%note", NoteBlock(lines, "\t")).Failure?
  {
    var i := Find(s, "%note").value;
    var l := Strip(lines[0]);
    var rest := NoteBlockStartsWith(lines, "\t");
    var block := NoteBlock(lines, "\t");
    var x := l + rest;
    assert block == "\n\t" + x;
    assert l[0] == '\\' && l[1] == 'k' && l[2] == '<' by {
      assert l[..3][0] == l[0] && l[..3][1] == l[1] && l[..3][2] == l[2];
    }
    assert x[0] == l[0] && x[1] == l[1] && x[2] == l[2];
    ExpandPlainPrefix("\n\t", x, ["%note"], s[..i], s[i + 5..]);
    ExpandNamed(x, ["%note"], s[..i], s[i + 5..]);
  }

  /** The block is a line feed, the lead, the first line and the rest. */
  lemma NoteBlockStartsWith(lines: seq<string>, lead: string) returns (rest: string)
    requires |lines| > 0
    ensures NoteBlock(lines, lead) == "\n" + lead + Strip(lines[0]) + rest
  {
    var parts := NoteLines(lines, lead);
    var tail := if |parts| == 1 then [] else "\n" + Join(parts[1..], "\n");
    assert Join(parts, "\n") == parts[0] + tail by {
      JoinHead(parts, "\n");
    }
    rest := "  " + tail;
    assert parts[0] + tail == lead + Strip(lines[0]) + rest;
  }

  lemma JoinHead(parts: seq<string>, sep: string)
    requires |parts| > 0
    ensures Join(parts, sep) == parts[0] + (if |parts| == 1 then [] else sep + Join(parts[1..], sep))
  {
  }

  /** A replacement that starts with `\k<` raises. */
  lemma ExpandNamed(x: string, groups: seq<string>, pre: string, post: string)
    requires |groups| > 0 && |x| >= 3 && x[0] == '\\' && x[1] == 'k' && x[2] == '<'
    ensures Expand(x, groups, pre, post).Failure?
  {
  }

  lemma NotePassFirstSub(s: string, lines: seq<string>)
    requires |lines| > 0 && SubString(s, "%note", NoteBlock(lines, "\t")).Failure?
    ensures NotePass(s, lines).Failure?
  {
  }
}
