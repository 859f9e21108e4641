/** The template renderer (template_export.rb lines 17-121): every item is rendered by a fixed
    sequence of passes over the template, each block is followed by a line feed, and the tag
    time totals may close the output. */
module TemplateExport {

  import opened Wrappers
  import opened Strings
  import opened Backrefs
  import opened Wrap
  import opened Times
  import opened Notes
  import opened Tags

  /** An item as the renderer reads it. A note key that is absent is None. */
  datatype Item = Item(date: int, title: string, section: Option<string>, note: Option<seq<string>>)

  /** The options bundle. A missing or non-positive wrap width disables wrapping (0); a missing
      tag colour is None. */
  datatype Options = Options(
    template: string,
    format: string,
    wrapWidth: int,
    highlight: bool,
    times: bool,
    tagsColor: Option<string>,
    totals: bool)

  /** What the renderer asks of the program object: the colour table, the configuration it
      reads, the clock, `strftime`, `get_interval`, the terminal width `tput cols` reports and
      the text `tag_times` returns. */
  datatype Env = Env(
    colors: map<string, string>,
    markerTag: string,
    markerColor: string,
    includeNotes: bool,
    clock: Clock,
    strftime: (string, int) -> string,
    interval: Item -> Option<string>,
    columns: int,
    tagTimes: string)

  /** A key of the configuration hash: Ruby tells a String key from a Symbol key. */
  datatype ConfigKey = StringKey(name: string) | SymbolKey(name: string)

  /** `config[key]` as a condition: a missing key reads as nil, which is false. Only the
      configuration's true/false settings are modelled. */
  function ConfigFlag(config: map<ConfigKey, bool>, key: ConfigKey): (b: bool)
    ensures b <==> key in config && config[key]
  {
    key in config && config[key]
  }

  /** Storing a setting is what a later read of that key sees; other keys, and in particular
      the other spelling of the same name, keep reading what they read before. */
  lemma ConfigFlagStore(config: map<ConfigKey, bool>, key: ConfigKey, other: ConfigKey, v: bool)
    ensures ConfigFlag(config[key := v], key) == v
    ensures other != key ==> ConfigFlag(config[key := v], other) == ConfigFlag(config, other)
    ensures !ConfigFlag(map[], key)
  {
  }

  /** The shipped default configuration stores its settings under String keys. */
  const DefaultConfig: map<ConfigKey, bool> := map[StringKey("include_notes") := true]

  /** Line 31 as written reads the Symbol key :include_notes. */
  function IncludeNotesAsWritten(config: map<ConfigKey, bool>): bool {
    ConfigFlag(config, SymbolKey("include_notes"))
  }

  /** The intended reading: the String key under which the configuration stores the setting. */
  function IncludeNotes(config: map<ConfigKey, bool>): bool {
    ConfigFlag(config, StringKey("include_notes"))
  }

  /** As written, a configuration that only has String keys never shows a note, the default
      one included. */
  lemma IncludeNotesIgnored(config: map<ConfigKey, bool>, note: Option<seq<string>>, wrapWidth: int)
    requires forall k :: k in config ==> k.StringKey?
    ensures PrepareNote(note, IncludeNotesAsWritten(config), wrapWidth) == []
    ensures PrepareNote(note, IncludeNotesAsWritten(DefaultConfig), wrapWidth) == []
  {
    assert SymbolKey("include_notes") !in DefaultConfig;
  }

  /** Read under its String key, the default setting shows every kept line of a note. */
  lemma IncludeNotesRead(note: seq<string>, wrapWidth: int)
    requires |note| > 0
    ensures IncludeNotes(DefaultConfig)
    ensures |PrepareNote(Some(note), IncludeNotes(DefaultConfig), wrapWidth)| == |NonBlank(note)|
  {
  }

  /** What rendering raises: a replacement string whose expansion fails, or a highlighted title
      whose flag or reset colour is missing from the table (nil + String, String + nil). */
  datatype RenderError = Substitution(error: SubError) | MissingColor

  function Lift(r: Result<string, SubError>): (l: Result<string, RenderError>)
    ensures r.Success? <==> l.Success?
    ensures r.Success? ==> l.value == r.value
  {
    match r
    case Success(v) => Success(v)
    case Failure(e) => Failure(Substitution(e))
  }

  // ---------------------------------------------------------------------------------------
  // Colour names (lines 43-49)

  /** What the gsub produces at `i` and where it resumes: a `%` and the maximal run of
      lower-case letters after it become the colour of that name when the table has one and
      stay as they are otherwise; any other character is copied. */
  function ColorStep(s: string, i: nat, colors: map<string, string>): (r: (string, nat))
    requires i < |s|
    ensures i < r.1 <= |s|
  {
    var n := ClassRun(s, i + 1, IsLower);
    if s[i] == '%' && n > 0 then
      var name := s[i + 1..i + 1 + n];
      (if name in colors then colors[name] else s[i..i + 1 + n], i + 1 + n)
    else ([s[i]], i + 1)
  }

  function ColorFrom(s: string, i: nat, colors: map<string, string>): string
    requires i <= |s|
    decreases |s| - i
  {
    if i == |s| then []
    else
      var p := ColorStep(s, i, colors);
      p.0 + ColorFrom(s, p.1, colors)
  }

  /** Lines 43-49. */
  function ColorPass(s: string, colors: map<string, string>): string {
    ColorFrom(s, 0, colors)
  }

  lemma ColorStepAt(s: string, i: nat, colors: map<string, string>, piece: string, j: nat)
    requires i < |s| && ColorStep(s, i, colors) == (piece, j)
    ensures ColorFrom(s, i, colors) == piece + ColorFrom(s, j, colors)
  {
  }

  /** A template without a percent sign has no colour names. */
  lemma {:induction false} ColorFromPlain(s: string, i: nat, colors: map<string, string>)
    requires i <= |s| && '%' !in s
    ensures ColorFrom(s, i, colors) == s[i..]
    decreases |s| - i
  {
    if i < |s| {
      assert ColorFrom(s, i, colors) == [s[i]] + ColorFrom(s, i + 1, colors) by {
        assert s[i] in s;
        ColorStepAt(s, i, colors, [s[i]], i + 1);
      }
      ColorFromPlain(s, i + 1, colors);
      assert [s[i]] + s[i + 1..] == s[i..];
    } else {
      assert s[i..] == [];
    }
  }

  lemma ColorPassPlain(s: string, colors: map<string, string>)
    requires '%' !in s
    ensures ColorPass(s, colors) == s
  {
    ColorFromPlain(s, 0, colors);
  }

  /** One colour name alone: the colour when the table has it, verbatim otherwise. */
  lemma ColorPassName(name: string, colors: map<string, string>)
    requires |name| > 0 && forall k :: 0 <= k < |name| ==> IsLower(name[k])
    ensures ColorPass("%" + name, colors) == if name in colors then colors[name] else "%" + name
  {
    var s := "%" + name;
    assert ClassRun(s, 1, IsLower) == |name| by {
      ClassRunFrom(s, 1, |name|, IsLower);
    }
    assert s[1..1 + |name|] == name && s[0..1 + |name|] == s;
    var piece := if name in colors then colors[name] else s;
    ColorStepAt(s, 0, colors, piece, |s|);
    assert piece + [] == piece;
  }

  /** A run is not changed by what follows it when that does not continue it. */
  lemma {:induction false} ClassRunAppend(a: string, b: string, i: nat, inClass: char -> bool)
    requires i <= |a| && (|b| > 0 ==> !inClass(b[0]))
    ensures ClassRun(a + b, i, inClass) == ClassRun(a, i, inClass)
    decreases |a| - i
  {
    if i < |a| && inClass(a[i]) {
      ClassRunAppend(a, b, i + 1, inClass);
    }
  }

  /** A run in the second half of a concatenation is the run there. */
  lemma {:induction false} ClassRunShift(a: string, b: string, j: nat, inClass: char -> bool)
    requires j <= |b|
    ensures ClassRun(a + b, |a| + j, inClass) == ClassRun(b, j, inClass)
    decreases |b| - j
  {
    if j < |b| {
      assert (a + b)[|a| + j] == b[j];
      ClassRunShift(a, b, j + 1, inClass);
    }
  }

  /** A token in the second half of a concatenation is the token there, shifted. */
  lemma ColorStepShift(a: string, b: string, j: nat, colors: map<string, string>)
    requires j < |b|
    ensures var p := ColorStep(b, j, colors); ColorStep(a + b, |a| + j, colors) == (p.0, |a| + p.1)
  {
    var s := a + b;
    ClassRunShift(a, b, j + 1, IsLower);
    var n := ClassRun(b, j + 1, IsLower);
    assert s[|a| + j] == b[j];
    assert s[|a| + j + 1..|a| + j + 1 + n] == b[j + 1..j + 1 + n];
    assert s[|a| + j..|a| + j + 1 + n] == b[j..j + 1 + n];
  }

  /** The pass over the second half of a concatenation is the pass over that half. */
  lemma {:induction false} ColorFromShift(a: string, b: string, j: nat, colors: map<string, string>)
    requires j <= |b|
    ensures ColorFrom(a + b, |a| + j, colors) == ColorFrom(b, j, colors)
    decreases |b| - j
  {
    if j < |b| {
      var (piece, k) := ColorStep(b, j, colors);
      ColorStepShift(a, b, j, colors);
      ColorStepAt(a + b, |a| + j, colors, piece, |a| + k);
      ColorFromShift(a, b, k, colors);
      ColorStepAt(b, j, colors, piece, k);
    }
  }

  /** The first token of `a` from `i` is the token of `a + b` there when `b` cannot continue
      a name. */
  lemma ColorStepAppend(a: string, b: string, i: nat, colors: map<string, string>)
    requires i < |a| && (|b| > 0 ==> !IsLower(b[0]))
    ensures ColorStep(a + b, i, colors) == ColorStep(a, i, colors)
  {
    var s := a + b;
    var m := ClassRun(a, i + 1, IsLower);
    assert ClassRun(s, i + 1, IsLower) == m by {
      ClassRunAppend(a, b, i + 1, IsLower);
    }
    assert s[i] == a[i];
    assert s[i + 1..i + 1 + m] == a[i + 1..i + 1 + m] && s[i..i + 1 + m] == a[i..i + 1 + m];
  }

  lemma ColorFromAppendEnd(a: string, b: string, colors: map<string, string>)
    ensures ColorFrom(a + b, |a|, colors) == ColorFrom(a, |a|, colors) + ColorFrom(b, 0, colors)
  {
    var y := ColorFrom(b, 0, colors);
    assert ColorFrom(a + b, |a| + 0, colors) == y by {
      ColorFromShift(a, b, 0, colors);
    }
    assert [] + y == y;
  }

  lemma Regroup(piece: string, x: string, y: string, whole: string, rest: string, left: string)
    requires whole == piece + rest && rest == x + y && left == piece + x
    ensures whole == left + y
  {
  }

  lemma {:induction false} ColorFromAppend(a: string, b: string, i: nat, colors: map<string, string>)
    requires i <= |a| && (|b| > 0 ==> !IsLower(b[0]))
    ensures ColorFrom(a + b, i, colors) == ColorFrom(a, i, colors) + ColorFrom(b, 0, colors)
    decreases |a| - i
  {
    if i == |a| {
      ColorFromAppendEnd(a, b, colors);
    } else {
      var (piece, k) := ColorStep(a, i, colors);
      ColorStepAppend(a, b, i, colors);
      ColorStepAt(a + b, i, colors, piece, k);
      ColorFromAppend(a, b, k, colors);
      ColorStepAt(a, i, colors, piece, k);
      Regroup(piece, ColorFrom(a, k, colors), ColorFrom(b, 0, colors),
        ColorFrom(a + b, i, colors), ColorFrom(a + b, k, colors), ColorFrom(a, i, colors));
    }
  }

  /** The pass works token by token: a template can be split anywhere a lower-case letter
      does not follow. */
  lemma ColorPassAppend(a: string, b: string, colors: map<string, string>)
    requires |b| > 0 ==> !IsLower(b[0])
    ensures ColorPass(a + b, colors) == ColorPass(a, colors) + ColorPass(b, colors)
  {
    ColorFromAppend(a, b, 0, colors);
  }

  // ---------------------------------------------------------------------------------------
  // Date, interval and short date (lines 51-59)

  /** Lines 53-54: the interval only when times are shown; `get_interval` returning nothing
      gives the empty text. */
  function IntervalText(item: Item, opt: Options, env: Env): (r: string)
    ensures !opt.times ==> r == []
  {
    if opt.times then env.interval(item).GetOr([]) else []
  }

  // ---------------------------------------------------------------------------------------
  // The title (lines 23-30, 61-67)

  /** `\b` at `j`: a word character on exactly one side. */
  predicate WordBoundary(s: string, j: nat) {
    (0 < j <= |s| && IsWordChar(s[j - 1])) != (j < |s| && IsWordChar(s[j]))
  }

  /** `/@tag\b/i` at `j`. */
  predicate MarkerAt(title: string, tag: string, j: nat) {
    j + 1 + |tag| <= |title| && title[j] == '@' && CiEqual(title[j + 1..j + 1 + |tag|], tag)
    && WordBoundary(title, j + 1 + |tag|)
  }

  predicate HasMarker(title: string, tag: string) {
    exists j :: 0 <= j < |title| && MarkerAt(title, tag, j)
  }

  /** Line 23: the title is flagged when highlighting is on and it holds the marker tag. */
  predicate Flagged(item: Item, opt: Options, env: Env) {
    opt.highlight && HasMarker(item.title, env.markerTag)
  }

  /** The title text between flag and reset: wrapped with breaks "\n\t " when a width is
      set, then chomped. */
  function TitleText(title: string, wrapWidth: int): string {
    if wrapWidth > 0 then Chomp(WrapText(title, wrapWidth, "\n\t ")) else Chomp(title)
  }

  /** Lines 61-67: the first %title becomes flag, title text and reset. The block is only
      called on a match, so a missing colour raises only then. */
  function TitlePass(s: string, item: Item, opt: Options, env: Env): (r: Result<string, RenderError>)
    ensures Find(s, "%title").None? ==> r == Success(s)
  {
    match Find(s, "%title")
    case None => Success(s)
    case Some(i) =>
      var text := TitleText(item.title, opt.wrapWidth);
      if !Flagged(item, opt, env) then Success(s[..i] + text + s[i + 6..])
      else if env.markerColor in env.colors && "default" in env.colors then
        Success(s[..i] + env.colors[env.markerColor] + text + env.colors["default"] + s[i + 6..])
      else Failure(MissingColor)
  }

  /** The first %title holds the title between the two colours when the title is flagged and
      between nothing otherwise. */
  lemma TitleFlag(s: string, item: Item, opt: Options, env: Env)
    requires Find(s, "%title").Some?
    requires Flagged(item, opt, env) ==> env.markerColor in env.colors && "default" in env.colors
    ensures var flag := if Flagged(item, opt, env) then env.colors[env.markerColor] else [];
      var reset := if Flagged(item, opt, env) then env.colors["default"] else [];
      TitlePass(s, item, opt, env) == Success(SubFirst(s, "%title", flag + TitleText(item.title, opt.wrapWidth) + reset))
  {
    var i := Find(s, "%title").value;
    var text := TitleText(item.title, opt.wrapWidth);
    if !Flagged(item, opt, env) {
      assert TitlePass(s, item, opt, env) == Success(s[..i] + text + s[i + 6..]);
      SubFirstAround(s, "%title", i, [], text, []);
      assert [] + text + [] == text;
    } else {
      var f := env.colors[env.markerColor];
      var d := env.colors["default"];
      assert TitlePass(s, item, opt, env) == Success(s[..i] + f + text + d + s[i + 6..]);
      SubFirstAround(s, "%title", i, f, text, d);
    }
  }

  lemma SubFirstAround(s: string, pat: string, i: nat, f: string, text: string, d: string)
    requires Find(s, pat) == Some(i)
    ensures SubFirst(s, pat, f + text + d) == s[..i] + f + text + d + s[i + |pat|..]
  {
    assert s[..i] + (f + text + d) + s[i + |pat|..] == s[..i] + f + text + d + s[i + |pat|..];
  }

  /** Chomping removes whitespace only, so the title keeps its words. */
  lemma ChompWords(x: string)
    ensures Words(Chomp(x)) == Words(x)
  {
    var c := Chomp(x);
    if x == c + "\n" || x == c + "\r" {
      WordsBeforeSpace(c, x[|x| - 1]);
      assert c + [x[|x| - 1]] == x;
    } else if x != c {
      assert x == c + "\r\n";
      WordsBeforeSpace(c, '\r');
      WordsBeforeSpace(c + "\r", '\n');
      assert c + "\r" + "\n" == x;
    }
  }

  /** The title text holds the title's words, whole and in order, with or without wrapping. */
  lemma TitleWords(title: string, wrapWidth: int)
    ensures Words(TitleText(title, wrapWidth)) == Words(title)
  {
    if wrapWidth > 0 {
      var w := WrapText(title, wrapWidth, "\n\t ");
      assert Words(Chomp(w)) == Words(w) by {
        ChompWords(w);
      }
      assert Words(w) == Words(title) by {
        assert AllSpace("\n\t ");
        WrapKeepsWords(title, wrapWidth, "\n\t ");
      }
    } else {
      ChompWords(title);
    }
  }

  /** chomp leaves the break after the last chunk: the wrapped title ends with "\n\t ",
      whatever its leading whitespace and word lengths, unless it ends in a line feed. */
  lemma TitleKeepsLastBreak(title: string, wrapWidth: int)
    requires wrapWidth > 0 && |title| > 0 && title[|title| - 1] != '\n'
    ensures TitleText(title, wrapWidth) == WrapText(title, wrapWidth, "\n\t ")
    ensures EndsWith(TitleText(title, wrapWidth), "\n\t ")
  {
    var w := WrapText(title, wrapWidth, "\n\t ");
    WrapEndsWithBreak(title, wrapWidth, "\n\t ");
    assert w[|w| - 1] == ' ' by {
      assert w[|w| - 3..][2] == w[|w| - 1];
    }
  }

  /** The marker matches in any case, but only as a whole word. */
  lemma MarkerExamples()
    ensures HasMarker("Fix @flagged", "flagged")
    ensures HasMarker("@FLAGGED, later", "flagged")
    ensures !HasMarker("@flaggedness", "flagged")
  {
    var a := "Fix @flagged";
    assert MarkerAt(a, "flagged", 4) by {
      assert a[5..12] == "flagged";
    }
    var b := "@FLAGGED, later";
    assert MarkerAt(b, "flagged", 0) by {
      assert b[1..8] == "FLAGGED";
      assert ToLower('F') == 'f' && ToLower('L') == 'l' && ToLower('A') == 'a' && ToLower('G') == 'g';
      assert ToLower('E') == 'e' && ToLower('D') == 'd';
    }
    var c := "@flaggedness";
    forall j | 0 <= j < |c| ensures !MarkerAt(c, "flagged", j) {
      if j == 0 {
        assert IsWordChar(c[7]) && IsWordChar(c[8]);
      } else {
        assert c[j] != '@';
      }
    }
  }

  // ---------------------------------------------------------------------------------------
  // Section (line 69)

  /** The first %section becomes the section; an item without one leaves it alone. */
  function SectionPass(s: string, section: Option<string>): (r: Result<string, SubError>)
    ensures section.None? ==> r == Success(s)
    ensures Find(s, "%section").None? ==> r == Success(s)
  {
    match section
    case None => Success(s)
    case Some(name) => SubString(s, "%section", name)
  }

  /** A section name without a backslash takes the place of the first %section, and the
      text around it is kept. */
  lemma SectionPassInserts(s: string, name: string, i: nat)
    requires Find(s, "%section") == Some(i) && '\\' !in name
    ensures SectionPass(s, Some(name)) == Success(s[..i] + name + s[i + 8..])
  {
    SubStringPlain(s, "%section", name);
  }

  /** A section name holding a group reference is expanded like any replacement string:
      `\0` stands for the matched "%section" itself. */
  lemma SectionPassExpands(s: string, i: nat)
    requires Find(s, "%section") == Some(i)
    ensures SectionPass(s, Some("\\0")) == Success(s[..i] + "%section" + s[i + 8..])
  {
    ExpandGroupExamples("%section", s[..i], s[i + 8..]);
  }

  // ---------------------------------------------------------------------------------------
  // Horizontal rules (lines 107-113)

  /** The token at the front of `s`: %hr_under becomes `columns` underscores, %hr as many
      dashes (none when the width is not positive), any other character is copied. */
  function HrToken(s: string, columns: int): (r: (string, nat))
    requires |s| > 0
    ensures 0 < r.1 <= |s|
  {
    if OccursAt(s, "%hr_under", 0) then (Repeat('_', columns), 9)
    else if OccursAt(s, "%hr", 0) then (Repeat('-', columns), 3)
    else ([s[0]], 1)
  }

  function HrPass(s: string, columns: int): string
    decreases |s|
  {
    if |s| == 0 then []
    else
      var t := HrToken(s, columns);
      t.0 + HrPass(s[t.1..], columns)
  }

  /** A template without a percent sign has no rules. */
  lemma {:induction false} HrPassPlain(s: string, columns: int)
    requires '%' !in s
    ensures HrPass(s, columns) == s
    decreases |s|
  {
    if |s| > 0 {
      assert HrToken(s, columns) == ([s[0]], 1) by {
        assert s[0] in s;
        assert !OccursAt(s, "%hr_under", 0) && !OccursAt(s, "%hr", 0);
      }
      assert '%' !in s[1..] by {
        assert forall c :: c in s[1..] ==> c in s;
      }
      HrPassPlain(s[1..], columns);
      assert [s[0]] + s[1..] == s;
    }
  }

  /** The two rules are as wide as the terminal. */
  lemma HrRules(columns: int)
    ensures HrPass("%hr", columns) == Repeat('-', columns)
    ensures HrPass("%hr_under", columns) == Repeat('_', columns)
  {
    assert !OccursAt("%hr", "%hr_under", 0);
    assert OccursAt("%hr", "%hr", 0);
    assert HrPass("%hr"[3..], columns) == [];
    assert OccursAt("%hr_under", "%hr_under", 0);
    assert HrPass("%hr_under"[9..], columns) == [];
    assert Repeat('-', columns) + [] == Repeat('-', columns);
    assert Repeat('_', columns) + [] == Repeat('_', columns);
  }

  /** An occurrence at the front of `a + b` lies within `a` when `b` does not start with a
      later character of the pattern. */
  lemma OccursAppend(a: string, b: string, pat: string)
    requires |a| > 0 && |pat| > 0 && (|b| > 0 ==> b[0] !in pat[1..])
    ensures OccursAt(a + b, pat, 0) == OccursAt(a, pat, 0)
  {
    var s := a + b;
    if |pat| <= |a| {
      assert s[..|pat|] == a[..|pat|];
    } else if |pat| <= |s| {
      assert pat[|a|] in pat[1..] by {
        assert pat[1..][|a| - 1] == pat[|a|];
      }
      assert s[..|pat|][|a|] == b[0];
    }
  }

  /** The first token of a non-empty `a` is the token of `a + b` when `b` cannot continue a
      rule directive. */
  lemma HrTokenAppend(a: string, b: string, columns: int)
    requires |a| > 0 && (|b| > 0 ==> b[0] !in "hr_under")
    ensures HrToken(a + b, columns) == HrToken(a, columns)
    ensures var n := HrToken(a, columns).1; (a + b)[n..] == a[n..] + b
  {
    assert "%hr_under"[1..] == "hr_under" && "%hr"[1..] == "hr";
    assert |b| == 0 || b[0] !in "hr" by {
      assert "hr_under"[0] == 'h' && "hr_under"[1] == 'r';
    }
    OccursAppend(a, b, "%hr_under");
    OccursAppend(a, b, "%hr");
    assert (a + b)[0] == a[0];
  }

  lemma HrPassStep(s: string, columns: int)
    requires |s| > 0
    ensures var t := HrToken(s, columns); HrPass(s, columns) == t.0 + HrPass(s[t.1..], columns)
  {
  }

  /** The rule pass works token by token too: a template can be split before any character
      that cannot continue a rule directive. */
  lemma {:induction false} HrPassAppend(a: string, b: string, columns: int)
    requires |b| > 0 ==> b[0] !in "hr_under"
    ensures HrPass(a + b, columns) == HrPass(a, columns) + HrPass(b, columns)
    decreases |a|
  {
    if |a| == 0 {
      assert a + b == b;
    } else {
      var (piece, n) := HrToken(a, columns);
      HrTokenAppend(a, b, columns);
      HrPassStep(a + b, columns);
      HrPassAppend(a[n..], b, columns);
      HrPassStep(a, columns);
      Regroup(piece, HrPass(a[n..], columns), HrPass(b, columns),
        HrPass(a + b, columns), HrPass(a[n..] + b, columns), HrPass(a, columns));
    }
  }

  // ---------------------------------------------------------------------------------------
  // One item (lines 22-117)

  /** Lines 31-40: the note lines the item contributes. */
  function ItemNote(item: Item, opt: Options, env: Env): seq<string> {
    PrepareNote(item.note, env.includeNotes, opt.wrapWidth)
  }

  /** Lines 114-115: %n and %t last of all. */
  function Escapes(s: string): string {
    ReplaceAll(ReplaceAll(s, "%n", "\n"), "%t", "\t")
  }

  /** The passes in the order of lines 43-115. */
  function RenderItem(item: Item, opt: Options, env: Env): (r: Result<string, RenderError>)
    ensures (opt.tagsColor.None? && !Flagged(item, opt, env) && '\\' !in env.strftime(opt.format, item.date)
             && '\\' !in IntervalText(item, opt, env) && item.section.None? && |ItemNote(item, opt, env)| == 0)
            ==> r.Success?
  {
    var a := ColorPass(opt.template, env.colors);
    SubStringPlainIf(a, "%date", env.strftime(opt.format, item.date));
    var b :- Lift(SubString(a, "%date", env.strftime(opt.format, item.date)));
    SubStringPlainIf(b, "%interval", IntervalText(item, opt, env));
    var c :- Lift(SubString(b, "%interval", IntervalText(item, opt, env)));
    var d := SubFirst(c, "%shortdate", RelativeDate(item.date, env.clock, env.strftime));
    var e :- TitlePass(d, item, opt, env);
    var f :- Lift(SectionPass(e, item.section));
    var g :- Lift(TagPass(f, opt.tagsColor, env.colors));
    var h :- Lift(NotePass(g, ItemNote(item, opt, env)));
    Success(Escapes(HrPass(h, env.columns)))
  }

  /** %n and %t are replaced after every other pass, so none is left in a rendered block. */
  lemma EscapesClear(s: string)
    ensures forall i :: !OccursAt(Escapes(s), "%n", i)
    ensures forall i :: !OccursAt(Escapes(s), "%t", i)
  {
    var x := ReplaceAll(s, "%n", "\n");
    ReplaceAllClears(s, '%', 'n', 'n', "\n");
    ReplaceAllClears(x, '%', 't', 'n', "\t");
    ReplaceAllClears(x, '%', 't', 't', "\t");
  }

  lemma NoEscapesLeft(item: Item, opt: Options, env: Env)
    requires RenderItem(item, opt, env).Success?
    ensures forall i :: !OccursAt(RenderItem(item, opt, env).value, "%n", i)
    ensures forall i :: !OccursAt(RenderItem(item, opt, env).value, "%t", i)
  {
    var a := ColorPass(opt.template, env.colors);
    var b := SubString(a, "%date", env.strftime(opt.format, item.date)).value;
    var c := SubString(b, "%interval", IntervalText(item, opt, env)).value;
    var d := SubFirst(c, "%shortdate", RelativeDate(item.date, env.clock, env.strftime));
    var e := TitlePass(d, item, opt, env).value;
    var f := SectionPass(e, item.section).value;
    var g := TagPass(f, opt.tagsColor, env.colors).value;
    var h := NotePass(g, ItemNote(item, opt, env)).value;
    EscapesClear(HrPass(h, env.columns));
  }

  /** A template without a percent sign (and without tags, when tags are coloured) has no
      directive: the block is the template itself. */
  lemma PlainTemplate(item: Item, opt: Options, env: Env)
    requires '%' !in opt.template
    requires opt.tagsColor.Some? ==> '@' !in opt.template
    ensures RenderItem(item, opt, env) == Success(opt.template)
  {
    var s := opt.template;
    assert ColorPass(s, env.colors) == s by {
      ColorPassPlain(s, env.colors);
    }
    assert SubString(s, "%date", env.strftime(opt.format, item.date)) == Success(s) by {
      FindAbsent(s, "%date");
    }
    assert SubString(s, "%interval", IntervalText(item, opt, env)) == Success(s) by {
      FindAbsent(s, "%interval");
    }
    assert SubFirst(s, "%shortdate", RelativeDate(item.date, env.clock, env.strftime)) == s by {
      FindAbsent(s, "%shortdate");
    }
    assert TitlePass(s, item, opt, env) == Success(s) by {
      FindAbsent(s, "%title");
    }
    assert SectionPass(s, item.section) == Success(s) by {
      if item.section.Some? {
        FindAbsent(s, "%section");
      }
    }
    assert TagPass(s, opt.tagsColor, env.colors) == Success(s) by {
      if opt.tagsColor.Some? {
        TagFromNoTags(s, 0, "\\1" + Lookup(env.colors, opt.tagsColor.value) + "\\2" + LastColor(s, env.colors));
      }
    }
    assert NotePass(s, ItemNote(item, opt, env)) == Success(s) by {
      NotePassNoPercent(s, ItemNote(item, opt, env));
    }
    assert Escapes(HrPass(s, env.columns)) == s by {
      HrPassPlain(s, env.columns);
      ReplaceAllAbsent(s, "%n", "\n");
      ReplaceAllAbsent(s, "%t", "\t");
    }
  }

  // ---------------------------------------------------------------------------------------
  // The batch (lines 17-22, 117-120)

  /** Every item's block followed by a line feed, in order; the first item that raises ends
      the batch. */
  function RenderAllWith(items: seq<Item>, block: Item -> Result<string, RenderError>): (r: Result<string, RenderError>)
    ensures |items| == 0 ==> r == Success([])
    decreases |items|
  {
    if |items| == 0 then Success([])
    else
      var head :- block(items[0]);
      var rest :- RenderAllWith(items[1..], block);
      Success(head + "\n" + rest)
  }

  /** The block of one item under the given options. */
  function Block(opt: Options, env: Env): Item -> Result<string, RenderError> {
    item => RenderItem(item, opt, env)
  }

  function RenderAll(items: seq<Item>, opt: Options, env: Env): Result<string, RenderError> {
    RenderAllWith(items, Block(opt, env))
  }

  /** Rendering two batches one after the other renders their concatenation. */
  lemma {:induction false} RenderAllAppend(xs: seq<Item>, ys: seq<Item>, block: Item -> Result<string, RenderError>)
    ensures RenderAllWith(xs + ys, block)
         == (var a := RenderAllWith(xs, block);
             if a.Failure? then a
             else var b := RenderAllWith(ys, block); if b.Failure? then b else Success(a.value + b.value))
    decreases |xs|
  {
    if |xs| == 0 {
      assert xs + ys == ys;
      var b := RenderAllWith(ys, block);
      if b.Success? {
        assert [] + b.value == b.value;
      }
    } else {
      assert (xs + ys)[0] == xs[0] && (xs + ys)[1..] == xs[1..] + ys;
      RenderAllAppend(xs[1..], ys, block);
      var h := block(xs[0]);
      var a := RenderAllWith(xs[1..], block);
      var b := RenderAllWith(ys, block);
      if h.Success? && a.Success? && b.Success? {
        assert h.value + "\n" + (a.value + b.value) == (h.value + "\n" + a.value) + b.value;
      }
    }
  }

  /** One item renders to its block and a line feed. */
  lemma RenderOne(x: Item, block: Item -> Result<string, RenderError>)
    ensures RenderAllWith([x], block) == (var r := block(x); if r.Failure? then r else Success(r.value + "\n"))
  {
    assert [x][1..] == [];
    var r := block(x);
    if r.Success? {
      assert r.value + "\n" + [] == r.value + "\n";
    }
  }

  /** The loop of lines 22-118: the blocks one after the other, each followed by a line
      feed, stopping at the first block that raises. */
  method RenderBlocks(xs: seq<Item>, block: Item -> Result<string, RenderError>) returns (r: Result<string, RenderError>)
    ensures r == RenderAllWith(xs, block)
  {
    var out: string := [];
    var i := 0;
    while i < |xs|
      invariant 0 <= i <= |xs|
      invariant RenderAllWith(xs[..i], block) == Success(out)
    {
      var b := block(xs[i]);
      assert RenderAllWith(xs[..i + 1], block) == (if b.Failure? then Failure(b.error) else Success(out + b.value + "\n")) by {
        RenderAllAppend(xs[..i], [xs[i]], block);
        RenderOne(xs[i], block);
        assert xs[..i] + [xs[i]] == xs[..i + 1];
        if b.Success? {
          assert out + (b.value + "\n") == out + b.value + "\n";
        }
      }
      if b.Failure? {
        assert RenderAllWith(xs, block) == Failure(b.error) by {
          RenderAllAppend(xs[..i + 1], xs[i + 1..], block);
          assert xs[..i + 1] + xs[i + 1..] == xs;
        }
        return Failure(b.error);
      }
      out := out + b.value + "\n";
      i := i + 1;
    }
    assert xs[..i] == xs;
    return Success(out);
  }

  /** Lines 17-121: nothing for a nil item list; otherwise the blocks, then the tag time
      totals when asked for. */
  method Render(items: Option<seq<Item>>, opt: Options, env: Env) returns (r: Option<Result<string, RenderError>>)
    ensures items.None? <==> r.None?
    ensures items.Some? && RenderAll(items.value, opt, env).Failure? ==> r == Some(RenderAll(items.value, opt, env))
    ensures items.Some? && RenderAll(items.value, opt, env).Success? ==>
      r == Some(Success(RenderAll(items.value, opt, env).value + (if opt.totals then env.tagTimes else [])))
  {
    if items.None? {
      return None;
    }
    var out := RenderBlocks(items.value, Block(opt, env));
    assert out == RenderAll(items.value, opt, env);
    if out.Success? {
      out := Success(out.value + (if opt.totals then env.tagTimes else []));
    }
    return Some(out);
  }
}
