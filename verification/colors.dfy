/** Terminal colours: the attribute table, the colour methods generated from it (with the
    "bright" aliases of the bold names), colour-name validation and normalisation, and
    `uncolor`. Ruby's process-wide `coloring?` flag is an explicit `coloring` parameter. */
module Colors {

  import opened Wrappers
  import opened Strings

  /** ATTRIBUTES, in source order: name and SGR code. The table is written in its six groups so
      that facts about its codes can be proved group by group. */
  const Modes: seq<(string, string)> := [
    ("clear", "0"), ("reset", "0"), ("bold", "1"), ("dark", "2"), ("italic", "3"),
    ("underline", "4"), ("underscore", "4"), ("blink", "5"), ("rapid_blink", "6"),
    ("negative", "7"), ("concealed", "8"), ("strikethrough", "9"), ("strike", "9")
  ]

  const Foregrounds: seq<(string, string)> := [
    ("black", "30"), ("red", "31"), ("green", "32"), ("yellow", "33"), ("blue", "34"),
    ("magenta", "35"), ("purple", "35"), ("cyan", "36"), ("white", "37")
  ]

  const Backgrounds: seq<(string, string)> := [
    ("bgblack", "40"), ("bgred", "41"), ("bggreen", "42"), ("bgyellow", "43"), ("bgblue", "44"),
    ("bgmagenta", "45"), ("bgpurple", "45"), ("bgcyan", "46"), ("bgwhite", "47")
  ]

  const BoldForegrounds: seq<(string, string)> := [
    ("boldblack", "90"), ("boldred", "91"), ("boldgreen", "92"), ("boldyellow", "93"),
    ("boldblue", "94"), ("boldmagenta", "95"), ("boldpurple", "95"), ("boldcyan", "96"),
    ("boldwhite", "97")
  ]

  const BoldBackgrounds: seq<(string, string)> := [
    ("boldbgblack", "100"), ("boldbgred", "101"), ("boldbggreen", "102"), ("boldbgyellow", "103"),
    ("boldbgblue", "104"), ("boldbgmagenta", "105"), ("boldbgpurple", "105"), ("boldbgcyan", "106"),
    ("boldbgwhite", "107")
  ]

  /** The combined attributes, whose codes hold several numbers separated by ';'. */
  const Combinations: seq<(string, string)> := [
    ("softpurple", "0;35;40"), ("hotpants", "7;34;40"), ("knightrider", "7;30;40"),
    ("flamingo", "7;31;47"), ("yeller", "1;37;43"), ("whiteboard", "1;30;47"),
    ("chalkboard", "1;37;40"), ("led", "0;32;40"), ("redacted", "0;30;40"), ("alert", "1;31;43"),
    ("error", "1;37;41"), ("default", "0;39")
  ]

  const Attributes: seq<(string, string)> :=
    Modes + Foregrounds + Backgrounds + BoldForegrounds + BoldBackgrounds + Combinations

  /** Color.attributes: whether `name` is one of the table's names. */
  predicate IsAttributeName(name: string) {
    exists i :: 0 <= i < |Attributes| && Attributes[i].0 == name
  }

  /** The code of the first entry named `name` in a table. */
  function CodeIn(table: seq<(string, string)>, name: string): (r: Option<string>)
    ensures r.Some? ==> (name, r.value) in table
    ensures r.None? ==> forall i :: 0 <= i < |table| ==> table[i].0 != name
    decreases |table|
  {
    if |table| == 0 then None
    else if table[0].0 == name then Some(table[0].1)
    else CodeIn(table[1..], name)
  }

  /** The opening escape "\e[<code>m". */
  function Open(code: string): string {
    [ESC, '['] + code + "m"
  }

  /** "\e[0m", appended after coloured text. */
  function Reset(): string {
    [ESC, '[', '0', 'm']
  }

  /** A generated colour method: with coloring on the text is wrapped in the opening escape and
      the reset; with coloring off the text is returned bare; without text only the opening
      escape (or nothing) is returned. */
  function Paint(code: string, text: Option<string>, coloring: bool): (r: string)
    ensures !coloring ==> r == text.GetOr([])
    ensures coloring && text.None? ==> r == Open(code)
    ensures coloring && text.Some? ==> r == Open(code) + text.value + Reset()
  {
    var opening := if coloring then Open(code) else [];
    match text
    case None => opening
    case Some(t) => opening + t + (if coloring then Reset() else [])
  }

  /** `c.sub(/bold/, 'bright')`: the alias name of a bold attribute. */
  function Bright(name: string): string {
    SubFirst(name, "bold", "bright")
  }

  predicate HasBold(name: string) {
    Find(name, "bold").Some?
  }

  /** Every table entry becomes a method; an entry whose name contains "bold" also gets a method
      under its "bright" name with the same code. */
  function MethodTable(table: seq<(string, string)>): seq<(string, string)>
    decreases |table|
  {
    if |table| == 0 then []
    else
      var (c, v) := table[0];
      [(c, v)] + (if HasBold(c) then [(Bright(c), v)] else []) + MethodTable(table[1..])
  }

  /** The generated methods are exactly the entries plus the bright aliases of the bold ones. */
  lemma {:induction false} MethodTableExact(table: seq<(string, string)>)
    ensures forall i :: 0 <= i < |table| ==> table[i] in MethodTable(table)
    ensures forall i :: 0 <= i < |table| && HasBold(table[i].0) ==> (Bright(table[i].0), table[i].1) in MethodTable(table)
    ensures forall p :: p in MethodTable(table) ==>
      exists i :: 0 <= i < |table| && (p == table[i] || (HasBold(table[i].0) && p == (Bright(table[i].0), table[i].1)))
    decreases |table|
  {
    if |table| > 0 {
      MethodTableExact(table[1..]);
      var (c, v) := table[0];
      var head := [(c, v)] + (if HasBold(c) then [(Bright(c), v)] else []);
      var tail := MethodTable(table[1..]);
      assert MethodTable(table) == head + tail;
      forall i | 0 <= i < |table|
        ensures table[i] in MethodTable(table)
        ensures HasBold(table[i].0) ==> (Bright(table[i].0), table[i].1) in MethodTable(table)
      {
        if i > 0 {
          assert table[i] == table[1..][i - 1];
        }
      }
      forall p | p in MethodTable(table)
        ensures exists i :: 0 <= i < |table| && (p == table[i] || (HasBold(table[i].0) && p == (Bright(table[i].0), table[i].1)))
      {
        if p !in head {
          assert p in tail;
          var j :| 0 <= j < |table[1..]| && (p == table[1..][j] || (HasBold(table[1..][j].0) && p == (Bright(table[1..][j].0), table[1..][j].1)));
          assert table[1..][j] == table[j + 1];
        }
      }
    }
  }

  /** Calling the colour method `name`: None when no such method exists. */
  function ColorMethod(name: string, text: Option<string>, coloring: bool): (r: Option<string>)
    ensures r.Some? <==> CodeIn(MethodTable(Attributes), name).Some?
  {
    match CodeIn(MethodTable(Attributes), name)
    case None => None
    case Some(code) => Some(Paint(code, text, coloring))
  }

  /** A case-insensitive occurrence of "bright". */
  predicate BrightAt(s: string, i: int) {
    0 <= i && i + 6 <= |s| && CiEqual(s[i..i + 6], "bright")
  }

  function FindBrightFrom(s: string, i: nat): (r: Option<nat>)
    requires i <= |s|
    ensures r.Some? ==> i <= r.value && BrightAt(s, r.value)
    ensures r.Some? ==> forall j :: i <= j < r.value ==> !BrightAt(s, j)
    ensures r.None? ==> forall j :: i <= j <= |s| ==> !BrightAt(s, j)
    decreases |s| - i
  {
    if BrightAt(s, i) then Some(i) else if i == |s| then None else FindBrightFrom(s, i + 1)
  }

  /** Deletes every character `c`. */
  function Delete(s: string, c: char): (r: string)
    ensures c !in r
    ensures forall x :: x in r ==> x in s
    ensures multiset(r) == multiset(s)[c := 0]
    decreases |s|
  {
    if |s| == 0 then []
    else
      assert s == [s[0]] + s[1..];
      (if s[0] == c then [] else [s[0]]) + Delete(s[1..], c)
  }

  /** Deleting works piece by piece: the characters kept stay in their order. */
  lemma {:induction false} DeleteAppend(a: string, b: string, c: char)
    ensures Delete(a + b, c) == Delete(a, c) + Delete(b, c)
    decreases |a|
  {
    if |a| > 0 {
      assert (a + b)[1..] == a[1..] + b;
      DeleteAppend(a[1..], b, c);
    } else {
      assert a + b == b;
    }
  }

  /** The first "bright" in any case becomes "bold". */
  function BoldFirstBright(s: string): (r: string)
    ensures '_' in r ==> '_' in s
  {
    match FindBrightFrom(s, 0)
    case None => s
    case Some(i) =>
      SpliceOmits(s, i, i + 6, "bold", '_');
      s[..i] + "bold" + s[i + 6..]
  }

  /** String#normalize_color: underscores deleted, the first "bright" in any case becomes
      "bold", then the first "bgbold" becomes "boldbg". */
  function Normalize(s: string): (r: string)
    ensures '_' !in r
  {
    var plain := Delete(s, '_');
    var bolded := BoldFirstBright(plain);
    SubFirstOmits(bolded, "bgbold", "boldbg", '_');
    SubFirst(bolded, "bgbold", "boldbg")
  }

  /** The last step: in a name without `_` and without "bright" in any case, the first
      "bgbold" becomes "boldbg" and nothing else changes. */
  lemma NormalizeBgBold(n: string, i: nat)
    requires '_' !in n
    requires forall j :: 0 <= j <= |n| ==> !BrightAt(n, j)
    requires OccursAt(n, "bgbold", i) && forall j :: 0 <= j < i ==> !OccursAt(n, "bgbold", j)
    ensures Normalize(n) == n[..i] + "boldbg" + n[i + 6..]
  {
    DeleteAbsent(n, '_');
    assert FindBrightFrom(n, 0).None?;
    assert Find(n, "bgbold") == Some(i);
  }

  /** `%bgbold<colour>` reaches the table name `boldbg<colour>`, for any colour without `_` or
      "bright": `%bgboldred` becomes `boldbgred`. */
  lemma NormalizeBgBoldColor(c: string)
    requires '_' !in c
    requires forall j :: 0 <= j <= |c| ==> !BrightAt(c, j)
    ensures Normalize("bgbold" + c) == "boldbg" + c
  {
    var n := "bgbold" + c;
    forall j | 0 <= j <= |n| ensures !BrightAt(n, j) {
      if 6 <= j {
        BrightAtShift("bgbold", c, j - 6);
      } else {
        BgBoldNoBright(n, j);
      }
    }
    assert '_' !in n by {
      forall x | x in n ensures x != '_' {
        if x !in c { assert x in "bgbold"; }
      }
    }
    assert OccursAt(n, "bgbold", 0) by { assert n[..6] == "bgbold"; }
    NormalizeBgBold(n, 0);
    assert n[6..] == c;
  }

  /** A "bright" after a prefix is one in the rest. */
  lemma BrightAtShift(p: string, c: string, j: nat)
    ensures BrightAt(p + c, |p| + j) == BrightAt(c, j)
  {
    if j + 6 <= |c| {
      assert (p + c)[|p| + j..|p| + j + 6] == c[j..j + 6];
    }
  }

  /** No "bright" starts inside a leading "bgbold". */
  lemma BgBoldNoBright(n: string, j: nat)
    requires |n| >= 6 && n[..6] == "bgbold" && j < 6
    ensures !BrightAt(n, j)
  {
    var k := if j == 0 || j == 2 then 1 else 0;
    assert n[j + k] == "bgbold"[j + k] != "bright"[k];
  }


  /** A bold attribute's bright alias normalises back to the attribute when the name starts with
      "bold", has no underscore and no "bgbold" (true of every bold name in the table). */
  lemma NormalizeBright(name: string)
    requires |name| >= 4 && name[..4] == "bold"
    requires '_' !in name
    requires Find(name, "bgbold").None?
    ensures Normalize(Bright(name)) == name
  {
    var b := Bright(name);
    BrightOfBold(name);
    DeleteAbsent(b, '_');
    BoldOfBright(name);
  }

  /** A name starting with "bold" gets "bright" in its place. */
  lemma BrightOfBold(name: string)
    requires |name| >= 4 && name[..4] == "bold" && '_' !in name
    ensures Bright(name) == "bright" + name[4..] && '_' !in Bright(name)
  {
    assert OccursAt(name, "bold", 0);
    assert forall k :: 0 <= k < |name| - 4 ==> name[4..][k] == name[k + 4];
  }

  /** ... and turning the leading "bright" back into "bold" gives the name again. */
  lemma BoldOfBright(name: string)
    requires |name| >= 4 && name[..4] == "bold"
    ensures BoldFirstBright("bright" + name[4..]) == name
  {
    var b := "bright" + name[4..];
    BrightAtFront(name[4..]);
    assert FindBrightFrom(b, 0) == Some(0);
    assert b[..0] + "bold" + b[6..] == name by {
      assert b[6..] == name[4..];
      assert name == name[..4] + name[4..];
    }
  }

  lemma BrightAtFront(x: string)
    ensures BrightAt("bright" + x, 0)
  {
    var b := "bright" + x;
    assert b[..6] == "bright";
    CiEqualSame("bright");
  }

  lemma {:induction false} DeleteAbsent(s: string, c: char)
    requires c !in s
    ensures Delete(s, c) == s
    decreases |s|
  {
    if |s| > 0 {
      assert s[0] != c;
      DeleteAbsent(s[1..], c);
      assert [s[0]] + s[1..] == s;
    }
  }

  /** String#validate_color: the longest prefix of the normalised name that is an attribute
      name, found like the source by growing the prefix one character at a time. */
  method ValidateColor(s: string) returns (valid: Option<string>)
    ensures var norm := Normalize(s);
      && (valid.Some? ==> 1 <= |valid.value| <= |norm| && valid.value == norm[..|valid.value|]
                          && IsAttributeName(valid.value))
      && (valid.Some? ==> forall k :: |valid.value| < k <= |norm| ==> !IsAttributeName(norm[..k]))
      && (valid.None? ==> forall k :: 1 <= k <= |norm| ==> !IsAttributeName(norm[..k]))
    ensures valid.Some? ==> '_' !in valid.value
  {
    var norm := Normalize(s);
    valid := None;
    var i := 0;
    while i < |norm|
      invariant 0 <= i <= |norm|
      invariant valid.Some? ==> 1 <= |valid.value| <= i && valid.value == norm[..|valid.value|]
      invariant valid.Some? ==> IsAttributeName(valid.value)
      invariant valid.Some? ==> forall k :: |valid.value| < k <= i ==> !IsAttributeName(norm[..k])
      invariant valid.None? ==> forall k :: 1 <= k <= i ==> !IsAttributeName(norm[..k])
    {
      var compiled := norm[..i + 1];
      if IsAttributeName(compiled) {
        valid := Some(compiled);
      }
      i := i + 1;
    }
  }

  /** rapid_blink is the one table name with an underscore, so ValidateColor, which only
      looks at underscore-free names, can never return it. */
  lemma RapidBlinkUnreachable()
    ensures IsAttributeName("rapid_blink") && '_' in "rapid_blink"
  {
    assert Attributes[8].0 == "rapid_blink";
    var n: string := "rapid_blink";
    assert n[5] == '_';
  }

  /** The first table name that spells `x` once its underscores are deleted. */
  function PlainNameIn(table: seq<(string, string)>, x: string): (r: Option<string>)
    ensures r.Some? ==> (exists i :: 0 <= i < |table| && table[i].0 == r.value) && Delete(r.value, '_') == x
    ensures r.None? ==> forall i :: 0 <= i < |table| ==> Delete(table[i].0, '_') != x
    decreases |table|
  {
    if |table| == 0 then None
    else if Delete(table[0].0, '_') == x then Some(table[0].0)
    else
      var r := PlainNameIn(table[1..], x);
      assert forall i :: 1 <= i < |table| ==> table[i] == table[1..][i - 1];
      r
  }

  /** The longest of the first `k` prefixes of `norm` that a table name spells. */
  function LongestPlain(table: seq<(string, string)>, norm: string, k: nat): (r: Option<string>)
    requires k <= |norm|
    ensures r.Some? ==> exists j :: 1 <= j <= k && r == PlainNameIn(table, norm[..j])
                          && forall m :: j < m <= k ==> PlainNameIn(table, norm[..m]).None?
    ensures r.None? ==> forall j :: 1 <= j <= k ==> PlainNameIn(table, norm[..j]).None?
    decreases k
  {
    if k == 0 then None
    else
      match PlainNameIn(table, norm[..k])
      case Some(n) => Some(n)
      case None => LongestPlain(table, norm, k - 1)
  }

  /** When the whole text spells a table name, that name is the longest match. */
  lemma LongestPlainWhole(table: seq<(string, string)>, norm: string)
    requires |norm| > 0 && PlainNameIn(table, norm).Some?
    ensures LongestPlain(table, norm, |norm|) == PlainNameIn(table, norm)
  {
    assert norm[..|norm|] == norm;
  }

  /** The intended validate_color: the table names are compared with their underscores
      deleted, as the normalised input is, and the table's own name is returned. */
  function ValidateColorPlain(s: string): (r: Option<string>)
    ensures r.Some? ==> IsAttributeName(r.value)
    ensures r.Some? ==> exists j :: 1 <= j <= |Normalize(s)| && Delete(r.value, '_') == Normalize(s)[..j]
  {
    LongestPlain(Attributes, Normalize(s), |Normalize(s)|)
  }

  /** A name with no 'g' in either case holds neither "bright" nor "bgbold", so normalising it
      only deletes its underscores. */
  lemma NormalizeWithoutG(n: string)
    requires 'g' !in n && 'G' !in n
    ensures Normalize(n) == Delete(n, '_')
  {
    var p := Delete(n, '_');
    assert 'g' !in p && 'G' !in p;
    NoBrightWithoutG(p);
    var pat: string := "bgbold";
    assert pat[1] == 'g';
    FindAbsentAt(p, pat, 1);
  }

  lemma NoBrightWithoutG(p: string)
    requires 'g' !in p && 'G' !in p
    ensures FindBrightFrom(p, 0).None?
  {
    forall j | 0 <= j <= |p| ensures !BrightAt(p, j) {
      if j + 6 <= |p| {
        var c := p[j + 3];
        assert c in p;
        assert ToLower(c) != 'g';
        assert "bright"[3] == 'g';
      }
    }
  }

  /** When the whole normalised name spells a table name, that table name is the answer. */
  lemma ValidatePlainWhole(s: string)
    requires |Normalize(s)| > 0 && PlainNameIn(Attributes, Normalize(s)).Some?
    ensures ValidateColorPlain(s) == PlainNameIn(Attributes, Normalize(s))
  {
    LongestPlainWhole(Attributes, Normalize(s));
  }

  /** Some table name spells `x` when one entry does. */
  lemma {:induction false} PlainNameFound(table: seq<(string, string)>, x: string, i: nat)
    requires i < |table| && Delete(table[i].0, '_') == x
    ensures PlainNameIn(table, x).Some?
    decreases i
  {
    if i > 0 && Delete(table[0].0, '_') != x {
      PlainNameFound(table[1..], x, i - 1);
    }
  }

  /** Every table name without a 'g' is recognised by the intended validation, rapid_blink
      among them: the answer is a table name spelled the same without underscores. */
  lemma ValidatePlainTableName(i: nat)
    requires i < |Attributes| && 'g' !in Attributes[i].0 && 'G' !in Attributes[i].0
    requires |Attributes[i].0| > 0 && Attributes[i].0[0] != '_'
    ensures var n := Attributes[i].0;
      ValidateColorPlain(n).Some? && Delete(ValidateColorPlain(n).value, '_') == Delete(n, '_')
  {
    var n := Attributes[i].0;
    assert |Delete(n, '_')| > 0;
    NormalizeWithoutG(n);
    PlainNameFound(Attributes, Delete(n, '_'), i);
    ValidatePlainWhole(n);
  }

  /** The intended validation recognises rapid_blink, which ValidateColor cannot return. */
  lemma ValidatePlainRapidBlink()
    ensures ValidateColorPlain("rapid_blink").Some?
  {
    RapidBlinkUnreachable();
    var n: string := "rapid_blink";
    assert n[0] == 'r' && 'g' !in n && 'G' !in n;
    ValidatePlainTableName(8);
  }

  /** `(?:(?:[349]|10)[0-7]|[0-9])?`: the codes COLORED_REGEXP recognises. */
  predicate SimpleCode(code: string) {
    || |code| == 0
    || (|code| == 1 && IsDigit(code[0]))
    || (|code| == 2 && (code[0] == '3' || code[0] == '4' || code[0] == '9') && '0' <= code[1] <= '7')
    || (|code| == 3 && code[0] == '1' && code[1] == '0' && '0' <= code[2] <= '7')
  }

  predicate IsOctal(c: char) {
    '0' <= c <= '7'
  }

  /** Length of the COLORED_REGEXP `\e\[(?:(?:[349]|10)[0-7]|[0-9])?m` match at the start of
      `s`, 0 when there is none. The code part holds no 'm', so at most one length matches. */
  function EscapeLen(s: string): (n: nat)
    ensures n > 0 ==> 3 <= n <= |s| && s[0] == ESC && s[1] == '[' && s[n - 1] == 'm'
    ensures n > 0 ==> SimpleCode(s[2..n - 1])
  {
    if |s| < 3 || s[0] != ESC || s[1] != '[' then 0
    else if s[2] == 'm' then 3
    else if |s| >= 4 && IsDigit(s[2]) && s[3] == 'm' then 4
    else if |s| >= 5 && (s[2] == '3' || s[2] == '4' || s[2] == '9') && IsOctal(s[3]) && s[4] == 'm' then 5
    else if |s| >= 6 && s[2] == '1' && s[3] == '0' && IsOctal(s[4]) && s[5] == 'm' then 6
    else 0
  }

  /** Color#uncolor: every COLORED_REGEXP match is removed, left to right. */
  function Uncolor(s: string): (r: string)
    ensures |r| <= |s|
    decreases |s|
  {
    if |s| == 0 then []
    else
      var n := EscapeLen(s);
      if n > 0 then Uncolor(s[n..]) else [s[0]] + Uncolor(s[1..])
  }

  /** Text without an escape character is left alone. */
  lemma {:induction false} UncolorPlain(s: string)
    requires ESC !in s
    ensures Uncolor(s) == s
    decreases |s|
  {
    if |s| > 0 {
      assert s[0] != ESC;
      UncolorPlain(s[1..]);
      assert [s[0]] + s[1..] == s;
    }
  }

  /** A match at the start of `a` is unaffected by text after `a` that starts with an escape
      character: no match continues with one. */
  lemma EscapeLenSplit(a: string, b: string)
    requires |a| > 0 && (|b| == 0 || b[0] == ESC)
    ensures EscapeLen(a + b) == EscapeLen(a)
  {
    var s := a + b;
    if |a| >= 6 {
      assert s[0] == a[0] && s[1] == a[1] && s[2] == a[2] && s[3] == a[3] && s[4] == a[4] && s[5] == a[5];
    } else {
      assert forall j :: 0 <= j < |a| ==> s[j] == a[j];
      if |b| > 0 {
        assert s[|a|] == ESC;
      }
    }
  }

  /** No match can run into text that starts with an escape character, so uncolouring splits
      there. */
  lemma {:induction false} UncolorSplit(a: string, b: string)
    requires |b| == 0 || b[0] == ESC
    ensures Uncolor(a + b) == Uncolor(a) + Uncolor(b)
    decreases |a|
  {
    if |a| == 0 {
      assert a + b == b;
    } else {
      var s := a + b;
      EscapeLenSplit(a, b);
      var n := EscapeLen(a);
      if n > 0 {
        assert s[n..] == a[n..] + b;
        UncolorSplit(a[n..], b);
      } else {
        assert s[1..] == a[1..] + b;
        UncolorSplit(a[1..], b);
      }
    }
  }

  /** The opening escape of a simple code is removed. */
  lemma UncolorOpenSimple(code: string, x: string)
    requires SimpleCode(code)
    ensures Uncolor(Open(code) + x) == Uncolor(x)
  {
    var s := Open(code) + x;
    var n := |code| + 3;
    assert s[0] == ESC && s[1] == '[' && s[n - 1] == 'm';
    assert forall j :: 0 <= j < |code| ==> s[j + 2] == code[j];
    assert EscapeLen(s) == n;
    assert s[n..] == x;
  }

  /** A code of several numbers, such as "0;39": a digit, then ';'. */
  predicate CompositeCode(code: string) {
    |code| >= 2 && IsDigit(code[0]) && code[1] == ';' && ESC !in code
  }

  /** A composite code such as "0;39" has ';' as its second character, so its opening escape
      is not a COLORED_REGEXP match and survives uncolouring. */
  lemma UncolorOpenComposite(code: string, x: string)
    requires CompositeCode(code)
    ensures Uncolor(Open(code) + x) == Open(code) + Uncolor(x)
  {
    var w := Open(code)[1..];
    OpenCompositeNoMatch(code, x);
    OpenTailPlain(code);
    UncolorNoEscapePrefix(w, x);
    assert (Open(code) + x)[1..] == w + x;
    assert [ESC] + w == Open(code);
  }

  /** No COLORED_REGEXP match starts at a composite code's opening escape. */
  lemma OpenCompositeNoMatch(code: string, x: string)
    requires CompositeCode(code)
    ensures EscapeLen(Open(code) + x) == 0 && (Open(code) + x)[0] == ESC
  {
    var s := Open(code) + x;
    assert s[0] == ESC && s[1] == '[' && s[2] == code[0] && s[3] == ';';
  }

  /** After its first character an opening escape holds no ESC. */
  lemma OpenTailPlain(code: string)
    requires ESC !in code
    ensures ESC !in Open(code)[1..]
  {
    var w := Open(code)[1..];
    forall i | 0 <= i < |w| ensures w[i] != ESC {
      if 1 <= i <= |code| {
        assert w[i] == code[i - 1];
      }
    }
  }

  lemma {:induction false} UncolorNoEscapePrefix(w: string, x: string)
    requires ESC !in w
    ensures Uncolor(w + x) == w + Uncolor(x)
    decreases |w|
  {
    if |w| == 0 {
      assert w + x == x;
    } else {
      assert w[0] != ESC;
      assert (w + x)[1..] == w[1..] + x;
      UncolorNoEscapePrefix(w[1..], x);
      assert [w[0]] + w[1..] == w;
    }
  }

  /** Round trip: uncolouring coloured escape-free text gives the text back for a simple code;
      for a composite code the opening escape stays. */
  lemma UncolorPaint(code: string, t: string)
    requires ESC !in t
    requires SimpleCode(code) || CompositeCode(code)
    ensures Uncolor(Paint(code, Some(t), true)) == if SimpleCode(code) then t else Open(code) + t
  {
    var p := Paint(code, Some(t), true);
    assert p == Open(code) + (t + Reset());
    UncolorSplit(t, Reset());
    UncolorPlain(t);
    var r := Reset();
    assert EscapeLen(r) == 4;
    assert r[4..] == [];
    assert Uncolor(r) == [];
    if SimpleCode(code) {
      UncolorOpenSimple(code, t + Reset());
    } else {
      UncolorOpenComposite(code, t + Reset());
    }
  }

  lemma ModesSimple()
    ensures forall e :: e in Modes ==> SimpleCode(e.1)
  {
  }

  lemma ForegroundsSimple()
    ensures forall e :: e in Foregrounds ==> SimpleCode(e.1)
  {
  }

  lemma BackgroundsSimple()
    ensures forall e :: e in Backgrounds ==> SimpleCode(e.1)
  {
  }

  lemma BoldForegroundsSimple()
    ensures forall e :: e in BoldForegrounds ==> SimpleCode(e.1)
  {
  }

  lemma BoldBackgroundsSimple()
    ensures forall e :: e in BoldBackgrounds ==> SimpleCode(e.1)
  {
  }

  lemma CombinationsComposite()
    ensures forall e :: e in Combinations ==> CompositeCode(e.1)
  {
    CombinationsCompositeFirst();
    CombinationsCompositeLast();
  }

  lemma CombinationsCompositeFirst()
    ensures forall i :: 0 <= i < 6 ==> CompositeCode(Combinations[i].1)
  {
  }

  lemma CombinationsCompositeLast()
    ensures forall i :: 6 <= i < |Combinations| ==> CompositeCode(Combinations[i].1)
  {
  }

  /** Round trip over the whole table: uncolouring a colour method's output on escape-free text
      gives the text back, except for the combined attributes (softpurple to error, and default),
      whose opening escape stays. */
  lemma UncolorTable(e: (string, string), t: string)
    requires e in Attributes && ESC !in t
    ensures e in Combinations ==> Uncolor(Paint(e.1, Some(t), true)) == Open(e.1) + t
    ensures e !in Combinations ==> Uncolor(Paint(e.1, Some(t), true)) == t
  {
    ModesSimple();
    ForegroundsSimple();
    BackgroundsSimple();
    BoldForegroundsSimple();
    BoldBackgroundsSimple();
    CombinationsComposite();
    assert e in Modes || e in Foregrounds || e in Backgrounds || e in BoldForegrounds
        || e in BoldBackgrounds || e in Combinations;
    if e in Combinations {
      assert !SimpleCode(e.1);
    }
    UncolorPaint(e.1, t);
  }

  /** uncolor is not idempotent: removing one escape can join the pieces of another. */
  lemma UncolorNotIdempotent()
    ensures Uncolor([ESC, '[', ESC, '[', 'm', 'm']) == [ESC, '[', 'm']
    ensures Uncolor([ESC, '[', 'm']) == []
  {
    var s: string := [ESC, '[', ESC, '[', 'm', 'm'];
    var none: string := [];
    var inner: string := [ESC, '[', 'm', 'm'];
    assert ['m'][1..] == none;
    assert Uncolor(['m']) == ['m'];
    assert EscapeLen(inner) == 3 && inner[3..] == ['m'];
    assert Uncolor(inner) == ['m'];
    assert s[1..] == ['['] + inner && (['['] + inner)[1..] == inner;
    assert EscapeLen(['['] + inner) == 0;
    assert Uncolor(s[1..]) == ['[', 'm'];
    assert EscapeLen(s) == 0;
    assert EscapeLen([ESC, '[', 'm']) == 3;
    assert [ESC, '[', 'm'][3..] == none;
  }

  /** A pass of uncolor either removes something or leaves the text as it is. */
  lemma {:induction false} UncolorShrinks(s: string)
    ensures Uncolor(s) == s || |Uncolor(s)| < |s|
    decreases |s|
  {
    if |s| > 0 && EscapeLen(s) == 0 {
      UncolorShrinks(s[1..]);
      assert [s[0]] + s[1..] == s;
    }
  }

  /** The intended uncolor: passes are repeated until none changes the text, so that
      uncolouring the result again leaves it alone. */
  function UncolorAll(s: string): (r: string)
    ensures Uncolor(r) == r
    ensures |r| <= |s|
    ensures Uncolor(s) == s ==> r == s
    decreases |s|
  {
    var u := Uncolor(s);
    UncolorShrinks(s);
    if u == s then s else UncolorAll(u)
  }

  /** UncolorAll is idempotent, and it removes what the single pass removes first. */
  lemma UncolorAllIdempotent(s: string)
    ensures UncolorAll(UncolorAll(s)) == UncolorAll(s)
    ensures UncolorAll(Uncolor(s)) == UncolorAll(s)
  {
  }

  /** The text that defeats the single pass is cleared by the repeated one. */
  lemma UncolorAllClears()
    ensures UncolorAll([ESC, '[', ESC, '[', 'm', 'm']) == []
  {
    UncolorNotIdempotent();
    var none: string := [];
    assert Uncolor(none) == none;
  }

  // ---------------------------------------------------------------------------------------
  // The intended strip of every select-graphic-rendition escape

  /** A character of an escape's parameter list: a digit or ';'. */
  predicate IsCodeChar(c: char) {
    IsDigit(c) || c == ';'
  }

  /** A code the escape `\e[<code>m` can carry: digits and semicolons. */
  predicate SgrCode(code: string) {
    forall j :: 0 <= j < |code| ==> IsCodeChar(code[j])
  }

  /** Length of the run of digits and ';' that starts at `i`. */
  function CodeRun(s: string, i: nat): (n: nat)
    requires i <= |s|
    ensures i + n <= |s|
    ensures forall j :: i <= j < i + n ==> IsCodeChar(s[j])
    ensures i + n < |s| ==> !IsCodeChar(s[i + n])
    decreases |s| - i
  {
    if i < |s| && IsCodeChar(s[i]) then 1 + CodeRun(s, i + 1) else 0
  }

  /** The match of `\e\[[\d;]*m` at the start of `s`: its length, or 0 when there is none. */
  function SgrLen(s: string): (n: nat)
    ensures n > 0 ==> 3 <= n <= |s| && s[0] == ESC && s[1] == '[' && s[n - 1] == 'm'
    ensures n > 0 ==> forall j :: 2 <= j < n - 1 ==> IsCodeChar(s[j])
  {
    if |s| < 3 || s[0] != ESC || s[1] != '[' then 0
    else
      var m := CodeRun(s, 2);
      if 2 + m < |s| && s[2 + m] == 'm' then 3 + m else 0
  }

  /** The intended uncolor: every escape `\e[<digits and ;>m` is removed, composite ones
      included. */
  function UncolorSgr(s: string): (r: string)
    ensures |r| <= |s|
    decreases |s|
  {
    if |s| == 0 then []
    else
      var n := SgrLen(s);
      if n > 0 then UncolorSgr(s[n..]) else [s[0]] + UncolorSgr(s[1..])
  }

  /** The opening escape of any code of digits and semicolons is one match. */
  lemma SgrOpen(code: string, x: string)
    requires SgrCode(code)
    ensures SgrLen(Open(code) + x) == |code| + 3
    ensures (Open(code) + x)[|code| + 3..] == x
  {
    var s := Open(code) + x;
    assert s[0] == ESC && s[1] == '[' && s[|code| + 2] == 'm';
    assert forall j :: 2 <= j < |code| + 2 ==> s[j] == code[j - 2];
  }

  /** A run of code characters inside `a` ends where it ends in `a + b` when `b` starts with an
      escape character, which is not a code character. */
  lemma CodeRunSplit(a: string, b: string, i: nat)
    requires i <= |a| && (|b| == 0 || b[0] == ESC)
    ensures CodeRun(a + b, i) == CodeRun(a, i)
  {
    var s := a + b;
    var n := CodeRun(s, i);
    var na := CodeRun(a, i);
    assert forall j :: 0 <= j < |a| ==> s[j] == a[j];
    if i + na < |s| {
      if i + na < |a| {
        assert !IsCodeChar(s[i + na]);
      } else {
        assert s[i + na] == b[0] == ESC;
      }
    }
  }

  /** A match at the start of `a` is unaffected by text after `a` that starts with an escape
      character, which is neither a code character nor `m`. */
  lemma SgrLenSplit(a: string, b: string)
    requires |a| > 0 && (|b| == 0 || b[0] == ESC)
    ensures SgrLen(a + b) == SgrLen(a)
  {
    var s := a + b;
    assert forall j :: 0 <= j < |a| ==> s[j] == a[j];
    if |a| >= 2 && a[0] == ESC && a[1] == '[' {
      CodeRunSplit(a, b, 2);
      var m := CodeRun(a, 2);
      if 2 + m == |a| && |b| > 0 {
        assert s[2 + m] == ESC;
      }
    } else if |a| == 1 && |b| > 0 {
      assert s[1] == ESC;
    }
  }

  /** No match of the intended strip runs into text that starts with an escape character. */
  lemma {:induction false} UncolorSgrSplit(a: string, b: string)
    requires |b| == 0 || b[0] == ESC
    ensures UncolorSgr(a + b) == UncolorSgr(a) + UncolorSgr(b)
    decreases |a|
  {
    if |a| == 0 {
      assert a + b == b;
    } else {
      var s := a + b;
      SgrLenSplit(a, b);
      var n := SgrLen(a);
      if n > 0 {
        assert s[n..] == a[n..] + b;
        UncolorSgrSplit(a[n..], b);
      } else {
        assert s[1..] == a[1..] + b;
        UncolorSgrSplit(a[1..], b);
      }
    }
  }

  /** Text without an escape character is left alone by the intended strip. */
  lemma {:induction false} UncolorSgrPlain(s: string)
    requires ESC !in s
    ensures UncolorSgr(s) == s
    decreases |s|
  {
    if |s| > 0 {
      assert s[0] != ESC;
      UncolorSgrPlain(s[1..]);
      assert [s[0]] + s[1..] == s;
    }
  }

  /** Round trip of the intended strip: uncolouring coloured escape-free text gives the text
      back for every code of digits and semicolons, composite codes included. */
  lemma UncolorSgrPaint(code: string, t: string)
    requires ESC !in t && SgrCode(code)
    ensures UncolorSgr(Paint(code, Some(t), true)) == t
  {
    var p := Paint(code, Some(t), true);
    assert p == Open(code) + (t + Reset());
    SgrOpen(code, t + Reset());
    UncolorSgrSplit(t, Reset());
    UncolorSgrPlain(t);
    var none: string := [];
    assert Reset() == Open("0") + none;
    SgrOpen("0", none);
  }

  lemma SimpleSgr(code: string)
    requires SimpleCode(code)
    ensures SgrCode(code)
  {
  }

  lemma CombinationsSgr()
    ensures forall e :: e in Combinations ==> SgrCode(e.1)
  {
  }

  /** Over the whole table the intended strip returns the text, the combined attributes
      (softpurple to error, and default) included. */
  lemma UncolorSgrTable(e: (string, string), t: string)
    requires e in Attributes && ESC !in t
    ensures UncolorSgr(Paint(e.1, Some(t), true)) == t
  {
    ModesSimple();
    ForegroundsSimple();
    BackgroundsSimple();
    BoldForegroundsSimple();
    BoldBackgroundsSimple();
    CombinationsSgr();
    assert e in Modes || e in Foregrounds || e in Backgrounds || e in BoldForegrounds
        || e in BoldBackgrounds || e in Combinations;
    if e !in Combinations {
      SimpleSgr(e.1);
    }
    UncolorSgrPaint(e.1, t);
  }

}
