/** Ruby's expansion of a replacement STRING in `sub`/`gsub` (as opposed to a block): the
    backslash sequences `\0` `\&` `\1`..`\9` `\`` `\'` `\\` and `\k<name>` are interpreted,
    every other character is copied. The rendering code passes dates, intervals, sections and
    note text through this expansion, so a backslash in them is not copied verbatim. */
module Backrefs {

  import opened Wrappers
  import opened Strings

  /** What Ruby raises while expanding a replacement string. None of the patterns whose
      replacement is a string has named groups, so every `\k<name>` is undefined. */
  datatype SubError =
    | UndefinedGroupName(name: string)
    | UnterminatedGroupName

  /** Expands `rep` for one match: `groups[0]` is the matched text, `groups[n]` the n-th capture,
      `pre`/`post` the text before and after the match. */
  function Expand(rep: string, groups: seq<string>, pre: string, post: string): (r: Result<string, SubError>)
    requires |groups| > 0
    decreases |rep|
  {
    if |rep| == 0 then Success([])
    else if rep[0] != '\\' || |rep| == 1 then
      var rest :- Expand(rep[1..], groups, pre, post);
      Success([rep[0]] + rest)
    else
      var c := rep[1];
      var tail := rep[2..];
      if c == 'k' && |tail| > 0 && tail[0] == '<' then
        match FindFrom(tail, ">", 1)
        case Some(j) => Failure(UndefinedGroupName(tail[1..j]))
        case None => Failure(UnterminatedGroupName)
      else
        var rest :- Expand(tail, groups, pre, post);
        var piece :=
          if IsDigit(c) && c != '0' then (if DigitValue(c) < |groups| then groups[DigitValue(c)] else [])
          else if c == '0' || c == '&' then groups[0]
          else if c == '`' then pre
          else if c == '\'' then post
          else if c == '\\' then "\\"
          else ['\\', c];
        Success(piece + rest)
  }

  /** A reference `\\d` to an existing group in front of the rest inserts that group's text. */
  lemma ExpandGroupFront(d: char, rest: string, groups: seq<string>, pre: string, post: string, v: string)
    requires IsDigit(d) && d != '0' && DigitValue(d) < |groups|
    requires Expand(rest, groups, pre, post) == Success(v)
    ensures Expand(['\\', d] + rest, groups, pre, post) == Success(groups[DigitValue(d)] + v)
  {
    var x := ['\\', d] + rest;
    assert x[0] == '\\' && x[1] == d && x[2..] == rest;
  }

  /** A replacement without a backslash is inserted verbatim. */
  lemma {:induction false} ExpandPlain(rep: string, groups: seq<string>, pre: string, post: string)
    requires |groups| > 0
    requires '\\' !in rep
    ensures Expand(rep, groups, pre, post) == Success(rep)
    decreases |rep|
  {
    if |rep| > 0 {
      assert rep[0] != '\\';
      ExpandPlain(rep[1..], groups, pre, post);
      assert [rep[0]] + rep[1..] == rep;
    }
  }

  /** A backslash-free prefix of the replacement is copied in front of the rest's expansion. */
  lemma {:induction false} ExpandPlainPrefix(a: string, x: string, groups: seq<string>, pre: string, post: string)
    requires |groups| > 0
    requires '\\' !in a
    ensures Expand(a + x, groups, pre, post)
         == (var e := Expand(x, groups, pre, post); if e.Success? then Success(a + e.value) else e)
    decreases |a|
  {
    if |a| > 0 {
      assert (a + x)[0] == a[0] && (a + x)[1..] == a[1..] + x;
      assert a[0] != '\\';
      ExpandPlainPrefix(a[1..], x, groups, pre, post);
      var e := Expand(x, groups, pre, post);
      if e.Success? {
        assert [a[0]] + (a[1..] + e.value) == a + e.value;
      }
    } else {
      assert a + x == x;
      var e := Expand(x, groups, pre, post);
      if e.Success? {
        assert a + e.value == e.value;
      }
    }
  }

  /** String#sub with a literal pattern and a replacement string. */
  function SubString(s: string, pat: string, rep: string): (r: Result<string, SubError>)
    ensures Find(s, pat).None? ==> r == Success(s)
  {
    match Find(s, pat)
    case None => Success(s)
    case Some(i) =>
      var pre := s[..i];
      var post := s[i + |pat|..];
      var v :- Expand(rep, [pat], pre, post);
      Success(pre + v + post)
  }

  /** A replacement without a backslash is inserted as it is: the string form of sub agrees
      with the literal one. */
  lemma SubStringPlain(s: string, pat: string, rep: string)
    requires '\\' !in rep
    ensures SubString(s, pat, rep) == Success(SubFirst(s, pat, rep))
  {
    match Find(s, pat)
    case None =>
    case Some(i) =>
      ExpandPlain(rep, [pat], s[..i], s[i + |pat|..]);
  }

  /** The same, for any replacement: the conditional form callers use inside expressions. */
  lemma SubStringPlainIf(s: string, pat: string, rep: string)
    ensures '\\' !in rep ==> SubString(s, pat, rep) == Success(SubFirst(s, pat, rep))
  {
    if '\\' !in rep {
      SubStringPlain(s, pat, rep);
    }
  }

  /** Group references: `\0` and `\&` are the matched text, an absent group is empty. */
  lemma ExpandGroupExamples(m: string, pre: string, post: string)
    ensures Expand("\\0", [m], pre, post) == Success(m)
    ensures Expand("\\&", [m], pre, post) == Success(m)
    ensures Expand("\\3", [m], pre, post) == Success([])
  {
    var none: string := [];
    assert Expand(none, [m], pre, post) == Success(none);
    assert "\\0"[2..] == none && "\\&"[2..] == none && "\\3"[2..] == none;
    assert m + none == m && none + none == none;
    assert DigitValue('3') == 3;
  }

  /** `\\` is one backslash, an unknown escape is copied, `\'` is the text after the match. */
  lemma ExpandEscapeExamples(m: string, pre: string, post: string)
    ensures Expand("\\\\", [m], pre, post) == Success("\\")
    ensures Expand("\\q", [m], pre, post) == Success("\\q")
    ensures Expand("\\'", [m], pre, post) == Success(post)
  {
    var none: string := [];
    assert Expand(none, [m], pre, post) == Success(none);
    assert "\\\\"[2..] == none && "\\q"[2..] == none && "\\'"[2..] == none;
    assert post + none == post;
    assert "\\" + none == "\\" && ['\\', 'q'] + none == "\\q";
  }

  /** `\k<name>` raises: the name is undefined, or unterminated without '>'. */
  lemma ExpandNameExamples(m: string, pre: string, post: string)
    ensures Expand("\\k<x>", [m], pre, post) == Failure(UndefinedGroupName("x"))
    ensures Expand("\\k<x", [m], pre, post) == Failure(UnterminatedGroupName)
  {
    assert ['<', 'x', '>'][1..2] == ['x'] && ['<', 'x'][1..2] == ['x'];
    assert FindFrom(['<', 'x', '>'], ">", 1) == Some(2);
    assert FindFrom(['<', 'x'], ">", 1) == None;
  }
}
