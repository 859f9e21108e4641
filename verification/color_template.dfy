/** Color.template: the `{xy}` shorthand for colour escapes. A gsub turns each `{letters}`
    group into `%<l>s` references, and Kernel#format fills them from a hash of single-letter
    keys. Ruby's process-wide `coloring?` flag is an explicit `coloring` parameter. */
module ColorTemplate {

  import opened Wrappers
  import opened Strings
  import opened Colors

  /** The codes of Color.template's single-letter keys: lower case foregrounds, upper case
      backgrounds, b bold, u underline, i italic, x reset. */
  function TemplateCode(c: char): Option<string> {
    match c
    case 'w' => Some("37") case 'k' => Some("30") case 'g' => Some("32") case 'l' => Some("34")
    case 'y' => Some("33") case 'c' => Some("36") case 'm' => Some("35") case 'r' => Some("31")
    case 'W' => Some("47") case 'K' => Some("40") case 'G' => Some("42") case 'L' => Some("44")
    case 'Y' => Some("43") case 'C' => Some("46") case 'M' => Some("45") case 'R' => Some("41")
    case 'b' => Some("1") case 'u' => Some("4") case 'i' => Some("3") case 'x' => Some("0")
    case _ => None
  }

  /** Why Kernel#format rejects the intermediate format string: a name that is no key of the
      colour hash (KeyError), or a directive the model does not give a meaning (ArgumentError). */
  datatype TemplateError = KeyNotFound(key: string) | FormatDirective

  /** The escapes of the letters of one `{...}` group, in order (each key's method called
      without text); the first letter that is no key raises. */
  function GroupEscapes(letters: string, coloring: bool): (r: Result<string, TemplateError>)
    decreases |letters|
  {
    if |letters| == 0 then Success([])
    else Prepend(KeyValue([letters[0]], coloring), GroupEscapes(letters[1..], coloring))
  }

  /** What Kernel#format finds for a name in the colour hash: the opening escape of a single
      key letter; any other name raises KeyError. */
  function KeyValue(name: string, coloring: bool): (r: Result<string, TemplateError>)
    ensures r.Success? <==> |name| == 1 && TemplateCode(name[0]).Some?
    ensures r.Failure? ==> r.error == KeyNotFound(name)
  {
    if |name| == 1 then
      match TemplateCode(name[0])
      case Some(code) => Success(Paint(code, None, coloring))
      case None => Failure(KeyNotFound(name))
    else Failure(KeyNotFound(name))
  }

  /** The text of `e` in front of the text of `t`; the first failure otherwise. */
  function Prepend(e: Result<string, TemplateError>, t: Result<string, TemplateError>): (r: Result<string, TemplateError>)
    ensures r.Success? <==> e.Success? && t.Success?
  {
    if e.Failure? then Failure(e.error) else if t.Failure? then t else Success(e.value + t.value)
  }

  lemma PrependAssoc(a: Result<string, TemplateError>, b: Result<string, TemplateError>, c: Result<string, TemplateError>)
    ensures Prepend(a, Prepend(b, c)) == Prepend(Prepend(a, b), c)
  {
    if a.Success? && b.Success? && c.Success? {
      assert a.value + (b.value + c.value) == (a.value + b.value) + c.value;
    }
  }

  lemma PrependNothing(t: Result<string, TemplateError>)
    ensures Prepend(Success([]), t) == t
  {
    if t.Success? {
      assert [] + t.value == t.value;
    }
  }

  /** Length of the `\{(\w+)\}` match at the start of `s`, 0 when there is none. */
  function GroupLen(s: string): (n: nat)
    ensures n > 0 ==> 3 <= n <= |s| && s[0] == '{' && s[n - 1] == '}'
    ensures n > 0 ==> forall j :: 1 <= j < n - 1 ==> IsWordChar(s[j])
  {
    if |s| > 0 && s[0] == '{' then
      var k := WordCharRun(s, 1);
      WordCharRunAll(s, 1);
      if k > 0 && 1 + k < |s| && s[1 + k] == '}' then k + 2 else 0
    else 0
  }

  /** The named reference `%<name>s`. */
  function Ref(name: string): (r: string)
    ensures |r| == |name| + 4 && r[0] == '%' && r[1] == '<' && r[|name| + 2] == '>' && r[|name| + 3] == 's'
    ensures r[2..|name| + 2] == name
  {
    ['%', '<'] + name + ['>', 's']
  }

  /** The replacement of one group: a `%<l>s` reference per letter. */
  function NamedRefs(letters: string): (r: string)
    ensures |r| == 5 * |letters|
    decreases |letters|
  {
    if |letters| == 0 then [] else Ref([letters[0]]) + NamedRefs(letters[1..])
  }

  /** The first letter's reference comes first. */
  lemma NamedRefsThen(letters: string, x: string)
    requires |letters| > 0
    ensures NamedRefs(letters) + x == Ref([letters[0]]) + (NamedRefs(letters[1..]) + x)
  {
    ConcatAssoc(Ref([letters[0]]), NamedRefs(letters[1..]), x);
  }

  /** The gsub of Color.template: every `{letters}` group becomes its `%<l>s` references; the
      other characters are copied. */
  function Braces(s: string): string
    decreases |s|
  {
    if |s| == 0 then []
    else
      var g := GroupLen(s);
      if g > 0 then NamedRefs(s[1..g - 1]) + Braces(s[g..])
      else [s[0]] + Braces(s[1..])
  }

  /** Index of the first `close` in `f` at or after `i`. */
  function NameEnd(f: string, i: nat, close: char): (r: Option<nat>)
    requires i <= |f|
    ensures r.Some? ==> i <= r.value < |f| && f[r.value] == close
    ensures r.Some? ==> forall j :: i <= j < r.value ==> f[j] != close
    ensures r.None? ==> forall j :: i <= j < |f| ==> f[j] != close
    decreases |f| - i
  {
    if i == |f| then None
    else if f[i] == close then Some(i)
    else NameEnd(f, i + 1, close)
  }

  /** Kernel#format with the colour hash as its one argument: `%%` is a literal '%',
      `%<name>s` and `%{name}` are the named key's escape, a name that is no key raises
      KeyError, and every other directive is an error. */
  function Format(f: string, coloring: bool): (r: Result<string, TemplateError>)
    decreases |f|
  {
    if |f| == 0 then Success([])
    else if f[0] != '%' then
      var rest :- Format(f[1..], coloring);
      Success([f[0]] + rest)
    else if |f| >= 2 && f[1] == '%' then
      var rest :- Format(f[2..], coloring);
      Success("%" + rest)
    else if |f| >= 2 && (f[1] == '<' || f[1] == '{') then
      var close := if f[1] == '<' then '>' else '}';
      match NameEnd(f, 2, close)
      case None => Failure(FormatDirective)
      case Some(j) =>
        var v :- KeyValue(f[2..j], coloring);
        if close == '}' then
          var rest :- Format(f[j + 1..], coloring);
          Success(v + rest)
        else if j + 1 < |f| && f[j + 1] == 's' then
          var rest :- Format(f[j + 2..], coloring);
          Success(v + rest)
        else Failure(FormatDirective)
    else Failure(FormatDirective)
  }

  /** Color.template on a string: Kernel#format over the gsub's output. */
  function Template(s: string, coloring: bool): Result<string, TemplateError> {
    Format(Braces(s), coloring)
  }

  /** Color.template's argument: a string, or an array whose elements are joined with spaces. */
  datatype TemplateInput = Text(text: string) | Parts(parts: seq<string>)

  function TemplateOf(input: TemplateInput, coloring: bool): Result<string, TemplateError> {
    match input
    case Text(t) => Template(t, coloring)
    case Parts(ps) => Template(Join(ps, " "), coloring)
  }

  /** The gsub replaces a group in front of the rest by the group's references. */
  lemma BracesGroup(letters: string, rest: string)
    requires |letters| > 0
    requires forall i :: 0 <= i < |letters| ==> IsWordChar(letters[i])
    ensures Braces("{" + letters + "}" + rest) == NamedRefs(letters) + Braces(rest)
  {
    var s := "{" + letters + "}" + rest;
    assert s[1..1 + |letters|] == letters;
    var k := WordCharRun(s, 1);
    assert k == |letters| by {
      WordCharRunFrom(s, 1, |letters|);
    }
    assert GroupLen(s) == |letters| + 2;
    assert s[|letters| + 2..] == rest;
  }

  /** Text without a '%' formats to itself. */
  lemma {:induction false} FormatPlain(f: string, coloring: bool)
    requires '%' !in f
    ensures Format(f, coloring) == Success(f)
    decreases |f|
  {
    if |f| > 0 {
      assert f[0] != '%';
      FormatPlain(f[1..], coloring);
      assert [f[0]] + f[1..] == f;
    }
  }

  /** Text without a '%' is copied in front of the rest's formatting. */
  lemma {:induction false} FormatPlainPrefix(a: string, x: string, coloring: bool)
    requires '%' !in a
    ensures Format(a + x, coloring) == Prepend(Success(a), Format(x, coloring))
    decreases |a|
  {
    if |a| == 0 {
      assert a + x == x;
      PrependNothing(Format(x, coloring));
    } else {
      FormatPlainPrefix(a[1..], x, coloring);
      FormatChar(a[0], a[1..] + x, coloring);
      ConsSplit(a, x);
      PrependAssoc(Success([a[0]]), Success(a[1..]), Format(x, coloring));
    }
  }

  /** Text without braces and percent signs is returned unchanged. */
  lemma TemplatePlain(s: string, coloring: bool)
    requires '{' !in s && '%' !in s
    ensures Template(s, coloring) == Success(s)
  {
    BracesPrefix(s, []);
    assert s + [] == s;
    FormatPlain(s, coloring);
  }

  /** The gsub copies a character that opens no group. */
  lemma BracesChar(c: char, x: string)
    requires c != '{'
    ensures Braces([c] + x) == [c] + Braces(x)
  {
    assert ([c] + x)[1..] == x;
  }

  /** Kernel#format copies a character other than '%'. */
  lemma FormatChar(c: char, x: string, coloring: bool)
    requires c != '%'
    ensures Format([c] + x, coloring) == Prepend(Success([c]), Format(x, coloring))
  {
    assert ([c] + x)[1..] == x;
  }

  /** `%%` is a literal '%'. */
  lemma FormatPercent(x: string, coloring: bool)
    ensures Format(['%', '%'] + x, coloring) == Prepend(Success("%"), Format(x, coloring))
  {
    assert (['%', '%'] + x)[2..] == x;
  }

  /** A reference `%<name>s` in front of `x` formats to the named key's escape, or raises
      KeyError for a name that is no key. */
  lemma FormatNamed(name: string, x: string, coloring: bool)
    requires '>' !in name
    ensures Format(Ref(name) + x, coloring) == Prepend(KeyValue(name, coloring), Format(x, coloring))
  {
    var s := Ref(name) + x;
    var j := |name| + 2;
    assert s[0] == '%' && s[1] == '<' && s[j] == '>' && s[j + 1] == 's';
    assert s[2..j] == name;
    assert forall k :: 2 <= k < j ==> s[k] == name[k - 2];
    NameEndAt(s, 2, j, '>');
    assert s[j + 2..] == x;
  }

  /** A reference `%{name}` formats to the named key's escape, or raises KeyError. */
  lemma FormatBraced(name: string, x: string, coloring: bool)
    requires '}' !in name
    ensures Format(['%', '{'] + name + ['}'] + x, coloring) == Prepend(KeyValue(name, coloring), Format(x, coloring))
  {
    var s := ['%', '{'] + name + ['}'] + x;
    var j := |name| + 2;
    assert s[0] == '%' && s[1] == '{' && s[j] == '}';
    assert s[2..j] == name;
    assert forall k :: 2 <= k < j ==> s[k] == name[k - 2];
    NameEndAt(s, 2, j, '}');
    assert s[j + 1..] == x;
  }

  /** The first `close` at or after `i` is found. */
  lemma NameEndAt(f: string, i: nat, j: nat, close: char)
    requires i <= j < |f| && f[j] == close
    requires forall k :: i <= k < j ==> f[k] != close
    ensures NameEnd(f, i, close) == Some(j)
  {
  }

  /** A group's references format to the group's escapes, in front of the rest. */
  lemma {:induction false} FormatRefs(letters: string, x: string, coloring: bool)
    requires forall i :: 0 <= i < |letters| ==> IsWordChar(letters[i])
    ensures Format(NamedRefs(letters) + x, coloring) == Prepend(GroupEscapes(letters, coloring), Format(x, coloring))
    decreases |letters|
  {
    if |letters| == 0 {
      assert NamedRefs(letters) + x == x;
      PrependNothing(Format(x, coloring));
    } else {
      FormatRefs(letters[1..], x, coloring);
      FormatNamed([letters[0]], NamedRefs(letters[1..]) + x, coloring);
      PrependAssoc(KeyValue([letters[0]], coloring), GroupEscapes(letters[1..], coloring), Format(x, coloring));
      NamedRefsThen(letters, x);
    }
  }

  /** A group of key letters expands to the letters' opening escapes, in order, in front of the
      rest of the expansion; the first letter that is no key raises KeyError. */
  lemma TemplateGroup(letters: string, rest: string, coloring: bool)
    requires |letters| > 0
    requires forall i :: 0 <= i < |letters| ==> IsWordChar(letters[i])
    ensures Template("{" + letters + "}" + rest, coloring) == Prepend(GroupEscapes(letters, coloring), Template(rest, coloring))
  {
    BracesGroup(letters, rest);
    FormatRefs(letters, Braces(rest), coloring);
  }

  /** The gsub copies text that holds no '{'. */
  lemma {:induction false} BracesPrefix(a: string, x: string)
    requires '{' !in a
    ensures Braces(a + x) == a + Braces(x)
    decreases |a|
  {
    if |a| > 0 {
      BracesPrefix(a[1..], x);
      BracesChar(a[0], a[1..] + x);
      ConsSplit(a, x);
      ConcatAssoc([a[0]], a[1..], Braces(x));
    } else {
      assert a + x == x && a + Braces(x) == Braces(x);
    }
  }

  /** `%{c}` is not a colour: the gsub turns it into `%%<c>s`, which formats to the literal
      text `%<c>s`. */
  lemma TemplatePercentBrace(c: char, rest: string, coloring: bool)
    requires IsWordChar(c)
    ensures Template(['%'] + ("{" + [c] + "}" + rest), coloring) == Prepend(Success(Ref([c])), Template(rest, coloring))
  {
    var tail := ['<', c, '>', 's'];
    var b := Braces(rest);
    BracesChar('%', "{" + [c] + "}" + rest);
    BracesGroup([c], rest);
    OneRef(c);
    ConcatAssoc(['%'], tail, b);
    DoublePercent(tail + b);
    FormatPercent(tail + b, coloring);
    FormatPlainPrefix(tail, b, coloring);
    PrependAssoc(Success("%"), Success(tail), Format(b, coloring));
  }

  /** A one-letter group's references are the one reference `%<c>s`. */
  lemma OneRef(c: char)
    ensures NamedRefs([c]) == Ref([c]) == ['%'] + ['<', c, '>', 's']
  {
    assert [c][1..] == [];
    assert Ref([c]) + [] == Ref([c]);
  }

  lemma DoublePercent(x: string)
    ensures ['%'] + (['%'] + x) == ['%', '%'] + x
  {
    ConcatAssoc(['%'], ['%'], x);
    assert ['%'] + ['%'] == ['%', '%'];
  }

  /** Written out, `%<c>s` is a reference to key c: its escape, or KeyError. */
  lemma TemplateNamedRef(c: char, rest: string, coloring: bool)
    requires IsWordChar(c)
    ensures Template(Ref([c]) + rest, coloring) == Prepend(KeyValue([c], coloring), Template(rest, coloring))
  {
    assert '{' !in Ref([c]) by {
      var r := Ref([c]);
      assert r[0] != '{' && r[1] != '{' && r[2] != '{' && r[3] != '{' && r[4] != '{';
    }
    BracesPrefix(Ref([c]), rest);
    FormatNamed([c], Braces(rest), coloring);
  }

  /** The first letter of a group that is no key raises KeyError. */
  lemma {:induction false} GroupEscapesUnknown(letters: string, i: nat, coloring: bool)
    requires i < |letters| && TemplateCode(letters[i]).None?
    requires forall k :: 0 <= k < i ==> TemplateCode(letters[k]).Some?
    ensures GroupEscapes(letters, coloring) == Failure(KeyNotFound([letters[i]]))
    decreases i
  {
    if i > 0 {
      GroupEscapesUnknown(letters[1..], i - 1, coloring);
    }
  }

  /** A '%' that starts no `%%`, `%<`, `%{` directive, a '%' at the end included, is an error. */
  lemma FormatMalformed(f: string, coloring: bool)
    requires |f| > 0 && f[0] == '%'
    requires |f| == 1 || (f[1] != '%' && f[1] != '<' && f[1] != '{')
    ensures Format(f, coloring) == Failure(FormatDirective)
  {
  }

  /** Every key letter yields its opening escape; with coloring off a group of keys vanishes. */
  lemma {:induction false} GroupEscapesKeys(letters: string, coloring: bool)
    requires forall i :: 0 <= i < |letters| ==> TemplateCode(letters[i]).Some?
    ensures GroupEscapes(letters, coloring).Success?
    ensures !coloring ==> GroupEscapes(letters, coloring) == Success([])
    ensures coloring && |letters| > 0 ==>
      GroupEscapes(letters, coloring).value[..|Open(TemplateCode(letters[0]).value)|] == Open(TemplateCode(letters[0]).value)
    decreases |letters|
  {
    if |letters| > 0 {
      GroupEscapesKeys(letters[1..], coloring);
      var code := TemplateCode(letters[0]).value;
      assert GroupEscapes(letters, coloring)
          == Success(Paint(code, None, coloring) + GroupEscapes(letters[1..], coloring).value);
      if !coloring {
        var none: string := [];
        assert Paint(code, None, coloring) == none;
        assert none + none == none;
      }
    }
  }
}
