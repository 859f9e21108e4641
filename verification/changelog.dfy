/** The changelog reader: the changelog text is split into changes at "### <version>" headers,
    a version query narrows the changes, a search replaces their entries, and the survivors are
    printed. Version comparison, entry search, entry parsing and the printing of one change
    belong to classes not modelled here and are parameters. */
module Changelog {

  import opened Wrappers
  import opened Strings

  /** One change: its version, its stripped body and its entries. */
  datatype Change = Change(version: string, content: string, entries: seq<string>)

  /** `b` keeps some elements of `a`, in their order. */
  predicate IsSubseq<T(==)>(b: seq<T>, a: seq<T>)
    decreases |a|
  {
    if |b| == 0 then true
    else if |a| == 0 then false
    else (b[0] == a[0] && IsSubseq(b[1..], a[1..])) || IsSubseq(b, a[1..])
  }

  lemma {:induction false} SubseqRefl<T>(a: seq<T>)
    ensures IsSubseq(a, a)
    decreases |a|
  {
    if |a| > 0 {
      SubseqRefl(a[1..]);
    }
  }

  lemma {:induction false} SubseqTrans<T>(c: seq<T>, b: seq<T>, a: seq<T>)
    requires IsSubseq(c, b) && IsSubseq(b, a)
    ensures IsSubseq(c, a)
    decreases |a|
  {
    if |c| > 0 && |a| > 0 {
      if b[0] == a[0] && IsSubseq(b[1..], a[1..]) {
        if c[0] == b[0] && IsSubseq(c[1..], b[1..]) {
          SubseqTrans(c[1..], b[1..], a[1..]);
        } else {
          SubseqTrans(c, b[1..], a[1..]);
        }
      } else {
        SubseqTrans(c, b, a[1..]);
      }
    }
  }

  lemma {:induction false} SubseqMembers<T>(b: seq<T>, a: seq<T>)
    requires IsSubseq(b, a)
    ensures forall x :: x in b ==> x in a
    decreases |a|
  {
    if |b| > 0 {
      if b[0] == a[0] && IsSubseq(b[1..], a[1..]) {
        SubseqMembers(b[1..], a[1..]);
        assert forall x :: x in b ==> x == b[0] || x in b[1..];
      } else {
        SubseqMembers(b, a[1..]);
      }
    }
  }

  // ---- Parsing -------------------------------------------------------------------------------

  /** Length of the version `\d+\.\d+\.\d+\w*` at the start of `u`: digits, '.', digits, '.',
      then the whole `\w` run, which must start with a digit. */
  function VersionLen(u: string): (r: Option<nat>)
    ensures r.Some? ==> 5 <= r.value <= |u|
    ensures r.Some? ==> r.value == |u| || !IsWordChar(u[r.value])
  {
    var d1 := DigitRun(u, 0);
    if d1 == 0 || d1 >= |u| || u[d1] != '.' then None
    else
      var d2 := DigitRun(u, d1 + 1);
      if d2 == 0 || d1 + 1 + d2 >= |u| || u[d1 + 1 + d2] != '.' then None
      else
        var i := d1 + 2 + d2;
        if i >= |u| || !IsDigit(u[i]) then None
        else Some(i + WordCharRun(u, i))
  }

  /** A version as the header pattern reads it, with nothing after it. */
  predicate IsVersion(v: string) {
    VersionLen(v) == Some(|v|)
  }

  lemma {:induction false} DigitRunPrefix(v: string, x: string, i: nat)
    requires i <= |v|
    requires i + DigitRun(v, i) < |v|
    ensures DigitRun(v + x, i) == DigitRun(v, i)
  {
    var n := DigitRun(v, i);
    DigitRunAll(v, i);
    assert forall j :: i <= j <= i + n ==> (v + x)[j] == v[j];
    DigitRunFrom(v + x, i, n);
  }

  lemma {:induction false} WordRunExtend(v: string, x: string, i: nat)
    requires i <= |v| && WordCharRun(v, i) == |v| - i
    requires |x| > 0 && !IsWordChar(x[0])
    ensures WordCharRun(v + x, i) == |v| - i
  {
    var u := v + x;
    WordCharRunAll(v, i);
    assert forall j :: i <= j < |v| ==> u[j] == v[j];
    assert u[|v|] == x[0];
    WordCharRunFrom(u, i, |v| - i);
  }

  /** The three numbers of a version: where the first two end. */
  lemma VersionParts(u: string) returns (d1: nat, d2: nat)
    requires VersionLen(u).Some?
    ensures 0 < d1 && 0 < d2 && d1 + 2 + d2 < |u|
    ensures DigitRun(u, 0) == d1 && u[d1] == '.'
    ensures DigitRun(u, d1 + 1) == d2 && u[d1 + 1 + d2] == '.'
    ensures IsDigit(u[d1 + 2 + d2])
    ensures VersionLen(u) == Some(d1 + 2 + d2 + WordCharRun(u, d1 + 2 + d2))
  {
    d1 := DigitRun(u, 0);
    d2 := DigitRun(u, d1 + 1);
  }

  /** The version matcher succeeds on a text with the shape of a version at its start. */
  lemma VersionFromParts(u: string, d1: nat, d2: nat)
    requires 0 < d1 && 0 < d2 && d1 + 2 + d2 < |u|
    requires DigitRun(u, 0) == d1 && u[d1] == '.'
    requires DigitRun(u, d1 + 1) == d2 && u[d1 + 1 + d2] == '.'
    requires IsDigit(u[d1 + 2 + d2])
    ensures VersionLen(u) == Some(d1 + 2 + d2 + WordCharRun(u, d1 + 2 + d2))
  {
  }

  /** The version reads the same when the text goes on with a non-word character. */
  lemma VersionLenExtend(v: string, x: string)
    requires IsVersion(v)
    requires |x| > 0 && !IsWordChar(x[0])
    ensures VersionLen(v + x) == Some(|v|)
  {
    var d1, d2 := VersionParts(v);
    ExtendParts(v, x, d1, d2);
    VersionFromParts(v + x, d1, d2);
  }

  lemma ExtendParts(v: string, x: string, d1: nat, d2: nat)
    requires 0 < d1 && 0 < d2 && d1 + 2 + d2 < |v|
    requires DigitRun(v, 0) == d1 && v[d1] == '.'
    requires DigitRun(v, d1 + 1) == d2 && v[d1 + 1 + d2] == '.'
    requires IsDigit(v[d1 + 2 + d2]) && WordCharRun(v, d1 + 2 + d2) == |v| - (d1 + 2 + d2)
    requires |x| > 0 && !IsWordChar(x[0])
    ensures var u := v + x;
      && DigitRun(u, 0) == d1 && u[d1] == '.'
      && DigitRun(u, d1 + 1) == d2 && u[d1 + 1 + d2] == '.'
      && IsDigit(u[d1 + 2 + d2]) && WordCharRun(u, d1 + 2 + d2) == |v| - (d1 + 2 + d2)
  {
    DigitRunPrefix(v, x, 0);
    DigitRunPrefix(v, x, d1 + 1);
    WordRunExtend(v, x, d1 + 2 + d2);
  }

  /** `t` starts with "### ". */
  predicate HeaderMark(t: string) {
    |t| >= 4 && t[0] == '#' && t[1] == '#' && t[2] == '#' && t[3] == ' '
  }

  /** `(?<=\n|\A)### <version>` at the start of `t` (the look-behind is checked by the caller):
      the position where the version ends. */
  function HeaderEnd(t: string): (r: Option<nat>)
    ensures r.Some? ==> 9 <= r.value <= |t| && HeaderMark(t)
  {
    if HeaderMark(t) then
      match VersionLen(t[4..])
      case None => None
      case Some(n) => Some(4 + n)
    else None
  }

  /** "\n### " starts at `q`. */
  predicate HeaderAt(t: string, q: nat) {
    q + 5 <= |t| && t[q] == '\n' && t[q + 1] == '#' && t[q + 2] == '#' && t[q + 3] == '#' && t[q + 4] == ' '
  }

  /** `(?=\n### |\Z)` holds at `q`: another header follows, or only a final line feed or nothing
      is left. */
  predicate StopAt(t: string, q: nat) {
    HeaderAt(t, q) || q == |t| || (q + 1 == |t| && t[q] == '\n')
  }

  /** The lazy `(.*?)` with /m: the first stop at or after `e`. */
  function BodyEnd(t: string, e: nat): (q: nat)
    requires e <= |t|
    ensures e <= q <= |t|
    decreases |t| - e
  {
    if StopAt(t, e) then e else BodyEnd(t, e + 1)
  }

  /** The body ends at the first position where the look-ahead holds. */
  lemma {:induction false} BodyEndFirst(t: string, e: nat)
    requires e <= |t|
    ensures StopAt(t, BodyEnd(t, e))
    ensures forall j :: e <= j < BodyEnd(t, e) ==> !StopAt(t, j)
    decreases |t| - e
  {
    if !StopAt(t, e) {
      BodyEndFirst(t, e + 1);
    }
  }

  /** One step of `@content.scan(change_rx)` on the rest `t` of the text; `lineStart` says
      whether the look-behind `(?<=\n|\A)` holds at its start. Where a header matches, the step
      yields the two captures, version and body, and moves to the end of the body; elsewhere it
      moves on by one character. */
  function Step(t: string, lineStart: bool): (r: (seq<(string, string)>, nat))
    requires |t| > 0
    ensures 0 < r.1 <= |t|
  {
    if lineStart && HeaderEnd(t).Some? then
      var e := HeaderEnd(t).value;
      var q := BodyEnd(t, e);
      ([(t[4..e], t[e..q])], q)
    else ([], 1)
  }

  /** `@content.scan(change_rx)`: the changes found in `t`, in order. */
  function Scan(t: string, lineStart: bool): seq<(string, string)>
    decreases |t|
  {
    if |t| == 0 then []
    else
      var (found, n) := Step(t, lineStart);
      found + Scan(t[n..], t[n - 1] == '\n')
  }

  /** Every version captured is well formed. */
  predicate WellFormed(items: seq<(string, string)>) {
    forall i :: 0 <= i < |items| ==> IsVersion(items[i].0)
  }

  lemma WellFormedConcat(a: seq<(string, string)>, b: seq<(string, string)>)
    requires WellFormed(a) && WellFormed(b)
    ensures WellFormed(a + b)
  {
    forall i | 0 <= i < |a + b| ensures IsVersion((a + b)[i].0) {
      if i < |a| {
        assert (a + b)[i] == a[i];
      } else {
        assert (a + b)[i] == b[i - |a|];
      }
    }
  }

  /** What one step finds is well formed. */
  lemma StepShape(t: string, lineStart: bool)
    requires |t| > 0
    ensures WellFormed(Step(t, lineStart).0)
  {
    if lineStart && HeaderEnd(t).Some? {
      var e := HeaderEnd(t).value;
      var q := BodyEnd(t, e);
      StepMatch(t, e);
      HeaderVersion(t, e);
    }
  }

  /** The version read by a header is a version on its own. */
  lemma HeaderVersion(t: string, e: nat)
    requires HeaderEnd(t) == Some(e)
    ensures IsVersion(t[4..e])
  {
    VersionLenPrefix(t[4..], e - 4);
    assert t[4..][..e - 4] == t[4..e];
  }

  lemma {:induction false} ScanShape(t: string, lineStart: bool)
    ensures WellFormed(Scan(t, lineStart))
    decreases |t|
  {
    if |t| > 0 {
      var (found, n) := Step(t, lineStart);
      ScanUnfold(t, lineStart);
      StepShape(t, lineStart);
      ScanShape(t[n..], t[n - 1] == '\n');
      WellFormedConcat(found, Scan(t[n..], t[n - 1] == '\n'));
    }
  }

  /** What the version matcher accepts is a version on its own. */
  lemma VersionLenPrefix(u: string, n: nat)
    requires VersionLen(u) == Some(n)
    ensures IsVersion(u[..n])
  {
    var d1, d2 := VersionParts(u);
    PrefixParts(u, n, d1, d2);
    VersionFromParts(u[..n], d1, d2);
  }

  /** The parts of a version survive cutting the text after the version. */
  lemma PrefixParts(u: string, n: nat, d1: nat, d2: nat)
    requires 0 < d1 && 0 < d2 && d1 + 2 + d2 < |u|
    requires DigitRun(u, 0) == d1 && u[d1] == '.'
    requires DigitRun(u, d1 + 1) == d2 && u[d1 + 1 + d2] == '.'
    requires IsDigit(u[d1 + 2 + d2]) && n == d1 + 2 + d2 + WordCharRun(u, d1 + 2 + d2)
    ensures var v := u[..n];
      && d1 + 2 + d2 < |v|
      && DigitRun(v, 0) == d1 && v[d1] == '.'
      && DigitRun(v, d1 + 1) == d2 && v[d1 + 1 + d2] == '.'
      && IsDigit(v[d1 + 2 + d2]) && WordCharRun(v, d1 + 2 + d2) == n - (d1 + 2 + d2)
  {
    var i := d1 + 2 + d2;
    DigitRunOfPrefix(u, n, 0);
    DigitRunOfPrefix(u, n, d1 + 1);
    WordCharRunOfPrefix(u, n, i);
  }

  lemma DigitRunOfPrefix(u: string, n: nat, i: nat)
    requires i <= n <= |u| && i + DigitRun(u, i) < n
    ensures DigitRun(u[..n], i) == DigitRun(u, i)
  {
    var k := DigitRun(u, i);
    var v := u[..n];
    DigitRunAll(u, i);
    assert forall j :: i <= j <= i + k ==> v[j] == u[j];
    DigitRunFrom(v, i, k);
  }

  lemma WordCharRunOfPrefix(u: string, n: nat, i: nat)
    requires i <= n <= |u| && i + WordCharRun(u, i) == n
    ensures WordCharRun(u[..n], i) == n - i
  {
    var v := u[..n];
    WordCharRunAll(u, i);
    assert forall j :: i <= j < n ==> v[j] == u[j];
    WordCharRunFrom(v, i, n - i);
  }

  /** Changes#parse_changes: a change per header, with the stripped body as its content and
      the entries read from it. */
  function ParseChanges(content: string, entriesOf: string -> seq<string>): (r: seq<Change>)
    ensures |r| == |Scan(content, true)|
    ensures forall i :: 0 <= i < |r| ==> IsVersion(r[i].version)
    ensures forall i :: 0 <= i < |r| && |r[i].content| > 0 ==>
      !IsStripChar(r[i].content[0]) && !IsStripChar(r[i].content[|r[i].content| - 1])
  {
    ScanShape(content, true);
    ChangesOf(Scan(content, true), entriesOf)
  }

  function ChangesOf(found: seq<(string, string)>, entriesOf: string -> seq<string>): (r: seq<Change>)
    requires WellFormed(found)
    ensures |r| == |found|
    ensures forall i :: 0 <= i < |r| ==> r[i] == NewChange(found[i].0, found[i].1, entriesOf)
    ensures forall i :: 0 <= i < |r| ==> IsVersion(r[i].version)
  {
    seq(|found|, i requires 0 <= i < |found| => NewChange(found[i].0, found[i].1, entriesOf))
  }

  /** `Change.new(m[0], m[1].strip)`: the content is the captured body without surrounding
      whitespace. */
  function NewChange(version: string, body: string, entriesOf: string -> seq<string>): (c: Change)
    ensures c.version == version && |c.content| <= |body|
    ensures |c.content| > 0 ==> !IsStripChar(c.content[0]) && !IsStripChar(c.content[|c.content| - 1])
  {
    var content := Strip(body);
    Change(version, content, entriesOf(content))
  }

  /** A well-formed changelog: each change written as "### <version>", a line feed, its body and
      a line feed. */
  function Document(items: seq<(string, string)>): string
    decreases |items|
  {
    if |items| == 0 then [] else Entry(items[0].0, items[0].1) + Document(items[1..])
  }

  function Entry(v: string, b: string): string {
    "### " + v + "\n" + b + "\n"
  }

  /** A body that can be written back: stripped, and with no line that starts with "### ". */
  predicate WritableBody(b: string) {
    Strip(b) == b && forall j :: 0 <= j < |b| + 1 ==> !HeaderAt("\n" + b, j)
  }

  /** Round trip: parsing a well-formed changelog gives back its versions and bodies, in
      document order. */
  lemma ParseDocument(items: seq<(string, string)>, entriesOf: string -> seq<string>)
    requires forall i :: 0 <= i < |items| ==> IsVersion(items[i].0) && WritableBody(items[i].1)
    ensures var r := ParseChanges(Document(items), entriesOf);
      && |r| == |items|
      && forall i :: 0 <= i < |r| ==>
        r[i] == Change(items[i].0, items[i].1, entriesOf(items[i].1))
  {
    ScanDocument(items);
    var found := Scan(Document(items), true);
    forall i | 0 <= i < |items| ensures found[i] == (items[i].0, "\n" + items[i].1) && Strip(found[i].1) == items[i].1 {
      CapturesAt(items, i);
      StripLeadingBreak(items[i].1);
    }
  }

  /** What the scan captures from a document: each version, and its body after the line feed
      that ends the header. */
  function Captures(items: seq<(string, string)>): (r: seq<(string, string)>)
    ensures |r| == |items|
    decreases |items|
  {
    if |items| == 0 then [] else [(items[0].0, "\n" + items[0].1)] + Captures(items[1..])
  }

  lemma {:induction false} CapturesAt(items: seq<(string, string)>, i: nat)
    requires i < |items|
    ensures Captures(items)[i] == (items[i].0, "\n" + items[i].1)
    decreases i
  {
    if i > 0 {
      CapturesAt(items[1..], i - 1);
    }
  }

  lemma {:induction false} ScanDocument(items: seq<(string, string)>)
    requires forall i :: 0 <= i < |items| ==> IsVersion(items[i].0) && WritableBody(items[i].1)
    ensures Scan(Document(items), true) == Captures(items)
    decreases |items|
  {
    if |items| > 0 {
      var rest := Document(items[1..]);
      ScanDocument(items[1..]);
      DocumentStart(items[1..]);
      ScanEntry(items[0].0, items[0].1, rest);
    }
  }

  /** A non-empty document starts with a header. */
  lemma DocumentStart(items: seq<(string, string)>)
    ensures var d := Document(items); |d| == 0 || HeaderMark(d)
  {
    if |items| > 0 {
      var d := Document(items);
      var en := Entry(items[0].0, items[0].1);
      assert d == en + Document(items[1..]);
      assert en[0] == '#' && en[1] == '#' && en[2] == '#' && en[3] == ' ';
    }
  }

  /** One entry is read back, and the scan goes on with what follows it. */
  lemma ScanEntry(v: string, b: string, rest: string)
    requires IsVersion(v) && WritableBody(b)
    requires |rest| == 0 || HeaderMark(rest)
    ensures Scan(Entry(v, b) + rest, true) == [(v, "\n" + b)] + Scan(rest, true)
  {
    EntryLayout(v, b, rest);
    ScanLaidOut(Entry(v, b) + rest, v, b, rest);
  }

  /** `t` holds the entry for `v` and `b`, followed by `rest`. */
  predicate LaidOut(t: string, v: string, b: string, rest: string) {
    var e := 4 + |v|;
    var q := e + 1 + |b|;
    && |t| == q + 1 + |rest|
    && HeaderMark(t) && t[4..e] == v && t[e..q] == "\n" + b && t[q..] == "\n" + rest
  }

  lemma ScanLaidOut(t: string, v: string, b: string, rest: string)
    requires IsVersion(v) && WritableBody(b)
    requires |rest| == 0 || HeaderMark(rest)
    requires LaidOut(t, v, b, rest)
    ensures Scan(t, true) == [(v, "\n" + b)] + Scan(rest, true)
  {
    var e := 4 + |v|;
    var q := e + 1 + |b|;
    HeaderOfEntry(t, v, b, rest);
    BodyEndBeforeBreak(t, e, q, b, rest);
    ScanHeaderStep(t, e, q, v, "\n" + b, rest);
  }

  /** A header step followed by a line feed: the scan resumes at the next line start. */
  lemma ScanHeaderStep(t: string, e: nat, q: nat, v: string, body: string, tail: string)
    requires HeaderEnd(t) == Some(e) && q <= |t| && BodyEnd(t, e) == q
    requires t[4..e] == v && t[e..q] == body && t[q..] == "\n" + tail
    ensures Scan(t, true) == [(v, body)] + Scan(tail, true)
  {
    ScanMatch(t, e);
    ScanSkipBreak(tail, t[q - 1] == '\n');
  }

  /** One step of the scan at a line start where a header matches. */
  lemma ScanMatch(t: string, e: nat)
    requires HeaderEnd(t) == Some(e)
    ensures var q := BodyEnd(t, e);
      Scan(t, true) == [(t[4..e], t[e..q])] + Scan(t[q..], t[q - 1] == '\n')
  {
    StepMatch(t, e);
    ScanUnfold(t, true);
  }

  lemma StepMatch(t: string, e: nat)
    requires HeaderEnd(t) == Some(e)
    ensures var q := BodyEnd(t, e); Step(t, true) == ([(t[4..e], t[e..q])], q)
  {
  }

  lemma ScanUnfold(t: string, lineStart: bool)
    requires |t| > 0
    ensures var (found, n) := Step(t, lineStart); Scan(t, lineStart) == found + Scan(t[n..], t[n - 1] == '\n')
  {
  }

  lemma HeaderOfEntry(t: string, v: string, b: string, rest: string)
    requires IsVersion(v) && LaidOut(t, v, b, rest)
    ensures HeaderEnd(t) == Some(4 + |v|)
  {
    var x := "\n" + b + "\n" + rest;
    LaidOutAfterMark(t, v, b, rest);
    VersionLenExtend(v, x);
  }

  lemma LaidOutAfterMark(t: string, v: string, b: string, rest: string)
    requires LaidOut(t, v, b, rest)
    ensures t[4..] == v + ("\n" + b + "\n" + rest)
  {
    var e := 4 + |v|;
    var q := e + 1 + |b|;
    assert t[4..] == t[4..e] + t[e..q] + t[q..];
  }

  /** A scan positioned on a line feed skips it and resumes at a line start. */
  lemma ScanSkipBreak(rest: string, lineStart: bool)
    ensures Scan("\n" + rest, lineStart) == Scan(rest, true)
  {
    var t := "\n" + rest;
    assert t[1..] == rest;
    if |t| >= 4 {
      assert t[..4][0] == '\n';
    }
    assert HeaderEnd(t).None?;
    assert Step(t, lineStart) == ([], 1);
  }

  lemma StripLeadingBreak(b: string)
    requires Strip(b) == b
    ensures Strip("\n" + b) == b
  {
    var s := "\n" + b;
    assert s[1..] == b;
    assert LStrip(s) == LStrip(b);
    if |b| > 0 {
      assert LStrip(b) == b;
    }
  }

  /** Where the parts of an entry lie in a document. */
  lemma EntryLayout(v: string, b: string, rest: string)
    ensures LaidOut(Entry(v, b) + rest, v, b, rest)
  {
  }

  /** In a document the body after a header runs exactly to the line feed before the next
      header, or to the final line feed. */
  lemma BodyEndBeforeBreak(t: string, e: nat, q: nat, b: string, rest: string)
    requires WritableBody(b)
    requires e <= q < |t| && t[e..q] == "\n" + b && t[q..] == "\n" + rest
    requires |rest| == 0 || HeaderMark(rest)
    ensures BodyEnd(t, e) == q
  {
    assert t[q] == '\n';
    NoHeaderInside(t, e, q, "\n" + b);
    NoStopBefore(t, e, q);
    assert StopAt(t, q) by {
      if |rest| == 0 {
        assert q + 1 == |t|;
      } else {
        assert t[q + 1..] == rest;
        assert t[q + 1] == rest[0] && t[q + 2] == rest[1] && t[q + 3] == rest[2] && t[q + 4] == rest[3];
      }
    }
    BodyEndIs(t, e, q);
  }

  /** No "\n### " starts inside a text copied from one that has none, unless it runs past it. */
  lemma NoHeaderInside(t: string, e: nat, q: nat, nb: string)
    requires e <= q <= |t| && t[e..q] == nb
    requires forall j :: 0 <= j < |nb| ==> !HeaderAt(nb, j)
    ensures forall j :: e <= j && j + 5 <= q ==> !HeaderAt(t, j)
  {
    forall j | e <= j && j + 5 <= q ensures !HeaderAt(t, j) {
      assert !HeaderAt(nb, j - e);
      assert nb[j - e] == t[j] && nb[j - e + 1] == t[j + 1] && nb[j - e + 2] == t[j + 2];
      assert nb[j - e + 3] == t[j + 3] && nb[j - e + 4] == t[j + 4];
    }
  }

  /** Before a line feed at `q` no stop is possible except a header wholly before `q`. */
  lemma NoStopBefore(t: string, e: nat, q: nat)
    requires e <= q < |t| && t[q] == '\n'
    requires forall j :: e <= j && j + 5 <= q ==> !HeaderAt(t, j)
    ensures forall j :: e <= j < q ==> !StopAt(t, j)
  {
  }

  /** The first stop is where the scan of stops says it is. */
  lemma {:induction false} BodyEndIs(t: string, e: nat, q: nat)
    requires e <= q <= |t|
    requires StopAt(t, q)
    requires forall j :: e <= j < q ==> !StopAt(t, j)
    ensures BodyEnd(t, e) == q
    decreases q - e
  {
    if e < q {
      BodyEndIs(t, e + 1, q);
    }
  }

  // ---- Queries -------------------------------------------------------------------------------

  /** Which versions a query asks for, relative to the queried version. */
  datatype Direction = Older | Newer | Equal

  predicate Contains(s: string, pat: string) {
    Find(s, pat).Some?
  }

  /** The direction of a single query: `/(<|prior|before|older)/` first, then
      `/>|since|after|newer/`, else equality. */
  function DirectionOf(q: string): (d: Direction)
    ensures d == Older <==> Contains(q, "<") || Contains(q, "prior") || Contains(q, "before") || Contains(q, "older")
    ensures d == Equal ==> !Contains(q, ">") && !Contains(q, "since") && !Contains(q, "after") && !Contains(q, "newer")
  {
    if Contains(q, "<") || Contains(q, "prior") || Contains(q, "before") || Contains(q, "older") then Older
    else if Contains(q, ">") || Contains(q, "since") || Contains(q, "after") || Contains(q, "newer") then Newer
    else Equal
  }

  predicate IsNumChar(c: char) {
    IsDigit(c) || c == '.'
  }

  /** A non-empty run of digits and dots, as `[\d.]+` matches. */
  predicate IsNumber(a: string) {
    |a| > 0 && forall j :: 0 <= j < |a| ==> IsNumChar(a[j])
  }

  /** Length of the `[\d.]` run at `i`. */
  function NumRun(s: string, i: nat): (n: nat)
    requires i <= |s|
    ensures i + n <= |s|
    ensures forall j :: i <= j < i + n ==> IsNumChar(s[j])
    decreases |s| - i
  {
    if i < |s| && IsNumChar(s[i]) then 1 + NumRun(s, i + 1) else 0
  }

  /** Length of the run of the character `c` at `i`. */
  function CharRun(s: string, i: nat, c: char): (n: nat)
    requires i <= |s|
    ensures i + n <= |s|
    ensures forall j :: i <= j < i + n ==> s[j] == c
    decreases |s| - i
  {
    if i < |s| && s[i] == c then 1 + CharRun(s, i + 1, c) else 0
  }

  /** `([\d.]+) *-+ *([\d.]+)` matched from `p`. Each part is greedy and no shorter choice can
      help, because the next part starts with a different character. */
  function RangeAt(q: string, p: nat): (r: Option<(string, string)>)
    requires p <= |q|
    ensures r.Some? ==> '-' in q && IsNumber(r.value.0) && IsNumber(r.value.1)
  {
    var a := NumRun(q, p);
    var s1 := CharRun(q, p + a, ' ');
    var d := CharRun(q, p + a + s1, '-');
    var j := p + a + s1 + d;
    var s2 := CharRun(q, j, ' ');
    var b := NumRun(q, j + s2);
    if a == 0 || d == 0 || b == 0 then None
    else
      assert q[p + a + s1] == '-';
      Some((q[p..p + a], q[j + s2..j + s2 + b]))
  }

  /** The leftmost range match. */
  function RangeFrom(q: string, p: nat): (r: Option<(string, string)>)
    requires p <= |q|
    ensures r.Some? ==> '-' in q && IsNumber(r.value.0) && IsNumber(r.value.1)
    decreases |q| - p
  {
    if RangeAt(q, p).Some? then RangeAt(q, p)
    else if p == |q| then None
    else RangeFrom(q, p + 1)
  }

  function CountAngles(s: string): (n: nat)
    ensures n <= |s|
    decreases |s|
  {
    if |s| == 0 then 0 else (if s[0] == '<' || s[0] == '>' then 1 else 0) + CountAngles(s[1..])
  }

  /** A "[<>] version" sub-query, as produced by a range or found by `scan(/[<>] [\d.]+/)`. */
  predicate IsSubQuery(q: string) {
    |q| >= 3 && (q[0] == '<' || q[0] == '>') && q[1] == ' ' && forall j :: 2 <= j < |q| ==> IsNumChar(q[j])
  }

  /** The query for one bound of a range: "> A" or "< B". */
  lemma BoundQuery(c: char, a: string)
    requires (c == '<' || c == '>') && IsNumber(a)
    ensures IsSubQuery([c, ' '] + a)
  {
    var q := [c, ' '] + a;
    assert forall j :: 2 <= j < |q| ==> q[j] == a[j - 2];
  }

  /** `lookup_version.scan(/[<>] [\d.]+/)` from position `i`: non-overlapping, left to right. */
  function SubQueries(q: string, i: nat): (r: seq<string>)
    requires i <= |q|
    ensures forall k :: 0 <= k < |r| ==> IsSubQuery(r[k])
    decreases |q| - i
  {
    if i + 2 < |q| && (q[i] == '<' || q[i] == '>') && q[i + 1] == ' ' && NumRun(q, i + 2) > 0 then
      var n := NumRun(q, i + 2);
      [q[i..i + 2 + n]] + SubQueries(q, i + 2 + n)
    else if i == |q| then []
    else SubQueries(q, i + 1)
  }

  /** A sub-query is neither a range nor a multi-bound query, so lookup takes its single-query
      branch; its direction follows its bound. */
  lemma SubQueryIsSingle(q: string)
    requires IsSubQuery(q)
    ensures RangeFrom(q, 0).None?
    ensures CountAngles(q) == 1
    ensures DirectionOf(q) == if q[0] == '<' then Older else Newer
  {
    SubQueryNoRange(q);
    SubQueryOneAngle(q);
    SubQueryDirection(q);
  }

  lemma SubQueryNoRange(q: string)
    requires IsSubQuery(q)
    ensures RangeFrom(q, 0).None?
  {
    assert forall j :: 0 <= j < |q| ==> q[j] != '-';
  }

  lemma SubQueryOneAngle(q: string)
    requires IsSubQuery(q)
    ensures CountAngles(q) == 1
  {
    assert q[1..][1..] == q[2..];
    NoAngles(q[2..]);
  }

  lemma SubQueryDirection(q: string)
    requires IsSubQuery(q)
    ensures DirectionOf(q) == if q[0] == '<' then Older else Newer
  {
    assert Contains(q, "<") <==> q[0] == '<' by {
      if q[0] == '<' {
        assert OccursAt(q, "<", 0);
      } else {
        forall i | 0 <= i < |q| ensures !OccursAt(q, "<", i) {
          assert q[i..i + 1] == [q[i]];
        }
      }
    }
    assert !Contains(q, "prior") && !Contains(q, "before") && !Contains(q, "older") by {
      NoWordIn(q, "prior");
      NoWordIn(q, "before");
      NoWordIn(q, "older");
    }
    if q[0] == '>' {
      assert OccursAt(q, ">", 0);
    }
  }

  lemma NoWordIn(q: string, w: string)
    requires IsSubQuery(q)
    requires |w| >= 2 && IsLower(w[0]) && IsLower(w[1])
    ensures !Contains(q, w)
  {
    forall i | 0 <= i ensures !OccursAt(q, w, i) {
      if i + |w| <= |q| {
        assert q[i..i + |w|][1] == q[i + 1];
        assert q[i + 1] == ' ' || IsNumChar(q[i + 1]);
        assert q[i..i + |w|][1] != w[1];
      }
    }
  }

  lemma {:induction false} NoAngles(s: string)
    requires forall j :: 0 <= j < |s| ==> IsNumChar(s[j])
    ensures CountAngles(s) == 0
    decreases |s|
  {
    if |s| > 0 {
      NoAngles(s[1..]);
    }
  }

  /** How far a query is from the single-query branch: 1 for range and multi-bound queries. */
  function QueryRank(q: string): nat {
    if RangeFrom(q, 0).Some? || CountAngles(q) > 1 then 1 else 0
  }

  /** `@changes.select! { |change| change.version.compare(version, comp) }`. */
  function Select(cs: seq<Change>, q: string, dir: Direction, compare: (string, string, Direction) -> bool): (r: seq<Change>)
    ensures IsSubseq(r, cs)
    ensures forall c :: c in r <==> c in cs && compare(c.version, q, dir)
    decreases |cs|
  {
    if |cs| == 0 then []
    else
      var rest := Select(cs[1..], q, dir, compare);
      if compare(cs[0].version, q, dir) then [cs[0]] + rest else rest
  }

  /** Selecting works change by change: the kept changes of a list are those of its first part
      followed by those of the rest, so their order and repetitions are the list's. */
  lemma {:induction false} SelectAppend(a: seq<Change>, b: seq<Change>, q: string, dir: Direction, compare: (string, string, Direction) -> bool)
    ensures Select(a + b, q, dir, compare) == Select(a, q, dir, compare) + Select(b, q, dir, compare)
    decreases |a|
  {
    if |a| > 0 {
      assert (a + b)[0] == a[0] && (a + b)[1..] == a[1..] + b;
      SelectAppend(a[1..], b, q, dir, compare);
    } else {
      assert a + b == b;
    }
  }

  /** One change is kept exactly when it compares true. */
  lemma SelectOne(c: Change, q: string, dir: Direction, compare: (string, string, Direction) -> bool)
    ensures Select([c], q, dir, compare) == if compare(c.version, q, dir) then [c] else []
  {
    assert [c][1..] == [];
  }

  /** Every change that compares true is kept as many times as it occurs; no other is kept. */
  lemma {:induction false} SelectCount(cs: seq<Change>, q: string, dir: Direction, compare: (string, string, Direction) -> bool)
    ensures forall c :: multiset(Select(cs, q, dir, compare))[c]
                        == if compare(c.version, q, dir) then multiset(cs)[c] else 0
    decreases |cs|
  {
    if |cs| > 0 {
      SelectCount(cs[1..], q, dir, compare);
      assert cs == [cs[0]] + cs[1..];
    }
  }

  /** Changes#lookup. A range runs "> A" and then "< B"; a query with more than one angle runs
      each of its sub-queries in turn; any other query keeps the changes whose version compares
      to it in the query's direction. */
  function Lookup(cs: seq<Change>, q: string, compare: (string, string, Direction) -> bool): (r: seq<Change>)
    ensures IsSubseq(r, cs)
    decreases QueryRank(q), 0
  {
    match RangeFrom(q, 0)
    case Some((a, b)) =>
      BoundQuery('>', a);
      BoundQuery('<', b);
      SubQueryIsSingle("> " + a);
      SubQueryIsSingle("< " + b);
      var newer := Lookup(cs, "> " + a, compare);
      var both := Lookup(newer, "< " + b, compare);
      SubseqTrans(both, newer, cs);
      both
    case None =>
      if CountAngles(q) > 1 then LookupEach(cs, SubQueries(q, 0), compare)
      else Select(cs, q, DirectionOf(q), compare)
  }

  /** `params.each { |query| lookup(query) }`. */
  function LookupEach(cs: seq<Change>, queries: seq<string>, compare: (string, string, Direction) -> bool): (r: seq<Change>)
    requires forall k :: 0 <= k < |queries| ==> IsSubQuery(queries[k])
    ensures IsSubseq(r, cs)
    decreases 0, |queries|
  {
    if |queries| == 0 then
      SubseqRefl(cs);
      cs
    else
      SubQueryIsSingle(queries[0]);
      var first := Lookup(cs, queries[0], compare);
      var r := LookupEach(first, queries[1..], compare);
      SubseqTrans(r, first, cs);
      r
  }

  /** A range query is the "> A" query followed by the "< B" query, with the directions the
      bounds give them. */
  lemma LookupRange(cs: seq<Change>, q: string, a: string, b: string, compare: (string, string, Direction) -> bool)
    requires RangeFrom(q, 0) == Some((a, b))
    ensures Lookup(cs, q, compare)
         == Select(Select(cs, "> " + a, Newer, compare), "< " + b, Older, compare)
  {
    BoundQuery('>', a);
    BoundQuery('<', b);
    SubQueryIsSingle("> " + a);
    SubQueryIsSingle("< " + b);
  }

  /** A multi-bound query without a range applies its sub-queries one after another. */
  lemma LookupMulti(cs: seq<Change>, q: string, compare: (string, string, Direction) -> bool)
    requires RangeFrom(q, 0).None? && CountAngles(q) > 1
    ensures Lookup(cs, q, compare) == LookupEach(cs, SubQueries(q, 0), compare)
  {
  }

  /** A single query keeps exactly the changes that compare in its direction. */
  lemma LookupSingle(cs: seq<Change>, q: string, compare: (string, string, Direction) -> bool)
    requires RangeFrom(q, 0).None? && CountAngles(q) <= 1
    ensures forall c :: c in Lookup(cs, q, compare) <==> c in cs && compare(c.version, q, DirectionOf(q))
    ensures forall c :: multiset(Lookup(cs, q, compare))[c]
                        == if compare(c.version, q, DirectionOf(q)) then multiset(cs)[c] else 0
  {
    SelectCount(cs, q, DirectionOf(q), compare);
  }

  /** Changes#search: each change's entries become its search result; changes without a result
      are dropped. */
  function Search(cs: seq<Change>, query: string, searchEntries: (Change, string) -> Option<seq<string>>): (r: seq<Change>)
    ensures |r| <= |cs|
    ensures forall c :: c in cs && searchEntries(c, query).Some? ==> c.(entries := searchEntries(c, query).value) in r
    ensures forall x :: x in r ==> exists c :: c in cs && searchEntries(c, query) == Some(x.entries) && x == c.(entries := x.entries)
    decreases |cs|
  {
    if |cs| == 0 then []
    else
      var rest := Search(cs[1..], query, searchEntries);
      assert forall c :: c in cs[1..] ==> c in cs;
      match searchEntries(cs[0], query)
      case None => rest
      case Some(e) => [cs[0].(entries := e)] + rest
  }

  function Headers(cs: seq<Change>): (r: seq<(string, string)>)
    ensures |r| == |cs|
    decreases |cs|
  {
    if |cs| == 0 then [] else [(cs[0].version, cs[0].content)] + Headers(cs[1..])
  }

  /** Searching only removes changes: versions and bodies of the survivors keep their order. */
  lemma {:induction false} SearchKeepsOrder(cs: seq<Change>, query: string, searchEntries: (Change, string) -> Option<seq<string>>)
    ensures IsSubseq(Headers(Search(cs, query, searchEntries)), Headers(cs))
    decreases |cs|
  {
    if |cs| > 0 {
      SearchKeepsOrder(cs[1..], query, searchEntries);
      var rest := Search(cs[1..], query, searchEntries);
      assert Headers(cs)[1..] == Headers(cs[1..]);
      match searchEntries(cs[0], query)
      case None =>
        var hr := Headers(rest);
        if |hr| > 0 {
          assert IsSubseq(hr, Headers(cs)[1..]);
        }
      case Some(e) =>
        var x := [cs[0].(entries := e)] + rest;
        assert x[1..] == rest;
        assert Headers(x)[1..] == Headers(rest);
    }
  }

  /** Dropping changes keeps the order of the survivors' versions and bodies. */
  lemma {:induction false} SubseqHeaders(b: seq<Change>, a: seq<Change>)
    requires IsSubseq(b, a)
    ensures IsSubseq(Headers(b), Headers(a))
    decreases |a|
  {
    if |b| > 0 {
      assert Headers(a)[1..] == Headers(a[1..]);
      if b[0] == a[0] && IsSubseq(b[1..], a[1..]) {
        SubseqHeaders(b[1..], a[1..]);
        assert Headers(b)[1..] == Headers(b[1..]);
      } else {
        SubseqHeaders(b, a[1..]);
      }
    }
  }

  /** Changes.new with its `lookup:` and `search:` options: the parsed changes, narrowed by the
      version query and then by the entry search, each only when it is given. */
  function ParseWith(content: string, lookup: Option<string>, search: Option<string>,
                     entriesOf: string -> seq<string>, compare: (string, string, Direction) -> bool,
                     searchEntries: (Change, string) -> Option<seq<string>>): (r: seq<Change>)
    ensures search.None? ==> IsSubseq(r, ParseChanges(content, entriesOf))
    ensures lookup.None? && search.None? ==> r == ParseChanges(content, entriesOf)
  {
    var parsed := ParseChanges(content, entriesOf);
    SubseqRefl(parsed);
    var looked := if lookup.Some? then Lookup(parsed, lookup.value, compare) else parsed;
    if search.Some? then Search(looked, search.value, searchEntries) else looked
  }

  /** Whatever the options, the result lists parsed versions and bodies, in document order; a
      search alone keeps exactly the changes whose entries match, with those entries. */
  lemma ParseWithKeepsOrder(content: string, lookup: Option<string>, search: Option<string>,
                            entriesOf: string -> seq<string>, compare: (string, string, Direction) -> bool,
                            searchEntries: (Change, string) -> Option<seq<string>>)
    ensures IsSubseq(Headers(ParseWith(content, lookup, search, entriesOf, compare, searchEntries)),
                     Headers(ParseChanges(content, entriesOf)))
    ensures lookup.None? && search.Some? ==>
      ParseWith(content, lookup, search, entriesOf, compare, searchEntries)
        == Search(ParseChanges(content, entriesOf), search.value, searchEntries)
  {
    var parsed := ParseChanges(content, entriesOf);
    SubseqRefl(parsed);
    var looked := if lookup.Some? then Lookup(parsed, lookup.value, compare) else parsed;
    SubseqHeaders(looked, parsed);
    if search.Some? {
      SearchKeepsOrder(looked, search.value, searchEntries);
      SubseqTrans(Headers(Search(looked, search.value, searchEntries)), Headers(looked), Headers(parsed));
    }
  }

  /** How the changes are printed: Change#to_s and Change#changes_only. */
  datatype Printer = Printer(full: Change -> string, changesOnly: Change -> string)

  function Concat(parts: seq<string>): string
    decreases |parts|
  {
    if |parts| == 0 then [] else parts[0] + Concat(parts[1..])
  }

  function Texts(cs: seq<Change>, text: Change -> string): (r: seq<string>)
    ensures |r| == |cs|
    ensures forall i :: 0 <= i < |cs| ==> r[i] == text(cs[i])
    decreases |cs|
  {
    if |cs| == 0 then [] else [text(cs[0])] + Texts(cs[1..], text)
  }

  /** Changes#to_s: the changes joined by a blank line, or the changes-only texts run together. */
  function ChangesToString(cs: seq<Change>, changesOnly: bool, p: Printer): string {
    if changesOnly then Concat(Texts(cs, p.changesOnly)) else Join(Texts(cs, p.full), "\n\n")
  }

  /** Changes#latest: the first change printed. With no change, `nil.changes_only` raises
      (None), while `nil.to_s` is the empty string. */
  function Latest(cs: seq<Change>, changesOnly: bool, p: Printer): (r: Option<string>)
    ensures r.None? <==> |cs| == 0 && changesOnly
    ensures |cs| == 0 && !changesOnly ==> r == Some([])
  {
    if |cs| == 0 then (if changesOnly then None else Some([]))
    else Some(if changesOnly then p.changesOnly(cs[0]) else p.full(cs[0]))
  }

  /** The latest change opens the full listing, which continues with a blank line when there
      are more changes; a single change prints as the latest one. */
  lemma LatestOpensListing(cs: seq<Change>, changesOnly: bool, p: Printer)
    requires |cs| > 0
    ensures var l := Latest(cs, changesOnly, p).value;
      var all := ChangesToString(cs, changesOnly, p);
      |l| <= |all| && all[..|l|] == l
    ensures |cs| == 1 ==> ChangesToString(cs, changesOnly, p) == Latest(cs, changesOnly, p).value
    ensures |cs| > 1 && !changesOnly ==>
      ChangesToString(cs, changesOnly, p)
        == Latest(cs, changesOnly, p).value + "\n\n" + ChangesToString(cs[1..], changesOnly, p)
  {
    var l := Latest(cs, changesOnly, p).value;
    var texts := Texts(cs, if changesOnly then p.changesOnly else p.full);
    assert texts[1..] == Texts(cs[1..], if changesOnly then p.changesOnly else p.full);
    if changesOnly {
      assert Concat(texts) == l + Concat(texts[1..]);
      if |cs| == 1 {
        assert Concat(texts[1..]) == [];
      }
    } else if |cs| > 1 {
      assert Join(texts, "\n\n") == l + ("\n\n" + Join(texts[1..], "\n\n"));
    }
  }
}
