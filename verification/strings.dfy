/** Character classes and the small String methods of Ruby's core library that the rendering
    code relies on: strip, chomp, join, literal sub/gsub, Integer#to_s. */
module Strings {

  import opened Wrappers

  const ESC: char := '\U{1B}'

  /** Ruby's `\s`: space, and tab, line feed, vertical tab, form feed, carriage return (the
      code points 9 to 13). */
  predicate IsSpace(c: char) {
    c == ' ' || '\t' <= c <= '\r'
  }

  /** What String#strip removes from either end: `\s` and NUL. */
  predicate IsStripChar(c: char) {
    c == '\0' || IsSpace(c)
  }

  predicate IsDigit(c: char) {
    '0' <= c <= '9'
  }

  predicate IsLower(c: char) {
    'a' <= c <= 'z'
  }

  predicate IsUpper(c: char) {
    'A' <= c <= 'Z'
  }

  /** Ruby's `\w` (ASCII): letters, digits and underscore. */
  predicate IsWordChar(c: char) {
    IsLower(c) || IsUpper(c) || IsDigit(c) || c == '_'
  }

  /** ASCII case folding, as used by `/i` matching. */
  function ToLower(c: char): (r: char)
    ensures IsUpper(c) ==> IsLower(r)
    ensures !IsUpper(c) ==> r == c
  {
    if IsUpper(c) then (c as int + 32) as char else c
  }

  predicate AllSpace(s: string) {
    forall i :: 0 <= i < |s| ==> IsSpace(s[i])
  }

  /** Case-insensitive equality of two strings of the same length. */
  predicate CiEqual(a: string, b: string) {
    |a| == |b| && forall i :: 0 <= i < |a| ==> ToLower(a[i]) == ToLower(b[i])
  }

  /** A non-empty string is its first character followed by the rest. */
  lemma ConsSplit(a: string, x: string)
    requires |a| > 0
    ensures a + x == [a[0]] + (a[1..] + x)
    ensures [a[0]] + a[1..] == a
  {
    assert a == [a[0]] + a[1..];
  }

  /** Concatenation regrouped; stated once so that proofs need not rediscover it. */
  lemma ConcatAssoc(a: string, b: string, c: string)
    ensures (a + b) + c == a + (b + c)
  {
  }

  lemma CiEqualSame(a: string)
    ensures CiEqual(a, a)
  {
  }

  predicate OccursAt(s: string, pat: string, i: int) {
    0 <= i && i + |pat| <= |s| && s[i..i + |pat|] == pat
  }

  /** The first position at or after `i` where `pat` occurs. */
  function FindFrom(s: string, pat: string, i: nat): (r: Option<nat>)
    requires i <= |s|
    ensures r.Some? ==> i <= r.value <= |s| && OccursAt(s, pat, r.value)
    ensures r.Some? ==> forall j :: i <= j < r.value ==> !OccursAt(s, pat, j)
    ensures r.None? ==> forall j :: i <= j <= |s| ==> !OccursAt(s, pat, j)
    decreases |s| - i
  {
    if OccursAt(s, pat, i) then Some(i)
    else if i == |s| then None
    else FindFrom(s, pat, i + 1)
  }

  function Find(s: string, pat: string): Option<nat> {
    FindFrom(s, pat, 0)
  }

  /** A pattern with a character that does not occur in the text is not found. */
  lemma FindAbsentAt(s: string, pat: string, k: nat)
    requires k < |pat| && pat[k] !in s
    ensures Find(s, pat).None?
  {
    forall j | 0 <= j <= |s| ensures !OccursAt(s, pat, j) {
      if j + |pat| <= |s| {
        assert s[j..j + |pat|][k] == s[j + k] && s[j + k] in s;
      }
    }
  }

  /** A pattern whose first character does not occur in the text is not found. */
  lemma FindAbsent(s: string, pat: string)
    requires |pat| > 0 && pat[0] !in s
    ensures Find(s, pat).None?
  {
    forall j | 0 <= j <= |s| ensures !OccursAt(s, pat, j) {
      if j + |pat| <= |s| {
        assert s[j..j + |pat|][0] == s[j] && s[j] in s;
      }
    }
  }

  /** String#sub with a literal pattern and a block: only the first occurrence is replaced. */
  function SubFirst(s: string, pat: string, rep: string): string {
    match Find(s, pat)
    case None => s
    case Some(i) => s[..i] + rep + s[i + |pat|..]
  }

  /** Every character of a spliced text comes from the text or the inserted piece. */
  lemma SpliceOmits(s: string, i: nat, j: nat, mid: string, c: char)
    requires i <= j <= |s|
    ensures c in s[..i] + mid + s[j..] ==> c in s || c in mid
  {
    assert forall k :: 0 <= k < i ==> s[..i][k] == s[k];
    assert forall k :: 0 <= k < |s| - j ==> s[j..][k] == s[j + k];
  }

  /** Every character of the result comes from the text or the replacement. */
  lemma SubFirstOmits(s: string, pat: string, rep: string, c: char)
    ensures c in SubFirst(s, pat, rep) ==> c in s || c in rep
  {
    match Find(s, pat)
    case None =>
    case Some(i) => SpliceOmits(s, i, i + |pat|, rep, c);
  }

  /** String#gsub with a literal pattern and a replacement without backslashes: occurrences are
      replaced left to right, scanning resumes after each replaced occurrence. */
  function ReplaceAll(s: string, pat: string, rep: string): (r: string)
    requires |pat| > 0
    ensures |s| > 0 && !OccursAt(s, pat, 0) ==> |r| > 0 && r[0] == s[0]
    ensures |s| > 0 && OccursAt(s, pat, 0) && |rep| > 0 ==> |r| > 0 && r[0] == rep[0]
    decreases |s|
  {
    if |s| == 0 then []
    else if OccursAt(s, pat, 0) then rep + ReplaceAll(s[|pat|..], pat, rep)
    else [s[0]] + ReplaceAll(s[1..], pat, rep)
  }

  /** A pattern whose first character does not occur is never replaced. */
  lemma {:induction false} ReplaceAllAbsent(s: string, pat: string, rep: string)
    requires |pat| > 0 && pat[0] !in s
    ensures ReplaceAll(s, pat, rep) == s
    decreases |s|
  {
    if |s| > 0 {
      assert !OccursAt(s, pat, 0) by {
        if |pat| <= |s| {
          assert s[..|pat|][0] == s[0] && s[0] in s;
        }
      }
      assert forall c :: c in s[1..] ==> c in s;
      ReplaceAllAbsent(s[1..], pat, rep);
      assert [s[0]] + s[1..] == s;
    }
  }

  /** After gsub of the two-character pattern `[a, b]` by a non-empty text free of `a`, no
      `[a, c]` is left, provided none was there before or `c` is `b` itself. */
  lemma {:induction false} ReplaceAllClears(s: string, a: char, b: char, c: char, rep: string)
    requires |rep| > 0 && a !in rep && rep[0] != c
    requires c == b || forall i :: !OccursAt(s, [a, c], i)
    ensures forall i :: !OccursAt(ReplaceAll(s, [a, b], rep), [a, c], i)
    decreases |s|
  {
    var r := ReplaceAll(s, [a, b], rep);
    if |s| == 0 {
    } else {
      var n := if OccursAt(s, [a, b], 0) then 2 else 1;
      var t := s[n..];
      if c != b {
        forall i ensures !OccursAt(t, [a, c], i) {
          if 0 <= i && i + 2 <= |t| {
            assert t[i..i + 2] == s[i + n..i + n + 2];
            assert !OccursAt(s, [a, c], i + n);
          }
        }
      }
      ReplaceAllClears(t, a, b, c, rep);
      var r' := ReplaceAll(t, [a, b], rep);
      var head := if n == 2 then rep else [s[0]];
      assert r == head + r';
      if n == 2 {
        NoPairIn(rep, a, c);
      } else {
        NoPairIn([s[0]], a, c);
        if s[0] == a && |r'| > 0 && !OccursAt(t, [a, b], 0) {
          assert r'[0] == s[1];
          assert !OccursAt(s, [a, c], 0);
        }
      }
      NoPairAcross(head, r', a, c);
    }
  }

  /** A text without `a`, or of a single character, holds no `[a, c]`. */
  lemma NoPairIn(h: string, a: char, c: char)
    requires a !in h || |h| <= 1
    ensures forall i :: !OccursAt(h, [a, c], i)
  {
    forall i ensures !OccursAt(h, [a, c], i) {
      if 0 <= i && i + 2 <= |h| {
        assert h[i..i + 2][0] == h[i] && h[i] in h;
      }
    }
  }

  /** `[a, c]` is absent from a concatenation when it is absent from both halves and does not
      straddle the seam. */
  lemma NoPairAcross(h: string, t: string, a: char, c: char)
    requires forall i :: !OccursAt(h, [a, c], i)
    requires forall i :: !OccursAt(t, [a, c], i)
    requires |h| > 0 && h[|h| - 1] == a && |t| > 0 ==> t[0] != c
    ensures forall i :: !OccursAt(h + t, [a, c], i)
  {
    var r := h + t;
    forall i | 0 <= i && i + 2 <= |r| ensures !OccursAt(r, [a, c], i) {
      if i + 2 <= |h| {
        assert r[i..i + 2] == h[i..i + 2];
        assert !OccursAt(h, [a, c], i);
      } else if i >= |h| {
        assert r[i..i + 2] == t[i - |h|..i - |h| + 2];
        assert !OccursAt(t, [a, c], i - |h|);
      } else {
        assert r[i..i + 2] == [h[|h| - 1], t[0]];
      }
    }
  }

  /** Array#join with a separator. */
  function Join(parts: seq<string>, sep: string): string
    decreases |parts|
  {
    if |parts| == 0 then []
    else if |parts| == 1 then parts[0]
    else parts[0] + sep + Join(parts[1..], sep)
  }

  /** String#lstrip. */
  function LStrip(s: string): (r: string)
    ensures |r| <= |s| && r == s[|s| - |r|..]
    ensures |r| > 0 ==> !IsStripChar(r[0])
    ensures forall i :: 0 <= i < |s| - |r| ==> IsStripChar(s[i])
    decreases |s|
  {
    if |s| > 0 && IsStripChar(s[0]) then LStrip(s[1..]) else s
  }

  /** String#rstrip. */
  function RStrip(s: string): (r: string)
    ensures |r| <= |s| && r == s[..|r|]
    ensures |r| > 0 ==> !IsStripChar(r[|r| - 1])
    ensures forall i :: |r| <= i < |s| ==> IsStripChar(s[i])
    decreases |s|
  {
    if |s| > 0 && IsStripChar(s[|s| - 1]) then RStrip(s[..|s| - 1]) else s
  }

  /** String#strip: the longest infix that neither starts nor ends with whitespace or NUL. */
  function Strip(s: string): (r: string)
    ensures |r| > 0 ==> !IsStripChar(r[0]) && !IsStripChar(r[|r| - 1])
    ensures |r| <= |s|
  {
    RStrip(LStrip(s))
  }

  /** What strip keeps: the stretch of the text between its leading and its trailing runs of
      whitespace and NUL, unchanged (StripOutside: what it drops is such a run). */
  lemma StripInfix(s: string)
    ensures var a := |s| - |LStrip(s)|; a + |Strip(s)| <= |s| && Strip(s) == s[a..a + |Strip(s)|]
  {
    var l := LStrip(s);
    var a := |s| - |l|;
    var r := RStrip(l);
    assert l == s[a..] && r == l[..|r|];
  }

  /** What strip drops: only whitespace and NUL, in front of and after what it keeps. */
  lemma StripOutside(s: string)
    ensures forall i :: 0 <= i < |s| - |LStrip(s)| ==> IsStripChar(s[i])
    ensures forall i :: |s| - |LStrip(s)| + |Strip(s)| <= i < |s| ==> IsStripChar(s[i])
  {
    var l := LStrip(s);
    var a := |s| - |l|;
    var r := RStrip(l);
    forall i | a + |r| <= i < |s| ensures IsStripChar(s[i]) {
      assert l == s[a..] && s[i] == l[i - a];
    }
  }

  /** String#chomp without argument: drops one trailing "\r\n", "\n" or "\r". */
  function Chomp(s: string): (r: string)
    ensures s == r || s == r + "\n" || s == r + "\r" || s == r + "\r\n"
    ensures |s| >= 2 && s[|s| - 2..] == "\r\n" ==> r == s[..|s| - 2]
    ensures r == s <==> !(|s| > 0 && (s[|s| - 1] == '\n' || s[|s| - 1] == '\r'))
  {
    if |s| >= 2 && s[|s| - 2..] == "\r\n" then s[..|s| - 2]
    else if |s| >= 1 && (s[|s| - 1] == '\n' || s[|s| - 1] == '\r') then s[..|s| - 1]
    else s
  }

  /** `c * n` for a one-character string; Ruby treats a non-positive count as zero copies. */
  function Repeat(c: char, n: int): (r: string)
    ensures |r| == if n > 0 then n else 0
    ensures forall i :: 0 <= i < |r| ==> r[i] == c
    decreases if n > 0 then n else 0
  {
    if n <= 0 then [] else [c] + Repeat(c, n - 1)
  }

  function DigitChar(d: nat): char
    requires d < 10
  {
    ('0' as int + d) as char
  }

  /** Integer#to_s for a non-negative integer. */
  function NatToString(n: nat): (r: string)
    ensures |r| > 0 && forall i :: 0 <= i < |r| ==> IsDigit(r[i])
    decreases n
  {
    if n < 10 then [DigitChar(n)] else NatToString(n / 10) + [DigitChar(n % 10)]
  }

  /** String#to_i of a run of decimal digits. */
  function DigitsValue(ds: string): nat
    requires forall i :: 0 <= i < |ds| ==> IsDigit(ds[i])
    decreases |ds|
  {
    if |ds| == 0 then 0
    else DigitsValue(ds[..|ds| - 1]) * 10 + DigitValue(ds[|ds| - 1])
  }

  function DigitValue(c: char): (d: nat)
    requires IsDigit(c)
    ensures d < 10
  {
    c as int - '0' as int
  }

  /** Length of the whitespace run that starts at `i`. */
  function SpaceRun(s: string, i: nat): (n: nat)
    requires i <= |s|
    ensures i + n <= |s|
    ensures i + n < |s| ==> !IsSpace(s[i + n])
    decreases |s| - i
  {
    if i < |s| && IsSpace(s[i]) then 1 + SpaceRun(s, i + 1) else 0
  }

  /** The whitespace run holds whitespace only. */
  lemma {:induction false} SpaceRunAll(s: string, i: nat)
    requires i <= |s|
    ensures forall j :: i <= j < i + SpaceRun(s, i) ==> IsSpace(s[j])
    decreases |s| - i
  {
    if i < |s| && IsSpace(s[i]) {
      SpaceRunAll(s, i + 1);
    }
  }

  /** Length of the non-whitespace run that starts at `i`. */
  function WordRun(s: string, i: nat): (n: nat)
    requires i <= |s|
    ensures i + n <= |s|
    ensures i + n < |s| ==> IsSpace(s[i + n])
    decreases |s| - i
  {
    if i < |s| && !IsSpace(s[i]) then 1 + WordRun(s, i + 1) else 0
  }

  /** The non-whitespace run holds no whitespace. */
  lemma {:induction false} WordRunAll(s: string, i: nat)
    requires i <= |s|
    ensures forall j :: i <= j < i + WordRun(s, i) ==> !IsSpace(s[j])
    decreases |s| - i
  {
    if i < |s| && !IsSpace(s[i]) {
      WordRunAll(s, i + 1);
    }
  }

  /** Length of the run of copies of `c` that starts at `i`. */
  function CharRun(s: string, i: nat, c: char): (n: nat)
    requires i <= |s|
    ensures i + n <= |s|
    ensures i + n < |s| ==> s[i + n] != c
    decreases |s| - i
  {
    if i < |s| && s[i] == c then 1 + CharRun(s, i + 1, c) else 0
  }

  /** The run holds copies of `c` only. */
  lemma {:induction false} CharRunAll(s: string, i: nat, c: char)
    requires i <= |s|
    ensures forall j :: i <= j < i + CharRun(s, i, c) ==> s[j] == c
    decreases |s| - i
  {
    if i < |s| && s[i] == c {
      CharRunAll(s, i + 1, c);
    }
  }

  /** Length of the `\w` run that starts at `i`. */
  function WordCharRun(s: string, i: nat): (n: nat)
    requires i <= |s|
    ensures i + n <= |s|
    ensures i + n < |s| ==> !IsWordChar(s[i + n])
    decreases |s| - i
  {
    if i < |s| && IsWordChar(s[i]) then 1 + WordCharRun(s, i + 1) else 0
  }

  /** The `\w` run holds word characters only. */
  lemma {:induction false} WordCharRunAll(s: string, i: nat)
    requires i <= |s|
    ensures forall j :: i <= j < i + WordCharRun(s, i) ==> IsWordChar(s[j])
    decreases |s| - i
  {
    if i < |s| && IsWordChar(s[i]) {
      WordCharRunAll(s, i + 1);
    }
  }

  /** A `\w` run of known extent. */
  lemma {:induction false} WordCharRunFrom(s: string, i: nat, n: nat)
    requires i + n <= |s|
    requires forall j :: i <= j < i + n ==> IsWordChar(s[j])
    requires i + n == |s| || !IsWordChar(s[i + n])
    ensures WordCharRun(s, i) == n
    decreases n
  {
    if n > 0 {
      WordCharRunFrom(s, i + 1, n - 1);
    }
  }

  /** Length of the `\d` run that starts at `i`. */
  function DigitRun(s: string, i: nat): (n: nat)
    requires i <= |s|
    ensures i + n <= |s|
    ensures i + n < |s| ==> !IsDigit(s[i + n])
    decreases |s| - i
  {
    if i < |s| && IsDigit(s[i]) then 1 + DigitRun(s, i + 1) else 0
  }

  /** The `\d` run holds digits only. */
  lemma {:induction false} DigitRunAll(s: string, i: nat)
    requires i <= |s|
    ensures forall j :: i <= j < i + DigitRun(s, i) ==> IsDigit(s[j])
    decreases |s| - i
  {
    if i < |s| && IsDigit(s[i]) {
      DigitRunAll(s, i + 1);
    }
  }

  /** A `\d` run of known extent. */
  lemma {:induction false} DigitRunFrom(s: string, i: nat, n: nat)
    requires i + n <= |s|
    requires forall j :: i <= j < i + n ==> IsDigit(s[j])
    requires i + n == |s| || !IsDigit(s[i + n])
    ensures DigitRun(s, i) == n
    decreases n
  {
    if n > 0 {
      DigitRunFrom(s, i + 1, n - 1);
    }
  }
}
