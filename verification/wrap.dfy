/** The word wrap used for titles and note lines:
      text.gsub(/(.{1,width})(\s+|\Z)/, "\\1" + brk)
    At each position the largest chunk of 1..width characters without a line feed that is
    followed by whitespace or the end of the text is kept, the whitespace run after it is
    replaced by `brk`; when no chunk fits, one character is copied and the scan moves on. */
module Wrap {

  import opened Wrappers
  import opened Strings
  import opened Backrefs

  /** Length of the run of characters other than line feeds that starts at `i`: how far `.`
      can reach without /m. */
  function LineRun(s: string, i: nat): (n: nat)
    requires i <= |s|
    ensures i + n <= |s|
    ensures i + n < |s| ==> s[i + n] == '\n'
    decreases |s| - i
  {
    if i < |s| && s[i] != '\n' then 1 + LineRun(s, i + 1) else 0
  }

  /** Without line feeds `.` reaches the end of the text. */
  lemma {:induction false} LineRunAll(s: string, i: nat)
    requires i <= |s| && '\n' !in s
    ensures LineRun(s, i) == |s| - i
    decreases |s| - i
  {
    if i < |s| {
      assert s[i] in s;
      LineRunAll(s, i + 1);
    }
  }

  /** `(.{k})(\s+|\Z)` matches at position `i`. */
  predicate ChunkFits(s: string, i: nat, k: nat) {
    1 <= k && i + k <= |s| && k <= LineRun(s, i) && (i + k == |s| || IsSpace(s[i + k]))
  }

  /** The greedy `.{1,k}` at `i`: the largest fitting chunk length not above `k`, or 0 when
      none fits. */
  function ChunkLen(s: string, i: nat, k: nat): (n: nat)
    requires i + k <= |s|
    ensures n <= k
    ensures n > 0 ==> ChunkFits(s, i, n)
    decreases k
  {
    if k == 0 then 0 else if ChunkFits(s, i, k) then k else ChunkLen(s, i, k - 1)
  }

  /** The chunk is the largest that fits: no longer one up to `k` fits. */
  lemma {:induction false} ChunkLenMax(s: string, i: nat, k: nat, j: nat)
    requires i + k <= |s| && ChunkLen(s, i, k) < j <= k
    ensures !ChunkFits(s, i, j)
    decreases k
  {
    if j < k {
      ChunkLenMax(s, i, k - 1, j);
    }
  }

  function Min(a: nat, b: nat): nat {
    if a < b then a else b
  }

  /** What the gsub produces at position `i` and where it resumes: the chunk found there
      followed by the break, resuming after the chunk's whitespace, or the single character
      copied when no chunk fits. */
  function Piece(s: string, i: nat, width: nat, brk: string): (r: (string, nat))
    requires i < |s|
    ensures i < r.1 <= |s|
  {
    var k := ChunkLen(s, i, Min(width, |s| - i));
    if k == 0 then ([s[i]], i + 1)
    else (s[i..i + k] + brk, i + k + SpaceRun(s, i + k))
  }

  /** The gsub from position `i` on. */
  function WrapFrom(s: string, i: nat, width: nat, brk: string): string
    requires i <= |s|
    decreases |s| - i
  {
    if i == |s| then []
    else
      var p := Piece(s, i, width, brk);
      p.0 + WrapFrom(s, p.1, width, brk)
  }

  /** `s.gsub(/(.{1,width})(\s+|\Z)/, "\\1" + brk)`; see WrapReplacement for the expansion. */
  function WrapText(s: string, width: nat, brk: string): string {
    WrapFrom(s, 0, width, brk)
  }

  /** The replacement strings "\\1\n" and "\\1\n\t " expand to the first capture followed by the
      break, whatever the capture holds. */
  lemma WrapReplacement(brk: string, m: string, chunk: string, gap: string, pre: string, post: string)
    requires '\\' !in brk
    ensures Expand("\\1" + brk, [m, chunk, gap], pre, post) == Success(chunk + brk)
  {
    var rep := "\\1" + brk;
    assert rep[0] == '\\' && rep[1] == '1' && rep[2..] == brk;
    ExpandPlain(brk, [m, chunk, gap], pre, post);
    assert DigitValue('1') == 1;
  }

  lemma WrapStepAt(s: string, i: nat, width: nat, brk: string, piece: string, j: nat)
    requires i < |s| && Piece(s, i, width, brk) == (piece, j)
    ensures WrapFrom(s, i, width, brk) == piece + WrapFrom(s, j, width, brk)
  {
  }

  /** Where no chunk fits, the character is copied. */
  lemma PieceCopy(s: string, i: nat, width: nat, brk: string, k: nat)
    requires i < |s| && k == ChunkLen(s, i, Min(width, |s| - i)) && k == 0
    ensures Piece(s, i, width, brk) == ([s[i]], i + 1)
  {
  }

  /** Where a chunk fits, it is kept, its whitespace becomes the break. */
  lemma PieceChunk(s: string, i: nat, width: nat, brk: string, k: nat)
    requires i < |s| && k == ChunkLen(s, i, Min(width, |s| - i)) && k > 0
    ensures i + k <= |s| && (i + k == |s| || IsSpace(s[i + k]))
    ensures Piece(s, i, width, brk) == (s[i..i + k] + brk, i + k + SpaceRun(s, i + k))
  {
  }

  /** The wrap from `i` starts with the character at `i` and is empty only at the end. */
  lemma WrapHead(s: string, i: nat, width: nat, brk: string)
    requires i <= |s|
    ensures var r := WrapFrom(s, i, width, brk); |r| > 0 <==> i < |s|
    ensures var r := WrapFrom(s, i, width, brk); i < |s| ==> r[0] == s[i]
  {
    if i < |s| {
      var (piece, j) := Piece(s, i, width, brk);
      WrapStepAt(s, i, width, brk, piece, j);
      var k := ChunkLen(s, i, Min(width, |s| - i));
      if k == 0 {
        PieceCopy(s, i, width, brk, k);
      } else {
        PieceChunk(s, i, width, brk, k);
        assert piece[0] == s[i];
      }
    }
  }

  /** The word at `i`, if any, and the position after it (or after the whitespace character). */
  function NextWord(s: string, i: nat): (r: (seq<string>, nat))
    requires i < |s|
    ensures i < r.1 <= |s|
  {
    if IsSpace(s[i]) then ([], i + 1) else ([s[i..i + WordRun(s, i)]], i + WordRun(s, i))
  }

  /** The words of a text from position `i` on: its maximal runs of non-whitespace
      characters, in order. */
  function WordsFrom(s: string, i: nat): seq<string>
    requires i <= |s|
    decreases |s| - i
  {
    if i == |s| then []
    else
      var p := NextWord(s, i);
      p.0 + WordsFrom(s, p.1)
  }

  function Words(s: string): seq<string> {
    WordsFrom(s, 0)
  }

  lemma NextWordAt(s: string, i: nat, n: nat)
    requires i < |s| && !IsSpace(s[i]) && n == WordRun(s, i)
    ensures i + n <= |s| && NextWord(s, i) == ([s[i..i + n]], i + n)
  {
  }

  lemma WordsStepAt(s: string, i: nat, ws: seq<string>, j: nat)
    requires i < |s| && NextWord(s, i) == (ws, j)
    ensures WordsFrom(s, i) == ws + WordsFrom(s, j)
  {
  }

  /** Positions in `b` keep their word run inside `a + b`. */
  lemma {:induction false} WordRunShift(a: string, b: string, j: nat)
    requires j <= |b|
    ensures WordRun(a + b, |a| + j) == WordRun(b, j)
    decreases |b| - j
  {
    if j < |b| {
      assert (a + b)[|a| + j] == b[j];
      WordRunShift(a, b, j + 1);
    }
  }

  lemma NextWordShift(a: string, b: string, j: nat)
    requires j < |b|
    ensures NextWord(a + b, |a| + j) == (NextWord(b, j).0, |a| + NextWord(b, j).1)
  {
    var t := a + b;
    assert t[|a| + j] == b[j];
    if !IsSpace(b[j]) {
      var n := WordRun(b, j);
      WordRunShift(a, b, j);
      assert t[|a| + j..|a| + j + n] == b[j..j + n];
    }
  }

  /** Positions in `b` keep their words inside `a + b`. */
  lemma {:induction false} WordsShift(a: string, b: string, j: nat)
    requires j <= |b|
    ensures WordsFrom(a + b, |a| + j) == WordsFrom(b, j)
    decreases |b| - j
  {
    if j < |b| {
      var (ws, j') := NextWord(b, j);
      NextWordShift(a, b, j);
      WordsStepAt(a + b, |a| + j, ws, |a| + j');
      WordsStepAt(b, j, ws, j');
      WordsShift(a, b, j');
    } else {
      assert |a + b| == |a| + j;
    }
  }

  /** A word of `a` ends where `a` does when `b` starts with whitespace. */
  lemma {:induction false} WordRunAppend(a: string, b: string, i: nat)
    requires i <= |a| && (|b| == 0 || IsSpace(b[0]))
    ensures WordRun(a + b, i) == WordRun(a, i)
    decreases |a| - i
  {
    if i < |a| {
      assert (a + b)[i] == a[i];
      WordRunAppend(a, b, i + 1);
    } else if |b| > 0 {
      assert (a + b)[i] == b[0];
    }
  }

  lemma NextWordAppend(a: string, b: string, i: nat)
    requires i < |a| && (|b| == 0 || IsSpace(b[0]))
    ensures NextWord(a + b, i) == NextWord(a, i)
  {
    var t := a + b;
    assert t[i] == a[i];
    if !IsSpace(a[i]) {
      var n := WordRun(a, i);
      WordRunAppend(a, b, i);
      assert t[i..i + n] == a[i..i + n];
    }
  }

  /** Words of a concatenation whose second part starts with whitespace. */
  lemma {:induction false} WordsAppendFrom(a: string, b: string, i: nat)
    requires i <= |a| && (|b| == 0 || IsSpace(b[0]))
    ensures WordsFrom(a + b, i) == WordsFrom(a, i) + WordsFrom(b, 0)
    decreases |a| - i
  {
    if i == |a| {
      WordsShift(a, b, 0);
    } else {
      var (ws, j) := NextWord(a, i);
      NextWordAppend(a, b, i);
      WordsStepAt(a + b, i, ws, j);
      WordsStepAt(a, i, ws, j);
      WordsAppendFrom(a, b, j);
    }
  }

  lemma WordsAppend(a: string, b: string)
    requires |b| == 0 || IsSpace(b[0])
    ensures Words(a + b) == Words(a) + Words(b)
  {
    WordsAppendFrom(a, b, 0);
  }

  /** Whitespace in front of a text adds no word. */
  lemma {:induction false} WordsSkipSpaceFrom(w: string, b: string, i: nat)
    requires i <= |w| && AllSpace(w)
    ensures WordsFrom(w + b, i) == Words(b)
    decreases |w| - i
  {
    if i < |w| {
      assert (w + b)[i] == w[i];
      WordsStepAt(w + b, i, [], i + 1);
      WordsSkipSpaceFrom(w, b, i + 1);
    } else {
      WordsShift(w, b, 0);
    }
  }

  lemma NothingThen(x: seq<string>, y: seq<string>, z: seq<string>)
    requires x == [] + y && y == z
    ensures x == z
  {
  }

  /** Skipping the whitespace run at `m` keeps the words. */
  lemma {:induction false} WordsSkipRun(s: string, m: nat)
    requires m <= |s|
    ensures WordsFrom(s, m) == WordsFrom(s, m + SpaceRun(s, m))
    decreases |s| - m
  {
    if m < |s| && IsSpace(s[m]) {
      var k := m + 1 + SpaceRun(s, m + 1);
      assert m + SpaceRun(s, m) == k;
      WordsStepAt(s, m, [], m + 1);
      WordsSkipRun(s, m + 1);
      NothingThen(WordsFrom(s, m), WordsFrom(s, m + 1), WordsFrom(s, k));
    }
  }

  /** The words of a prefix ending before whitespace, then the words after it. */
  lemma WordsTake(s: string, i: nat, m: nat)
    requires i <= m <= |s| && (m == |s| || IsSpace(s[m]))
    ensures WordsFrom(s, i) == WordsFrom(s[..m], i) + WordsFrom(s, m)
  {
    var a, b := s[..m], s[m..];
    assert s == a + b;
    WordsAppendFrom(a, b, i);
    WordsShift(a, b, 0);
  }

  lemma WordsDrop(a: string, i: nat)
    requires i <= |a|
    ensures WordsFrom(a, i) == Words(a[i..])
  {
    assert a == a[..i] + a[i..];
    WordsShift(a[..i], a[i..], 0);
  }

  /** The words from `i` split at a position `m` that is followed by whitespace or the end. */
  lemma WordsSplit(s: string, i: nat, m: nat)
    requires i <= m <= |s| && (m == |s| || IsSpace(s[m]))
    ensures WordsFrom(s, i) == Words(s[i..m]) + WordsFrom(s, m)
  {
    WordsTake(s, i, m);
    WordsDrop(s[..m], i);
    assert s[..m][i..] == s[i..m];
  }

  /** Prepending a whitespace character adds no word. */
  lemma ConsSpace(s: string, i: nat, x: string)
    requires i < |s| && IsSpace(s[i]) && Words(x) == WordsFrom(s, i + 1)
    ensures Words([s[i]] + x) == WordsFrom(s, i)
  {
    var y := [s[i]] + x;
    assert y[0] == s[i];
    WordsStepAt(y, 0, [], 1);
    WordsShift([s[i]], x, 0);
    WordsStepAt(s, i, [], i + 1);
  }

  /** Prepending a word character to a text that does not start with one adds a one-character
      word. */
  lemma ConsSingle(s: string, i: nat, x: string)
    requires i < |s| && !IsSpace(s[i]) && Words(x) == WordsFrom(s, i + 1)
    requires i + 1 == |s| || IsSpace(s[i + 1])
    requires |x| == 0 || IsSpace(x[0])
    ensures Words([s[i]] + x) == WordsFrom(s, i)
  {
    var y := [s[i]] + x;
    assert y[0] == s[i];
    assert WordRun(y, 0) == 1 by {
      assert |y| == 1 || IsSpace(y[1]);
    }
    assert y[0..1] == s[i..i + 1];
    assert WordRun(s, i) == 1 by {
      assert WordRun(s, i + 1) == 0;
    }
    WordsStepAt(y, 0, [y[0..1]], 1);
    WordsShift([s[i]], x, 0);
    WordsStepAt(s, i, [s[i..i + 1]], i + 1);
  }

  /** Texts with the same words that start with the same word character agree on the length
      of that first word and on the words after it. */
  lemma FirstWordsAgree(s: string, i: nat, x: string)
    requires i < |s| && 0 < |x| && x[0] == s[i] && !IsSpace(x[0])
    requires Words(x) == WordsFrom(s, i)
    ensures WordRun(x, 0) == WordRun(s, i)
    ensures WordsFrom(x, WordRun(x, 0)) == WordsFrom(s, i + WordRun(s, i))
    ensures x[0..WordRun(x, 0)] == s[i..i + WordRun(s, i)]
  {
    var m, m' := WordRun(x, 0), WordRun(s, i);
    WordsStepAt(x, 0, [x[0..m]], m);
    WordsStepAt(s, i, [s[i..i + m']], i + m');
    var lx, ls := [x[0..m]] + WordsFrom(x, m), [s[i..i + m']] + WordsFrom(s, i + m');
    assert lx[0] == ls[0] && lx[1..] == ls[1..];
    assert |x[0..m]| == |s[i..i + m']|;
  }

  /** The first word of `x` matches the word after `i`, so prepending the character at `i`
      extends it by one. */
  lemma ConsWord(s: string, i: nat, x: string)
    requires i + 1 < |s| && 0 < |x| && x[0] == s[i + 1] && !IsSpace(s[i]) && !IsSpace(x[0])
    requires Words(x) == WordsFrom(s, i + 1)
    ensures Words([s[i]] + x) == WordsFrom(s, i)
  {
    var y := [s[i]] + x;
    var m := WordRun(x, 0);
    FirstWordsAgree(s, i + 1, x);
    ConsWordRuns(s, i, x, m);
    ConsWordText(s, i, x, m);
    NextWordAt(y, 0, 1 + m);
    WordsStepAt(y, 0, [y[0..1 + m]], 1 + m);
    WordsShift([s[i]], x, m);
    NextWordAt(s, i, 1 + m);
    WordsStepAt(s, i, [s[i..i + 1 + m]], i + 1 + m);
  }

  lemma ConsWordRuns(s: string, i: nat, x: string, m: nat)
    requires i + 1 < |s| && 0 < |x| && !IsSpace(s[i])
    requires m == WordRun(x, 0) && m == WordRun(s, i + 1)
    ensures WordRun([s[i]] + x, 0) == 1 + m && WordRun(s, i) == 1 + m
  {
    assert ([s[i]] + x)[0] == s[i];
    WordRunShift([s[i]], x, 0);
  }

  lemma ConsWordText(s: string, i: nat, x: string, m: nat)
    requires i + 1 + m <= |s| && m <= |x|
    requires x[0..m] == s[i + 1..i + 1 + m]
    ensures ([s[i]] + x)[0..1 + m] == s[i..i + 1 + m]
  {
    assert ([s[i]] + x)[0..1 + m] == [s[i]] + x[0..m];
    assert s[i..i + 1 + m] == [s[i]] + s[i + 1..i + 1 + m];
  }

  /** Prepending the character at `i` to a text that has the words of `s` after `i` yields the
      words of `s` from `i`, provided the text starts like `s` after `i`: with the same
      character, or with whitespace where `s` has whitespace or ends. */
  lemma WordsCons(s: string, i: nat, x: string)
    requires i < |s|
    requires |x| > 0 ==> i + 1 < |s| && (x[0] == s[i + 1] || (IsSpace(x[0]) && IsSpace(s[i + 1])))
    requires |x| == 0 && i + 1 < |s| ==> IsSpace(s[i + 1])
    requires Words(x) == WordsFrom(s, i + 1)
    ensures Words([s[i]] + x) == WordsFrom(s, i)
  {
    if IsSpace(s[i]) {
      ConsSpace(s, i, x);
    } else if |x| == 0 || IsSpace(x[0]) {
      ConsSingle(s, i, x);
    } else {
      ConsWord(s, i, x);
    }
  }

  /** The whitespace after a chunk. */
  lemma GapAfter(s: string, m: nat)
    requires m <= |s|
    ensures AllSpace(s[m..m + SpaceRun(s, m)])
  {
    var gap := s[m..m + SpaceRun(s, m)];
    SpaceRunAll(s, m);
    forall j | 0 <= j < |gap| ensures IsSpace(gap[j]) {
      assert gap[j] == s[m + j];
    }
  }

  /** A chunk's words followed by those after its whitespace are the words from the chunk on. */
  lemma ChunkWords(s: string, i: nat, k: nat, j: nat)
    requires i + k <= |s| && (i + k == |s| || IsSpace(s[i + k]))
    requires j == i + k + SpaceRun(s, i + k)
    ensures WordsFrom(s, i) == Words(s[i..i + k]) + WordsFrom(s, j)
  {
    WordsSplit(s, i, i + k);
    WordsSkipRun(s, i + k);
  }

  /** A chunk, the break and the wrap of the rest have the chunk's words and the rest's. */
  lemma BreakWords(chunk: string, brk: string, rest: string)
    requires |brk| > 0 && AllSpace(brk)
    ensures Words(chunk + brk + rest) == Words(chunk) + Words(rest)
  {
    assert chunk + brk + rest == chunk + (brk + rest);
    WordsAppendFrom(chunk, brk + rest, 0);
    WordsSkipSpaceFrom(brk, rest, 0);
  }

  /** One piece of the wrap in front of a text with the words from where the gsub resumes has
      the words from `i`. */
  lemma PieceWords(s: string, i: nat, width: nat, brk: string, x: string, piece: string, j: nat)
    requires i < |s| && Piece(s, i, width, brk) == (piece, j)
    requires |brk| > 0 && AllSpace(brk)
    requires (|x| > 0 <==> j < |s|) && (|x| > 0 ==> x[0] == s[j])
    requires Words(x) == WordsFrom(s, j)
    ensures Words(piece + x) == WordsFrom(s, i)
  {
    var k := ChunkLen(s, i, Min(width, |s| - i));
    if k == 0 {
      PieceCopy(s, i, width, brk, k);
      CopyWords(s, i, x);
    } else {
      PieceChunk(s, i, width, brk, k);
      BreakWords(s[i..i + k], brk, x);
      ChunkWords(s, i, k, j);
    }
  }

  lemma CopyWords(s: string, i: nat, x: string)
    requires i < |s|
    requires (|x| > 0 <==> i + 1 < |s|) && (|x| > 0 ==> x[0] == s[i + 1])
    requires Words(x) == WordsFrom(s, i + 1)
    ensures Words([s[i]] + x) == WordsFrom(s, i)
  {
    WordsCons(s, i, x);
  }

  /** Wrapping keeps every word whole and in order: breaks only replace whitespace runs or are
      added after a chunk, so no word is split or lost and an over-long word stays whole. */
  lemma {:induction false} WrapFromKeepsWords(s: string, i: nat, width: nat, brk: string)
    requires i <= |s| && |brk| > 0 && AllSpace(brk)
    ensures Words(WrapFrom(s, i, width, brk)) == WordsFrom(s, i)
    decreases |s| - i
  {
    if i < |s| {
      var (piece, j) := Piece(s, i, width, brk);
      WrapStepAt(s, i, width, brk, piece, j);
      WrapFromKeepsWords(s, j, width, brk);
      WrapHead(s, j, width, brk);
      PieceWords(s, i, width, brk, WrapFrom(s, j, width, brk), piece, j);
    }
  }

  lemma WrapKeepsWords(s: string, width: nat, brk: string)
    requires |brk| > 0 && AllSpace(brk)
    ensures Words(WrapText(s, width, brk)) == Words(s)
  {
    WrapFromKeepsWords(s, 0, width, brk);
  }

  /** No run of non-whitespace characters from `i` on is longer than `width`: every word fits. */
  predicate WordsFit(s: string, i: nat, width: nat)
    requires i <= |s|
  {
    forall j :: i <= j < |s| ==> WordRun(s, j) <= width
  }

  /** When every word fits and the text has no line feed, a chunk is found at every word. */
  lemma FirstChunkFits(s: string, i: nat, width: nat)
    requires '\n' !in s && i < |s| && !IsSpace(s[i]) && WordsFit(s, i, width)
    ensures var k := ChunkLen(s, i, Min(width, |s| - i)); 0 < k <= width
  {
    var len := WordRun(s, i);
    LineRunAll(s, i);
    assert ChunkFits(s, i, len);
    var k := ChunkLen(s, i, Min(width, |s| - i));
    if k < len {
      ChunkLenMax(s, i, Min(width, |s| - i), len);
    }
  }

  /** Where every word fits, the piece at a word is a chunk of 1..width characters without a
      line feed and the break, and the gsub resumes at the next word or the end. */
  lemma FitPiece(s: string, i: nat, width: nat, brk: string) returns (k: nat)
    requires '\n' !in s && i < |s| && !IsSpace(s[i]) && WordsFit(s, i, width)
    ensures 0 < k <= width && i + k <= |s|
    ensures Piece(s, i, width, brk).0 == s[i..i + k] + brk
    ensures var j := Piece(s, i, width, brk).1;
      i + k <= j && (j == |s| || !IsSpace(s[j])) && WordsFit(s, j, width)
    ensures '\n' !in s[i..i + k]
  {
    FirstChunkFits(s, i, width);
    k := ChunkLen(s, i, Min(width, |s| - i));
    PieceChunk(s, i, width, brk, k);
    var chunk := s[i..i + k];
    forall p | 0 <= p < |chunk| ensures chunk[p] != '\n' {
      assert chunk[p] == s[i + p] && s[i + p] in s;
    }
  }

  /** The lines of a text: the pieces between line feeds. */
  function Lines(s: string): (r: seq<string>)
    ensures |r| > 0
    decreases |s|
  {
    if |s| == 0 then [[]]
    else
      var rest := Lines(s[1..]);
      if s[0] == '\n' then [[]] + rest else [[s[0]] + rest[0]] + rest[1..]
  }

  lemma {:induction false} LinesAfterBreak(a: string, b: string)
    requires '\n' !in a
    ensures Lines(a + "\n" + b) == [a] + Lines(b)
    decreases |a|
  {
    if |a| == 0 {
      assert a + "\n" + b == "\n" + b;
      assert ("\n" + b)[1..] == b;
    } else {
      assert (a + "\n" + b)[1..] == a[1..] + "\n" + b;
      LinesAfterBreak(a[1..], b);
      assert [a[0]] + a[1..] == a;
    }
  }

  /** When every word fits, the text has no line feed and starts with a word, every line of the
      wrapped text is at most `width` characters long. */
  lemma {:induction false} WrapFromLinesFit(s: string, i: nat, width: nat)
    requires '\n' !in s && i <= |s| && (i == |s| || !IsSpace(s[i])) && WordsFit(s, i, width)
    ensures forall l :: l in Lines(WrapFrom(s, i, width, "\n")) ==> |l| <= width
    decreases |s| - i
  {
    if i < |s| {
      var (piece, j) := Piece(s, i, width, "\n");
      var k := FitPiece(s, i, width, "\n");
      WrapStepAt(s, i, width, "\n", piece, j);
      WrapFromLinesFit(s, j, width);
      LinesAfterBreak(s[i..i + k], WrapFrom(s, j, width, "\n"));
    }
  }

  lemma WrapLinesFit(s: string, width: nat)
    requires '\n' !in s && (|s| == 0 || !IsSpace(s[0])) && WordsFit(s, 0, width)
    ensures forall l :: l in Lines(WrapText(s, width, "\n")) ==> |l| <= width
  {
    WrapFromLinesFit(s, 0, width);
  }

  /** A word longer than the width is copied a character at a time until its tail fits, and
      the break still follows the last chunk. */
  lemma WrapLongWord()
    ensures WrapText("abcdef", 3, "\n") == "abcdef\n"
  {
    var s := "abcdef";
    LineRunAll(s, 0);
    assert !ChunkFits(s, 0, 3) && !ChunkFits(s, 0, 2) && !ChunkFits(s, 0, 1);
    PieceCopy(s, 0, 3, "\n", 0);
    LineRunAll(s, 1);
    assert !ChunkFits(s, 1, 3) && !ChunkFits(s, 1, 2) && !ChunkFits(s, 1, 1);
    PieceCopy(s, 1, 3, "\n", 0);
    LineRunAll(s, 2);
    assert !ChunkFits(s, 2, 3) && !ChunkFits(s, 2, 2) && !ChunkFits(s, 2, 1);
    PieceCopy(s, 2, 3, "\n", 0);
    LineRunAll(s, 3);
    assert ChunkFits(s, 3, 3);
    PieceChunk(s, 3, 3, "\n", 3);
    assert s[3..6] == "def";
  }

  /** Without the stripping, a leading space is copied on its own and the word after it still
      fits: the first line of " abc" at width 3 is four characters long. */
  lemma WrapLeadingSpace()
    ensures WrapText(" abc", 3, "\n") == " abc\n"
  {
    var s := " abc";
    assert !ChunkFits(s, 0, 3) && !ChunkFits(s, 0, 2) && !ChunkFits(s, 0, 1);
    assert ChunkLen(s, 0, 3) == 0;
    PieceCopy(s, 0, 3, "\n", 0);
    LineRunAll(s, 1);
    assert ChunkFits(s, 1, 3);
    PieceChunk(s, 1, 3, "\n", 3);
    assert s[1..4] == "abc";
  }

  /** `r` ends with `brk`. */
  predicate EndsWith(r: string, brk: string) {
    |r| >= |brk| && r[|r| - |brk|..] == brk
  }

  /** For a positive width, a one-line text whose words fit, wrapped from any position before
      its end, ends with the break: leading whitespace is copied or starts a chunk, and the
      chunk that reaches the end of the text is followed by `brk` too. */
  lemma {:induction false} WrapFromEndsWithBreak(s: string, i: nat, width: nat, brk: string)
    requires i < |s| && width > 0 && s[|s| - 1] != '\n'
    ensures EndsWith(WrapFrom(s, i, width, brk), brk)
    decreases |s| - i
  {
    var (piece, j) := Piece(s, i, width, brk);
    WrapStepAt(s, i, width, brk, piece, j);
    var k := ChunkLen(s, i, Min(width, |s| - i));
    if k == 0 {
      PieceCopy(s, i, width, brk, k);
      if i + 1 == |s| {
        assert false;
      }
    } else {
      PieceChunk(s, i, width, brk, k);
    }
    var r' := WrapFrom(s, j, width, brk);
    if j < |s| {
      WrapFromEndsWithBreak(s, j, width, brk);
      assert (piece + r')[|piece + r'| - |brk|..] == r'[|r'| - |brk|..];
    } else {
      WrapHead(s, j, width, brk);
      assert piece + r' == piece;
    }
  }

  /** Titles are wrapped unstripped and may hold words longer than the width: whatever the
      text, as long as it does not end in a line feed, its wrap ends with the break. */
  lemma WrapEndsWithBreak(s: string, width: nat, brk: string)
    requires |s| > 0 && width > 0 && s[|s| - 1] != '\n'
    ensures EndsWith(WrapText(s, width, brk), brk)
  {
    WrapFromEndsWithBreak(s, 0, width, brk);
  }
}
