/** Model of src/knowledgeCards/renderMarkdownWithMath.ts: before the markdown is rendered,
    `$$…$$` and `$…$` spans are swapped for placeholder keys, and afterwards the keys are
    swapped back for the span text, with the span's `$` delimiters written as the entity
    `&#36;`; a `$` inside the math stays as it is.

    Each scanner is a method with the source's loop, proved against a recursive function
    that splits the text into spans (`BlockSplit`, `InlineSplit`). Keys come in the source's
    format and in a delimited format, and the keys are put back by two restore methods:
    the source's one and a corrected one. */
module MathProtect {
  import opened Common
  import opened ReplaceText

  // ---------------------------------------------------------------------------------------
  // Placeholder keys
  // ---------------------------------------------------------------------------------------

  datatype Family = Block | Inline

  /** `SourceKeys` is the source's `MATHBLOCKPLACEHOLDER${n}`; `DelimitedKeys` closes the
      counter with `END`, so that no key is a prefix of another. */
  datatype KeyFormat = SourceKeys | DelimitedKeys

  function Prefix(fam: Family): string {
    if fam == Block then "MATHBLOCKPLACEHOLDER" else "MATHINLINEPLACEHOLDER"
  }

  function Key(fmt: KeyFormat, fam: Family, n: nat): string {
    Prefix(fam) + Decimal(n) + (if fmt == DelimitedKeys then "END" else "")
  }

  /** `$$` and `$` as they are written back: the HTML entity for a dollar sign. */
  const Entity: string := "&#36;"
  const BlockFence: string := "&#36;&#36;"

  function Fence(fam: Family): string {
    if fam == Block then BlockFence else Entity
  }

  /** Different counters give different keys, in either format. */
  lemma KeyInjective(fmt: KeyFormat, fam: Family, n: nat, m: nat)
    requires Key(fmt, fam, n) == Key(fmt, fam, m)
    ensures n == m
  {
    var p := Prefix(fam);
    var sfx := if fmt == DelimitedKeys then "END" else "";
    var a, b := Key(fmt, fam, n), Key(fmt, fam, m);
    assert |Decimal(n)| == |Decimal(m)|;
    assert Decimal(n) == a[|p|..|p| + |Decimal(n)|];
    assert Decimal(m) == b[|p|..|p| + |Decimal(m)|];
    DecimalInjective(n, m);
  }

  // ---------------------------------------------------------------------------------------
  // Spans
  // ---------------------------------------------------------------------------------------

  /** The text before a math span, and the text between its delimiters. */
  datatype Span = Span(pre: string, inner: string)

  /** A text cut into spans and the text after the last one. */
  datatype Split = Split(spans: seq<Span>, tail: string)

  /** Text copied ahead of the first span (or of the tail). */
  function Prepend(s: string, r: Split): (r': Split)
    ensures |r'.spans| == |r.spans|
  {
    if r.spans == [] then Split([], s + r.tail)
    else Split([Span(s + r.spans[0].pre, r.spans[0].inner)] + r.spans[1..], r.tail)
  }

  /** The text with every span written between `open` and `close`. */
  function Fenced(r: Split, open: string, close: string): string
    decreases |r.spans|
  {
    if r.spans == [] then r.tail
    else r.spans[0].pre + open + r.spans[0].inner + close + Fenced(Split(r.spans[1..], r.tail), open, close)
  }

  /** The text with every span replaced by its key, counting from `n`. */
  function Protected(r: Split, fmt: KeyFormat, fam: Family, n: nat): string
    decreases |r.spans|
  {
    if r.spans == [] then r.tail
    else r.spans[0].pre + Key(fmt, fam, n) + Protected(Split(r.spans[1..], r.tail), fmt, fam, n + 1)
  }

  /** One record entry per span, in key order. */
  function Entries(spans: seq<Span>, fmt: KeyFormat, fam: Family, n: nat): (es: seq<(string, string)>)
    ensures |es| == |spans|
    decreases |spans|
  {
    if spans == [] then []
    else [(Key(fmt, fam, n), Fence(fam) + spans[0].inner + Fence(fam))] + Entries(spans[1..], fmt, fam, n + 1)
  }

  lemma FencedPrepend(s: string, r: Split, open: string, close: string)
    ensures Fenced(Prepend(s, r), open, close) == s + Fenced(r, open, close)
  {
    if r.spans != [] {
      var r' := Prepend(s, r);
      assert r'.spans[1..] == r.spans[1..];
    }
  }

  lemma ProtectedPrepend(s: string, r: Split, fmt: KeyFormat, fam: Family, n: nat)
    ensures Protected(Prepend(s, r), fmt, fam, n) == s + Protected(r, fmt, fam, n)
  {
    if r.spans != [] {
      var r' := Prepend(s, r);
      assert r'.spans[1..] == r.spans[1..];
    }
  }

  lemma ProtectedCons(inner: string, r: Split, fmt: KeyFormat, fam: Family, n: nat)
    ensures Protected(Split([Span("", inner)] + r.spans, r.tail), fmt, fam, n) == Key(fmt, fam, n) + Protected(r, fmt, fam, n + 1)
  {
    var r' := Split([Span("", inner)] + r.spans, r.tail);
    assert r'.spans[1..] == r.spans;
    assert Protected(r', fmt, fam, n) == "" + Key(fmt, fam, n) + Protected(Split(r'.spans[1..], r'.tail), fmt, fam, n + 1);
    assert "" + Key(fmt, fam, n) == Key(fmt, fam, n);
  }

  lemma EntriesCons(inner: string, spans: seq<Span>, fmt: KeyFormat, fam: Family, n: nat)
    ensures Entries([Span("", inner)] + spans, fmt, fam, n)
            == [(Key(fmt, fam, n), Fence(fam) + inner + Fence(fam))] + Entries(spans, fmt, fam, n + 1)
  {
    assert ([Span("", inner)] + spans)[1..] == spans;
  }

  lemma EntriesPrepend(s: string, r: Split, fmt: KeyFormat, fam: Family, n: nat)
    ensures Entries(Prepend(s, r).spans, fmt, fam, n) == Entries(r.spans, fmt, fam, n)
  {
  }

  // ---------------------------------------------------------------------------------------
  // The record (`Record<string, string>`): keys in insertion order
  // ---------------------------------------------------------------------------------------

  /** `record[k] = v`: an existing key keeps its place, a new key goes last. */
  function Assign(record: seq<(string, string)>, k: string, v: string): seq<(string, string)>
    decreases |record|
  {
    if record == [] then [(k, v)]
    else if record[0].0 == k then [(k, v)] + record[1..]
    else [record[0]] + Assign(record[1..], k, v)
  }

  predicate HasKey(record: seq<(string, string)>, k: string) {
    exists idx | 0 <= idx < |record| :: record[idx].0 == k
  }

  /** A new key is appended. */
  lemma {:induction false} AssignFresh(record: seq<(string, string)>, k: string, v: string)
    requires !HasKey(record, k)
    ensures Assign(record, k, v) == record + [(k, v)]
    decreases |record|
  {
    if record != [] {
      assert record[0].0 != k;
      assert !HasKey(record[1..], k) by {
        forall idx | 0 <= idx < |record[1..]| ensures record[1..][idx].0 != k {
          assert record[1..][idx] == record[idx + 1];
        }
      }
      AssignFresh(record[1..], k, v);
      assert record == [record[0]] + record[1..];
    }
  }

  /** `{ ...a, ...b }`. */
  function Merge(a: seq<(string, string)>, b: seq<(string, string)>): seq<(string, string)>
    decreases |b|
  {
    if b == [] then a else Merge(Assign(a, b[0].0, b[0].1), b[1..])
  }

  /** Merging records whose keys are all different appends the second to the first. */
  lemma {:induction false} MergeDisjoint(a: seq<(string, string)>, b: seq<(string, string)>)
    requires forall i, j :: 0 <= i < |a + b| && 0 <= j < |a + b| && i != j ==> (a + b)[i].0 != (a + b)[j].0
    ensures Merge(a, b) == a + b
    decreases |b|
  {
    if b != [] {
      assert !HasKey(a, b[0].0) by {
        forall idx | 0 <= idx < |a| ensures a[idx].0 != b[0].0 {
          assert (a + b)[idx] == a[idx] && (a + b)[|a|] == b[0];
        }
      }
      AssignFresh(a, b[0].0, b[0].1);
      var a' := a + [b[0]];
      assert a' + b[1..] == a + b;
      MergeDisjoint(a', b[1..]);
    }
  }

  // ---------------------------------------------------------------------------------------
  // Scanning rules
  // ---------------------------------------------------------------------------------------

  /** `text[i] === c`; an index outside the text reads `undefined`, which equals no character. */
  predicate CharAt(text: string, i: int, c: char) {
    0 <= i < |text| && text[i] == c
  }

  /** `isEscaped`: the character before `index` is a backslash. */
  predicate IsEscaped(text: string, index: int) {
    index > 0 && CharAt(text, index - 1, '\\')
  }

  predicate IsBlockStart(c: string, i: int) {
    CharAt(c, i, '$') && CharAt(c, i + 1, '$') && !IsEscaped(c, i) && !CharAt(c, i + 2, '$')
  }

  predicate IsBlockEnd(c: string, j: int) {
    CharAt(c, j, '$') && CharAt(c, j + 1, '$') && !IsEscaped(c, j)
  }

  predicate IsInlineStart(c: string, i: int) {
    && CharAt(c, i, '$') && !CharAt(c, i + 1, '$') && !IsEscaped(c, i) && !CharAt(c, i - 1, '$')
    && !CharAt(c, i + 1, '\n') && !CharAt(c, i + 1, '\r')
  }

  predicate IsInlineEnd(c: string, j: int) {
    CharAt(c, j, '$') && !IsEscaped(c, j)
  }

  /** An escaped dollar sign neither opens nor closes a span. */
  lemma EscapedDollarIsText(c: string, i: int)
    requires IsEscaped(c, i)
    ensures !IsBlockStart(c, i) && !IsBlockEnd(c, i) && !IsInlineStart(c, i) && !IsInlineEnd(c, i)
  {
  }

  /** Where the search for `$$` that starts at `j` stops: at the first closing `$$` before
      the last character, or at `j` or the last index when there is none. */
  function BlockCloser(c: string, j: nat): (k: nat)
    ensures j <= k
    ensures k < |c| - 1 ==> IsBlockEnd(c, k)
    ensures k >= |c| - 1 ==> k == j || k == |c| - 1
    ensures forall q :: j <= q < k ==> !IsBlockEnd(c, q)
    decreases |c| - j
  {
    if j >= |c| - 1 then j else if IsBlockEnd(c, j) then j else BlockCloser(c, j + 1)
  }

  /** The spans `protectBlockMath` finds in `c` from offset `i` on; each takes at least
      four characters, its two `$$`. */
  function BlockSplit(c: string, i: nat): (r: Split)
    requires i <= |c|
    ensures 4 * |r.spans| <= |c| - i
    decreases |c| - i
  {
    if i == |c| then Split([], "")
    else if !IsBlockStart(c, i) then Prepend([c[i]], BlockSplit(c, i + 1))
    else
      var j := BlockCloser(c, i + 2);
      if j >= |c| - 1 then Split([], c[i..])
      else
        var r := BlockSplit(c, j + 2);
        Split([Span("", c[i + 2..j])] + r.spans, r.tail)
  }

  /** `content.indexOf(ch, from)`. */
  function IndexOf(s: string, ch: char, from: nat): (r: int)
    ensures r == -1 || (from <= r < |s| && s[r] == ch)
    ensures forall q :: from <= q < |s| && (r == -1 || q < r) ==> s[q] != ch
    decreases |s| - from
  {
    if from >= |s| then -1 else if s[from] == ch then from else IndexOf(s, ch, from + 1)
  }

  /** The `lineEnd` of an inline span opening at `i`: the first line feed or carriage return
      after it, or the end of the text. */
  function LineEnd(c: string, i: nat): (e: nat)
    requires i < |c|
    ensures i + 1 <= e <= |c|
    ensures e < |c| ==> c[e] == '\n' || c[e] == '\r'
    ensures forall q :: i + 1 <= q < e ==> c[q] != '\n' && c[q] != '\r'
  {
    var nl := IndexOf(c, '\n', i + 1);
    var cr := IndexOf(c, '\r', i + 1);
    if nl == -1 then (if cr == -1 then |c| else cr)
    else if cr == -1 then nl
    else if nl < cr then nl else cr
  }

  /** Where the search for a closing `$` from `j` stops: at the first unescaped `$` before
      `e`, or at `e` (or `j`, when `j` is already past it). */
  function InlineCloser(c: string, j: nat, e: nat): (k: nat)
    ensures j <= k
    ensures k < e ==> IsInlineEnd(c, k)
    ensures forall q :: j <= q < k ==> !IsInlineEnd(c, q)
    decreases e - j
  {
    if j >= e then j else if IsInlineEnd(c, j) then j else InlineCloser(c, j + 1, e)
  }

  /** The spans `protectInlineMath` finds in `c` from offset `i` on; each takes at least
      two characters, its two `$`. */
  function InlineSplit(c: string, i: nat): (r: Split)
    requires i <= |c|
    ensures 2 * |r.spans| <= |c| - i
    decreases |c| - i
  {
    if i == |c| then Split([], "")
    else if !IsInlineStart(c, i) then Prepend([c[i]], InlineSplit(c, i + 1))
    else
      var e := LineEnd(c, i);
      var j := InlineCloser(c, i + 1, e);
      if j >= e then Prepend([c[i]], InlineSplit(c, i + 1))
      else
        var r := InlineSplit(c, j + 1);
        Split([Span("", c[i + 1..j])] + r.spans, r.tail)
  }

  lemma FencedCons(inner: string, r: Split, open: string, close: string)
    ensures Fenced(Split([Span("", inner)] + r.spans, r.tail), open, close) == open + inner + close + Fenced(r, open, close)
  {
    var r' := Split([Span("", inner)] + r.spans, r.tail);
    assert r'.spans[1..] == r.spans;
    assert Fenced(r', open, close) == "" + open + inner + close + Fenced(Split(r'.spans[1..], r'.tail), open, close);
    assert "" + open == open;
  }

  /** A copied character in front of a split that covers the rest. */
  lemma CoversText(c: string, i: nat, r: Split, r': Split, fence: string)
    requires i < |c| && Fenced(r', fence, fence) == c[i + 1..] && r == Prepend([c[i]], r')
    ensures Fenced(r, fence, fence) == c[i..]
  {
    FencedPrepend([c[i]], r', fence, fence);
    assert c[i..] == [c[i]] + c[i + 1..];
  }

  /** A span from `i` to `j` in front of a split that covers what follows it. */
  lemma CoversSpan(c: string, i: nat, j: nat, r: Split, r': Split, fence: string)
    requires i + |fence| <= j && j + |fence| <= |c|
    requires c[i..i + |fence|] == fence && c[j..j + |fence|] == fence
    requires Fenced(r', fence, fence) == c[j + |fence|..]
    requires r == Split([Span("", c[i + |fence|..j])] + r'.spans, r'.tail)
    ensures Fenced(r, fence, fence) == c[i..]
  {
    FencedCons(c[i + |fence|..j], r', fence, fence);
    assert c[i..] == c[i..i + |fence|] + c[i + |fence|..j] + c[j..j + |fence|] + c[j + |fence|..];
  }

  /** One dollar sign at `i`, spelled as a string. */
  lemma DollarAt(c: string, i: int)
    requires CharAt(c, i, '$')
    ensures i + 1 <= |c| && c[i..i + 1] == "$"
  {
  }

  /** Two dollar signs at `i`, spelled as a string. */
  lemma TwoDollarsAt(c: string, i: int)
    requires CharAt(c, i, '$') && CharAt(c, i + 1, '$')
    ensures i + 2 <= |c| && c[i..i + 2] == "$$"
  {
  }

  /** The block split at a `$$` closed at `j` covers the text from `i` when the split after
      the closing `$$` covers what follows it. */
  lemma BlockCoversSpan(c: string, i: nat, j: nat)
    requires i < |c| && IsBlockStart(c, i) && j == BlockCloser(c, i + 2) && j < |c| - 1
    requires Fenced(BlockSplit(c, j + 2), "$$", "$$") == c[j + 2..]
    ensures Fenced(BlockSplit(c, i), "$$", "$$") == c[i..]
  {
    BlockSpanFences(c, i, j);
    CoversSpan(c, i, j, BlockSplit(c, i), BlockSplit(c, j + 2), "$$");
  }

  /** A closed block span starts and ends with `$$` and is one span in front of the split
      after it. */
  lemma BlockSpanFences(c: string, i: nat, j: nat)
    requires i < |c| && IsBlockStart(c, i) && j == BlockCloser(c, i + 2) && j < |c| - 1
    ensures i + 2 <= j && c[i..i + 2] == "$$" && c[j..j + 2] == "$$"
    ensures BlockSplit(c, i) == Split([Span("", c[i + 2..j])] + BlockSplit(c, j + 2).spans, BlockSplit(c, j + 2).tail)
  {
    BlockSplitSpan(c, i, j);
    TwoDollarsAt(c, i);
    TwoDollarsAt(c, j);
  }

  /** The block spans cut the text exactly: put back between `$$` and `$$` they give the
      text again. */
  lemma {:induction false} BlockSplitCovers(c: string, i: nat)
    requires i <= |c|
    ensures Fenced(BlockSplit(c, i), "$$", "$$") == c[i..]
    decreases |c| - i
  {
    if i < |c| {
      var j := BlockCloser(c, i + 2);
      if !IsBlockStart(c, i) {
        BlockSplitText(c, i);
        BlockSplitCovers(c, i + 1);
        CoversText(c, i, BlockSplit(c, i), BlockSplit(c, i + 1), "$$");
      } else if j < |c| - 1 {
        BlockSplitCovers(c, j + 2);
        BlockCoversSpan(c, i, j);
      } else {
        BlockSplitUnclosed(c, i, j);
      }
    }
  }

  /** The inline split at a `$` closed at `j` on its line covers the text from `i` when the
      split after the closing `$` covers what follows it. */
  lemma InlineCoversSpan(c: string, i: nat, j: nat)
    requires i < |c| && IsInlineStart(c, i) && j == InlineCloser(c, i + 1, LineEnd(c, i)) && j < LineEnd(c, i)
    requires Fenced(InlineSplit(c, j + 1), "$", "$") == c[j + 1..]
    ensures Fenced(InlineSplit(c, i), "$", "$") == c[i..]
  {
    InlineSplitSpan(c, i, j);
    DollarAt(c, i);
    assert IsInlineEnd(c, j);
    DollarAt(c, j);
    CoversSpan(c, i, j, InlineSplit(c, i), InlineSplit(c, j + 1), "$");
  }

  /** The inline spans cut the text exactly: put back between `$` and `$` they give the
      text again. */
  lemma {:induction false} InlineSplitCovers(c: string, i: nat)
    requires i <= |c|
    ensures Fenced(InlineSplit(c, i), "$", "$") == c[i..]
    decreases |c| - i
  {
    if i < |c| {
      var j := InlineCloser(c, i + 1, LineEnd(c, i));
      if !IsInlineStart(c, i) || j >= LineEnd(c, i) {
        InlineSplitText(c, i);
        InlineSplitCovers(c, i + 1);
        CoversText(c, i, InlineSplit(c, i), InlineSplit(c, i + 1), "$");
      } else {
        InlineSplitCovers(c, j + 1);
        InlineCoversSpan(c, i, j);
      }
    }
  }

  // ---------------------------------------------------------------------------------------
  // protectBlockMath, protectInlineMath, protectMath
  // ---------------------------------------------------------------------------------------

  /** The keys `Key(fmt, fam, start)`, `Key(fmt, fam, start + 1)`, … in order. */
  predicate Numbered(entries: seq<(string, string)>, fmt: KeyFormat, fam: Family, start: nat) {
    forall idx :: 0 <= idx < |entries| ==> entries[idx].0 == Key(fmt, fam, start + idx)
  }

  /** The key of one counter is not the key of another. */
  lemma KeysDiffer(x: string, fmt: KeyFormat, fam: Family, a: nat, b: nat)
    requires x == Key(fmt, fam, a) && a != b
    ensures x != Key(fmt, fam, b)
  {
    if x == Key(fmt, fam, b) {
      KeyInjective(fmt, fam, a, b);
    }
  }

  lemma NextKeyIsFresh(entries: seq<(string, string)>, fmt: KeyFormat, fam: Family, start: nat)
    requires Numbered(entries, fmt, fam, start)
    ensures !HasKey(entries, Key(fmt, fam, start + |entries|))
  {
    forall idx | 0 <= idx < |entries| ensures entries[idx].0 != Key(fmt, fam, start + |entries|) {
      KeysDiffer(entries[idx].0, fmt, fam, start + idx, start + |entries|);
    }
  }

  /** Moving a piece from the front of what is left to the end of what is done. */
  lemma Shift<T>(done: seq<T>, piece: seq<T>, rest: seq<T>, whole: seq<T>)
    requires done + (piece + rest) == whole
    ensures (done + piece) + rest == whole
  {
  }

  /** Recording the next key keeps the record numbered, and the key is new to it. */
  lemma NumberedSnoc(entries: seq<(string, string)>, key: string, v: string, fmt: KeyFormat, fam: Family, start: nat)
    requires Numbered(entries, fmt, fam, start) && key == Key(fmt, fam, start + |entries|)
    ensures Numbered(entries + [(key, v)], fmt, fam, start)
    ensures Assign(entries, key, v) == entries + [(key, v)]
  {
    NumberedAppend(entries, key, v, fmt, fam, start);
    NextKeyIsFresh(entries, fmt, fam, start);
    AssignFresh(entries, key, v);
  }

  lemma NumberedAppend(entries: seq<(string, string)>, key: string, v: string, fmt: KeyFormat, fam: Family, start: nat)
    requires Numbered(entries, fmt, fam, start) && key == Key(fmt, fam, start + |entries|)
    ensures Numbered(entries + [(key, v)], fmt, fam, start)
  {
    var e' := entries + [(key, v)];
    forall idx | 0 <= idx < |e'| ensures e'[idx].0 == Key(fmt, fam, start + idx) {
      if idx < |entries| {
        assert e'[idx] == entries[idx];
      } else {
        assert idx == |entries| && e'[idx] == (key, v);
      }
    }
  }

  /** `BlockSplit` at a character that does not open a span copies it. */
  lemma BlockSplitText(c: string, i: nat)
    requires i < |c| && !IsBlockStart(c, i)
    ensures BlockSplit(c, i) == Prepend([c[i]], BlockSplit(c, i + 1))
  {
  }

  /** `BlockSplit` at a `$$` with no closing `$$` keeps the rest as it is. */
  lemma BlockSplitUnclosed(c: string, i: nat, j: nat)
    requires i < |c| && IsBlockStart(c, i) && j == BlockCloser(c, i + 2) && j >= |c| - 1
    ensures BlockSplit(c, i) == Split([], c[i..])
  {
  }

  /** `BlockSplit` at a `$$` closed at `j` starts with the span between them. */
  lemma BlockSplitSpan(c: string, i: nat, j: nat)
    requires i < |c| && IsBlockStart(c, i) && j == BlockCloser(c, i + 2) && j < |c| - 1
    ensures BlockSplit(c, i) == Split([Span("", c[i + 2..j])] + BlockSplit(c, j + 2).spans, BlockSplit(c, j + 2).tail)
  {
  }

  /** `InlineSplit` at a character that does not open a closed span copies it. */
  lemma InlineSplitText(c: string, i: nat)
    requires i < |c| && (!IsInlineStart(c, i) || InlineCloser(c, i + 1, LineEnd(c, i)) >= LineEnd(c, i))
    ensures InlineSplit(c, i) == Prepend([c[i]], InlineSplit(c, i + 1))
  {
  }

  /** `InlineSplit` at a `$` closed at `j` on the same line starts with the span between them. */
  lemma InlineSplitSpan(c: string, i: nat, j: nat)
    requires i < |c| && IsInlineStart(c, i) && j == InlineCloser(c, i + 1, LineEnd(c, i)) && j < LineEnd(c, i)
    ensures InlineSplit(c, i) == Split([Span("", c[i + 1..j])] + InlineSplit(c, j + 1).spans, InlineSplit(c, j + 1).tail)
  {
  }

  /** The state of a scanner's loop: `out` and `entries` followed by what the split `rest`
      of the remaining text yields are what the split `whole` of the whole text yields, and
      the keys so far are the consecutive counters from `startCount`. */
  predicate Scanned(fam: Family, fmt: KeyFormat, rest: Split, whole: Split, out: string, entries: seq<(string, string)>,
                    count: nat, startCount: nat)
  {
    && out + Protected(rest, fmt, fam, count) == Protected(whole, fmt, fam, startCount)
    && entries + Entries(rest.spans, fmt, fam, count) == Entries(whole.spans, fmt, fam, startCount)
    && count + |rest.spans| == startCount + |whole.spans|
    && |entries| == count - startCount && Numbered(entries, fmt, fam, startCount)
  }

  lemma ScanStart(fam: Family, fmt: KeyFormat, whole: Split, startCount: nat)
    ensures Scanned(fam, fmt, whole, whole, "", [], startCount, startCount)
  {
    assert "" + Protected(whole, fmt, fam, startCount) == Protected(whole, fmt, fam, startCount);
    assert [] + Entries(whole.spans, fmt, fam, startCount) == Entries(whole.spans, fmt, fam, startCount);
  }

  /** Text copied as it is. */
  lemma ScanText(fam: Family, fmt: KeyFormat, text: string, rest: Split, rest': Split, whole: Split,
                 out: string, out': string, entries: seq<(string, string)>, count: nat, startCount: nat)
    requires Scanned(fam, fmt, rest, whole, out, entries, count, startCount) && rest == Prepend(text, rest')
    requires out' == out + text
    ensures Scanned(fam, fmt, rest', whole, out', entries, count, startCount)
  {
    ProtectedPrepend(text, rest', fmt, fam, count);
    Shift(out, text, Protected(rest', fmt, fam, count), Protected(whole, fmt, fam, startCount));
  }

  /** A span with text `inner`, replaced by the next key. */
  lemma ScanSpan(fam: Family, fmt: KeyFormat, inner: string, rest: Split, rest': Split, whole: Split,
                 out: string, entries: seq<(string, string)>, count: nat,
                 out': string, entries': seq<(string, string)>, count': nat, startCount: nat)
    requires Scanned(fam, fmt, rest, whole, out, entries, count, startCount)
    requires rest == Split([Span("", inner)] + rest'.spans, rest'.tail)
    requires out' == out + Key(fmt, fam, count)
    requires entries' == Assign(entries, Key(fmt, fam, count), Fence(fam) + inner + Fence(fam))
    requires count' == count + 1
    ensures Scanned(fam, fmt, rest', whole, out', entries', count', startCount)
  {
    var key, value := Key(fmt, fam, count), Fence(fam) + inner + Fence(fam);
    ProtectedCons(inner, rest', fmt, fam, count);
    EntriesCons(inner, rest'.spans, fmt, fam, count);
    Shift(out, key, Protected(rest', fmt, fam, count + 1), Protected(whole, fmt, fam, startCount));
    Shift(entries, [(key, value)], Entries(rest'.spans, fmt, fam, count + 1), Entries(whole.spans, fmt, fam, startCount));
    NumberedSnoc(entries, key, value, fmt, fam, startCount);
  }

  /** No span in what is left: it is copied as it is. */
  lemma ScanRest(fam: Family, fmt: KeyFormat, text: string, rest: Split, whole: Split,
                 out: string, entries: seq<(string, string)>, count: nat, startCount: nat)
    requires Scanned(fam, fmt, rest, whole, out, entries, count, startCount) && rest == Split([], text)
    ensures out + text == Protected(whole, fmt, fam, startCount)
    ensures entries == Entries(whole.spans, fmt, fam, startCount)
    ensures count == startCount + |whole.spans|
    ensures Numbered(entries, fmt, fam, startCount)
  {
    assert entries + [] == entries;
  }

  /** `const key = …${count++}`, `map[key] = …`, `out += key`: a span is replaced by the
      next key, and the record maps that key to the span with its delimiters as entities. */
  method RecordSpan(fam: Family, fmt: KeyFormat, inner: string, ghost rest: Split, ghost rest': Split, ghost whole: Split,
                    out: string, entries: seq<(string, string)>, count: nat, startCount: nat)
    returns (out': string, entries': seq<(string, string)>, count': nat)
    requires Scanned(fam, fmt, rest, whole, out, entries, count, startCount)
    requires rest == Split([Span("", inner)] + rest'.spans, rest'.tail)
    ensures Scanned(fam, fmt, rest', whole, out', entries', count', startCount)
    ensures out' == out + Key(fmt, fam, count)
    ensures entries' == entries + [(Key(fmt, fam, count), Fence(fam) + inner + Fence(fam))]
    ensures count' == count + 1
  {
    var key := Key(fmt, fam, count);
    count' := count + 1;
    entries' := Assign(entries, key, Fence(fam) + inner + Fence(fam));
    out' := out + key;
    ScanSpan(fam, fmt, inner, rest, rest', whole, out, entries, count, out', entries', count', startCount);
    NumberedSnoc(entries, key, Fence(fam) + inner + Fence(fam), fmt, fam, startCount);
  }

  /** The step of `protectBlockMath` at a `$$` closed at `j`: the scan resumes after the
      closing `$$`, with the span recorded. */
  method ProtectBlockAt(content: string, i: nat, j: nat, fmt: KeyFormat, ghost whole: Split,
                        out: string, entries: seq<(string, string)>, count: nat, startCount: nat)
    returns (next: nat, out': string, entries': seq<(string, string)>, count': nat)
    requires i < |content| && IsBlockStart(content, i) && j == BlockCloser(content, i + 2) && j < |content| - 1
    requires Scanned(Block, fmt, BlockSplit(content, i), whole, out, entries, count, startCount)
    ensures next == j + 2 && i < next <= |content|
    ensures Scanned(Block, fmt, BlockSplit(content, next), whole, out', entries', count', startCount)
  {
    // `match.slice(2, -2)` of `match = content.slice(i, j + 2)`
    var inner := content[i + 2..j];
    BlockSplitSpan(content, i, j);
    out', entries', count' := RecordSpan(Block, fmt, inner, BlockSplit(content, i), BlockSplit(content, j + 2), whole,
                                         out, entries, count, startCount);
    next := j + 2;
  }

  /** The source's inner loop: the search for the closing `$$`. */
  method FindBlockEnd(content: string, i: nat) returns (j: nat)
    requires i < |content|
    ensures j == BlockCloser(content, i + 2)
  {
    j := i + 2;
    while j < |content| - 1
      invariant i + 2 <= j
      invariant BlockCloser(content, j) == BlockCloser(content, i + 2)
      decreases |content| - j
    {
      var isBlockEnd := content[j] == '$' && content[j + 1] == '$' && !IsEscaped(content, j);
      if isBlockEnd {
        break;
      }
      j := j + 1;
    }
  }

  /** `protectBlockMath`: every `$$…$$` span becomes the next key, and the record maps the
      key to the span with its delimiters written as entities. */
  method ProtectBlockMath(content: string, startCount: nat, fmt: KeyFormat)
    returns (out: string, entries: seq<(string, string)>, nextCount: nat)
    ensures var r := BlockSplit(content, 0);
      && out == Protected(r, fmt, Block, startCount)
      && entries == Entries(r.spans, fmt, Block, startCount)
      && nextCount == startCount + |r.spans|
    ensures Numbered(entries, fmt, Block, startCount)
  {
    entries := [];
    var count: nat := startCount;
    out := "";
    ghost var whole := BlockSplit(content, 0);
    ScanStart(Block, fmt, whole, startCount);
    var i := 0;
    while i < |content|
      invariant 0 <= i <= |content|
      invariant Scanned(Block, fmt, BlockSplit(content, i), whole, out, entries, count, startCount)
      decreases |content| - i
    {
      var isBlockStart := CharAt(content, i, '$') && CharAt(content, i + 1, '$') && !IsEscaped(content, i)
                          && !CharAt(content, i + 2, '$');
      if !isBlockStart {
        BlockSplitText(content, i);
        ghost var out0 := out;
        out := out + [content[i]];
        ScanText(Block, fmt, [content[i]], BlockSplit(content, i), BlockSplit(content, i + 1), whole, out0, out, entries, count, startCount);
        i := i + 1;
        continue;
      }

      var j := FindBlockEnd(content, i);

      if j >= |content| - 1 {
        BlockSplitUnclosed(content, i, j);
        ScanRest(Block, fmt, content[i..], BlockSplit(content, i), whole, out, entries, count, startCount);
        out := out + content[i..];
        nextCount := count;
        return;
      }

      i, out, entries, count := ProtectBlockAt(content, i, j, fmt, whole, out, entries, count, startCount);
    }
    ScanRest(Block, fmt, "", BlockSplit(content, i), whole, out, entries, count, startCount);
    nextCount := count;
  }

  /** The step of `protectInlineMath` at a `$` closed at `j` on the same line: the scan
      resumes after the closing `$`, with the span recorded. */
  method ProtectInlineAt(content: string, i: nat, j: nat, fmt: KeyFormat, ghost whole: Split,
                         out: string, entries: seq<(string, string)>, count: nat, startCount: nat)
    returns (next: nat, out': string, entries': seq<(string, string)>, count': nat)
    requires i < |content| && IsInlineStart(content, i) && j == InlineCloser(content, i + 1, LineEnd(content, i))
    requires j < LineEnd(content, i)
    requires Scanned(Inline, fmt, InlineSplit(content, i), whole, out, entries, count, startCount)
    ensures next == j + 1 && i < next <= |content|
    ensures Scanned(Inline, fmt, InlineSplit(content, next), whole, out', entries', count', startCount)
  {
    // `match.slice(1, -1)` of `match = content.slice(i, j + 1)`
    var inner := content[i + 1..j];
    InlineSplitSpan(content, i, j);
    out', entries', count' := RecordSpan(Inline, fmt, inner, InlineSplit(content, i), InlineSplit(content, j + 1), whole,
                                         out, entries, count, startCount);
    next := j + 1;
  }

  /** The source's inner loop: the search for the closing `$` before the line ends. */
  method FindInlineEnd(content: string, i: nat, lineEnd: nat) returns (j: nat)
    ensures j == InlineCloser(content, i + 1, lineEnd)
  {
    j := i + 1;
    while j < lineEnd
      invariant i + 1 <= j
      invariant InlineCloser(content, j, lineEnd) == InlineCloser(content, i + 1, lineEnd)
      decreases lineEnd - j
    {
      var isInlineEnd := CharAt(content, j, '$') && !IsEscaped(content, j);
      if isInlineEnd {
        break;
      }
      j := j + 1;
    }
  }

  /** `protectInlineMath`: every `$…$` span that opens and closes on one line becomes the
      next key, and the record maps the key to the span with `$` written as an entity. */
  method ProtectInlineMath(content: string, startCount: nat, fmt: KeyFormat)
    returns (out: string, entries: seq<(string, string)>, nextCount: nat)
    ensures var r := InlineSplit(content, 0);
      && out == Protected(r, fmt, Inline, startCount)
      && entries == Entries(r.spans, fmt, Inline, startCount)
      && nextCount == startCount + |r.spans|
    ensures Numbered(entries, fmt, Inline, startCount)
  {
    entries := [];
    var count: nat := startCount;
    out := "";
    ghost var whole := InlineSplit(content, 0);
    ScanStart(Inline, fmt, whole, startCount);
    var i := 0;
    while i < |content|
      invariant 0 <= i <= |content|
      invariant Scanned(Inline, fmt, InlineSplit(content, i), whole, out, entries, count, startCount)
      decreases |content| - i
    {
      var isInlineStart := CharAt(content, i, '$') && !CharAt(content, i + 1, '$') && !IsEscaped(content, i)
                           && !CharAt(content, i - 1, '$') && !CharAt(content, i + 1, '\n') && !CharAt(content, i + 1, '\r');
      if !isInlineStart {
        InlineSplitText(content, i);
        ghost var out0 := out;
        out := out + [content[i]];
        ScanText(Inline, fmt, [content[i]], InlineSplit(content, i), InlineSplit(content, i + 1), whole, out0, out, entries, count, startCount);
        i := i + 1;
        continue;
      }

      var nl := IndexOf(content, '\n', i + 1);
      var cr := IndexOf(content, '\r', i + 1);
      var lineEnd: nat;
      if nl == -1 {
        lineEnd := if cr == -1 then |content| else cr;
      } else if cr == -1 {
        lineEnd := nl;
      } else {
        lineEnd := if nl < cr then nl else cr;
      }
      assert lineEnd == LineEnd(content, i);

      var j := FindInlineEnd(content, i, lineEnd);

      if j >= lineEnd {
        InlineSplitText(content, i);
        ghost var out0 := out;
        out := out + [content[i]];
        ScanText(Inline, fmt, [content[i]], InlineSplit(content, i), InlineSplit(content, i + 1), whole, out0, out, entries, count, startCount);
        i := i + 1;
        continue;
      }

      i, out, entries, count := ProtectInlineAt(content, i, j, fmt, whole, out, entries, count, startCount);
    }
    ScanRest(Inline, fmt, "", InlineSplit(content, i), whole, out, entries, count, startCount);
    nextCount := count;
  }

  /** Block keys and inline keys never coincide. */
  lemma FamiliesApart(fmt: KeyFormat, n: nat, m: nat)
    ensures Key(fmt, Block, n) != Key(fmt, Inline, m)
  {
    assert Key(fmt, Block, n)[4] == 'B';
    assert Key(fmt, Inline, m)[4] == 'I';
  }

  /** Keys differ unless both their family and their counter agree. */
  lemma KeysApart(fmt: KeyFormat, fa: Family, fb: Family, n: nat, m: nat)
    requires fa != fb || n != m
    ensures Key(fmt, fa, n) != Key(fmt, fb, m)
  {
    if fa == fb {
      if Key(fmt, fa, n) == Key(fmt, fb, m) { KeyInjective(fmt, fa, n, m); }
    } else if fa == Block {
      FamiliesApart(fmt, n, m);
    } else {
      FamiliesApart(fmt, m, n);
    }
  }

  /** The key at a position of the block record followed by the inline record. */
  lemma MergedKeyAt(a: seq<(string, string)>, b: seq<(string, string)>, fmt: KeyFormat, na: nat, nb: nat, i: nat)
    returns (fam: Family, n: nat)
    requires Numbered(a, fmt, Block, na) && Numbered(b, fmt, Inline, nb) && i < |a + b|
    ensures (a + b)[i].0 == Key(fmt, fam, n)
    ensures i < |a| ==> fam == Block && n == na + i
    ensures i >= |a| ==> fam == Inline && n == nb + (i - |a|)
  {
    if i < |a| {
      fam, n := Block, na + i;
      assert (a + b)[i] == a[i];
    } else {
      fam, n := Inline, nb + (i - |a|);
      assert (a + b)[i] == b[i - |a|];
    }
  }

  lemma NumberedDistinct(a: seq<(string, string)>, b: seq<(string, string)>, fmt: KeyFormat, na: nat, nb: nat)
    requires Numbered(a, fmt, Block, na) && Numbered(b, fmt, Inline, nb)
    ensures forall i, j :: 0 <= i < |a + b| && 0 <= j < |a + b| && i != j ==> (a + b)[i].0 != (a + b)[j].0
  {
    forall i, j | 0 <= i < |a + b| && 0 <= j < |a + b| && i != j
      ensures (a + b)[i].0 != (a + b)[j].0
    {
      var fi, ni := MergedKeyAt(a, b, fmt, na, nb, i);
      var fj, nj := MergedKeyAt(a, b, fmt, na, nb, j);
      KeysApart(fmt, fi, fj, ni, nj);
    }
  }

  /** What `protectMath` returns for `content`: block spans are taken out first, then inline
      spans of what is left; the record lists the block keys, then the inline keys. */
  function ProtectedText(content: string, fmt: KeyFormat): string {
    var b := BlockSplit(content, 0);
    var y := Protected(b, fmt, Block, 0);
    Protected(InlineSplit(y, 0), fmt, Inline, |b.spans|)
  }

  function ProtectedEntries(content: string, fmt: KeyFormat): seq<(string, string)> {
    var b := BlockSplit(content, 0);
    var y := Protected(b, fmt, Block, 0);
    Entries(b.spans, fmt, Block, 0) + Entries(InlineSplit(y, 0).spans, fmt, Inline, |b.spans|)
  }

  /** `protectMath`. The inline counter continues where the block counter stopped, so all
      keys are distinct and the merge keeps every entry. */
  method ProtectMath(content: string, fmt: KeyFormat) returns (protectedContent: string, entries: seq<(string, string)>)
    ensures protectedContent == ProtectedText(content, fmt)
    ensures entries == ProtectedEntries(content, fmt)
    ensures forall i, j :: 0 <= i < |entries| && 0 <= j < |entries| && i != j ==> entries[i].0 != entries[j].0
  {
    var blockOut, blockEntries, blockNext := ProtectBlockMath(content, 0, fmt);
    var inlineOut, inlineEntries, inlineNext := ProtectInlineMath(blockOut, blockNext, fmt);
    protectedContent := inlineOut;
    NumberedDistinct(blockEntries, inlineEntries, fmt, 0, blockNext);
    MergeDisjoint(blockEntries, inlineEntries);
    entries := Merge(blockEntries, inlineEntries);
  }

  // ---------------------------------------------------------------------------------------
  // restoreMath and renderMarkdownWithMath
  // ---------------------------------------------------------------------------------------

  /** The source's `restoreMath`: each key in insertion order is replaced everywhere with
      `replaceAll(key, value)`, whose replacement string expands `$` patterns. When no value
      holds a dollar sign, that is the verbatim restore in insertion order. */
  function RestoreInOrder(html: string, entries: seq<(string, string)>): (r: string)
    ensures (forall q | 0 <= q < |entries| :: '$' !in entries[q].1) ==> r == RestoreVerbatim(html, entries)
    decreases |entries|
  {
    if entries == [] then html
    else
      assert forall q | 0 <= q < |entries| - 1 :: entries[1..][q] == entries[q + 1];
      RestoreInOrder(ReplaceAll(html, entries[0].0, entries[0].1), entries[1..])
  }

  function Reverse<T>(s: seq<T>): (r: seq<T>)
    ensures |r| == |s|
    ensures forall k :: 0 <= k < |s| ==> r[k] == s[|s| - 1 - k]
  {
    if s == [] then [] else Reverse(s[1..]) + [s[0]]
  }

  /** Replaces the keys in the order listed, each value inserted verbatim. */
  function RestoreVerbatim(html: string, entries: seq<(string, string)>): string
    decreases |entries|
  {
    if entries == [] then html
    else RestoreVerbatim(ReplaceLiteral(html, entries[0].0, entries[0].1), entries[1..])
  }

  /** The corrected restore: the last key inserted is replaced first, so that a key inside
      an inline span's value is put back after that value has been, and every value is
      inserted verbatim. */
  function RestoreReversed(html: string, entries: seq<(string, string)>): string {
    RestoreVerbatim(html, Reverse(entries))
  }

  /** `restoreMath` as written. */
  method RestoreMath(html: string, entries: seq<(string, string)>) returns (out: string)
    ensures out == RestoreInOrder(html, entries)
  {
    out := html;
    for idx := 0 to |entries|
      invariant RestoreInOrder(out, entries[idx..]) == RestoreInOrder(html, entries)
    {
      assert entries[idx..][1..] == entries[idx + 1..];
      out := ReplaceAll(out, entries[idx].0, entries[idx].1);
    }
  }

  /** The corrected `restoreMath`. */
  method RestoreMathReversed(html: string, entries: seq<(string, string)>) returns (out: string)
    ensures out == RestoreReversed(html, entries)
  {
    out := html;
    var idx := |entries|;
    assert entries[..idx] == entries;
    while idx > 0
      invariant 0 <= idx <= |entries|
      invariant RestoreVerbatim(out, Reverse(entries[..idx])) == RestoreReversed(html, entries)
      decreases idx
    {
      assert entries[..idx] == entries[..idx - 1] + [entries[idx - 1]];
      assert Reverse(entries[..idx])[0] == entries[idx - 1];
      assert Reverse(entries[..idx])[1..] == Reverse(entries[..idx - 1]);
      out := ReplaceLiteral(out, entries[idx - 1].0, entries[idx - 1].1);
      idx := idx - 1;
    }
    assert entries[..0] == [];
    assert entries[..|entries|] == entries;
  }

  /** The page text a browser shows for the markup, as far as the entity `&#36;` goes. */
  function Decode(s: string): string {
    ReplaceLiteral(s, Entity, "$")
  }

  /** The HTML `renderMarkdownWithMath` returns: `markdown` stands for `marked.parse`,
      `sanitize` for `DOMPurify.sanitize`, and `inBrowser` for the test
      `typeof window !== 'undefined'`. The keys are the source's and the record is put
      back in insertion order through `replaceAll` with a replacement string. */
  function RenderedHtml(content: string, markdown: string -> string, sanitize: string -> string, inBrowser: bool): string {
    var restored := RestoreInOrder(markdown(ProtectedText(content, SourceKeys)), ProtectedEntries(content, SourceKeys));
    if inBrowser then sanitize(restored) else restored
  }

  /** `renderMarkdownWithMath` as written. */
  method RenderMarkdownWithMath(content: string, markdown: string -> string, sanitize: string -> string, inBrowser: bool)
    returns (html: string)
    ensures html == RenderedHtml(content, markdown, sanitize, inBrowser)
  {
    var protectedContent, entries := ProtectMath(content, SourceKeys);
    var rendered := markdown(protectedContent);
    var restored := RestoreMath(rendered, entries);
    if !inBrowser {
      return restored;
    }
    html := sanitize(restored);
  }

  /** The HTML of the corrected render: delimited keys, put back last first with verbatim
      values. */
  function CorrectedHtml(content: string, markdown: string -> string, sanitize: string -> string, inBrowser: bool): string {
    var restored := RestoreReversed(markdown(ProtectedText(content, DelimitedKeys)), ProtectedEntries(content, DelimitedKeys));
    if inBrowser then sanitize(restored) else restored
  }

  /** `renderMarkdownWithMath` with delimited keys and the corrected restore. */
  method RenderCorrected(content: string, markdown: string -> string, sanitize: string -> string, inBrowser: bool)
    returns (html: string)
    ensures html == CorrectedHtml(content, markdown, sanitize, inBrowser)
  {
    var protectedContent, entries := ProtectMath(content, DelimitedKeys);
    var rendered := markdown(protectedContent);
    var restored := RestoreMathReversed(rendered, entries);
    if !inBrowser {
      return restored;
    }
    html := sanitize(restored);
  }
}
