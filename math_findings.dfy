/** Three inputs on which the source's `protectMath` and `restoreMath`, taken as written
    (keys `MATHBLOCKPLACEHOLDER${n}`, restored in insertion order with `replaceAll(key,
    value)`), do not give the math back. Each lemma states what the as-written pipeline
    computes, with markdown rendering taken as the identity, and that the decoded page text
    differs from the input. The corrected pipeline (`MathRoundTrip.RoundTrip`) gives every one of
    these inputs back. */
module MathFindings {
  import opened Common
  import opened ReplaceText
  import opened MathProtect
  import opened MathRoundTrip

  // ---------------------------------------------------------------------------------------
  // Shared steps
  // ---------------------------------------------------------------------------------------

  /** Text without a dollar sign has no inline span. */
  lemma {:induction false} InlineSplitNoDollar(c: string, i: nat)
    requires i <= |c| && '$' !in c[i..]
    ensures InlineSplit(c, i) == Split([], c[i..])
    decreases |c| - i
  {
    if i < |c| {
      assert c[i] == c[i..][0];
      assert !IsInlineStart(c, i);
      InlineSplitText(c, i);
      assert c[i..] == [c[i]] + c[i + 1..];
      InlineSplitNoDollar(c, i + 1);
    }
  }

  /** `$m$` on one line, with no dollar sign inside and no backslash before the closing
      one, is a single inline span. */
  lemma InlineWhole(m: string)
    requires m != "" && '$' !in m && '\n' !in m && '\r' !in m && m[|m| - 1] != '\\'
    ensures InlineSplit("$" + m + "$", 0) == Split([Span("", m)], "")
  {
    var c := "$" + m + "$";
    var last := |c| - 1;
    assert c[1] == m[0];
    assert IsInlineStart(c, 0);
    assert forall q | 1 <= q < last :: c[q] == m[q - 1];
    assert forall q | 1 <= q < last :: c[q] != '$' && c[q] != '\n' && c[q] != '\r';
    var e := LineEnd(c, 0);
    assert e == |c|;
    var j := InlineCloser(c, 1, e);
    assert c[last - 1] == m[|m| - 1];
    assert IsInlineEnd(c, last);
    assert j == last;
    InlineSplitSpan(c, 0, j);
    assert InlineSplit(c, j + 1) == Split([], "");
    assert c[1..j] == m;
  }

  /** When the block-protected text has no dollar sign, `protectMath` finds no inline span:
      its output is that text and its record holds the block entries only. */
  lemma NoInlineSpans(x: string, fmt: KeyFormat)
    requires '$' !in Protected(BlockSplit(x, 0), fmt, Block, 0)
    ensures ProtectedText(x, fmt) == Protected(BlockSplit(x, 0), fmt, Block, 0)
    ensures ProtectedEntries(x, fmt) == Entries(BlockSplit(x, 0).spans, fmt, Block, 0)
  {
    var b := BlockSplit(x, 0);
    var y := Protected(b, fmt, Block, 0);
    assert y[0..] == y;
    InlineSplitNoDollar(y, 0);
    assert Entries(b.spans, fmt, Block, 0) + [] == Entries(b.spans, fmt, Block, 0);
  }

  /** The decoded text differs from `x` once their characters at `i` differ. */
  lemma DiffersAt(s: string, x: string, i: nat)
    requires i < |s| && i < |x| && s[i] != x[i]
    ensures s != x
  {
  }

  /** A one-span split fenced by `open` and `close`. */
  lemma FencedOne(m: string, open: string, close: string)
    ensures Fenced(Split([Span("", m)], ""), open, close) == open + m + close
  {
    var e: string := "";
    FencedSpan(e, m, e, open, close);
    assert e + open + m + close + e == open + m + close;
  }

  /** A one-span split between `pre` and `tail`. */
  lemma FencedSpan(pre: string, m: string, tail: string, open: string, close: string)
    ensures Fenced(Split([Span(pre, m)], tail), open, close) == pre + open + m + close + tail
  {
    assert [Span(pre, m)][1..] == [];
  }

  // ---------------------------------------------------------------------------------------
  // A `$` pattern in a block span
  // ---------------------------------------------------------------------------------------

  /** Expanding a replacement string copies a dollar-free head as it is. */
  lemma {:induction false} ExpandPlainHead(a: string, rest: string, s: string, q: nat, p: string)
    requires q + |p| <= |s| && '$' !in a
    ensures Expand(a + rest, s, q, p) == a + Expand(rest, s, q, p)
    decreases |a|
  {
    if a == "" {
      assert a + rest == rest;
    } else {
      var ar := a + rest;
      ConsSplit(a, rest);
      assert ar[0] != '$';
      assert Expand(ar, s, q, p) == [a[0]] + Expand(a[1..] + rest, s, q, p);
      ExpandPlainHead(a[1..], rest, s, q, p);
      ConsSplit(a, Expand(rest, s, q, p));
    }
  }

  /** The text `$$a$&$$` holds one block span, `a$&`. */
  lemma DollarPatternSplit()
    ensures BlockSplit("$$a$&$$", 0) == Split([Span("", "a$&")], "")
  {
    var x := "$$a$&$$";
    assert IsBlockStart(x, 0);
    assert BlockCloser(x, 5) == 5;
    assert BlockCloser(x, 4) == 5;
    assert BlockCloser(x, 3) == 5;
    assert BlockCloser(x, 2) == 5;
    BlockSplitSpan(x, 0, 5);
    assert x[2..5] == "a$&";
  }

  /** `protectMath("$$a$&$$")` is key 0 alone, recorded with the span's value. */
  lemma DollarPatternProtected()
    ensures var k := Key(SourceKeys, Block, 0);
      && ProtectedText("$$a$&$$", SourceKeys) == k
      && ProtectedEntries("$$a$&$$", SourceKeys) == [(k, BlockFence + "a$&" + BlockFence)]
  {
    var k := Key(SourceKeys, Block, 0);
    KeyShape(SourceKeys, Block, 0);
    DollarPatternSplit();
    ProtectedCons("a$&", Split([], ""), SourceKeys, Block, 0);
    NoInlineSpans("$$a$&$$", SourceKeys);
    EntriesCons("a$&", [], SourceKeys, Block, 0);
  }

  /** `replaceAll(k, v)` on the key alone expands `$&` in `v` to the key. */
  lemma DollarPatternRestore(k: string)
    requires KeyLike(k)
    ensures var v := BlockFence + "a$&" + BlockFence;
      RestoreInOrder(k, [(k, v)]) == BlockFence + "a" + k + BlockFence
  {
    var v := BlockFence + "a$&" + BlockFence;
    assert [(k, v)][1..] == [];
    assert RestoreInOrder(k, [(k, v)]) == ReplaceAll(k, k, v);
    KeyAloneReplaced(k, v);
    BlockAmpersandExpanded(k);
  }

  lemma BlockAmpersandExpanded(k: string)
    ensures Expand(BlockFence + "a$&" + BlockFence, k, 0, k) == BlockFence + "a" + k + BlockFence
  {
    var head := BlockFence + "a";
    assert '$' !in head;
    assert BlockFence + "a$&" + BlockFence == head + "$&" + BlockFence;
    AmpersandExpanded(head, BlockFence, k);
  }

  /** The whole text is one match of a non-empty pattern equal to it. */
  lemma KeyAloneReplaced(k: string, v: string)
    requires k != ""
    ensures ReplaceAll(k, k, v) == Expand(v, k, 0, k)
  {
    assert StartsAt(k, k, 0);
    assert ReplaceAllFrom(k, k, v, |k|) == "";
    assert ReplaceAllFrom(k, k, v, 0) == Expand(v, k, 0, k) + "";
  }

  /** A `$&` between dollar-free text stands for the matched key. */
  lemma AmpersandExpanded(head: string, fence: string, k: string)
    requires '$' !in head && '$' !in fence
    ensures Expand(head + "$&" + fence, k, 0, k) == head + k + fence
  {
    var tail := "$&" + fence;
    assert head + "$&" + fence == head + tail;
    ExpandPlainHead(head, tail, k, 0, k);
    assert tail[0] == '$' && tail[1] == '&' && tail[2..] == fence;
    assert Expand(tail, k, 0, k) == k + Expand(fence, k, 0, k);
  }

  /** The page text of the restored block. */
  lemma DollarPatternDecode(k: string)
    requires KeyLike(k)
    ensures Decode(BlockFence + "a" + k + BlockFence) == "$$a" + k + "$$"
  {
    var m := "a" + k;
    assert '&' !in m;
    AbsentForeign(m, Entity, 0);
    AbsentForeign("", Entity, 0);
    var rr := Split([Span("", m)], "");
    FencedOne(m, BlockFence, BlockFence);
    FencedOne(m, "$$", "$$");
    assert Avoids(rr, Entity);
    DecodeBlockFenced(rr);
    assert BlockFence + "a" + k + BlockFence == BlockFence + m + BlockFence;
    assert "$$" + m + "$$" == "$$a" + k + "$$";
  }

  /** `$$a$&$$`: `replaceAll` reads the `$&` inside the restored value as "the matched text",
      so the block key comes back in the page where the `$&` was. */
  lemma DollarPatternExpands()
    ensures var x := "$$a$&$$";
      var k := Key(SourceKeys, Block, 0);
      var r := RestoreInOrder(ProtectedText(x, SourceKeys), ProtectedEntries(x, SourceKeys));
      && RenderedHtml(x, s => s, s => s, false) == r
      && r == BlockFence + "a" + k + BlockFence
      && Decode(r) == "$$a" + k + "$$"
      && Decode(r) != "$$a$&$$"
  {
    var k := Key(SourceKeys, Block, 0);
    KeyShape(SourceKeys, Block, 0);
    DollarPatternProtected();
    DollarPatternRestore(k);
    DollarPatternDecode(k);
    var d := "$$a" + k + "$$";
    assert d[3] == 'M';
    DiffersAt(d, "$$a$&$$", 3);
  }

  // ---------------------------------------------------------------------------------------
  // A block span inside an inline span
  // ---------------------------------------------------------------------------------------

  /** The block pass over `$a$$b$$c$` finds nothing from offset 7 on. */
  lemma NestedTail(x: string)
    requires x == "$a$$b$$c$"
    ensures BlockSplit(x, 7) == Split([], "c$")
  {
    assert BlockSplit(x, 9) == Split([], "");
    assert !IsBlockStart(x, 8);
    BlockSplitText(x, 8);
    assert !IsBlockStart(x, 7);
    BlockSplitText(x, 7);
  }

  /** The block pass over `$a$$b$$c$` finds one span, `b`, after `$a`. */
  lemma NestedSplit(x: string)
    requires x == "$a$$b$$c$"
    ensures BlockSplit(x, 0) == Split([Span("$a", "b")], "c$")
  {
    NestedTail(x);
    assert IsBlockStart(x, 2);
    assert BlockCloser(x, 5) == 5;
    assert BlockCloser(x, 4) == 5;
    BlockSplitSpan(x, 2, 5);
    assert x[4..5] == "b";
    assert BlockSplit(x, 2) == Split([Span("", "b")], "c$");
    assert !IsBlockStart(x, 1);
    BlockSplitText(x, 1);
    PrependOne([x[1]], "", "b", "c$");
    assert [x[1]] + "" == "a";
    assert !IsBlockStart(x, 0);
    BlockSplitText(x, 0);
    PrependOne([x[0]], "a", "b", "c$");
    assert [x[0]] + "a" == "$a";
  }

  lemma PrependOne(s: string, pre: string, inner: string, tail: string)
    ensures Prepend(s, Split([Span(pre, inner)], tail)) == Split([Span(s + pre, inner)], tail)
  {
    assert [Span(pre, inner)][1..] == [];
  }

  lemma BlockPrefixLineFree() ensures '\n' !in "MATHBLOCKPLACEHOLDER" && '\r' !in "MATHBLOCKPLACEHOLDER" {}
  lemma BlockPrefixNoBackslash() ensures '\\' !in "MATHBLOCKPLACEHOLDER" {}
  lemma InlinePrefixLineFree() ensures '\n' !in "MATHINLINEPLACEHOLDER" && '\r' !in "MATHINLINEPLACEHOLDER" {}
  lemma InlinePrefixNoBackslash() ensures '\\' !in "MATHINLINEPLACEHOLDER" {}

  /** A key has no line break and no backslash. */
  lemma KeyPlainChars(fmt: KeyFormat, fam: Family, n: nat)
    ensures var k := Key(fmt, fam, n);
      '\n' !in k && '\r' !in k && '\\' !in k
  {
    var p, d := Prefix(fam), Decimal(n);
    var s := if fmt == DelimitedKeys then "END" else "";
    if fam == Block {
      BlockPrefixLineFree();
      BlockPrefixNoBackslash();
    } else {
      InlinePrefixLineFree();
      InlinePrefixNoBackslash();
    }
    DecimalDigits(n);
    assert '\n' !in d && '\r' !in d && '\\' !in d;
    assert Key(fmt, fam, n) == p + d + s;
  }

  /** One span between `pre` and `tail` becomes its key. */
  lemma ProtectedOne(pre: string, inner: string, tail: string, fmt: KeyFormat, fam: Family, n: nat)
    ensures Protected(Split([Span(pre, inner)], tail), fmt, fam, n) == pre + Key(fmt, fam, n) + tail
  {
    assert [Span(pre, inner)][1..] == [];
  }

  /** One span gives one entry. */
  lemma EntriesOne(pre: string, inner: string, fmt: KeyFormat, fam: Family, n: nat)
    ensures Entries([Span(pre, inner)], fmt, fam, n) == [(Key(fmt, fam, n), Fence(fam) + inner + Fence(fam))]
  {
    assert [Span(pre, inner)][1..] == [];
  }

  /** `$a`, a key, `c$` is `$` around `a`, the key, `c`: a plain inline span. */
  lemma NestedMiddle(k: string)
    requires KeyLike(k) && '\n' !in k && '\r' !in k
    ensures "$a" + k + "c$" == "$" + ("a" + k + "c") + "$"
    ensures var m := "a" + k + "c";
      m != "" && '$' !in m && '&' !in m && '\n' !in m && '\r' !in m && m[|m| - 1] != '\\'
  {
  }

  /** When the block pass leaves one span and `$m$` with `m` a plain inline span, the
      inline pass takes all of it: the output is inline key 1. */
  lemma WholeInline(x: string, m: string, fmt: KeyFormat)
    requires |BlockSplit(x, 0).spans| == 1 && Protected(BlockSplit(x, 0), fmt, Block, 0) == "$" + m + "$"
    requires m != "" && '$' !in m && '\n' !in m && '\r' !in m && m[|m| - 1] != '\\'
    ensures ProtectedText(x, fmt) == Key(fmt, Inline, 1)
    ensures ProtectedEntries(x, fmt)
            == Entries(BlockSplit(x, 0).spans, fmt, Block, 0) + [(Key(fmt, Inline, 1), Entity + m + Entity)]
  {
    InlineWhole(m);
    ProtectedCons(m, Split([], ""), fmt, Inline, 1);
    EntriesCons(m, [], fmt, Inline, 1);
  }

  /** `protectMath("$a$$b$$c$")`, in either key format: the block pass leaves `$a` key 0
      `c$`, which the inline pass takes as a single span, so the output is inline key 1 and
      the inline value holds block key 0. */
  lemma NestedProtected(x: string, fmt: KeyFormat)
    requires x == "$a$$b$$c$"
    ensures var k, ki := Key(fmt, Block, 0), Key(fmt, Inline, 1);
      && ProtectedText(x, fmt) == ki
      && ProtectedEntries(x, fmt)
         == [(k, BlockFence + "b" + BlockFence), (ki, Entity + ("a" + k + "c") + Entity)]
  {
    var k := Key(fmt, Block, 0);
    KeyShape(fmt, Block, 0);
    KeyPlainChars(fmt, Block, 0);
    NestedSplit(x);
    ProtectedOne("$a", "b", "c$", fmt, Block, 0);
    NestedMiddle(k);
    WholeInline(x, "a" + k + "c", fmt);
    EntriesOne("$a", "b", fmt, Block, 0);
  }

  /** Restoring in insertion order: the first key is not in the text when its turn comes,
      and the second key's value then brings it in. */
  lemma NestedRestore(k: string, ki: string, vb: string, vi: string)
    requires k != "" && ki != "" && !Contains(ki, k)
    requires '$' !in vb && '$' !in vi
    ensures RestoreInOrder(ki, [(k, vb), (ki, vi)]) == vi
  {
    var es := [(k, vb), (ki, vi)];
    assert RestoreInOrder(ki, es) == RestoreVerbatim(ki, es);
    ReplaceAbsent(ki, k, vb);
    ReplaceWhole(ki, vi);
    assert es[1..] == [(ki, vi)] && es[1..][1..] == [];
    assert RestoreVerbatim(ki, es) == RestoreVerbatim(ki, [(ki, vi)]);
    assert RestoreVerbatim(ki, [(ki, vi)]) == RestoreVerbatim(vi, []);
  }

  /** The page text of the restored inline span. */
  lemma NestedDecode(m: string)
    requires '&' !in m
    ensures Decode(Entity + m + Entity) == "$" + m + "$"
  {
    var rr := Split([Span("", m)], "");
    FencedOne(m, Entity, Entity);
    FencedOne(m, "$", "$");
    DecodeInlineFences(rr);
    AbsentForeign("$" + m + "$", Entity, 0);
    ReplaceAbsent("$" + m + "$", Entity, "$");
  }

  /** A key where the input has `$$` makes a different text. */
  lemma NestedDiffers(x: string, k: string)
    requires x == "$a$$b$$c$" && KeyLike(k)
    ensures "$a" + k + "c$" != x
  {
    var d := "$a" + k + "c$";
    assert d[2] == k[0];
    DiffersAt(d, x, 2);
  }

  /** Block key 0 is not in inline key 1, and the values hold no dollar sign. */
  lemma NestedParts(fmt: KeyFormat)
    ensures var k, ki := Key(fmt, Block, 0), Key(fmt, Inline, 1);
      && k != "" && ki != "" && !Contains(ki, k)
      && '$' !in BlockFence + "b" + BlockFence && '$' !in Entity + ("a" + k + "c") + Entity
  {
    var k, ki := Key(fmt, Block, 0), Key(fmt, Inline, 1);
    KeyShape(fmt, Block, 0);
    KeyShape(fmt, Inline, 1);
    EntityNoDollar();
    PrefixNotInKey(fmt, Inline, 1);
    NoPrefixNoKey(ki, fmt, Block, 0);
  }

  /** The as-written restore of `$a$$b$$c$` is the inline value, block key 0 inside. */
  lemma NestedRestored(x: string, fmt: KeyFormat)
    requires x == "$a$$b$$c$"
    ensures RestoreInOrder(ProtectedText(x, fmt), ProtectedEntries(x, fmt))
            == Entity + ("a" + Key(fmt, Block, 0) + "c") + Entity
  {
    var k, ki := Key(fmt, Block, 0), Key(fmt, Inline, 1);
    NestedProtected(x, fmt);
    NestedParts(fmt);
    NestedRestore(k, ki, BlockFence + "b" + BlockFence, Entity + ("a" + k + "c") + Entity);
  }

  /** `$a$$b$$c$`, in either key format: the block span is replaced first, and the inline
      span around it then takes the block key into its value. Restoring in insertion order
      puts the block value back before the inline value that holds its key is in place, so
      the key stays in the page. */
  lemma NestedKeyLeaks(x: string, fmt: KeyFormat)
    requires x == "$a$$b$$c$"
    ensures var k := Key(fmt, Block, 0);
      var r := RestoreInOrder(ProtectedText(x, fmt), ProtectedEntries(x, fmt));
      && (fmt == SourceKeys ==> RenderedHtml(x, s => s, s => s, false) == r)
      && r == Entity + ("a" + k + "c") + Entity
      && Decode(r) == "$a" + k + "c$"
      && Decode(r) != x
  {
    var k := Key(fmt, Block, 0);
    NestedRestored(x, fmt);
    KeyShape(fmt, Block, 0);
    KeyPlainChars(fmt, Block, 0);
    NestedMiddle(k);
    NestedDecode("a" + k + "c");
    NestedDiffers(x, k);
  }

  // ---------------------------------------------------------------------------------------
  // A key that is a prefix of a later key
  // ---------------------------------------------------------------------------------------

  /** `n` copies of `$$a$$`. */
  function Repeated(n: nat): (s: string)
    ensures |s| == 5 * n
  {
    if n == 0 then "" else "$$a$$" + Repeated(n - 1)
  }

  lemma {:induction false} RepeatedAt(n: nat, k: nat)
    requires k < n
    ensures var c, i := Repeated(n), 5 * k;
      c[i] == '$' && c[i + 1] == '$' && c[i + 2] == 'a' && c[i + 3] == '$' && c[i + 4] == '$'
    decreases k
  {
    var c := Repeated(n);
    if k > 0 {
      RepeatedAt(n - 1, k - 1);
      var c' := Repeated(n - 1);
      assert c == "$$a$$" + c';
      var i := 5 * k;
      assert c[i] == c'[i - 5] && c[i + 1] == c'[i - 4] && c[i + 2] == c'[i - 3];
      assert c[i + 3] == c'[i - 2] && c[i + 4] == c'[i - 1];
    }
  }

  /** `m` spans holding `a`, with nothing between them. */
  function LetterSpans(m: nat): (spans: seq<Span>)
    ensures |spans| == m
  {
    seq(m, _ => Span("", "a"))
  }

  /** At offset `5k` the block pass finds `$$a$$` as one span. */
  lemma RepeatedStep(n: nat, k: nat)
    requires k < n
    ensures var c := Repeated(n);
      BlockSplit(c, 5 * k) == Split([Span("", "a")] + BlockSplit(c, 5 * k + 5).spans, BlockSplit(c, 5 * k + 5).tail)
  {
    var c := Repeated(n);
    var i := 5 * k;
    RepeatedOpens(n, k);
    RepeatedAt(n, k);
    OneChar(c, i + 2, 'a');
    BlockSplitSpan(c, i, i + 3);
  }

  /** At offset `5k` a `$$` opens and the next `$$` is three characters on. */
  lemma RepeatedOpens(n: nat, k: nat)
    requires k < n
    ensures IsBlockStart(Repeated(n), 5 * k) && BlockCloser(Repeated(n), 5 * k + 2) == 5 * k + 3
  {
    var c := Repeated(n);
    var i := 5 * k;
    RepeatedAt(n, k);
    if k > 0 {
      RepeatedAt(n, k - 1);
      assert c[i - 1] == '$';
    }
    assert IsBlockEnd(c, i + 3);
  }

  lemma OneChar(c: string, i: nat, ch: char)
    requires i < |c| && c[i] == ch
    ensures c[i..i + 1] == [ch]
  {
  }

  /** Each `$$a$$` of the repeated text is one block span. */
  lemma {:induction false} RepeatedSplit(n: nat, k: nat)
    requires k <= n
    ensures BlockSplit(Repeated(n), 5 * k) == Split(LetterSpans(n - k), "")
    decreases n - k
  {
    if k < n {
      RepeatedStep(n, k);
      RepeatedSplit(n, k + 1);
      assert [Span("", "a")] + LetterSpans(n - k - 1) == LetterSpans(n - k);
    }
  }

  /** Letter spans from `s`: the first key, then the rest from `s + 1`. */
  lemma LetterKeysCons(m: nat, fmt: KeyFormat, s: nat)
    ensures Protected(Split(LetterSpans(m + 1), ""), fmt, Block, s)
            == Key(fmt, Block, s) + Protected(Split(LetterSpans(m), ""), fmt, Block, s + 1)
  {
    assert [Span("", "a")] + LetterSpans(m) == LetterSpans(m + 1);
    ProtectedCons("a", Split(LetterSpans(m), ""), fmt, Block, s);
  }

  /** The keys `s` to `s + m - 1`. */
  function KeyList(fmt: KeyFormat, s: nat, m: nat): (ks: seq<string>)
    ensures |ks| == m
    ensures forall i | 0 <= i < m :: ks[i] == Key(fmt, Block, s + i)
  {
    seq(m, i requires 0 <= i < m => Key(fmt, Block, s + i))
  }

  /** The text protected from `m` letter spans is their keys joined. */
  lemma {:induction false} LetterKeysRun(m: nat, fmt: KeyFormat, s: nat)
    ensures Protected(Split(LetterSpans(m), ""), fmt, Block, s) == Concat(KeyList(fmt, s, m))
    decreases m
  {
    if m == 0 {
      assert Protected(Split(LetterSpans(0), ""), fmt, Block, s) == "";
    } else {
      LetterKeysCons(m - 1, fmt, s);
      LetterKeysRun(m - 1, fmt, s + 1);
      var ks := KeyList(fmt, s, m);
      assert ks[1..] == KeyList(fmt, s + 1, m - 1);
    }
  }

  lemma KeyListSnoc(fmt: KeyFormat, s: nat, m: nat)
    ensures KeyList(fmt, s, m + 1) == KeyList(fmt, s, m) + [Key(fmt, Block, s + m)]
  {
  }

  /** The text protected from `m + 1` letter spans is that of `m` of them and one more key. */
  lemma LetterKeysSnoc(m: nat, fmt: KeyFormat, s: nat)
    ensures Protected(Split(LetterSpans(m + 1), ""), fmt, Block, s)
            == Protected(Split(LetterSpans(m), ""), fmt, Block, s) + Key(fmt, Block, s + m)
  {
    LetterKeysRun(m + 1, fmt, s);
    LetterKeysRun(m, fmt, s);
    KeyListSnoc(fmt, s, m);
    ConcatSnoc(KeyList(fmt, s, m), Key(fmt, Block, s + m));
  }

  /** Keys have no dollar sign, so neither has the text of letter spans. */
  lemma {:induction false} LetterKeysNoDollar(m: nat, fmt: KeyFormat, s: nat)
    ensures '$' !in Protected(Split(LetterSpans(m), ""), fmt, Block, s)
    decreases m
  {
    if m > 0 {
      var k := Key(fmt, Block, s + (m - 1));
      LetterKeysNoDollar(m - 1, fmt, s);
      LetterKeysSnoc(m - 1, fmt, s);
      KeyShape(fmt, Block, s + (m - 1));
      AbsentFromBoth('$', Protected(Split(LetterSpans(m - 1), ""), fmt, Block, s), k);
    }
  }

  /** `protectMath` on `n` copies of `$$a$$`: keys 0 to `n - 1` one after the other, each
      recorded with the value of `a`. */
  lemma RepeatedProtected(n: nat, fmt: KeyFormat)
    requires n >= 1
    ensures var c := Protected(Split(LetterSpans(n - 1), ""), fmt, Block, 0);
      && ProtectedText(Repeated(n), fmt) == c + Key(fmt, Block, n - 1)
      && ProtectedEntries(Repeated(n), fmt) == Entries(LetterSpans(n), fmt, Block, 0)
  {
    var b := BlockSplit(Repeated(n), 0);
    RepeatedSplit(n, 0);
    assert b == Split(LetterSpans(n), "");
    LetterKeysSnoc(n - 1, fmt, 0);
    assert Protected(b, fmt, Block, 0) == Protected(Split(LetterSpans(n - 1), ""), fmt, Block, 0) + Key(fmt, Block, n - 1);
    LetterKeysNoDollar(n, fmt, 0);
    NoInlineSpans(Repeated(n), fmt);
  }

  /** Key 10 is key 1 followed by `0`. */
  lemma KeyTen()
    ensures Key(SourceKeys, Block, 10) == Key(SourceKeys, Block, 1) + "0"
    ensures |Key(SourceKeys, Block, 0)| == |Key(SourceKeys, Block, 1)|
  {
    assert Decimal(10) == Decimal(1) + [DigitChar(0)];
    assert Decimal(1) == [DigitChar(1)] && Decimal(0) == [DigitChar(0)];
  }

  /** Key 0 does not occur in key 10: the only place to look is the start, which is key 1. */
  lemma KeyZeroNotInTen()
    ensures !Contains(Key(SourceKeys, Block, 10), Key(SourceKeys, Block, 0))
  {
    var k0, k1, k10 := Key(SourceKeys, Block, 0), Key(SourceKeys, Block, 1), Key(SourceKeys, Block, 10);
    KeyTen();
    KeyShape(SourceKeys, Block, 0);
    KeyShape(SourceKeys, Block, 10);
    KeyDistinct(SourceKeys, Block, 0, 1);
    assert k10[0..|k0|] == k1;
    assert k10[1..1 + |k0|][0] == k10[1..][0];
  }

  /** Restoring key-like entries over text ending in a tail that has no `M` and starts with
      `&` leaves the tail as it is. */
  lemma {:induction false} RestoreKeepsTail(a: string, t: string, es: seq<(string, string)>)
    requires AllKeyLike(es) && t != "" && t[0] == '&' && 'M' !in t
    ensures RestoreVerbatim(a + t, es) == RestoreVerbatim(a, es) + t
    decreases |es|
  {
    if es != [] {
      var k, v := es[0].0, es[0].1;
      assert KeyLike(k);
      SeamByRight(a, t, k);
      ReplaceConcat(a, t, k, v);
      AbsentForeign(t, k, 0);
      ReplaceAbsent(t, k, v);
      assert AllKeyLike(es[1..]) by {
        assert forall q | 0 <= q < |es[1..]| :: es[1..][q] == es[q + 1];
      }
      RestoreKeepsTail(ReplaceLiteral(a, k, v), t, es[1..]);
    }
  }

  /** Keys 0 and 1 restored in turn over text ending in key 10: key 10 becomes the value
      followed by `0`. */
  lemma FirstTwoKeys(c: string, v: string)
    ensures var k0, k1, k10 := Key(SourceKeys, Block, 0), Key(SourceKeys, Block, 1), Key(SourceKeys, Block, 10);
      RestoreVerbatim(c + k10, [(k0, v), (k1, v)]) == RestoreVerbatim(c, [(k0, v), (k1, v)]) + (v + "0")
  {
    var k0, k1, k10 := Key(SourceKeys, Block, 0), Key(SourceKeys, Block, 1), Key(SourceKeys, Block, 10);
    KeyTen();
    KeyShape(SourceKeys, Block, 0);
    KeyShape(SourceKeys, Block, 1);
    KeyShape(SourceKeys, Block, 10);
    assert [(k0, v), (k1, v)] == [(k0, v)] + [(k1, v)];
    RestoreAppend(c + k10, [(k0, v)], [(k1, v)]);
    RestoreAppend(c, [(k0, v)], [(k1, v)]);
    RestoreOne(c + k10, k0, v);
    RestoreOne(c, k0, v);
    SeamByRight(c, k10, k0);
    ReplaceConcat(c, k10, k0, v);
    KeyZeroNotInTen();
    ReplaceAbsent(k10, k0, v);
    var c1 := ReplaceLiteral(c, k0, v);
    RestoreOne(c1 + k10, k1, v);
    RestoreOne(c1, k1, v);
    SeamByRight(c1, k10, k1);
    ReplaceConcat(c1, k10, k1, v);
    SeamAfterToken(k1, "0", k1);
    ReplaceConcat(k1, "0", k1, v);
    ReplaceWhole(k1, v);
    ReplaceAbsent("0", k1, v);
  }

  /** The entries of `m` letter spans from `s`: key `s + q` with the block value of `a`,
      every key key-like and no value with a dollar sign. */
  lemma LetterEntries(m: nat, fmt: KeyFormat, s: nat)
    ensures var es := Entries(LetterSpans(m), fmt, Block, s);
      && (forall q | 0 <= q < m :: es[q] == (Key(fmt, Block, s + q), BlockFence + "a" + BlockFence))
      && AllKeyLike(es)
      && (forall q | 0 <= q < m :: '$' !in es[q].1)
  {
    var es := Entries(LetterSpans(m), fmt, Block, s);
    EntriesAt(LetterSpans(m), fmt, Block, s);
    forall q | 0 <= q < m ensures KeyLike(es[q].0) {
      KeyShape(fmt, Block, s + q);
    }
  }

  lemma AllKeyLikeDrop(es: seq<(string, string)>, d: nat)
    requires d <= |es| && AllKeyLike(es)
    ensures AllKeyLike(es[d..])
  {
    assert forall q | 0 <= q < |es[d..]| :: es[d..][q] == es[q + d];
  }

  /** Restoring, in order and verbatim, entries whose first two are keys 0 and 1 over text
      ending in key 10 leaves text ending in `0`. */
  lemma RestoreEndsInZero(c: string, v: string, es: seq<(string, string)>)
    requires |es| >= 2 && es[0] == (Key(SourceKeys, Block, 0), v) && es[1] == (Key(SourceKeys, Block, 1), v)
    requires AllKeyLike(es[2..]) && v != "" && v[0] == '&' && 'M' !in v
    ensures EndsWith(RestoreVerbatim(c + Key(SourceKeys, Block, 10), es), "0")
  {
    var y := c + Key(SourceKeys, Block, 10);
    assert es == [es[0], es[1]] + es[2..];
    RestoreAppend(y, [es[0], es[1]], es[2..]);
    FirstTwoKeys(c, v);
    var c2 := RestoreVerbatim(c, [es[0], es[1]]);
    var t := v + "0";
    RestoreKeepsTail(c2, t, es[2..]);
    assert RestoreVerbatim(y, es) == (RestoreVerbatim(c2, es[2..]) + v) + "0";
  }

  /** Restoring the eleven entries in order over keys 0 to 10 leaves text ending in `0`. */
  lemma RepeatedRestore(c: string, n: nat)
    requires n == 11
    ensures EndsWith(RestoreInOrder(c + Key(SourceKeys, Block, 10), Entries(LetterSpans(n), SourceKeys, Block, 0)), "0")
  {
    var v := BlockFence + "a" + BlockFence;
    var es := Entries(LetterSpans(n), SourceKeys, Block, 0);
    LetterEntries(n, SourceKeys, 0);
    assert RestoreInOrder(c + Key(SourceKeys, Block, 10), es) == RestoreVerbatim(c + Key(SourceKeys, Block, 10), es);
    AllKeyLikeDrop(es, 2);
    FencesPlain();
    RestoreEndsInZero(c, v, es);
  }

  lemma EntityNoZero() ensures '0' !in Entity[1..] {}

  /** Decoding keeps a final `0`. */
  lemma DecodeEndsWithZero(s: string)
    requires EndsWith(s, "0")
    ensures EndsWith(Decode(s), "0")
  {
    var a := s[..|s| - 1];
    assert s == a + "0";
    EntityNoZero();
    SeamByRight(a, "0", Entity);
    ReplaceConcat(a, "0", Entity, "$");
    ReplaceAbsent("0", Entity, "$");
  }

  /** Texts whose last characters differ are different. */
  lemma DiffersAtEnd(s: string, x: string)
    requires s != "" && x != "" && s[|s| - 1] != x[|x| - 1]
    ensures s != x
  {
  }

  /** Eleven block spans `$$a$$`: replacing key 1 also rewrites the front of key 10, which
      is key 1 followed by `0`, so the page ends in a stray `0` and loses the last span. */
  lemma PrefixKeyCorrupts(n: nat)
    requires n == 11
    ensures var x := Repeated(n);
      var r := RestoreInOrder(ProtectedText(x, SourceKeys), ProtectedEntries(x, SourceKeys));
      && Key(SourceKeys, Block, 10) == Key(SourceKeys, Block, 1) + "0"
      && EndsWith(Decode(r), "0")
      && Decode(r) != x
  {
    var x := Repeated(n);
    KeyTen();
    RepeatedProtected(n, SourceKeys);
    var c := Protected(Split(LetterSpans(n - 1), ""), SourceKeys, Block, 0);
    RepeatedRestore(c, n);
    var r := RestoreInOrder(ProtectedText(x, SourceKeys), ProtectedEntries(x, SourceKeys));
    DecodeEndsWithZero(r);
    RepeatedAt(n, n - 1);
    DiffersAtEnd(Decode(r), x);
  }

  // ---------------------------------------------------------------------------------------
  // The corrected pipeline on the same inputs
  // ---------------------------------------------------------------------------------------

  /** Text without an `M` or `#` meets the round trip's conditions. */
  lemma PlainInput(x: string)
    requires 'M' !in x && '#' !in x
    ensures !Contains(x, Prefix(Block)) && !Contains(x, Prefix(Inline)) && !Contains(x, Entity)
  {
    PrefixShape(Block);
    PrefixShape(Inline);
    AbsentForeign(x, Prefix(Block), 0);
    AbsentForeign(x, Prefix(Inline), 0);
    AbsentForeign(x, Entity, 1);
  }

  lemma {:induction false} RepeatedPlain(n: nat)
    ensures 'M' !in Repeated(n) && '#' !in Repeated(n)
  {
    if n > 0 { RepeatedPlain(n - 1); }
  }

  /** With delimited keys and the reversed, verbatim restore, all three inputs come back. */
  lemma CorrectedOnFindings()
    ensures Decode(RestoreReversed(ProtectedText("$$a$&$$", DelimitedKeys), ProtectedEntries("$$a$&$$", DelimitedKeys))) == "$$a$&$$"
    ensures Decode(RestoreReversed(ProtectedText("$a$$b$$c$", DelimitedKeys), ProtectedEntries("$a$$b$$c$", DelimitedKeys))) == "$a$$b$$c$"
    ensures Decode(RestoreReversed(ProtectedText(Repeated(11), DelimitedKeys), ProtectedEntries(Repeated(11), DelimitedKeys))) == Repeated(11)
  {
    PlainInput("$$a$&$$");
    RoundTrip("$$a$&$$");
    PlainInput("$a$$b$$c$");
    RoundTrip("$a$$b$$c$");
    RepeatedPlain(11);
    PlainInput(Repeated(11));
    RoundTrip(Repeated(11));
  }
}
