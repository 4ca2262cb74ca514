/** What the corrected restore achieves: for content that holds no placeholder text and no
    `&#36;`, protecting the math with delimited keys, restoring the record in reverse order
    with verbatim values, and decoding the entity gives the content back. */
module MathRoundTrip {
  import opened Common
  import opened ReplaceText
  import opened MathProtect

  // ---------------------------------------------------------------------------------------
  // The shape of a key
  // ---------------------------------------------------------------------------------------

  /** `M` first and nowhere else, and none of the characters that fences are made of. */
  predicate KeyLike(k: string) {
    |k| >= 2 && k[0] == 'M' && 'M' !in k[1..] && '$' !in k && '&' !in k && ';' !in k
  }

  // The letters of the two prefixes, one fact per lemma so that each literal is checked on
  // its own.
  lemma BlockPrefixNoM() ensures 'M' !in "MATHBLOCKPLACEHOLDER"[1..] {}
  lemma BlockPrefixNoDollar() ensures '$' !in "MATHBLOCKPLACEHOLDER" {}
  lemma BlockPrefixNoAmp() ensures '&' !in "MATHBLOCKPLACEHOLDER" {}
  lemma BlockPrefixNoSemicolon() ensures ';' !in "MATHBLOCKPLACEHOLDER" {}
  lemma InlinePrefixNoM() ensures 'M' !in "MATHINLINEPLACEHOLDER"[1..] {}
  lemma InlinePrefixNoDollar() ensures '$' !in "MATHINLINEPLACEHOLDER" {}
  lemma InlinePrefixNoAmp() ensures '&' !in "MATHINLINEPLACEHOLDER" {}
  lemma InlinePrefixNoSemicolon() ensures ';' !in "MATHINLINEPLACEHOLDER" {}

  lemma PrefixShape(fam: Family)
    ensures var p := Prefix(fam);
      && |p| >= 20 && p[0] == 'M' && p[4] == (if fam == Block then 'B' else 'I')
      && 'M' !in p[1..] && '$' !in p && '&' !in p && ';' !in p
  {
    if fam == Block {
      BlockPrefixNoM();
      BlockPrefixNoDollar();
      BlockPrefixNoAmp();
      BlockPrefixNoSemicolon();
    } else {
      InlinePrefixNoM();
      InlinePrefixNoDollar();
      InlinePrefixNoAmp();
      InlinePrefixNoSemicolon();
    }
  }

  lemma KeyShape(fmt: KeyFormat, fam: Family, n: nat)
    ensures KeyLike(Key(fmt, fam, n))
    ensures |Key(fmt, fam, n)| > |Prefix(fam)| && Key(fmt, fam, n)[..|Prefix(fam)|] == Prefix(fam)
  {
    var p, d := Prefix(fam), Decimal(n);
    var s := if fmt == DelimitedKeys then "END" else "";
    var k := Key(fmt, fam, n);
    assert k == p + d + s;
    PrefixShape(fam);
    DecimalDigits(n);
    assert k[1..] == p[1..] + d + s;
    assert 'M' !in d && '$' !in d && '&' !in d && ';' !in d;
    assert k[..|p|] == p;
  }

  lemma KeyDistinct(fmt: KeyFormat, fam: Family, a: nat, b: nat)
    ensures a != b ==> Key(fmt, fam, a) != Key(fmt, fam, b)
  {
    if Key(fmt, fam, a) == Key(fmt, fam, b) {
      KeyInjective(fmt, fam, a, b);
    }
  }

  /** A delimited key is never a proper prefix of another: where the shorter one has `E`,
      the longer one still has a digit. */
  lemma KeyNotPrefix(fam: Family, a: nat, b: nat)
    ensures var ka, kb := Key(DelimitedKeys, fam, a), Key(DelimitedKeys, fam, b);
      !(|ka| < |kb| && kb[..|ka|] == ka)
  {
    var p, da, db := Prefix(fam), Decimal(a), Decimal(b);
    var ka, kb := Key(DelimitedKeys, fam, a), Key(DelimitedKeys, fam, b);
    assert ka == p + da + "END" && kb == p + db + "END";
    if |ka| < |kb| {
      DecimalDigits(b);
      var q := |p| + |da|;
      assert ka[q] == 'E';
      assert kb[q] == db[|da|];
      assert kb[..|ka|][q] != ka[q];
    }
  }

  /** A delimited key occurs in no other key of its family. */
  lemma KeyNotInKey(fam: Family, a: nat, b: nat)
    requires a != b
    ensures !Contains(Key(DelimitedKeys, fam, b), Key(DelimitedKeys, fam, a))
  {
    var ka, kb := Key(DelimitedKeys, fam, a), Key(DelimitedKeys, fam, b);
    KeyShape(DelimitedKeys, fam, a);
    KeyShape(DelimitedKeys, fam, b);
    KeyDistinct(DelimitedKeys, fam, a, b);
    KeyNotPrefix(fam, a, b);
    forall q | 0 <= q <= |kb| - |ka| ensures !StartsAt(kb, ka, q) {
      if q > 0 {
        assert kb[q..q + |ka|][0] == kb[q] == kb[1..][q - 1];
      } else if |ka| == |kb| {
        assert kb[q..q + |ka|] == kb;
      }
    }
  }

  /** The prefix of one family occurs in no key of the other. */
  lemma PrefixNotInKey(fmt: KeyFormat, fam: Family, n: nat)
    ensures var other := if fam == Block then Inline else Block;
      !Contains(Key(fmt, fam, n), Prefix(other))
  {
    var other := if fam == Block then Inline else Block;
    var k, p := Key(fmt, fam, n), Prefix(other);
    KeyShape(fmt, fam, n);
    PrefixShape(fam);
    PrefixShape(other);
    forall q | 0 <= q <= |k| - |p| ensures !StartsAt(k, p, q) {
      if q > 0 {
        assert k[q..q + |p|][0] == k[q] == k[1..][q - 1];
      } else {
        assert k[q..q + |p|][4] == k[4] == k[..|Prefix(fam)|][4];
      }
    }
  }

  /** Text without a family's prefix holds none of its keys. */
  lemma NoPrefixNoKey(s: string, fmt: KeyFormat, fam: Family, n: nat)
    requires !Contains(s, Prefix(fam))
    ensures !Contains(s, Key(fmt, fam, n))
  {
    KeyShape(fmt, fam, n);
    if Contains(s, Key(fmt, fam, n)) {
      ContainsSlice(s, Key(fmt, fam, n), 0, |Prefix(fam)|);
    }
  }

  // ---------------------------------------------------------------------------------------
  // Pieces of a split that avoid a pattern
  // ---------------------------------------------------------------------------------------

  /** No text before a span, inside a span or after the last span holds `p`. */
  predicate Avoids(r: Split, p: string)
    decreases |r.spans|
  {
    if r.spans == [] then !Contains(r.tail, p)
    else !Contains(r.spans[0].pre, p) && !Contains(r.spans[0].inner, p) && Avoids(Split(r.spans[1..], r.tail), p)
  }

  lemma ContainsInPartIf(a: string, m: string, b: string, p: string)
    ensures Contains(m, p) ==> Contains(a + m + b, p)
  {
    if Contains(m, p) {
      ContainsInPart(a, m, b, p);
    }
  }

  /** Every piece of a text is a part of it. */
  lemma {:induction false} AvoidsOfFenced(r: Split, open: string, close: string, p: string)
    requires !Contains(Fenced(r, open, close), p)
    ensures Avoids(r, p)
    decreases |r.spans|
  {
    if r.spans == [] {
    } else {
      var rest := Split(r.spans[1..], r.tail);
      var pre, inner := r.spans[0].pre, r.spans[0].inner;
      var f := Fenced(rest, open, close);
      assert Fenced(r, open, close) == "" + pre + (open + inner + close + f);
      ContainsInPartIf("", pre, open + inner + close + f, p);
      assert Fenced(r, open, close) == (pre + open) + inner + (close + f);
      ContainsInPartIf(pre + open, inner, close + f, p);
      assert Fenced(r, open, close) == (pre + open + inner + close) + f + "";
      ContainsInPartIf(pre + open + inner + close, f, "", p);
      AvoidsOfFenced(rest, open, close, p);
    }
  }

  // ---------------------------------------------------------------------------------------
  // Literal replacement around fences and keys
  // ---------------------------------------------------------------------------------------

  /** A fence holds no `M`, starts with `$` or `&` and ends with `$` or `;`. */
  predicate PlainFence(d: string) {
    d != "" && d[0] in "$&" && d[|d| - 1] in "$;" && 'M' !in d
  }

  lemma FencesPlain()
    ensures PlainFence("$") && PlainFence(Entity) && PlainFence(BlockFence)
  {
  }

  lemma FenceSeams(d: string, k: string)
    requires PlainFence(d) && KeyLike(k)
    ensures d[0] !in k[1..] && d[|d| - 1] !in k[..|k| - 1] && !Contains(d, k)
  {
    forall j | 0 <= j < |k| - 1 ensures k[1..][j] != d[0] && k[..|k| - 1][j] != d[|d| - 1] {
      assert k[1..][j] == k[j + 1] && k[..|k| - 1][j] == k[j];
    }
    AbsentForeign(d, k, 0);
  }

  /** Replacing over text with a fence in it replaces on each side of the fence. */
  lemma ReplaceAroundFence(a: string, d: string, b: string, k: string, v: string)
    requires k != "" && d != "" && d[0] !in k[1..] && d[|d| - 1] !in k[..|k| - 1]
    ensures ReplaceLiteral(a + d + b, k, v) == ReplaceLiteral(a, k, v) + ReplaceLiteral(d, k, v) + ReplaceLiteral(b, k, v)
  {
    var db := d + b;
    assert a + d + b == a + db;
    SeamByRight(a, db, k);
    ReplaceConcat(a, db, k, v);
    SeamByLeft(d, b, k);
    ReplaceConcat(d, b, k, v);
  }

  /** Replacing over text with a key token in it replaces on each side of the token, when
      the token is not a proper prefix of the pattern. */
  lemma ReplaceAroundKey(a: string, t: string, b: string, k: string, v: string)
    requires KeyLike(t) && KeyLike(k) && !(|t| < |k| && k[..|t|] == t)
    ensures ReplaceLiteral(a + t + b, k, v) == ReplaceLiteral(a, k, v) + ReplaceLiteral(t, k, v) + ReplaceLiteral(b, k, v)
  {
    var tb := t + b;
    assert a + t + b == a + tb;
    SeamByRight(a, tb, k);
    ReplaceConcat(a, tb, k, v);
    SeamAfterToken(t, b, k);
    ReplaceConcat(t, b, k, v);
  }

  /** `RestoreVerbatim` with one entry is one literal replacement. */
  lemma RestoreOne(s: string, k: string, v: string)
    ensures RestoreVerbatim(s, [(k, v)]) == ReplaceLiteral(s, k, v)
  {
    assert [(k, v)][1..] == [];
  }

  /** Restoring a list of entries, then another, is restoring both lists in turn. */
  lemma {:induction false} RestoreAppend(s: string, a: seq<(string, string)>, b: seq<(string, string)>)
    ensures RestoreVerbatim(s, a + b) == RestoreVerbatim(RestoreVerbatim(s, a), b)
    decreases |a|
  {
    if a == [] {
      assert a + b == b;
    } else {
      assert (a + b)[0] == a[0] && (a + b)[1..] == a[1..] + b;
      RestoreAppend(ReplaceLiteral(s, a[0].0, a[0].1), a[1..], b);
    }
  }

  predicate AllKeyLike(es: seq<(string, string)>) {
    forall q | 0 <= q < |es| :: KeyLike(es[q].0)
  }

  /** Restoring key-like entries over text with a fence in it restores on each side and
      leaves the fence. */
  lemma {:induction false} RestoreAroundFence(a: string, d: string, b: string, es: seq<(string, string)>)
    requires PlainFence(d) && AllKeyLike(es)
    ensures RestoreVerbatim(a + d + b, es) == RestoreVerbatim(a, es) + d + RestoreVerbatim(b, es)
    decreases |es|
  {
    if es != [] {
      var k, v := es[0].0, es[0].1;
      FenceSeams(d, k);
      ReplaceAroundFence(a, d, b, k, v);
      ReplaceAbsent(d, k, v);
      assert AllKeyLike(es[1..]) by {
        forall q | 0 <= q < |es[1..]| ensures KeyLike(es[1..][q].0) {
          assert es[1..][q] == es[q + 1];
        }
      }
      RestoreAroundFence(ReplaceLiteral(a, k, v), d, ReplaceLiteral(b, k, v), es[1..]);
    }
  }

  // ---------------------------------------------------------------------------------------
  // Splits mapped piece by piece
  // ---------------------------------------------------------------------------------------

  /** The split with `RestoreVerbatim(·, es)` applied to each piece. */
  function MapRestore(r: Split, es: seq<(string, string)>): (r': Split)
    ensures |r'.spans| == |r.spans|
    decreases |r.spans|
  {
    if r.spans == [] then Split([], RestoreVerbatim(r.tail, es))
    else
      var rest := MapRestore(Split(r.spans[1..], r.tail), es);
      Split([Span(RestoreVerbatim(r.spans[0].pre, es), RestoreVerbatim(r.spans[0].inner, es))] + rest.spans, rest.tail)
  }

  lemma FencedConsAny(pre: string, inner: string, r: Split, open: string, close: string)
    ensures Fenced(Split([Span(pre, inner)] + r.spans, r.tail), open, close) == pre + open + inner + close + Fenced(r, open, close)
  {
    var r' := Split([Span(pre, inner)] + r.spans, r.tail);
    assert r'.spans[1..] == r.spans;
  }

  /** Restoring over fenced text restores every piece and keeps the fences. */
  lemma {:induction false} RestoreFenced(r: Split, d: string, es: seq<(string, string)>)
    requires PlainFence(d) && AllKeyLike(es)
    ensures RestoreVerbatim(Fenced(r, d, d), es) == Fenced(MapRestore(r, es), d, d)
    decreases |r.spans|
  {
    if r.spans != [] {
      var rest := Split(r.spans[1..], r.tail);
      var pre, inner := r.spans[0].pre, r.spans[0].inner;
      var f := Fenced(rest, d, d);
      assert Fenced(r, d, d) == pre + d + (inner + d + f);
      RestoreAroundFence(pre, d, inner + d + f, es);
      RestoreAroundFence(inner, d, f, es);
      RestoreFenced(rest, d, es);
      FencedConsAny(RestoreVerbatim(pre, es), RestoreVerbatim(inner, es), MapRestore(rest, es), d, d);
    }
  }

  /** One replacement over fenced text replaces in every piece and in the fences. */
  lemma {:induction false} ReplaceFenced(r: Split, d: string, k: string, v: string)
    requires k != "" && d != "" && d[0] !in k[1..] && d[|d| - 1] !in k[..|k| - 1]
    ensures ReplaceLiteral(Fenced(r, d, d), k, v)
            == Fenced(MapRestore(r, [(k, v)]), ReplaceLiteral(d, k, v), ReplaceLiteral(d, k, v))
    decreases |r.spans|
  {
    var e := [(k, v)];
    var d' := ReplaceLiteral(d, k, v);
    if r.spans == [] {
      RestoreOne(r.tail, k, v);
    } else {
      var rest := Split(r.spans[1..], r.tail);
      var pre, inner := r.spans[0].pre, r.spans[0].inner;
      var f := Fenced(rest, d, d);
      assert Fenced(r, d, d) == pre + d + (inner + d + f);
      ReplaceAroundFence(pre, d, inner + d + f, k, v);
      ReplaceAroundFence(inner, d, f, k, v);
      ReplaceFenced(rest, d, k, v);
      RestoreOne(pre, k, v);
      RestoreOne(inner, k, v);
      FencedConsAny(RestoreVerbatim(pre, e), RestoreVerbatim(inner, e), MapRestore(rest, e), d', d');
    }
  }

  // ---------------------------------------------------------------------------------------
  // Restoring one family of keys
  // ---------------------------------------------------------------------------------------

  /** The text while keys are being put back: span `i` holds `keys[i]` while `i < m`, and
      the others are already written between fences `f`. */
  function Keyed(r: Split, keys: seq<string>, m: nat, f: string): string
    requires |keys| == |r.spans|
    decreases |r.spans|
  {
    if r.spans == [] then r.tail
    else
      r.spans[0].pre
      + (if m > 0 then keys[0] else f + r.spans[0].inner + f)
      + Keyed(Split(r.spans[1..], r.tail), keys[1..], if m > 0 then m - 1 else 0, f)
  }

  /** The keys of a family, counting from `n`. */
  function KeySeq(fmt: KeyFormat, fam: Family, n: nat, len: nat): (keys: seq<string>)
    ensures |keys| == len
    ensures forall i | 0 <= i < len :: keys[i] == Key(fmt, fam, n + i)
  {
    seq(len, i requires 0 <= i < len => Key(fmt, fam, n + i))
  }

  /** Before any key is put back, the text is the protected text. */
  lemma {:induction false} KeyedAll(r: Split, fam: Family, n: nat, f: string)
    ensures Keyed(r, KeySeq(DelimitedKeys, fam, n, |r.spans|), |r.spans|, f) == Protected(r, DelimitedKeys, fam, n)
    decreases |r.spans|
  {
    if r.spans != [] {
      var keys := KeySeq(DelimitedKeys, fam, n, |r.spans|);
      assert keys[1..] == KeySeq(DelimitedKeys, fam, n + 1, |r.spans| - 1);
      assert keys[0] == Key(DelimitedKeys, fam, n);
      KeyedAll(Split(r.spans[1..], r.tail), fam, n + 1, f);
    }
  }

  /** Once every key is put back, every span is written between fences. */
  lemma {:induction false} KeyedNone(r: Split, keys: seq<string>, f: string)
    requires |keys| == |r.spans|
    ensures Keyed(r, keys, 0, f) == Fenced(r, f, f)
    decreases |r.spans|
  {
    if r.spans != [] {
      KeyedNone(Split(r.spans[1..], r.tail), keys[1..], f);
      assert r.spans[0].pre + (f + r.spans[0].inner + f) == r.spans[0].pre + f + r.spans[0].inner + f;
    }
  }

  /** Fenced text whose pieces lack a key does not hold it. */
  lemma {:induction false} FencedWithoutKey(r: Split, f: string, k: string, v: string)
    requires PlainFence(f) && KeyLike(k) && Avoids(r, k)
    ensures ReplaceLiteral(Fenced(r, f, f), k, v) == Fenced(r, f, f)
    decreases |r.spans|
  {
    if r.spans == [] {
      ReplaceAbsent(r.tail, k, v);
    } else {
      var rest := Split(r.spans[1..], r.tail);
      var pre, inner := r.spans[0].pre, r.spans[0].inner;
      var g := Fenced(rest, f, f);
      FenceSeams(f, k);
      assert Fenced(r, f, f) == pre + f + (inner + f + g);
      ReplaceAroundFence(pre, f, inner + f + g, k, v);
      ReplaceAroundFence(inner, f, g, k, v);
      ReplaceAbsent(f, k, v);
      ReplaceAbsent(pre, k, v);
      ReplaceAbsent(inner, k, v);
      FencedWithoutKey(rest, f, k, v);
    }
  }

  /** Pieces without a family's prefix hold none of its keys. */
  lemma {:induction false} AvoidsKey(r: Split, fmt: KeyFormat, fam: Family, j: nat)
    requires Avoids(r, Prefix(fam))
    ensures Avoids(r, Key(fmt, fam, j))
    decreases |r.spans|
  {
    if r.spans == [] {
      NoPrefixNoKey(r.tail, fmt, fam, j);
    } else {
      NoPrefixNoKey(r.spans[0].pre, fmt, fam, j);
      NoPrefixNoKey(r.spans[0].inner, fmt, fam, j);
      AvoidsKey(Split(r.spans[1..], r.tail), fmt, fam, j);
    }
  }

  /** A token `t` that a replacement of `k` passes over: it neither holds `k` nor starts an
      occurrence of it. */
  predicate Passes(t: string, k: string) {
    KeyLike(t) && !Contains(t, k) && !(|t| < |k| && k[..|t|] == t)
  }

  /** Text before a passed token is replaced on its own, and the token is kept. */
  lemma PassToken(pre: string, t: string, b: string, k: string, v: string)
    requires Passes(t, k) && KeyLike(k) && !Contains(pre, k)
    ensures ReplaceLiteral(pre + t + b, k, v) == pre + t + ReplaceLiteral(b, k, v)
  {
    ReplaceAroundKey(pre, t, b, k, v);
    ReplaceAbsent(pre, k, v);
    ReplaceAbsent(t, k, v);
  }

  /** The key put back in place of itself. */
  lemma TakeToken(pre: string, k: string, b: string, v: string)
    requires KeyLike(k) && !Contains(pre, k)
    ensures ReplaceLiteral(pre + k + b, k, v) == pre + v + ReplaceLiteral(b, k, v)
  {
    ReplaceAroundKey(pre, k, b, k, v);
    ReplaceAbsent(pre, k, v);
    ReplaceWhole(k, v);
  }

  /** Putting back `keys[m - 1]`, the last key still in place, turns it into its span
      between fences and changes nothing else, when the keys before it pass it over. */
  lemma {:induction false} KeyedRestoreStep(r: Split, keys: seq<string>, m: nat, f: string)
    requires |keys| == |r.spans| && 1 <= m <= |r.spans| && PlainFence(f)
    requires KeyLike(keys[m - 1]) && Avoids(r, keys[m - 1])
    requires forall i | 0 <= i < m - 1 :: Passes(keys[i], keys[m - 1])
    ensures ReplaceLiteral(Keyed(r, keys, m, f), keys[m - 1], f + r.spans[m - 1].inner + f)
            == Keyed(r, keys, m - 1, f)
    decreases |r.spans|
  {
    var k, v := keys[m - 1], f + r.spans[m - 1].inner + f;
    var rest, pre := Split(r.spans[1..], r.tail), r.spans[0].pre;
    if m == 1 {
      var b := Keyed(rest, keys[1..], 0, f);
      assert Keyed(r, keys, 1, f) == pre + k + b;
      assert Keyed(r, keys, 0, f) == pre + v + b;
      TakeToken(pre, k, b, v);
      KeyedNone(rest, keys[1..], f);
      FencedWithoutKey(rest, f, k, v);
    } else {
      var b := Keyed(rest, keys[1..], m - 1, f);
      assert Keyed(r, keys, m, f) == pre + keys[0] + b;
      PassToken(pre, keys[0], b, k, v);
      assert keys[1..][m - 2] == k && rest.spans[m - 2] == r.spans[m - 1];
      forall i | 0 <= i < m - 2 ensures Passes(keys[1..][i], k) {
        assert keys[1..][i] == keys[i + 1];
      }
      KeyedRestoreStep(rest, keys[1..], m - 1, f);
    }
  }

  lemma ReverseAppend<T>(a: seq<T>, b: seq<T>)
    ensures Reverse(a + b) == Reverse(b) + Reverse(a)
  {
    var r, s := Reverse(a + b), Reverse(b) + Reverse(a);
    forall q | 0 <= q < |r| ensures r[q] == s[q] {
      if q < |b| {
        assert s[q] == Reverse(b)[q];
      } else {
        assert s[q] == Reverse(a)[q - |b|];
      }
    }
  }

  /** Entry `q` of the record of a split is the key `k == n + q` with span `q` between
      fences. */
  lemma {:induction false} EntryAt(spans: seq<Span>, fmt: KeyFormat, fam: Family, n: nat, q: nat, k: nat)
    requires q < |spans| && k == n + q
    ensures Entries(spans, fmt, fam, n)[q] == (Key(fmt, fam, k), Fence(fam) + spans[q].inner + Fence(fam))
    decreases q
  {
    if q > 0 {
      var es, tl := Entries(spans, fmt, fam, n), Entries(spans[1..], fmt, fam, n + 1);
      EntryAt(spans[1..], fmt, fam, n + 1, q - 1, k);
      assert es[q] == tl[q - 1];
    }
  }

  /** Every entry of the record of a split, as `EntryAt` gives it. */
  lemma EntriesAt(spans: seq<Span>, fmt: KeyFormat, fam: Family, n: nat)
    ensures forall q | 0 <= q < |spans| ::
      Entries(spans, fmt, fam, n)[q] == (Key(fmt, fam, n + q), Fence(fam) + spans[q].inner + Fence(fam))
  {
    forall q | 0 <= q < |spans|
      ensures Entries(spans, fmt, fam, n)[q] == (Key(fmt, fam, n + q), Fence(fam) + spans[q].inner + Fence(fam))
    {
      EntryAt(spans, fmt, fam, n, q, n + q);
    }
  }

  /** `es` puts back the first `m` spans last first: entry `q` is `keys[m - 1 - q]` with
      span `m - 1 - q` between fences. */
  predicate RestoresLastFirst(es: seq<(string, string)>, r: Split, keys: seq<string>, m: nat, f: string)
    requires m <= |keys|
    requires m <= |r.spans|
  {
    |es| == m && forall q | 0 <= q < m :: es[q] == (keys[m - 1 - q], f + r.spans[m - 1 - q].inner + f)
  }

  /** Putting back the first `m` keys, last first, leaves every span between fences, when
      every key is passed over by the keys before it. */
  lemma {:induction false} KeyedRestoreAll(r: Split, keys: seq<string>, m: nat, f: string, es: seq<(string, string)>)
    requires |keys| == |r.spans| && m <= |r.spans| && PlainFence(f)
    requires RestoresLastFirst(es, r, keys, m, f)
    requires forall j | 0 <= j < m :: KeyLike(keys[j]) && Avoids(r, keys[j])
    requires forall i, j | 0 <= i < j < m :: Passes(keys[i], keys[j])
    ensures RestoreVerbatim(Keyed(r, keys, m, f), es) == Fenced(r, f, f)
    decreases m
  {
    if m == 0 {
      KeyedNone(r, keys, f);
    } else {
      KeyedRestoreStep(r, keys, m, f);
      assert RestoresLastFirst(es[1..], r, keys, m - 1, f) by {
        forall q | 0 <= q < m - 1
          ensures es[1..][q] == (keys[m - 2 - q], f + r.spans[m - 2 - q].inner + f)
        {
          assert es[1..][q] == es[q + 1];
        }
      }
      KeyedRestoreAll(r, keys, m - 1, f, es[1..]);
    }
  }

  /** Two different delimited keys of one family, as tokens and patterns. */
  lemma KeyPair(fam: Family, a: nat, b: nat)
    requires a != b
    ensures Passes(Key(DelimitedKeys, fam, a), Key(DelimitedKeys, fam, b))
  {
    KeyShape(DelimitedKeys, fam, a);
    KeyNotPrefix(fam, a, b);
    KeyNotInKey(fam, b, a);
  }

  /** A record that lists the keys in order, reversed, puts them back last first. */
  lemma ReversedInOrder(es: seq<(string, string)>, r: Split, keys: seq<string>, f: string)
    requires |es| == |keys| == |r.spans|
    requires forall q | 0 <= q < |es| :: es[q] == (keys[q], f + r.spans[q].inner + f)
    ensures RestoresLastFirst(Reverse(es), r, keys, |es|, f)
  {
  }

  /** The reversed record of a family puts back its keys last first. */
  lemma ReversedRecord(r: Split, fam: Family, n: nat)
    ensures RestoresLastFirst(Reverse(Entries(r.spans, DelimitedKeys, fam, n)), r, KeySeq(DelimitedKeys, fam, n, |r.spans|),
                              |r.spans|, Fence(fam))
  {
    var keys, es := KeySeq(DelimitedKeys, fam, n, |r.spans|), Entries(r.spans, DelimitedKeys, fam, n);
    EntriesAt(r.spans, DelimitedKeys, fam, n);
    forall q | 0 <= q < |es| ensures es[q] == (keys[q], Fence(fam) + r.spans[q].inner + Fence(fam)) {
      assert keys[q] == Key(DelimitedKeys, fam, n + q);
    }
    ReversedInOrder(es, r, keys, Fence(fam));
  }

  /** The keys of a family are key-like and absent from a split that avoids their prefix. */
  lemma FamilyKeysAvoided(r: Split, fmt: KeyFormat, fam: Family, n: nat)
    requires Avoids(r, Prefix(fam))
    ensures forall j | 0 <= j < |r.spans| :: KeyLike(KeySeq(fmt, fam, n, |r.spans|)[j]) && Avoids(r, KeySeq(fmt, fam, n, |r.spans|)[j])
  {
    var keys := KeySeq(fmt, fam, n, |r.spans|);
    forall j | 0 <= j < |r.spans| ensures KeyLike(keys[j]) && Avoids(r, keys[j]) {
      KeyShape(fmt, fam, n + j);
      AvoidsKey(r, fmt, fam, n + j);
    }
  }

  /** Each key of a family is passed over by the keys before it. */
  lemma FamilyKeysPass(fam: Family, n: nat, len: nat)
    ensures forall i, j | 0 <= i < j < len :: Passes(KeySeq(DelimitedKeys, fam, n, len)[i], KeySeq(DelimitedKeys, fam, n, len)[j])
  {
    var keys := KeySeq(DelimitedKeys, fam, n, len);
    forall i, j | 0 <= i < j < len ensures Passes(keys[i], keys[j]) {
      KeyPair(fam, n + i, n + j);
    }
  }

  /** Putting back the delimited keys of a family from its reversed record leaves every
      span between fences. */
  lemma RestoreFamily(r: Split, fam: Family, n: nat)
    requires Avoids(r, Prefix(fam))
    ensures RestoreVerbatim(Protected(r, DelimitedKeys, fam, n), Reverse(Entries(r.spans, DelimitedKeys, fam, n)))
            == Fenced(r, Fence(fam), Fence(fam))
  {
    var len := |r.spans|;
    ReversedRecord(r, fam, n);
    FamilyKeysAvoided(r, DelimitedKeys, fam, n);
    FamilyKeysPass(fam, n, len);
    FencesPlain();
    KeyedAll(r, fam, n, Fence(fam));
    KeyedRestoreAll(r, KeySeq(DelimitedKeys, fam, n, len), len, Fence(fam), Reverse(Entries(r.spans, DelimitedKeys, fam, n)));
  }

  // ---------------------------------------------------------------------------------------
  // The entity
  // ---------------------------------------------------------------------------------------

  lemma EntityNoAmp() ensures '&' !in Entity[1..] {}
  lemma EntityNoSemicolon() ensures ';' !in Entity[..|Entity| - 1] {}
  lemma EntityNoDollar() ensures '$' !in Entity {}

  /** `&#36;&#36;` decodes to `$$`. */
  lemma DecodeBlockFence()
    ensures Decode(BlockFence) == "$$"
  {
    assert BlockFence == Entity + Entity;
    EntityNoSemicolon();
    SeamByLeft(Entity, Entity, Entity);
    ReplaceConcat(Entity, Entity, Entity, "$");
    ReplaceWhole(Entity, "$");
  }

  /** Pieces without the pattern are kept as they are. */
  lemma {:induction false} MapRestoreUnchanged(r: Split, k: string, v: string, d: string)
    requires k != "" && Avoids(r, k)
    ensures Fenced(MapRestore(r, [(k, v)]), d, d) == Fenced(r, d, d)
    decreases |r.spans|
  {
    if r.spans == [] {
      RestoreOne(r.tail, k, v);
      ReplaceAbsent(r.tail, k, v);
    } else {
      var rest := Split(r.spans[1..], r.tail);
      var pre, inner := r.spans[0].pre, r.spans[0].inner;
      RestoreOne(pre, k, v);
      ReplaceAbsent(pre, k, v);
      RestoreOne(inner, k, v);
      ReplaceAbsent(inner, k, v);
      MapRestoreUnchanged(rest, k, v, d);
      FencedConsAny(pre, inner, MapRestore(rest, [(k, v)]), d, d);
    }
  }

  /** Decoding block spans written between `&#36;&#36;` gives them back between `$$`. */
  lemma DecodeBlockFenced(r: Split)
    requires Avoids(r, Entity)
    ensures Decode(Fenced(r, BlockFence, BlockFence)) == Fenced(r, "$$", "$$")
  {
    EntityNoAmp();
    EntityNoSemicolon();
    ReplaceFenced(r, BlockFence, Entity, "$");
    DecodeBlockFence();
    MapRestoreUnchanged(r, Entity, "$", "$$");
  }

  /** Once decoded, an inline span between `&#36;` and one between `$` read the same. */
  lemma DecodeInlineFences(r: Split)
    ensures Decode(Fenced(r, Entity, Entity)) == Decode(Fenced(r, "$", "$"))
  {
    EntityNoAmp();
    EntityNoSemicolon();
    EntityNoDollar();
    ReplaceFenced(r, Entity, Entity, "$");
    ReplaceWhole(Entity, "$");
    ReplaceFenced(r, "$", Entity, "$");
    ReplaceAbsent("$", Entity, "$");
  }

  // ---------------------------------------------------------------------------------------
  // The round trip
  // ---------------------------------------------------------------------------------------

  /** A token that starts with `M`, holds it nowhere else and is at least as long as the
      pattern adds no occurrence of a pattern of the same shape. */
  lemma AbsentAroundToken(pre: string, t: string, b: string, p: string)
    requires KeyLike(t) && |p| <= |t| && p != "" && p[0] == 'M' && 'M' !in p[1..]
    requires !Contains(pre, p) && !Contains(t, p) && !Contains(b, p)
    ensures !Contains(pre + t + b, p)
  {
    SeamAfterToken(t, b, p);
    AbsentConcat(t, b, p);
    SeamByRight(pre, t + b, p);
    AbsentConcat(pre, t + b, p);
    assert pre + t + b == pre + (t + b);
  }

  /** Replacing block spans by their keys adds no inline prefix. */
  lemma {:induction false} ProtectedAvoidsOther(r: Split, fmt: KeyFormat, n: nat)
    requires Avoids(r, Prefix(Inline))
    ensures !Contains(Protected(r, fmt, Block, n), Prefix(Inline))
    decreases |r.spans|
  {
    if r.spans == [] {
    } else {
      var rest := Split(r.spans[1..], r.tail);
      ProtectedAvoidsOther(rest, fmt, n + 1);
      KeyShape(fmt, Block, n);
      PrefixShape(Inline);
      PrefixNotInKey(fmt, Block, n);
      AbsentAroundToken(r.spans[0].pre, Key(fmt, Block, n), Protected(rest, fmt, Block, n + 1), Prefix(Inline));
    }
  }

  /** Every key of a family's record is key-like. */
  lemma EntriesKeyLike(spans: seq<Span>, fmt: KeyFormat, fam: Family, n: nat)
    ensures AllKeyLike(Entries(spans, fmt, fam, n))
  {
    var es := Entries(spans, fmt, fam, n);
    EntriesAt(spans, fmt, fam, n);
    forall q | 0 <= q < |es| ensures KeyLike(es[q].0) {
      KeyShape(fmt, fam, n + q);
    }
  }

  /** Reversing a record keeps its keys key-like. */
  lemma ReverseKeyLike(es: seq<(string, string)>)
    requires AllKeyLike(es)
    ensures AllKeyLike(Reverse(es))
  {
    var rs := Reverse(es);
    forall q | 0 <= q < |rs| ensures KeyLike(rs[q].0) {
      assert rs[q] == es[|es| - 1 - q];
    }
  }

  /** Every key of a reversed record is key-like. */
  lemma ReversedKeysLike(spans: seq<Span>, fam: Family, n: nat)
    ensures AllKeyLike(Reverse(Entries(spans, DelimitedKeys, fam, n)))
  {
    EntriesKeyLike(spans, DelimitedKeys, fam, n);
    ReverseKeyLike(Entries(spans, DelimitedKeys, fam, n));
  }

  /** After the inline keys are put back, putting back the block keys and decoding gives
      what it gives on the text before inline protection. */
  lemma InlineRestoreTransparent(pi: Split, rb: seq<(string, string)>)
    requires AllKeyLike(rb)
    ensures Decode(RestoreVerbatim(Fenced(pi, Entity, Entity), rb)) == Decode(RestoreVerbatim(Fenced(pi, "$", "$"), rb))
  {
    FencesPlain();
    RestoreFenced(pi, Entity, rb);
    RestoreFenced(pi, "$", rb);
    DecodeInlineFences(MapRestore(pi, rb));
  }

  /** The corrected pipeline gives back any text that holds neither placeholder prefix nor
      the entity: protect with delimited keys, put the keys back last first with verbatim
      values, decode the entity. */
  lemma RoundTrip(x: string)
    requires !Contains(x, Prefix(Block)) && !Contains(x, Prefix(Inline)) && !Contains(x, Entity)
    ensures Decode(RestoreReversed(ProtectedText(x, DelimitedKeys), ProtectedEntries(x, DelimitedKeys))) == x
  {
    var pb := BlockSplit(x, 0);
    var y := Protected(pb, DelimitedKeys, Block, 0);
    var pi := InlineSplit(y, 0);
    var z := Protected(pi, DelimitedKeys, Inline, |pb.spans|);
    var eb := Entries(pb.spans, DelimitedKeys, Block, 0);
    var ei := Entries(pi.spans, DelimitedKeys, Inline, |pb.spans|);
    var rb := Reverse(eb);
    // the pieces of both splits hold no placeholder prefix and no entity
    BlockSplitCovers(x, 0);
    assert x[0..] == x;
    AvoidsOfFenced(pb, "$$", "$$", Prefix(Block));
    AvoidsOfFenced(pb, "$$", "$$", Prefix(Inline));
    AvoidsOfFenced(pb, "$$", "$$", Entity);
    ProtectedAvoidsOther(pb, DelimitedKeys, 0);
    InlineSplitCovers(y, 0);
    assert y[0..] == y;
    AvoidsOfFenced(pi, "$", "$", Prefix(Inline));
    // the inline keys go back first, then the block keys
    ReverseAppend(eb, ei);
    RestoreAppend(z, Reverse(ei), rb);
    RestoreFamily(pi, Inline, |pb.spans|);
    ReversedKeysLike(pb.spans, Block, 0);
    InlineRestoreTransparent(pi, rb);
    RestoreFamily(pb, Block, 0);
    DecodeBlockFenced(pb);
  }

  /** `renderMarkdownWithMath` with a markdown step that leaves its input alone and outside
      a browser gives back the text once the entity is decoded. */
  lemma RenderRoundTrip(x: string)
    requires !Contains(x, Prefix(Block)) && !Contains(x, Prefix(Inline)) && !Contains(x, Entity)
    ensures Decode(CorrectedHtml(x, s => s, s => s, false)) == x
  {
    RoundTrip(x);
  }
}
