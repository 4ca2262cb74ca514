/** What the source's own restore achieves. With keys `MATHBLOCKPLACEHOLDER${n}` put back in
    insertion order through `replaceAll(key, value)`, the content comes back once the entity
    is decoded, provided it has at most ten spans (so no key is the start of another), no
    span holds a dollar sign (so no replacement pattern is expanded), and no inline span
    holds block placeholder text (no `$$…$$` inside a `$…$`). */
module MathSourceTrip {
  import opened Common
  import opened ReplaceText
  import opened MathProtect
  import opened MathRoundTrip
  import opened MathFindings

  // ---------------------------------------------------------------------------------------
  // Putting back one family first to last
  // ---------------------------------------------------------------------------------------

  /** The text while keys are being put back first to last: span `i` is already written
      between fences `f` while `i < m`, and holds `keys[i]` otherwise. */
  function KeyedFrom(r: Split, keys: seq<string>, m: nat, f: string): string
    requires |keys| == |r.spans|
    decreases |r.spans|
  {
    if r.spans == [] then r.tail
    else
      r.spans[0].pre
      + (if m > 0 then f + r.spans[0].inner + f else keys[0])
      + KeyedFrom(Split(r.spans[1..], r.tail), keys[1..], if m > 0 then m - 1 else 0, f)
  }

  /** Before any key is put back, the text is the protected text. */
  lemma {:induction false} KeyedFromStart(r: Split, fmt: KeyFormat, fam: Family, n: nat, f: string)
    ensures KeyedFrom(r, KeySeq(fmt, fam, n, |r.spans|), 0, f) == Protected(r, fmt, fam, n)
    decreases |r.spans|
  {
    if r.spans != [] {
      var keys := KeySeq(fmt, fam, n, |r.spans|);
      assert keys[1..] == KeySeq(fmt, fam, n + 1, |r.spans| - 1);
      assert keys[0] == Key(fmt, fam, n);
      KeyedFromStart(Split(r.spans[1..], r.tail), fmt, fam, n + 1, f);
    }
  }

  /** Once every key is put back, every span is written between fences. */
  lemma {:induction false} KeyedFromEnd(r: Split, keys: seq<string>, f: string)
    requires |keys| == |r.spans|
    ensures KeyedFrom(r, keys, |r.spans|, f) == Fenced(r, f, f)
    decreases |r.spans|
  {
    if r.spans != [] {
      KeyedFromEnd(Split(r.spans[1..], r.tail), keys[1..], f);
      assert r.spans[0].pre + (f + r.spans[0].inner + f) == r.spans[0].pre + f + r.spans[0].inner + f;
    }
  }

  /** Keys that all pass over `k` stay in place when `k` is replaced. */
  lemma {:induction false} HeldKeysKept(r: Split, keys: seq<string>, f: string, k: string, v: string)
    requires |keys| == |r.spans| && KeyLike(k) && Avoids(r, k)
    requires forall i | 0 <= i < |keys| :: Passes(keys[i], k)
    ensures ReplaceLiteral(KeyedFrom(r, keys, 0, f), k, v) == KeyedFrom(r, keys, 0, f)
    decreases |r.spans|
  {
    if r.spans == [] {
      ReplaceAbsent(r.tail, k, v);
    } else {
      var rest := Split(r.spans[1..], r.tail);
      var b := KeyedFrom(rest, keys[1..], 0, f);
      assert KeyedFrom(r, keys, 0, f) == r.spans[0].pre + keys[0] + b;
      PassToken(r.spans[0].pre, keys[0], b, k, v);
      forall i | 0 <= i < |keys| - 1 ensures Passes(keys[1..][i], k) {
        assert keys[1..][i] == keys[i + 1];
      }
      HeldKeysKept(rest, keys[1..], f, k, v);
    }
  }

  /** Putting back the first key, when the keys after it pass it over, turns it into its
      span between fences and changes nothing else. */
  lemma {:induction false} KeyedFromFirst(r: Split, keys: seq<string>, f: string)
    requires |keys| == |r.spans| > 0
    requires KeyLike(keys[0]) && Avoids(r, keys[0])
    requires forall i | 0 < i < |keys| :: Passes(keys[i], keys[0])
    ensures ReplaceLiteral(KeyedFrom(r, keys, 0, f), keys[0], f + r.spans[0].inner + f)
            == KeyedFrom(r, keys, 1, f)
  {
    var k, v := keys[0], f + r.spans[0].inner + f;
    var rest, pre := Split(r.spans[1..], r.tail), r.spans[0].pre;
    var b := KeyedFrom(rest, keys[1..], 0, f);
    assert KeyedFrom(r, keys, 0, f) == pre + k + b;
    assert KeyedFrom(r, keys, 1, f) == pre + v + b;
    TakeToken(pre, k, b, v);
    forall i | 0 <= i < |keys| - 1 ensures Passes(keys[1..][i], k) {
      assert keys[1..][i] == keys[i + 1];
    }
    HeldKeysKept(rest, keys[1..], f, k, v);
  }

  /** Text that lacks the key, followed by a fence, is passed over whole. */
  lemma {:induction false} PassFence(pre: string, f: string, x: string, k: string, v: string)
    requires PlainFence(f) && KeyLike(k) && !Contains(pre, k)
    ensures ReplaceLiteral(pre + f + x, k, v) == pre + f + ReplaceLiteral(x, k, v)
  {
    FenceSeams(f, k);
    ReplaceAbsent(f, k, v);
    ReplaceAroundFence(pre, f, x, k, v);
    ReplaceAbsent(pre, k, v);
  }

  /** A span between fences that lacks the key is passed over whole. */
  lemma {:induction false} PassFenced(pre: string, f: string, inner: string, b: string, k: string, v: string)
    requires PlainFence(f) && KeyLike(k) && !Contains(pre, k) && !Contains(inner, k)
    ensures ReplaceLiteral(pre + f + inner + f + b, k, v) == pre + f + inner + f + ReplaceLiteral(b, k, v)
  {
    PassFence(inner, f, b, k, v);
    PassFence(pre, f, inner + f + b, k, v);
    Regroup(pre, f, inner, f, b);
    Regroup(pre, f, inner, f, ReplaceLiteral(b, k, v));
  }

  /** Past a span already between fences, putting back a key only acts on what follows. */
  lemma {:induction false} KeyedFromPastSpan(r: Split, keys: seq<string>, m: nat, f: string, k: string, v: string)
    requires |keys| == |r.spans| && 0 < m < |r.spans| && PlainFence(f)
    requires KeyLike(k) && Avoids(r, k)
    requires ReplaceLiteral(KeyedFrom(Split(r.spans[1..], r.tail), keys[1..], m - 1, f), k, v)
             == KeyedFrom(Split(r.spans[1..], r.tail), keys[1..], m, f)
    ensures ReplaceLiteral(KeyedFrom(r, keys, m, f), k, v) == KeyedFrom(r, keys, m + 1, f)
  {
    var rest, pre, inner := Split(r.spans[1..], r.tail), r.spans[0].pre, r.spans[0].inner;
    var b := KeyedFrom(rest, keys[1..], m - 1, f);
    var b' := KeyedFrom(rest, keys[1..], m, f);
    assert KeyedFrom(r, keys, m, f) == pre + (f + inner + f) + b;
    assert KeyedFrom(r, keys, m + 1, f) == pre + (f + inner + f) + b';
    Flatten(pre, f, inner, f, b);
    Flatten(pre, f, inner, f, b');
    PassFenced(pre, f, inner, b, k, v);
  }

  /** Putting back `keys[m]`, the first key still in place, turns it into its span between
      fences and changes nothing else, when the keys after it pass it over. */
  lemma {:induction false} KeyedFromStep(r: Split, keys: seq<string>, m: nat, f: string)
    requires |keys| == |r.spans| && m < |r.spans| && PlainFence(f)
    requires KeyLike(keys[m]) && Avoids(r, keys[m])
    requires forall i | m < i < |keys| :: Passes(keys[i], keys[m])
    ensures ReplaceLiteral(KeyedFrom(r, keys, m, f), keys[m], f + r.spans[m].inner + f)
            == KeyedFrom(r, keys, m + 1, f)
    decreases |r.spans|
  {
    if m == 0 {
      KeyedFromFirst(r, keys, f);
    } else {
      var k, v := keys[m], f + r.spans[m].inner + f;
      var rest := Split(r.spans[1..], r.tail);
      assert keys[1..][m - 1] == k && rest.spans[m - 1] == r.spans[m];
      forall i | m - 1 < i < |keys| - 1 ensures Passes(keys[1..][i], k) {
        assert keys[1..][i] == keys[i + 1];
      }
      KeyedFromStep(rest, keys[1..], m - 1, f);
      KeyedFromPastSpan(r, keys, m, f, k, v);
    }
  }

  /** A record that puts back `keys[m..]` first to last, each with its span between
      fences. */
  predicate RestoresFirstFirst(es: seq<(string, string)>, r: Split, keys: seq<string>, m: nat, f: string)
    requires m <= |keys| == |r.spans|
  {
    |es| == |keys| - m && forall q | 0 <= q < |es| :: es[q] == (keys[m + q], f + r.spans[m + q].inner + f)
  }

  /** Putting back the remaining keys first to last, when each is passed over by the keys
      after it, leaves every span between fences. */
  lemma {:induction false} KeyedFromRestoreAll(r: Split, keys: seq<string>, m: nat, f: string, es: seq<(string, string)>)
    requires |keys| == |r.spans| && m <= |r.spans| && PlainFence(f)
    requires RestoresFirstFirst(es, r, keys, m, f)
    requires forall j | m <= j < |keys| :: KeyLike(keys[j]) && Avoids(r, keys[j])
    requires forall i, j | m <= j < i < |keys| :: Passes(keys[i], keys[j])
    ensures RestoreVerbatim(KeyedFrom(r, keys, m, f), es) == Fenced(r, f, f)
    decreases |r.spans| - m
  {
    if m == |r.spans| {
      KeyedFromEnd(r, keys, f);
    } else {
      KeyedFromStep(r, keys, m, f);
      assert es[0] == (keys[m], f + r.spans[m].inner + f);
      forall q | 0 <= q < |es| - 1
        ensures es[1..][q] == (keys[m + 1 + q], f + r.spans[m + 1 + q].inner + f)
      {
        assert es[1..][q] == es[q + 1];
      }
      KeyedFromRestoreAll(r, keys, m + 1, f, es[1..]);
    }
  }

  /** Two source keys of one family below ten have the same length and differ, so neither
      holds or starts the other. */
  lemma {:induction false} SourcePair(fam: Family, a: nat, b: nat)
    requires a != b && a < 10 && b < 10
    ensures Passes(Key(SourceKeys, fam, a), Key(SourceKeys, fam, b))
  {
    var ka, kb := Key(SourceKeys, fam, a), Key(SourceKeys, fam, b);
    KeyShape(SourceKeys, fam, a);
    assert |ka| == |kb|;
    if Contains(ka, kb) {
      var i :| 0 <= i <= |ka| - |kb| && StartsAt(ka, kb, i);
      assert ka[0..|kb|] == ka;
      KeyInjective(SourceKeys, fam, a, b);
    }
  }

  /** Source keys counting from `n` up to ten pass each other over. */
  lemma {:induction false} SourceKeysPass(fam: Family, n: nat, len: nat)
    requires n + len <= 10
    ensures forall i, j | 0 <= j < i < len :: Passes(KeySeq(SourceKeys, fam, n, len)[i], KeySeq(SourceKeys, fam, n, len)[j])
  {
    var keys := KeySeq(SourceKeys, fam, n, len);
    forall i, j | 0 <= j < i < len ensures Passes(keys[i], keys[j]) {
      SourcePair(fam, n + i, n + j);
    }
  }

  /** Putting back a family's source keys in insertion order leaves every span between
      fences, when the counters stay below ten and the pieces lack the family's prefix. */
  lemma {:induction false} RestoreFamilyInOrder(r: Split, fam: Family, n: nat, es: seq<(string, string)>)
    requires Avoids(r, Prefix(fam)) && n + |r.spans| <= 10
    requires |es| == |r.spans|
    requires forall q | 0 <= q < |es| :: es[q] == (Key(SourceKeys, fam, n + q), Fence(fam) + r.spans[q].inner + Fence(fam))
    ensures RestoreVerbatim(Protected(r, SourceKeys, fam, n), es) == Fenced(r, Fence(fam), Fence(fam))
  {
    var len, f := |r.spans|, Fence(fam);
    var keys := KeySeq(SourceKeys, fam, n, len);
    KeyedFromStart(r, SourceKeys, fam, n, f);
    FamilyKeysAvoided(r, SourceKeys, fam, n);
    SourceKeysPass(fam, n, len);
    FencesPlain();
    assert RestoresFirstFirst(es, r, keys, 0, f) by {
      forall q | 0 <= q < |es| ensures es[q] == (keys[q], f + r.spans[q].inner + f) {
        assert keys[q] == Key(SourceKeys, fam, n + q);
      }
    }
    KeyedFromRestoreAll(r, keys, 0, f, es);
  }

  // ---------------------------------------------------------------------------------------
  // Block values put back through the inline keys
  // ---------------------------------------------------------------------------------------

  /** An inline source key neither holds nor starts a block source key. */
  lemma {:induction false} InlineBlockPass(a: nat, c: nat)
    ensures Passes(Key(SourceKeys, Inline, a), Key(SourceKeys, Block, c))
  {
    var t, k := Key(SourceKeys, Inline, a), Key(SourceKeys, Block, c);
    KeyShape(SourceKeys, Inline, a);
    KeyShape(SourceKeys, Block, c);
    PrefixShape(Inline);
    PrefixShape(Block);
    PrefixNotInKey(SourceKeys, Inline, a);
    NoPrefixNoKey(t, SourceKeys, Block, c);
    assert t[4] == t[..|Prefix(Inline)|][4] == 'I';
    assert k[4] == k[..|Prefix(Block)|][4] == 'B';
  }

  /** Restoring entries whose keys a token passes over restores on each side of it and
      keeps the token. */
  lemma {:induction false} RestoreAroundToken(a: string, t: string, b: string, es: seq<(string, string)>)
    requires AllKeyLike(es) && forall q | 0 <= q < |es| :: Passes(t, es[q].0)
    ensures RestoreVerbatim(a + t + b, es) == RestoreVerbatim(a, es) + t + RestoreVerbatim(b, es)
    decreases |es|
  {
    if es != [] {
      var k, v := es[0].0, es[0].1;
      assert KeyLike(k) && Passes(t, k);
      ReplaceAroundKey(a, t, b, k, v);
      ReplaceAbsent(t, k, v);
      forall q | 0 <= q < |es[1..]| ensures KeyLike(es[1..][q].0) && Passes(t, es[1..][q].0) {
        assert es[1..][q] == es[q + 1];
      }
      RestoreAroundToken(ReplaceLiteral(a, k, v), t, ReplaceLiteral(b, k, v), es[1..]);
    }
  }

  /** Putting back entries that every key of `r` passes over keeps those keys and restores
      each piece between them. */
  lemma {:induction false} RestoreProtected(r: Split, fmt: KeyFormat, fam: Family, n: nat, es: seq<(string, string)>)
    requires AllKeyLike(es)
    requires forall j, q | n <= j < n + |r.spans| && 0 <= q < |es| :: Passes(Key(fmt, fam, j), es[q].0)
    ensures RestoreVerbatim(Protected(r, fmt, fam, n), es) == Protected(MapRestore(r, es), fmt, fam, n)
    decreases |r.spans|
  {
    if r.spans != [] {
      var rest := Split(r.spans[1..], r.tail);
      RestoreAroundToken(r.spans[0].pre, Key(fmt, fam, n), Protected(rest, fmt, fam, n + 1), es);
      RestoreProtected(rest, fmt, fam, n + 1, es);
      var m := MapRestore(r, es);
      assert Split(m.spans[1..], m.tail) == MapRestore(rest, es);
    }
  }

  /** Putting back the block record over the inline-protected text keeps the inline keys. */
  lemma {:induction false} BlockRestoreKeepsInlineKeys(pi: Split, b: nat, spans: seq<Span>)
    ensures var eb := Entries(spans, SourceKeys, Block, 0);
      RestoreVerbatim(Protected(pi, SourceKeys, Inline, b), eb) == Protected(MapRestore(pi, eb), SourceKeys, Inline, b)
  {
    var eb := Entries(spans, SourceKeys, Block, 0);
    EntriesKeyLike(spans, SourceKeys, Block, 0);
    EntriesAt(spans, SourceKeys, Block, 0);
    forall j, q | b <= j < b + |pi.spans| && 0 <= q < |eb| ensures Passes(Key(SourceKeys, Inline, j), eb[q].0) {
      InlineBlockPass(j, q);
    }
    RestoreProtected(pi, SourceKeys, Inline, b, eb);
  }

  // ---------------------------------------------------------------------------------------
  // What the block values leave in the pieces
  // ---------------------------------------------------------------------------------------

  /** A suffix of text without an occurrence has none either. */
  lemma {:induction false} AbsentSuffix(s: string, p: string, n: nat)
    requires n <= |s| && !Contains(s, p)
    ensures !Contains(s[n..], p)
  {
    forall i | 0 <= i <= |s[n..]| - |p| ensures !StartsAt(s[n..], p, i) {
      assert s[n..][i..i + |p|] == s[n + i..n + i + |p|];
      assert !StartsAt(s, p, n + i);
    }
  }

  /** Text that starts with the pattern starts, once replaced, with the value. */
  lemma {:induction false} ReplacedStartsWithValue(s: string, k: string, v: string)
    requires k != "" && v != "" && StartsWith(s, k)
    ensures |ReplaceLiteral(s, k, v)| > 0 && ReplaceLiteral(s, k, v)[0] == v[0]
  {
    assert ReplaceLiteral(s, k, v) == v + ReplaceLiteral(s[|k|..], k, v);
  }

  /** Until the first character of a replacement shows up, the replaced text is the
      text. */
  lemma {:induction false} UnreplacedPrefix(s: string, k: string, v: string, len: nat)
    requires k != "" && v != "" && len <= |ReplaceLiteral(s, k, v)|
    requires forall i | 0 <= i < len :: ReplaceLiteral(s, k, v)[i] != v[0]
    ensures len <= |s| && ReplaceLiteral(s, k, v)[..len] == s[..len]
    decreases |s|
  {
    if s != "" && len > 0 {
      if StartsWith(s, k) {
        ReplacedStartsWithValue(s, k, v);
        assert false;
      } else {
        var t := ReplaceLiteral(s[1..], k, v);
        assert ReplaceLiteral(s, k, v) == [s[0]] + t;
        forall i | 0 <= i < len - 1 ensures t[i] != v[0] {
          assert t[i] == ReplaceLiteral(s, k, v)[i + 1];
        }
        UnreplacedPrefix(s[1..], k, v, len - 1);
        assert s[..len] == [s[0]] + s[1..][..len - 1];
      }
    }
  }

  /** Replacing by a value whose first and last characters are foreign to the pattern, and
      which does not hold the pattern, adds no occurrence of it. */
  lemma {:induction false} ReplaceKeepsAbsent(s: string, k: string, v: string, p: string)
    requires k != "" && p != "" && v != "" && !Contains(s, p) && !Contains(v, p)
    requires v[0] !in p && v[|v| - 1] !in p
    ensures !Contains(ReplaceLiteral(s, k, v), p)
    decreases |s|
  {
    if s != "" {
      if StartsWith(s, k) {
        var t := ReplaceLiteral(s[|k|..], k, v);
        AbsentSuffix(s, p, |k|);
        ReplaceKeepsAbsent(s[|k|..], k, v, p);
        assert v[|v| - 1] !in p[..|p| - 1];
        SeamByLeft(v, t, p);
        AbsentConcat(v, t, p);
      } else {
        AbsentSuffix(s, p, 1);
        ReplaceKeepsAbsent(s[1..], k, v, p);
        CopiedHeadKeepsAbsent(s, k, v, p);
      }
    }
  }

  /** A first character copied in front of a replaced rest that holds no occurrence adds
      none, when an occurrence there would already be one in the text. */
  lemma CopiedHeadKeepsAbsent(s: string, k: string, v: string, p: string)
    requires s != "" && k != "" && p != "" && v != "" && !Contains(s, p) && !StartsWith(s, k)
    requires v[0] !in p
    requires !Contains(ReplaceLiteral(s[1..], k, v), p)
    ensures !Contains(ReplaceLiteral(s, k, v), p)
  {
    var t := ReplaceLiteral(s[1..], k, v);
    var c := [s[0]] + t;
    assert ReplaceLiteral(s, k, v) == c;
    HeadStartCopied(s, k, v, p);
    assert !StartsAt(s, p, 0);
    forall i | 1 <= i <= |c| - |p| ensures !StartsAt(c, p, i) {
      assert c[i..i + |p|] == t[i - 1..i - 1 + |p|];
      assert !StartsAt(t, p, i - 1);
    }
  }

  /** An occurrence at the front of the copied character and the replaced rest ends before
      the first inserted value, so it is an occurrence in the text itself. */
  lemma HeadStartCopied(s: string, k: string, v: string, p: string)
    requires s != "" && k != "" && p != "" && v != "" && !StartsWith(s, k) && v[0] !in p
    ensures StartsAt([s[0]] + ReplaceLiteral(s[1..], k, v), p, 0) ==> StartsAt(s, p, 0)
  {
    var t := ReplaceLiteral(s[1..], k, v);
    var c := [s[0]] + t;
    if StartsAt(c, p, 0) {
      var len := |p| - 1;
      forall i | 0 <= i < len ensures t[i] != v[0] {
        assert t[i] == c[i + 1] == p[i + 1];
      }
      UnreplacedPrefix(s[1..], k, v, len);
      assert s[..|p|] == [s[0]] + s[1..][..len] == c[..|p|];
    }
  }

  /** A record whose values keep a pattern out keeps it out of the restored text. */
  predicate KeepsOut(es: seq<(string, string)>, p: string) {
    forall q | 0 <= q < |es| :: KeepsOutOne(es[q], p)
  }

  predicate KeepsOutOne(e: (string, string), p: string) {
    e.0 != "" && e.1 != "" && !Contains(e.1, p) && e.1[0] !in p && e.1[|e.1| - 1] !in p
  }

  lemma {:induction false} RestoreKeepsAbsent(s: string, es: seq<(string, string)>, p: string)
    requires p != "" && !Contains(s, p) && KeepsOut(es, p)
    ensures !Contains(RestoreVerbatim(s, es), p)
    decreases |es|
  {
    if es != [] {
      ReplaceKeepsAbsent(s, es[0].0, es[0].1, p);
      assert KeepsOut(es[1..], p) by {
        forall q | 0 <= q < |es[1..]| ensures es[1..][q] == es[q + 1] { }
      }
      RestoreKeepsAbsent(ReplaceLiteral(s, es[0].0, es[0].1), es[1..], p);
    }
  }

  /** Every piece of the restored split keeps the pattern out. */
  lemma {:induction false} MapRestoreAvoids(r: Split, es: seq<(string, string)>, p: string)
    requires p != "" && Avoids(r, p) && KeepsOut(es, p)
    ensures Avoids(MapRestore(r, es), p)
    decreases |r.spans|
  {
    if r.spans == [] {
      RestoreKeepsAbsent(r.tail, es, p);
    } else {
      var rest := Split(r.spans[1..], r.tail);
      RestoreKeepsAbsent(r.spans[0].pre, es, p);
      RestoreKeepsAbsent(r.spans[0].inner, es, p);
      MapRestoreAvoids(rest, es, p);
      var m := MapRestore(r, es);
      assert Split(m.spans[1..], m.tail) == MapRestore(rest, es);
    }
  }

  /** Span `q` of a split that avoids a pattern lacks it. */
  lemma {:induction false} AvoidsAt(r: Split, p: string, q: nat)
    requires Avoids(r, p) && q < |r.spans|
    ensures !Contains(r.spans[q].inner, p)
    decreases q
  {
    if q > 0 {
      AvoidsAt(Split(r.spans[1..], r.tail), p, q - 1);
    }
  }

  /** A value written between fences has the fence's first and last characters and lacks a
      pattern that starts with `M` and holds no fence character. */
  lemma {:induction false} FencedValueKeepsOut(d: string, inner: string, p: string)
    requires PlainFence(d) && p != "" && p[0] == 'M' && '$' !in p && '&' !in p && ';' !in p
    requires !Contains(inner, p)
    ensures var v := d + inner + d;
      v != "" && !Contains(v, p) && v[0] !in p && v[|v| - 1] !in p
  {
    var v := d + inner + d;
    assert v[0] == d[0] && v[|v| - 1] == d[|d| - 1];
    AbsentForeign(d, p, 0);
    assert d[|d| - 1] !in p[..|p| - 1];
    assert d[0] !in p[1..];
    SeamByRight(inner, d, p);
    AbsentConcat(inner, d, p);
    SeamByLeft(d, inner + d, p);
    AbsentConcat(d, inner + d, p);
    assert v == d + (inner + d);
  }

  /** A block entry keeps the inline prefix out, when its span lacks it. */
  lemma {:induction false} BlockEntryKeepsOut(spans: seq<Span>, q: nat)
    requires q < |spans| && !Contains(spans[q].inner, Prefix(Inline))
    ensures KeepsOutOne(Entries(spans, SourceKeys, Block, 0)[q], Prefix(Inline))
  {
    EntryAt(spans, SourceKeys, Block, 0, q, q);
    PrefixShape(Inline);
    FencesPlain();
    KeyShape(SourceKeys, Block, q);
    FencedValueKeepsOut(BlockFence, spans[q].inner, Prefix(Inline));
  }

  /** The block record keeps the inline prefix out, when the block spans lack it. */
  lemma {:induction false} BlockRecordKeepsOut(spans: seq<Span>)
    requires forall q | 0 <= q < |spans| :: !Contains(spans[q].inner, Prefix(Inline))
    ensures KeepsOut(Entries(spans, SourceKeys, Block, 0), Prefix(Inline))
  {
    forall q | 0 <= q < |spans| ensures KeepsOutOne(Entries(spans, SourceKeys, Block, 0)[q], Prefix(Inline)) {
      BlockEntryKeepsOut(spans, q);
    }
  }

  /** Text without a key's prefix is left alone by the whole record. */
  lemma {:induction false} RestoreAbsentAll(s: string, es: seq<(string, string)>)
    requires forall q | 0 <= q < |es| :: es[q].0 != "" && !Contains(s, es[q].0)
    ensures RestoreVerbatim(s, es) == s
    decreases |es|
  {
    if es != [] {
      ReplaceAbsent(s, es[0].0, es[0].1);
      forall q | 0 <= q < |es[1..]| ensures es[1..][q] == es[q + 1] { }
      RestoreAbsentAll(s, es[1..]);
    }
  }

  /** Span `q` of the restored split is span `q` restored. */
  lemma {:induction false} MapRestoreAt(r: Split, es: seq<(string, string)>, q: nat)
    requires q < |r.spans|
    ensures MapRestore(r, es).spans[q].inner == RestoreVerbatim(r.spans[q].inner, es)
    decreases q
  {
    var rest := Split(r.spans[1..], r.tail);
    if q > 0 {
      MapRestoreAt(rest, es, q - 1);
      assert MapRestore(r, es).spans[q] == MapRestore(rest, es).spans[q - 1];
    }
  }

  /** Inline spans without block placeholder text keep their math through the block
      record. */
  lemma {:induction false} InlineInnersKept(pi: Split, spans: seq<Span>)
    requires forall q | 0 <= q < |pi.spans| :: !Contains(pi.spans[q].inner, Prefix(Block))
    ensures forall q | 0 <= q < |pi.spans| ::
      MapRestore(pi, Entries(spans, SourceKeys, Block, 0)).spans[q].inner == pi.spans[q].inner
  {
    var eb := Entries(spans, SourceKeys, Block, 0);
    EntriesAt(spans, SourceKeys, Block, 0);
    forall q | 0 <= q < |pi.spans|
      ensures MapRestore(pi, eb).spans[q].inner == pi.spans[q].inner
    {
      forall e | 0 <= e < |eb| ensures eb[e].0 != "" && !Contains(pi.spans[q].inner, eb[e].0) {
        KeyShape(SourceKeys, Block, e);
        NoPrefixNoKey(pi.spans[q].inner, SourceKeys, Block, e);
      }
      RestoreAbsentAll(pi.spans[q].inner, eb);
      MapRestoreAt(pi, eb, q);
    }
  }

  // ---------------------------------------------------------------------------------------
  // The round trip
  // ---------------------------------------------------------------------------------------

  /** The inline pass: after the block record, the inline record puts its keys back around
      the same math and leaves `$`-fenced text once decoded. */
  lemma {:induction false} InlineStage(y: string, pb: Split)
    requires !Contains(y, Prefix(Inline)) && Avoids(pb, Prefix(Inline))
    requires var pi := InlineSplit(y, 0);
      && |pb.spans| + |pi.spans| <= 10
      && forall q | 0 <= q < |pi.spans| :: !Contains(pi.spans[q].inner, Prefix(Block))
    ensures var pi := InlineSplit(y, 0);
      var eb := Entries(pb.spans, SourceKeys, Block, 0);
      var ei := Entries(pi.spans, SourceKeys, Inline, |pb.spans|);
      Decode(RestoreVerbatim(RestoreVerbatim(Protected(pi, SourceKeys, Inline, |pb.spans|), eb), ei))
      == Decode(RestoreVerbatim(y, eb))
  {
    var pi := InlineSplit(y, 0);
    var b := |pb.spans|;
    var eb := Entries(pb.spans, SourceKeys, Block, 0);
    var ei := Entries(pi.spans, SourceKeys, Inline, b);
    var pi' := MapRestore(pi, eb);
    InlineSplitCovers(y, 0);
    assert y[0..] == y;
    AvoidsOfFenced(pi, "$", "$", Prefix(Inline));
    BlockRestoreKeepsInlineKeys(pi, b, pb.spans);
    forall q | 0 <= q < |pb.spans| ensures !Contains(pb.spans[q].inner, Prefix(Inline)) {
      AvoidsAt(pb, Prefix(Inline), q);
    }
    BlockRecordKeepsOut(pb.spans);
    MapRestoreAvoids(pi, eb, Prefix(Inline));
    InlineInnersKept(pi, pb.spans);
    EntriesAt(pi.spans, SourceKeys, Inline, b);
    RestoreFamilyInOrder(pi', Inline, b, ei);
    DecodeInlineFences(pi');
    FencesPlain();
    EntriesKeyLike(pb.spans, SourceKeys, Block, 0);
    RestoreFenced(pi, "$", eb);
  }

  /** The record's values lack a dollar sign and the inline values lack block placeholder
      text: what the source's restore needs to give the content back. */
  predicate PlainRecord(es: seq<(string, string)>) {
    forall q | 0 <= q < |es| :: '$' !in es[q].1 && !Contains(es[q].1, Prefix(Block))
  }

  /** The inline spans of a plain record hold no block placeholder text. */
  lemma {:induction false} InlineSpansPlain(pi: Split, b: nat, eb: seq<(string, string)>)
    requires |eb| == b && PlainRecord(eb + Entries(pi.spans, SourceKeys, Inline, b))
    ensures forall q | 0 <= q < |pi.spans| :: !Contains(pi.spans[q].inner, Prefix(Block))
  {
    var ei := Entries(pi.spans, SourceKeys, Inline, b);
    EntriesAt(pi.spans, SourceKeys, Inline, b);
    forall q | 0 <= q < |pi.spans| ensures !Contains(pi.spans[q].inner, Prefix(Block)) {
      assert (eb + ei)[b + q] == ei[q];
      ContainsInPartIf(Entity, pi.spans[q].inner, Entity, Prefix(Block));
    }
  }

  /** The source's protect and restore give back content with no placeholder text and no
      entity, at most ten spans, no dollar sign inside a span, and no block placeholder
      text inside an inline span. */
  lemma {:induction false} SourceRoundTrip(x: string)
    requires !Contains(x, Prefix(Block)) && !Contains(x, Prefix(Inline)) && !Contains(x, Entity)
    requires |ProtectedEntries(x, SourceKeys)| <= 10 && PlainRecord(ProtectedEntries(x, SourceKeys))
    ensures Decode(RestoreInOrder(ProtectedText(x, SourceKeys), ProtectedEntries(x, SourceKeys))) == x
  {
    var pb := BlockSplit(x, 0);
    var y := Protected(pb, SourceKeys, Block, 0);
    var pi := InlineSplit(y, 0);
    var z := Protected(pi, SourceKeys, Inline, |pb.spans|);
    var eb := Entries(pb.spans, SourceKeys, Block, 0);
    var ei := Entries(pi.spans, SourceKeys, Inline, |pb.spans|);
    // insertion order with dollar-free values is the verbatim restore, block record first
    assert RestoreInOrder(z, eb + ei) == RestoreVerbatim(z, eb + ei);
    RestoreAppend(z, eb, ei);
    // the pieces of the block split hold no placeholder prefix and no entity
    BlockSplitCovers(x, 0);
    assert x[0..] == x;
    AvoidsOfFenced(pb, "$$", "$$", Prefix(Block));
    AvoidsOfFenced(pb, "$$", "$$", Prefix(Inline));
    AvoidsOfFenced(pb, "$$", "$$", Entity);
    ProtectedAvoidsOther(pb, SourceKeys, 0);
    // the inline record, then the block record
    InlineSpansPlain(pi, |pb.spans|, eb);
    InlineStage(y, pb);
    EntriesAt(pb.spans, SourceKeys, Block, 0);
    RestoreFamilyInOrder(pb, Block, 0, eb);
    DecodeBlockFenced(pb);
  }

  /** `renderMarkdownWithMath` as written, with a markdown step that leaves its input alone
      and outside a browser, gives back such content once the entity is decoded. */
  lemma {:induction false} SourceRenderRoundTrip(x: string)
    requires !Contains(x, Prefix(Block)) && !Contains(x, Prefix(Inline)) && !Contains(x, Entity)
    requires |ProtectedEntries(x, SourceKeys)| <= 10 && PlainRecord(ProtectedEntries(x, SourceKeys))
    ensures Decode(RenderedHtml(x, s => s, s => s, false)) == x
  {
    SourceRoundTrip(x);
  }
}
