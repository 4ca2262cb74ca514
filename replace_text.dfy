/** `String.prototype.replaceAll` with a string pattern, in both of its forms: with a
    replacement string, whose `$` patterns are expanded (GetSubstitution in section 22.1.3.19.1
    of ECMA-262), and with a replacer function returning a fixed text, which inserts that text
    as it is. Occurrences are found left to right and do not overlap. */
module ReplaceText {
  import opened Common

  /** The text a replacement string stands for at the match of `p` at offset `q` of `s`:
      `$$` is a dollar sign, `$&` the matched text, `` $` `` the text before the match, `$'`
      the text after it; without capture groups every other `$` is kept as it is. */
  function Expand(rep: string, s: string, q: nat, p: string): (r: string)
    requires q + |p| <= |s|
    ensures '$' !in rep ==> r == rep
    decreases |rep|
  {
    if rep == "" then ""
    else if rep[0] == '$' && |rep| >= 2 && rep[1] == '$' then "$" + Expand(rep[2..], s, q, p)
    else if rep[0] == '$' && |rep| >= 2 && rep[1] == '&' then p + Expand(rep[2..], s, q, p)
    else if rep[0] == '$' && |rep| >= 2 && rep[1] == '`' then s[..q] + Expand(rep[2..], s, q, p)
    else if rep[0] == '$' && |rep| >= 2 && rep[1] == '\'' then s[q + |p|..] + Expand(rep[2..], s, q, p)
    else [rep[0]] + Expand(rep[1..], s, q, p)
  }

  /** `s.replaceAll(p, rep)` from offset `i` on. An empty pattern matches at every offset,
      the end included. */
  function ReplaceAllFrom(s: string, p: string, rep: string, i: nat): string
    requires i <= |s|
    decreases |s| - i
  {
    if p == "" then
      if i == |s| then Expand(rep, s, i, p)
      else Expand(rep, s, i, p) + [s[i]] + ReplaceAllFrom(s, p, rep, i + 1)
    else if i == |s| then ""
    else if StartsAt(s, p, i) then Expand(rep, s, i, p) + ReplaceAllFrom(s, p, rep, i + |p|)
    else [s[i]] + ReplaceAllFrom(s, p, rep, i + 1)
  }

  /** `s.replaceAll(p, rep)` with a replacement string; one without a dollar sign replaces
      every occurrence by itself, as the replacer form does. */
  function ReplaceAll(s: string, p: string, rep: string): (r: string)
    ensures '$' !in rep ==> r == ReplaceLiteral(s, p, rep)
  {
    if '$' in rep then ReplaceAllFrom(s, p, rep, 0)
    else
      ReplaceAllFromPlain(s, p, rep, 0);
      assert s[0..] == s;
      ReplaceAllFrom(s, p, rep, 0)
  }

  /** `s.replaceAll(p, () => v)`: every occurrence becomes `v`, verbatim. */
  function ReplaceLiteral(s: string, p: string, v: string): string
    decreases |s|
  {
    if p == "" then
      if s == "" then v else v + [s[0]] + ReplaceLiteral(s[1..], p, v)
    else if s == "" then ""
    else if StartsWith(s, p) then v + ReplaceLiteral(s[|p|..], p, v)
    else [s[0]] + ReplaceLiteral(s[1..], p, v)
  }

  /** One step of `ReplaceAllFromPlain` at offset `i`, given the rest from `j` on. */
  lemma {:induction false} PlainStep(s: string, p: string, rep: string, i: nat, j: nat)
    requires i < j <= |s| && '$' !in rep
    requires j == if p != "" && StartsAt(s, p, i) then i + |p| else i + 1
    requires ReplaceAllFrom(s, p, rep, j) == ReplaceLiteral(s[j..], p, rep)
    ensures ReplaceAllFrom(s, p, rep, i) == ReplaceLiteral(s[i..], p, rep)
  {
    var t := s[i..];
    assert t[0] == s[i] && t[1..] == s[i + 1..];
    if p == "" {
      assert ReplaceAllFrom(s, p, rep, i) == rep + [s[i]] + ReplaceAllFrom(s, p, rep, i + 1);
    } else if StartsAt(s, p, i) {
      assert StartsWith(t, p) && t[|p|..] == s[i + |p|..] by {
        assert t[..|p|] == s[i..i + |p|];
      }
    } else {
      assert !StartsWith(t, p) by {
        if |p| <= |t| {
          assert t[..|p|] == s[i..i + |p|];
        }
      }
    }
  }

  lemma {:induction false} ReplaceAllFromPlain(s: string, p: string, rep: string, i: nat)
    requires i <= |s| && '$' !in rep
    ensures ReplaceAllFrom(s, p, rep, i) == ReplaceLiteral(s[i..], p, rep)
    decreases |s| - i
  {
    if i < |s| {
      var j := if p != "" && StartsAt(s, p, i) then i + |p| else i + 1;
      ReplaceAllFromPlain(s, p, rep, j);
      PlainStep(s, p, rep, i, j);
    }
  }

  // ---------------------------------------------------------------------------------------
  // Literal replacement over concatenations
  // ---------------------------------------------------------------------------------------

  /** Text without an occurrence of a non-empty pattern is left as it is. */
  lemma {:induction false} ReplaceAbsent(s: string, p: string, v: string)
    requires p != "" && !Contains(s, p)
    ensures ReplaceLiteral(s, p, v) == s
    decreases |s|
  {
    if s != "" {
      assert !StartsAt(s, p, 0);
      assert !Contains(s[1..], p) by {
        forall q | 0 <= q <= |s[1..]| - |p| ensures !StartsAt(s[1..], p, q) {
          assert s[1..][q..q + |p|] == s[q + 1..q + 1 + |p|];
          assert !StartsAt(s, p, q + 1);
        }
      }
      ReplaceAbsent(s[1..], p, v);
      assert s == [s[0]] + s[1..];
    }
  }

  /** The pattern itself is replaced by the replacement. */
  lemma ReplaceWhole(p: string, v: string)
    requires p != ""
    ensures ReplaceLiteral(p, p, v) == v
  {
    assert p[|p|..] == "";
  }

  /** No occurrence of `k` in `a + b` starts inside `a` and ends inside `b`. */
  predicate NoStraddle(a: string, b: string, k: string) {
    forall s :: 0 <= s < |a| < s + |k| <= |a| + |b| ==> !StartsAt(a + b, k, s)
  }

  /** Dropping a prefix of the left part keeps the seam clear. */
  lemma NoStraddleDrop(a: string, b: string, k: string, n: nat)
    requires NoStraddle(a, b, k) && n <= |a|
    ensures NoStraddle(a[n..], b, k) && (a + b)[n..] == a[n..] + b
  {
    assert (a + b)[n..] == a[n..] + b;
    forall s | 0 <= s < |a[n..]| < s + |k| <= |a[n..]| + |b|
      ensures !StartsAt(a[n..] + b, k, s)
    {
      assert (a + b)[n..][s..s + |k|] == (a + b)[s + n..s + n + |k|];
      assert !StartsAt(a + b, k, s + n);
    }
  }

  /** With a clear seam, the pattern starts the concatenation exactly when it starts the
      left part. */
  lemma StartsWithLeft(a: string, b: string, k: string)
    requires k != "" && a != "" && NoStraddle(a, b, k)
    ensures StartsWith(a + b, k) <==> StartsWith(a, k)
  {
    if StartsWith(a + b, k) {
      assert StartsAt(a + b, k, 0);
      assert (a + b)[..|k|] == a[..|k|];
    }
    if StartsWith(a, k) {
      assert (a + b)[..|k|] == a[..|k|];
    }
  }

  /** Replacing over a concatenation replaces in each part, when no occurrence straddles
      the seam. */
  lemma {:induction false} ReplaceConcat(a: string, b: string, k: string, v: string)
    requires k != "" && NoStraddle(a, b, k)
    ensures ReplaceLiteral(a + b, k, v) == ReplaceLiteral(a, k, v) + ReplaceLiteral(b, k, v)
    decreases |a|
  {
    if a == "" {
      assert a + b == b;
    } else {
      StartsWithLeft(a, b, k);
      var n := if StartsWith(a, k) then |k| else 1;
      NoStraddleDrop(a, b, k, n);
      ReplaceConcat(a[n..], b, k, v);
      assert (a + b)[0] == a[0];
    }
  }

  /** No occurrence straddles a seam whose right side starts with a character that only the
      pattern's first position could match. */
  lemma SeamByRight(a: string, b: string, k: string)
    requires k != "" && (b == "" || b[0] !in k[1..])
    ensures NoStraddle(a, b, k)
  {
    forall s | 0 <= s < |a| < s + |k| <= |a| + |b|
      ensures !StartsAt(a + b, k, s)
    {
      assert (a + b)[s..s + |k|][|a| - s] == (a + b)[|a|] == b[0];
      assert k[1..][|a| - s - 1] == k[|a| - s];
    }
  }

  /** No occurrence straddles a seam whose left side ends with a character that only the
      pattern's last position could match. */
  lemma SeamByLeft(a: string, b: string, k: string)
    requires k != "" && (a == "" || a[|a| - 1] !in k[..|k| - 1])
    ensures NoStraddle(a, b, k)
  {
    forall s | 0 <= s < |a| < s + |k| <= |a| + |b|
      ensures !StartsAt(a + b, k, s)
    {
      assert (a + b)[s..s + |k|][|a| - 1 - s] == (a + b)[|a| - 1] == a[|a| - 1];
      assert k[..|k| - 1][|a| - 1 - s] == k[|a| - 1 - s];
    }
  }

  /** No occurrence straddles a seam whose left side is a token that starts with the
      pattern's first character, holds it nowhere else, and is not a proper prefix of the
      pattern. */
  lemma SeamAfterToken(a: string, b: string, k: string)
    requires a != "" && k != "" && a[0] == k[0] && k[0] !in a[1..]
    requires !(|a| < |k| && k[..|a|] == a)
    ensures NoStraddle(a, b, k)
  {
    forall s | 0 <= s < |a| < s + |k| <= |a| + |b|
      ensures !StartsAt(a + b, k, s)
    {
      if s == 0 {
        assert (a + b)[..|k|][..|a|] == a;
      } else {
        assert a[1..][s - 1] == a[s];
        assert (a + b)[s..s + |k|][0] == a[s];
      }
    }
  }

  /** No occurrence of `k` in `a + b` when there is none in either part and none straddles. */
  lemma AbsentConcat(a: string, b: string, k: string)
    requires k != "" && !Contains(a, k) && !Contains(b, k) && NoStraddle(a, b, k)
    ensures !Contains(a + b, k)
  {
    forall s | 0 <= s <= |a + b| - |k| ensures !StartsAt(a + b, k, s) {
      if s + |k| <= |a| {
        assert (a + b)[s..s + |k|] == a[s..s + |k|];
        assert !StartsAt(a, k, s);
      } else if s >= |a| {
        assert (a + b)[s..s + |k|] == b[s - |a|..s - |a| + |k|];
        assert !StartsAt(b, k, s - |a|);
      }
    }
  }
}
