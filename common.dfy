/** Value types and the JavaScript string primitives that the knowledge-card code relies on:
    `trim`, `startsWith`, `endsWith`, substring search and decimal formatting of counters. */
module Common {

  datatype Option<+T> = None | Some(value: T)

  /** The code points that JavaScript's `String.prototype.trim` removes: the WhiteSpace
      characters (tab, vertical tab, form feed, the byte order mark and every space
      separator) and the LineTerminator characters. */
  predicate IsWhitespace(c: char) {
    || c == '\t' || c == '\n' || c == '\U{B}' || c == '\U{C}' || c == '\r' || c == ' '
    || c == '\U{A0}' || c == '\U{1680}' || ('\U{2000}' <= c <= '\U{200A}')
    || c == '\U{2028}' || c == '\U{2029}' || c == '\U{202F}' || c == '\U{205F}'
    || c == '\U{3000}' || c == '\U{FEFF}'
  }

  predicate AllWhitespace(s: string) {
    forall k :: 0 <= k < |s| ==> IsWhitespace(s[k])
  }

  /** Number of leading whitespace characters. */
  function LeadingWhitespace(s: string): (n: nat)
    ensures n <= |s|
    ensures forall k :: 0 <= k < n ==> IsWhitespace(s[k])
    ensures n < |s| ==> !IsWhitespace(s[n])
  {
    if |s| > 0 && IsWhitespace(s[0]) then 1 + LeadingWhitespace(s[1..]) else 0
  }

  /** Length of `s` once trailing whitespace is removed. */
  function TrailingCut(s: string): (m: nat)
    ensures m <= |s|
    ensures forall k :: m <= k < |s| ==> IsWhitespace(s[k])
    ensures m > 0 ==> !IsWhitespace(s[m - 1])
  {
    if |s| > 0 && IsWhitespace(s[|s| - 1]) then TrailingCut(s[..|s| - 1]) else |s|
  }

  /** `s.trim()`: the longest slice of `s` that neither starts nor ends with whitespace,
      or "" when `s` is whitespace only. */
  function Trim(s: string): (r: string)
    ensures |r| <= |s|
    ensures r == "" <==> AllWhitespace(s)
    ensures r != "" ==> !IsWhitespace(r[0]) && !IsWhitespace(r[|r| - 1])
    ensures r != "" ==> LeadingWhitespace(s) + |r| <= |s|
                        && r == s[LeadingWhitespace(s)..LeadingWhitespace(s) + |r|]
                        && AllWhitespace(s[LeadingWhitespace(s) + |r|..])
  {
    var a := LeadingWhitespace(s);
    if a == |s| then "" else s[a..TrailingCut(s)]
  }

  /** Trimming a trimmed string changes nothing. */
  lemma TrimIdempotent(s: string)
    ensures Trim(Trim(s)) == Trim(s)
  {
    var t := Trim(s);
    if t != "" {
      assert LeadingWhitespace(t) == 0;
      assert TrailingCut(t) == |t|;
    }
  }

  /** The non-whitespace characters of `s`, in order. */
  function Visible(s: string): (r: string)
    ensures |r| <= |s|
  {
    if s == "" then "" else (if IsWhitespace(s[0]) then "" else [s[0]]) + Visible(s[1..])
  }

  lemma {:induction false} VisibleAppend(a: string, b: string)
    ensures Visible(a + b) == Visible(a) + Visible(b)
  {
    if a == "" {
      assert a + b == b;
    } else {
      assert (a + b)[0] == a[0];
      assert (a + b)[1..] == a[1..] + b;
      VisibleAppend(a[1..], b);
    }
  }

  lemma {:induction false} VisibleOfWhitespace(s: string)
    requires AllWhitespace(s)
    ensures Visible(s) == ""
  {
    if s != "" { VisibleOfWhitespace(s[1..]); }
  }

  /** Trimming never loses a visible character. */
  lemma VisibleTrim(s: string)
    ensures Visible(Trim(s)) == Visible(s)
  {
    var t := Trim(s);
    if t == "" {
      VisibleOfWhitespace(s);
    } else {
      var a := LeadingWhitespace(s);
      var e := a + |t|;
      assert s == s[..a] + t + s[e..];
      VisibleAppend(s[..a] + t, s[e..]);
      VisibleAppend(s[..a], t);
      VisibleOfWhitespace(s[..a]);
      VisibleOfWhitespace(s[e..]);
    }
  }

  /** `s.startsWith(p)`. */
  predicate StartsWith(s: string, p: string) {
    |p| <= |s| && s[..|p|] == p
  }

  /** `s.endsWith(p)`. */
  predicate EndsWith(s: string, p: string) {
    |p| <= |s| && s[|s| - |p|..] == p
  }

  /** `p` occurs in `s` at offset `i`. */
  predicate StartsAt(s: string, p: string, i: int) {
    0 <= i && i + |p| <= |s| && s[i..i + |p|] == p
  }

  /** `s.includes(p)`, also the meaning of an unanchored literal regular expression. */
  predicate Contains(s: string, p: string) {
    exists i | 0 <= i <= |s| - |p| :: StartsAt(s, p, i)
  }

  /** A pattern cannot occur in text that lacks one of its characters. */
  lemma AbsentForeign(s: string, k: string, i: nat)
    requires i < |k| && k[i] !in s
    ensures !Contains(s, k)
  {
    forall q | 0 <= q <= |s| - |k| ensures !StartsAt(s, k, q) {
      assert s[q..q + |k|][i] == s[q + i];
    }
  }

  /** An occurrence inside a part is an occurrence inside the whole. */
  lemma ContainsInPart(a: string, m: string, b: string, p: string)
    requires Contains(m, p)
    ensures Contains(a + m + b, p)
  {
    var i :| 0 <= i <= |m| - |p| && StartsAt(m, p, i);
    assert (a + m + b)[|a| + i..|a| + i + |p|] == m[i..i + |p|];
    assert StartsAt(a + m + b, p, |a| + i);
  }

  /** An occurrence of a longer pattern holds an occurrence of each of its slices. */
  lemma ContainsSlice(s: string, p: string, lo: nat, hi: nat)
    requires lo <= hi <= |p| && Contains(s, p)
    ensures Contains(s, p[lo..hi])
  {
    var i :| 0 <= i <= |s| - |p| && StartsAt(s, p, i);
    assert s[i..i + |p|] == p;
    forall k | 0 <= k < hi - lo ensures s[i + lo..i + hi][k] == p[lo..hi][k] {
      assert s[i + lo + k] == s[i..i + |p|][lo + k];
    }
    assert s[i + lo..i + hi] == p[lo..hi];
    assert StartsAt(s, p[lo..hi], i + lo);
  }

  function DigitChar(d: nat): (c: char)
    requires d < 10
    ensures '0' <= c <= '9'
  {
    "0123456789"[d]
  }

  predicate IsDigit(c: char) {
    '0' <= c <= '9'
  }

  /** The decimal numeral JavaScript writes for a non-negative integer in a template
      literal (no sign, no leading zero). */
  function Decimal(n: nat): (r: string)
    ensures 1 <= |r|
    ensures n < 10 <==> |r| == 1
  {
    if n < 10 then [DigitChar(n)] else Decimal(n / 10) + [DigitChar(n % 10)]
  }

  /** A numeral is made of digits only. */
  lemma {:induction false} DecimalDigits(n: nat)
    ensures forall k :: 0 <= k < |Decimal(n)| ==> IsDigit(Decimal(n)[k])
  {
    if n >= 10 {
      DecimalDigits(n / 10);
      assert Decimal(n) == Decimal(n / 10) + [DigitChar(n % 10)];
    }
  }

  /** Distinct counters give distinct numerals. */
  lemma {:induction false} DecimalInjective(n: nat, m: nat)
    requires Decimal(n) == Decimal(m)
    ensures n == m
  {
    if n >= 10 && m >= 10 {
      var dn, dm := Decimal(n), Decimal(m);
      assert dn[..|dn| - 1] == Decimal(n / 10);
      assert dm[..|dm| - 1] == Decimal(m / 10);
      DecimalInjective(n / 10, m / 10);
      assert "0123456789"[n % 10] == "0123456789"[m % 10];
    } else if n < 10 && m < 10 {
      assert "0123456789"[n] == "0123456789"[m];
    }
  }

  /** `strings.join('')`. */
  function Concat(ls: seq<string>): string {
    if ls == [] then "" else ls[0] + Concat(ls[1..])
  }

  lemma {:induction false} ConcatAppend(a: seq<string>, b: seq<string>)
    ensures Concat(a + b) == Concat(a) + Concat(b)
  {
    if a == [] {
      assert a + b == b;
    } else {
      assert (a + b)[0] == a[0];
      assert (a + b)[1..] == a[1..] + b;
      ConcatAppend(a[1..], b);
    }
  }

  lemma ConcatSnoc(ls: seq<string>, line: string)
    ensures Concat(ls + [line]) == Concat(ls) + line
  {
    ConcatAppend(ls, [line]);
    assert Concat([line]) == line + Concat([]);
  }

  // ---------------------------------------------------------------------------------------
  // Regrouping and splitting sequences, stated on plain variables so that callers need not
  // prove these facts in a large context
  // ---------------------------------------------------------------------------------------

  lemma Associates<T>(a: seq<T>, b: seq<T>, c: seq<T>)
    ensures a + (b + c) == (a + b) + c
  {
  }

  lemma ConsSplit<T>(a: seq<T>, b: seq<T>)
    requires a != []
    ensures (a + b)[0] == a[0] && (a + b)[1..] == a[1..] + b && [a[0]] + (a[1..] + b) == a + b
  {
  }

  lemma AbsentFromBoth<T>(x: T, a: seq<T>, b: seq<T>)
    requires x !in a && x !in b
    ensures x !in a + b
  {
  }

  lemma Flatten<T>(a: seq<T>, b: seq<T>, c: seq<T>, d: seq<T>, e: seq<T>)
    ensures a + (b + c + d) + e == a + b + c + d + e
  {
  }

  lemma Regroup<T>(a: seq<T>, b: seq<T>, c: seq<T>, d: seq<T>, e: seq<T>)
    ensures a + b + c + d + e == a + b + (c + d + e)
  {
  }
}
