/** Model of src/knowledgeCards/parseMarkdownToCards.ts: the markdown text is cut into lines
    that keep their endings, and a scan over the lines turns every non-blank run of body
    lines, before the first heading or under one, into one card. */
module CardParser {
  import opened Common
  import opened KnowledgeTypes

  /** Title of content that precedes every heading. */
  const Untitled: string := "无标题"

  // ---------------------------------------------------------------------------------------
  // splitLinesKeepEndings: `input.match(/.*(?:\r\n|\n|$)/g)` without its final empty match
  // ---------------------------------------------------------------------------------------

  /** The characters the regular-expression dot does not match. */
  predicate IsLineTerminator(c: char) {
    c == '\n' || c == '\r' || c == '\U{2028}' || c == '\U{2029}'
  }

  /** Where the greedy `.*` that starts at `q` stops. */
  function RunEnd(s: string, q: nat): (e: nat)
    requires q <= |s|
    ensures q <= e <= |s|
    ensures forall k :: q <= k < e ==> !IsLineTerminator(s[k])
    ensures e < |s| ==> IsLineTerminator(s[e])
    decreases |s| - q
  {
    if q == |s| || IsLineTerminator(s[q]) then q else RunEnd(s, q + 1)
  }

  /** The end of the match of the line pattern that starts at `q`, if one does: after the
      run, `\r\n`, `\n` or the end of input must follow. Backtracking the run cannot help,
      since every shorter run is followed by an ordinary character. */
  function MatchEnd(s: string, q: nat): Option<nat>
    requires q <= |s|
  {
    var e := RunEnd(s, q);
    if e == |s| then Some(e)
    else if s[e] == '\r' && e + 1 < |s| && s[e + 1] == '\n' then Some(e + 2)
    else if s[e] == '\n' then Some(e + 1)
    else None
  }

  /** One step of the global search: the leftmost position at or after `p` where a match
      starts, with the end of that match. A match always exists at the end of input. */
  function NextMatch(s: string, p: nat): (m: (nat, nat))
    requires p <= |s|
    ensures p <= m.0 <= m.1 <= |s| && MatchEnd(s, m.0) == Some(m.1)
    ensures m.0 == m.1 ==> m.0 == |s|
    decreases |s| - p
  {
    match MatchEnd(s, p)
    case Some(e) => (p, e)
    case None => assert p < |s|; NextMatch(s, p + 1)
  }

  /** All matches of the global search from `p` on; after an empty match the search moves
      on by one position, which ends it. */
  function GlobalMatches(s: string, p: nat): seq<string>
    requires p <= |s| + 1
    decreases |s| + 1 - p
  {
    if p > |s| then []
    else
      var m := NextMatch(s, p);
      [s[m.0..m.1]] + GlobalMatches(s, if m.0 == m.1 then m.1 + 1 else m.1)
  }

  /** A match that stops before the end of input ends with its line feed. */
  lemma MatchEndsWithLf(s: string, q: nat, e: nat)
    requires q < e < |s| && MatchEnd(s, q) == Some(e)
    ensures EndsWith(s[q..e], "\n")
  {
    assert s[q..e][e - q - 1] == s[e - 1];
  }

  /** The search always ends with exactly one empty match (the one at the end of input); every
      match before it is non-empty and all but the last of those end with a line feed. */
  lemma {:induction false} GlobalMatchesShape(s: string, p: nat)
    requires p <= |s|
    ensures var ms := GlobalMatches(s, p);
      && |ms| >= 1 && ms[|ms| - 1] == ""
      && (forall k :: 0 <= k < |ms| - 1 ==> ms[k] != "")
      && (forall k :: 0 <= k < |ms| - 2 ==> EndsWith(ms[k], "\n"))
    decreases |s| - p
  {
    var m := NextMatch(s, p);
    GlobalMatchesStep(s, p);
    if m.0 == m.1 {
      assert GlobalMatches(s, m.1 + 1) == [];
    } else {
      GlobalMatchesShape(s, m.1);
      var rest := GlobalMatches(s, m.1);
      if m.1 < |s| {
        MatchEndsWithLf(s, m.0, m.1);
      } else {
        GlobalMatchesStep(s, m.1);
        assert NextMatch(s, m.1) == (|s|, |s|);
        assert GlobalMatches(s, |s| + 1) == [];
      }
      ConsMatch(s[m.0..m.1], rest);
    }
  }

  /** A non-empty match put before the rest of the search keeps its shape, provided it ends
      with a line feed whenever more than the final empty match follows. */
  lemma ConsMatch(x: string, rest: seq<string>)
    requires x != "" && |rest| >= 1 && rest[|rest| - 1] == ""
    requires forall k :: 0 <= k < |rest| - 1 ==> rest[k] != ""
    requires forall k :: 0 <= k < |rest| - 2 ==> EndsWith(rest[k], "\n")
    requires |rest| >= 2 ==> EndsWith(x, "\n")
    ensures var ms := [x] + rest;
      && ms[|ms| - 1] == ""
      && (forall k :: 0 <= k < |ms| - 1 ==> ms[k] != "")
      && (forall k :: 0 <= k < |ms| - 2 ==> EndsWith(ms[k], "\n"))
  {
    var ms := [x] + rest;
    assert forall k :: 1 <= k < |ms| ==> ms[k] == rest[k - 1];
  }

  /** `splitLinesKeepEndings`: the lines of `input`, each with its own line ending. */
  function SplitLinesKeepEndings(input: string): (lines: seq<string>)
    ensures input == "" ==> lines == []
    ensures forall k :: 0 <= k < |lines| ==> lines[k] != ""
    ensures forall k :: 0 <= k < |lines| - 1 ==> EndsWith(lines[k], "\n")
  {
    if input == "" then []
    else
      GlobalMatchesShape(input, 0);
      var matches := GlobalMatches(input, 0);
      if |matches| > 0 && matches[|matches| - 1] == "" then matches[..|matches| - 1] else matches
  }

  /** Text whose only line breaks are `\n` and `\r\n`. */
  predicate LfOrCrlfText(s: string) {
    forall k {:trigger s[k]} :: 0 <= k < |s| ==>
      && s[k] != '\U{2028}' && s[k] != '\U{2029}'
      && (s[k] == '\r' ==> k + 1 < |s| && s[k + 1] == '\n')
  }

  /** In LF and CRLF text a match starts wherever the search stands. */
  lemma {:induction false} MatchAtStart(s: string, p: nat)
    requires LfOrCrlfText(s) && p <= |s|
    ensures MatchEnd(s, p).Some?
  {
    var e := RunEnd(s, p);
    if e < |s| {
      assert IsLineTerminator(s[e]);
      assert s[e] != '\U{2028}' && s[e] != '\U{2029}';
      if s[e] == '\r' {
        assert e + 1 < |s| && s[e + 1] == '\n';
      }
    }
  }

  lemma GlobalMatchesStep(s: string, p: nat)
    requires p <= |s|
    ensures var m := NextMatch(s, p);
      GlobalMatches(s, p) == [s[m.0..m.1]] + GlobalMatches(s, if m.0 == m.1 then m.1 + 1 else m.1)
  {
  }

  lemma {:induction false} ConcatGlobalMatches(s: string, p: nat)
    requires LfOrCrlfText(s) && p <= |s|
    ensures Concat(GlobalMatches(s, p)) == s[p..]
    decreases |s| - p
  {
    MatchAtStart(s, p);
    var m := NextMatch(s, p);
    assert m.0 == p;
    GlobalMatchesStep(s, p);
    if m.0 == m.1 {
      assert GlobalMatches(s, m.1 + 1) == [];
      ConcatAppend([s[m.0..m.1]], []);
    } else {
      ConcatGlobalMatches(s, m.1);
      ConcatCons(s[p..m.1], GlobalMatches(s, m.1));
      SuffixSplit(s, p, m.1);
    }
  }

  lemma ConcatCons(x: string, rest: seq<string>)
    ensures Concat([x] + rest) == x + Concat(rest)
  {
    assert ([x] + rest)[1..] == rest;
  }

  lemma SuffixSplit<T>(s: seq<T>, p: nat, q: nat)
    requires p <= q <= |s|
    ensures s[p..] == s[p..q] + s[q..]
  {
  }

  /** For LF and CRLF text the lines put back together give the input again. */
  lemma SplitLinesRoundTrip(input: string)
    requires LfOrCrlfText(input)
    ensures Concat(SplitLinesKeepEndings(input)) == input
  {
    if input != "" {
      var ms := GlobalMatches(input, 0);
      GlobalMatchesShape(input, 0);
      ConcatGlobalMatches(input, 0);
      assert ms == ms[..|ms| - 1] + [""];
      ConcatAppend(ms[..|ms| - 1], [""]);
    }
  }

  /** A lone carriage return is neither matched by the dot nor a line ending, so the search
      skips past it together with the text before it on the same line. */
  lemma LoneCarriageReturnDropsText()
    ensures SplitLinesKeepEndings("ab\rcd") == ["cd"]
  {
    var s := "ab\rcd";
    assert RunEnd(s, 5) == 5 && MatchEnd(s, 5) == Some(5);
    assert NextMatch(s, 5) == (5, 5);
    assert RunEnd(s, 3) == 5 && MatchEnd(s, 3) == Some(5);
    assert RunEnd(s, 2) == 2 && RunEnd(s, 1) == 2 && RunEnd(s, 0) == 2;
    assert MatchEnd(s, 2) == None && MatchEnd(s, 1) == None && MatchEnd(s, 0) == None;
    assert NextMatch(s, 0) == (3, 5);
    assert GlobalMatches(s, 6) == [];
    var g5 := GlobalMatches(s, 5);
    assert g5 == [s[5..5]] + GlobalMatches(s, 6);
    assert s[5..5] == "";
    assert g5 == [""];
    var g0 := GlobalMatches(s, 0);
    assert g0 == [s[3..5]] + g5;
    assert s[3..5] == "cd";
    assert g0 == ["cd", ""];
  }

  // ---------------------------------------------------------------------------------------
  // Heading detection
  // ---------------------------------------------------------------------------------------

  datatype LineKind = Heading1(text: string) | Heading2(text: string) | Heading3(text: string) | Body

  /** What a line is, judged on its trimmed form; a heading's text is the trimmed rest, so
      trimming it again changes nothing. */
  function Classify(line: string): (k: LineKind)
    ensures !k.Body? ==> Trim(k.text) == k.text
  {
    var stripped := Trim(line);
    if StartsWith(stripped, "# ") then (TrimIdempotent(stripped[2..]); Heading1(Trim(stripped[2..])))
    else if StartsWith(stripped, "## ") then (TrimIdempotent(stripped[3..]); Heading2(Trim(stripped[3..])))
    else if StartsWith(stripped, "### ") then (TrimIdempotent(stripped[4..]); Heading3(Trim(stripped[4..])))
    else Body
  }

  /** After a whitespace character, a string that does not end in whitespace has a visible rest. */
  lemma RestNotBlank(t: string, n: nat)
    requires 1 <= n <= |t| && IsWhitespace(t[n - 1]) && !IsWhitespace(t[|t| - 1])
    ensures Trim(t[n..]) != ""
  {
    assert t[n..][|t| - 1 - n] == t[|t| - 1];
  }

  /** The three heading markers exclude each other, and four hashes are none of them. */
  lemma MarkersExclusive(t: string)
    ensures StartsWith(t, "## ") ==> !StartsWith(t, "# ")
    ensures StartsWith(t, "### ") ==> !StartsWith(t, "# ") && !StartsWith(t, "## ")
    ensures StartsWith(t, "####") ==> !StartsWith(t, "# ") && !StartsWith(t, "## ") && !StartsWith(t, "### ")
  {
    if StartsWith(t, "## ") || StartsWith(t, "### ") || StartsWith(t, "####") {
      assert t[1] == '#';
    }
    if StartsWith(t, "### ") || StartsWith(t, "####") {
      assert t[2] == '#';
    }
    if StartsWith(t, "####") {
      assert t[3] == '#';
    }
  }

  /** Headings are `#`, `##` or `###` and a space at the start of the trimmed line; their
      text is never empty; a line of four or more `#` is content. */
  lemma HeadingDetection(line: string)
    ensures Classify(line).Heading1? <==> StartsWith(Trim(line), "# ")
    ensures Classify(line).Heading2? <==> StartsWith(Trim(line), "## ")
    ensures Classify(line).Heading3? <==> StartsWith(Trim(line), "### ")
    ensures !Classify(line).Body? ==> Classify(line).text != ""
    ensures StartsWith(Trim(line), "####") ==> Classify(line).Body?
  {
    var t := Trim(line);
    MarkersExclusive(t);
    if StartsWith(t, "# ") {
      assert t[1] == ' ';
      RestNotBlank(t, 2);
    } else if StartsWith(t, "## ") {
      assert t[2] == ' ';
      RestNotBlank(t, 3);
    } else if StartsWith(t, "### ") {
      assert t[3] == ' ';
      RestNotBlank(t, 4);
    }
  }

  // ---------------------------------------------------------------------------------------
  // The scan, as a fold over the lines
  // ---------------------------------------------------------------------------------------

  /** currentH1, currentH2, currentH3 and currentTitle. */
  datatype Context = Context(h1: string, h2: Option<string>, h3: Option<string>, title: Option<string>)

  const Start: Context := Context(Uncategorized, None, None, None)

  /** The context after a heading line. */
  function Enter(ctx: Context, kind: LineKind): Context
    requires !kind.Body?
  {
    match kind
    case Heading1(t) => Context(t, None, None, Some(t))
    case Heading2(t) => ctx.(h2 := Some(t), h3 := None, title := Some(t))
    case Heading3(t) => ctx.(h3 := Some(t), title := Some(t))
  }

  /** The cards so far, the context and the buffered content lines. */
  datatype ScanState = ScanState(cards: seq<KnowledgeCard>, ctx: Context, buffer: seq<string>)

  const Initial: ScanState := ScanState([], Start, [])

  /** `flushCard`: one more card when the joined, trimmed buffer is not empty; the buffer is
      emptied either way. */
  function Flush(st: ScanState): (r: ScanState)
    ensures r.ctx == st.ctx && r.buffer == []
    ensures |r.cards| == |st.cards| + (if AllWhitespace(Concat(st.buffer)) then 0 else 1)
    ensures r.cards[..|st.cards|] == st.cards
  {
    var contentStr := Trim(Concat(st.buffer));
    var card := KnowledgeCard(|st.cards|, st.ctx.h1, st.ctx.h2, st.ctx.h3,
                              if st.ctx.title.Some? then st.ctx.title.value else Untitled, contentStr);
    ScanState(if contentStr != "" then st.cards + [card] else st.cards, st.ctx, [])
  }

  /** One line: a body line is buffered and adds no card; a heading flushes the buffer
      and adds at most one card. */
  function Step(st: ScanState, line: string): (r: ScanState)
    ensures |st.cards| <= |r.cards| <= |st.cards| + 1 && r.cards[..|st.cards|] == st.cards
    ensures Classify(line).Body? ==> r.cards == st.cards && r.ctx == st.ctx
    ensures !Classify(line).Body? ==> r.buffer == []
  {
    var kind := Classify(line);
    if kind.Body? then st.(buffer := st.buffer + [line])
    else Flush(st).(ctx := Enter(st.ctx, kind))
  }

  /** The loop over the lines: cards are only ever appended, at most one per line. */
  function Scan(st: ScanState, lines: seq<string>): (r: ScanState)
    ensures |st.cards| <= |r.cards| <= |st.cards| + |lines| && r.cards[..|st.cards|] == st.cards
    decreases |lines|
  {
    if lines == [] then st
    else
      var next := Step(st, lines[0]);
      var r := Scan(next, lines[1..]);
      assert r.cards[..|st.cards|] == r.cards[..|next.cards|][..|st.cards|];
      r
  }

  function ParseLines(lines: seq<string>): seq<KnowledgeCard> {
    Flush(Scan(Initial, lines)).cards
  }

  /** The cards `parseMarkdownToCards` returns for `markdown`. */
  function ParsedCards(markdown: string): seq<KnowledgeCard> {
    ParseLines(SplitLinesKeepEndings(markdown))
  }

  lemma {:induction false} ScanAppend(st: ScanState, a: seq<string>, b: seq<string>)
    ensures Scan(st, a + b) == Scan(Scan(st, a), b)
    decreases |a|
  {
    if a == [] {
      assert a + b == b;
    } else {
      assert (a + b)[0] == a[0];
      assert (a + b)[1..] == a[1..] + b;
      ScanAppend(Step(st, a[0]), a[1..], b);
    }
  }

  predicate AllBody(lines: seq<string>) {
    forall k :: 0 <= k < |lines| ==> Classify(lines[k]).Body?
  }

  lemma StepBody(st: ScanState, line: string) returns (next: ScanState)
    requires Classify(line).Body?
    ensures next == Step(st, line) == st.(buffer := st.buffer + [line])
  {
    next := st.(buffer := st.buffer + [line]);
  }

  lemma AppendFirst<T>(a: seq<T>, b: seq<T>)
    requires b != []
    ensures (a + [b[0]]) + b[1..] == a + b
  {
    assert b == [b[0]] + b[1..];
  }

  /** Content lines only go to the buffer, verbatim and in order. */
  lemma {:induction false} ScanBody(st: ScanState, lines: seq<string>)
    requires AllBody(lines)
    ensures Scan(st, lines) == st.(buffer := st.buffer + lines)
    decreases |lines|
  {
    if lines == [] {
      assert st.buffer + lines == st.buffer;
    } else {
      var next := StepBody(st, lines[0]);
      assert AllBody(lines[1..]) by {
        forall k | 0 <= k < |lines[1..]| ensures Classify(lines[1..][k]).Body? {
          assert lines[1..][k] == lines[k + 1];
        }
      }
      ScanBody(next, lines[1..]);
      assert Scan(st, lines) == Scan(next, lines[1..]);
      AppendFirst(st.buffer, lines);
    }
  }

  // ---------------------------------------------------------------------------------------
  // Properties of the cards
  // ---------------------------------------------------------------------------------------

  /** The most specific heading that is set. */
  function Innermost(h1: string, h2: Option<string>, h3: Option<string>): string {
    if h3.Some? then h3.value else if h2.Some? then h2.value else h1
  }

  /** What the reset rules keep true of the context: heading texts are not empty, the
      title is the innermost heading once any heading was seen, and before that the context
      is the initial one. */
  predicate Coherent(ctx: Context) {
    && ctx.h1 != ""
    && (ctx.h2.Some? ==> ctx.h2.value != "")
    && (ctx.h3.Some? ==> ctx.h3.value != "")
    && (ctx.title.None? ==> ctx == Start)
    && (ctx.title.Some? ==> ctx.title.value == Innermost(ctx.h1, ctx.h2, ctx.h3))
  }

  /** What every emitted card satisfies. */
  predicate WellFormedCard(c: KnowledgeCard) {
    && c.content != "" && Trim(c.content) == c.content
    && c.h1 != ""
    && (c.h2.Some? ==> c.h2.value != "")
    && (c.h3.Some? ==> c.h3.value != "")
    && (|| c.title == Innermost(c.h1, c.h2, c.h3)
        || (c.title == Untitled && c.h1 == Uncategorized && c.h2.None? && c.h3.None?))
  }

  /** Ids are the positions `0..n-1` and every card is well formed. */
  predicate WellNumbered(cards: seq<KnowledgeCard>) {
    forall i :: 0 <= i < |cards| ==> cards[i].id == i && WellFormedCard(cards[i])
  }

  lemma FlushKeepsCards(st: ScanState)
    requires WellNumbered(st.cards) && Coherent(st.ctx)
    ensures WellNumbered(Flush(st).cards) && Flush(st).ctx == st.ctx
  {
    TrimIdempotent(Concat(st.buffer));
  }

  lemma EnterKeepsCoherence(ctx: Context, kind: LineKind, line: string)
    requires Coherent(ctx) && kind == Classify(line) && !kind.Body?
    ensures Coherent(Enter(ctx, kind))
  {
    HeadingDetection(line);
  }

  lemma {:induction false} ScanKeepsCards(st: ScanState, lines: seq<string>)
    requires WellNumbered(st.cards) && Coherent(st.ctx)
    ensures WellNumbered(Scan(st, lines).cards) && Coherent(Scan(st, lines).ctx)
    decreases |lines|
  {
    if lines != [] {
      var kind := Classify(lines[0]);
      if !kind.Body? {
        FlushKeepsCards(st);
        EnterKeepsCoherence(st.ctx, kind, lines[0]);
      }
      ScanKeepsCards(Step(st, lines[0]), lines[1..]);
    }
  }

  /** Card ids are contiguous from 0; every card's content is trimmed and not empty; its
      heading texts are not empty; its title is its innermost heading, or the untitled label
      for content before any heading. */
  lemma ParseLinesWellNumbered(lines: seq<string>)
    ensures WellNumbered(ParseLines(lines))
  {
    ScanKeepsCards(Initial, lines);
    FlushKeepsCards(Scan(Initial, lines));
  }

  /** All card contents, in order. */
  function Contents(cards: seq<KnowledgeCard>): string {
    if cards == [] then "" else Contents(cards[..|cards| - 1]) + cards[|cards| - 1].content
  }

  /** The content lines (non-heading lines), in order. */
  function BodyLines(lines: seq<string>): seq<string> {
    if lines == [] then []
    else (if Classify(lines[0]).Body? then [lines[0]] else []) + BodyLines(lines[1..])
  }

  lemma ConcatBodyLines(lines: seq<string>)
    requires lines != []
    ensures Concat(BodyLines(lines))
            == (if Classify(lines[0]).Body? then lines[0] else "") + Concat(BodyLines(lines[1..]))
  {
    var rest := BodyLines(lines[1..]);
    if Classify(lines[0]).Body? {
      ConcatAppend([lines[0]], rest);
      assert Concat([lines[0]]) == lines[0] + Concat([]);
    } else {
      assert [] + rest == rest;
    }
  }

  lemma FlushVisible(st: ScanState)
    ensures Visible(Contents(Flush(st).cards)) == Visible(Contents(st.cards)) + Visible(Concat(st.buffer))
  {
    var f := Flush(st);
    var s := Concat(st.buffer);
    VisibleTrim(s);
    if Trim(s) != "" {
      assert f.cards[..|f.cards| - 1] == st.cards;
      VisibleAppend(Contents(st.cards), Trim(s));
    } else {
      assert Visible(s) == "";
    }
  }

  /** The visible characters a scan state holds: its cards' contents, then its buffer. */
  function Shown(st: ScanState): string {
    Visible(Contents(st.cards)) + Visible(Concat(st.buffer))
  }

  lemma StepVisible(st: ScanState, line: string)
    ensures Shown(Step(st, line)) == Shown(st) + Visible(if Classify(line).Body? then line else "")
  {
    if Classify(line).Body? {
      var next := StepBody(st, line);
      ConcatSnoc(st.buffer, line);
      VisibleAppend(Concat(st.buffer), line);
    } else {
      FlushVisible(st);
    }
  }

  lemma {:induction false} ScanVisible(st: ScanState, lines: seq<string>)
    ensures Shown(Scan(st, lines)) == Shown(st) + Visible(Concat(BodyLines(lines)))
    decreases |lines|
  {
    if lines != [] {
      var line := lines[0];
      var body := if Classify(line).Body? then line else "";
      var next := Step(st, line);
      assert Scan(st, lines) == Scan(next, lines[1..]);
      ScanVisible(next, lines[1..]);
      StepVisible(st, line);
      ConcatBodyLines(lines);
      VisibleAppend(body, Concat(BodyLines(lines[1..])));
      var b, c := Visible(body), Visible(Concat(BodyLines(lines[1..])));
      Associates(Shown(st), b, c);
    }
  }

  /** No visible character is lost or invented: the cards' contents, put together, carry
      exactly the non-whitespace characters of the non-heading lines, in order. Heading
      lines contribute nothing. */
  lemma ParseLinesKeepsBodyText(lines: seq<string>)
    ensures Visible(Contents(ParseLines(lines))) == Visible(Concat(BodyLines(lines)))
  {
    var r := Scan(Initial, lines);
    ScanVisible(Initial, lines);
    ShownInitial();
    EmptyLeft(Shown(Initial), Visible(Concat(BodyLines(lines))));
    FlushVisible(r);
  }

  lemma ShownInitial()
    ensures Shown(Initial) == ""
  {
    assert Concat([]) == "";
  }

  lemma SliceCons<T>(s: seq<T>, n: nat)
    requires n < |s|
    ensures s[n..] == [s[n]] + s[n + 1..]
  {
  }

  lemma EmptyLeft<T>(a: seq<T>, b: seq<T>)
    requires a == []
    ensures a + b == b
  {
  }

  /** Without any heading line, the whole text is at most one card, in the uncategorized,
      untitled context. */
  lemma HeadinglessText(lines: seq<string>)
    requires AllBody(lines)
    ensures var content := Trim(Concat(lines));
      ParseLines(lines) == if content == "" then [] else [KnowledgeCard(0, Uncategorized, None, None, Untitled, content)]
  {
    ScanBody(Initial, lines);
    EmptyLeft(Initial.buffer, lines);
  }

  /** A heading immediately followed by another heading makes no card of its own: the
      second heading flushes an empty buffer. */
  lemma AdjacentHeadings(pre: seq<string>, first: string, second: string)
    requires !Classify(first).Body? && !Classify(second).Body?
    ensures Scan(Initial, pre + [first, second]).cards == Scan(Initial, pre + [first]).cards
  {
    var st := Scan(Initial, pre + [first]);
    ScanSnoc(Initial, pre, first);
    SnocTwice(pre, first, second);
    ScanSnoc(Initial, pre + [first], second);
    HeadingOnEmptyBuffer(st, second);
  }

  lemma SnocTwice<T>(a: seq<T>, x: T, y: T)
    ensures a + [x, y] == a + [x] + [y]
  {
  }

  /** Scanning one more line is one more step. */
  lemma ScanSnoc(st: ScanState, a: seq<string>, line: string)
    ensures Scan(st, a + [line]) == Step(Scan(st, a), line)
  {
    ScanAppend(st, a, [line]);
  }

  /** A heading met with an empty buffer adds no card. */
  lemma HeadingOnEmptyBuffer(st: ScanState, line: string)
    requires st.buffer == [] && !Classify(line).Body?
    ensures Step(st, line).cards == st.cards
  {
    assert Concat(st.buffer) == "";
  }

  /** The heading rules, read off the card that a heading's content becomes: `# t` sets h1
      and clears h2 and h3; `## t` sets h2, clears h3 and keeps h1; `### t` sets h3 and keeps
      h1 and h2; the title is `t` in all three cases. */
  lemma HeadingStartsCard(pre: seq<string>, heading: string, body: seq<string>)
    requires !Classify(heading).Body? && AllBody(body) && Trim(Concat(body)) != ""
    ensures var cards := ParseLines(pre + [heading] + body);
      var before := Scan(Initial, pre).ctx;
      var t := Classify(heading).text;
      && |cards| > 0
      && cards[|cards| - 1].title == t
      && cards[|cards| - 1].content == Trim(Concat(body))
      && cards[|cards| - 1].id == |cards| - 1
      && match Classify(heading)
         case Heading1(_) => cards[|cards| - 1].h1 == t && cards[|cards| - 1].h2 == None && cards[|cards| - 1].h3 == None
         case Heading2(_) => cards[|cards| - 1].h1 == before.h1 && cards[|cards| - 1].h2 == Some(t) && cards[|cards| - 1].h3 == None
         case Heading3(_) => cards[|cards| - 1].h1 == before.h1 && cards[|cards| - 1].h2 == before.h2 && cards[|cards| - 1].h3 == Some(t)
  {
    var st0 := Scan(Initial, pre);
    var st := ScanState(Flush(st0).cards, Enter(st0.ctx, Classify(heading)), body);
    ScanHeadingBody(pre, heading, body);
    FlushAddsLast(st);
  }

  /** After a heading and body lines the body lines are the buffer. */
  lemma ScanHeadingBody(pre: seq<string>, heading: string, body: seq<string>)
    requires !Classify(heading).Body? && AllBody(body)
    ensures var st0 := Scan(Initial, pre);
      Scan(Initial, pre + [heading] + body) == ScanState(Flush(st0).cards, Enter(st0.ctx, Classify(heading)), body)
  {
    var st1 := Step(Scan(Initial, pre), heading);
    ScanSnoc(Initial, pre, heading);
    ScanAppend(Initial, pre + [heading], body);
    ScanBody(st1, body);
    EmptyLeft(st1.buffer, body);
  }

  /** A buffer with visible text becomes one more card, numbered after the others. */
  lemma FlushAddsLast(st: ScanState)
    requires Trim(Concat(st.buffer)) != ""
    ensures var cs := Flush(st).cards;
      && |cs| == |st.cards| + 1
      && cs[|st.cards|] == KnowledgeCard(|st.cards|, st.ctx.h1, st.ctx.h2, st.ctx.h3,
                                         if st.ctx.title.Some? then st.ctx.title.value else Untitled,
                                         Trim(Concat(st.buffer)))
  {
  }

  // ---------------------------------------------------------------------------------------
  // parseMarkdownToCards
  // ---------------------------------------------------------------------------------------

  /** `flushCard`, given the cards so far, the current headings and title, and the buffer. */
  method FlushCard(cards: seq<KnowledgeCard>, h1: string, h2: Option<string>, h3: Option<string>,
                   title: Option<string>, content: seq<string>)
    returns (flushed: seq<KnowledgeCard>)
    ensures flushed == Flush(ScanState(cards, Context(h1, h2, h3, title), content)).cards
  {
    var contentStr := Trim(Concat(content));
    flushed := cards;
    if contentStr != "" {
      flushed := cards + [KnowledgeCard(|cards|, h1, h2, h3, if title.Some? then title.value else Untitled, contentStr)];
    }
  }

  /** `parseMarkdownToCards`. */
  method ParseMarkdownToCards(markdown: string) returns (cards: seq<KnowledgeCard>)
    ensures cards == ParsedCards(markdown)
    ensures forall i :: 0 <= i < |cards| ==> cards[i].id == i
    ensures forall i :: 0 <= i < |cards| ==> WellFormedCard(cards[i])
  {
    var lines := SplitLinesKeepEndings(markdown);
    cards := [];
    var currentH1 := Uncategorized;
    var currentH2: Option<string> := None;
    var currentH3: Option<string> := None;
    var currentTitle: Option<string> := None;
    var currentContent: seq<string> := [];
    for n := 0 to |lines|
      invariant Scan(ScanState(cards, Context(currentH1, currentH2, currentH3, currentTitle), currentContent), lines[n..])
                == Scan(Initial, lines)
    {
      ghost var st := ScanState(cards, Context(currentH1, currentH2, currentH3, currentTitle), currentContent);
      SliceCons(lines, n);
      var line := lines[n];
      var stripped := Trim(line);
      if StartsWith(stripped, "# ") {
        cards := FlushCard(cards, currentH1, currentH2, currentH3, currentTitle, currentContent);
        currentContent := [];
        currentH1 := Trim(stripped[2..]);
        currentH2 := None;
        currentH3 := None;
        currentTitle := Some(currentH1);
        continue;
      }
      if StartsWith(stripped, "## ") {
        cards := FlushCard(cards, currentH1, currentH2, currentH3, currentTitle, currentContent);
        currentContent := [];
        currentH2 := Some(Trim(stripped[3..]));
        currentH3 := None;
        currentTitle := currentH2;
        continue;
      }
      if StartsWith(stripped, "### ") {
        cards := FlushCard(cards, currentH1, currentH2, currentH3, currentTitle, currentContent);
        currentContent := [];
        currentH3 := Some(Trim(stripped[4..]));
        currentTitle := currentH3;
        continue;
      }
      currentContent := currentContent + [line];
    }
    cards := FlushCard(cards, currentH1, currentH2, currentH3, currentTitle, currentContent);
    ParseLinesWellNumbered(lines);
  }
}
