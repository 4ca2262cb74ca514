/** The worked example of src/knowledgeCards/knowledgeCards.test.ts, proved on the model:
    a note with content before any heading and one heading of each level becomes four cards. */
module CardExample {
  import opened Common
  import opened KnowledgeTypes
  import opened CardParser

  // ---------------------------------------------------------------------------------------
  // Line splitting of text made of LF-terminated lines
  // ---------------------------------------------------------------------------------------

  /** A line that ends with its line feed and holds no other line terminator. */
  predicate LfLine(l: string) {
    |l| >= 1 && l[|l| - 1] == '\n' && forall k :: 0 <= k < |l| - 1 ==> !IsLineTerminator(l[k])
  }

  predicate AllLfLines(ls: seq<string>) {
    forall k :: 0 <= k < |ls| ==> LfLine(ls[k])
  }

  /** The search from the start of a line finds exactly that line. */
  lemma LineMatch(s: string, p: nat, l: string)
    requires LfLine(l) && p + |l| <= |s| && s[p..p + |l|] == l
    ensures NextMatch(s, p) == (p, p + |l|)
  {
    var e := p + |l| - 1;
    assert forall k | 0 <= k < |l| :: s[p + k] == l[k] by {
      forall k | 0 <= k < |l| ensures s[p + k] == l[k] {
        assert s[p..p + |l|][k] == s[p + k];
      }
    }
    assert forall k | p <= k < e :: !IsLineTerminator(s[k]) by {
      forall k | p <= k < e ensures !IsLineTerminator(s[k]) {
        assert s[p + (k - p)] == l[k - p];
      }
    }
    assert s[e] == l[|l| - 1] == '\n';
    assert RunEnd(s, p) == e;
    assert MatchEnd(s, p) == Some(e + 1);
  }

  /** The search at the end of the input finds only the final empty match. */
  lemma MatchesAtEnd(s: string)
    ensures GlobalMatches(s, |s|) == [""]
  {
    GlobalMatchesStep(s, |s|);
    assert RunEnd(s, |s|) == |s|;
    assert NextMatch(s, |s|) == (|s|, |s|);
    assert GlobalMatches(s, |s| + 1) == [];
  }

  /** A non-empty match is followed by the search from its end. */
  lemma StepPast(s: string, p: nat, l: string)
    requires l != "" && p + |l| <= |s| && s[p..p + |l|] == l && NextMatch(s, p) == (p, p + |l|)
    ensures GlobalMatches(s, p) == [l] + GlobalMatches(s, p + |l|)
  {
    MatchThenRest(s, p, p + |l|);
  }

  lemma MatchThenRest(s: string, p: nat, e: nat)
    requires p < e <= |s| && NextMatch(s, p) == (p, e)
    ensures GlobalMatches(s, p) == [s[p..e]] + GlobalMatches(s, e)
  {
  }

  lemma SplitParts<T>(x: seq<T>, a: seq<T>, b: seq<T>)
    requires x == a + b
    ensures x[..|a|] == a && x[|a|..] == b
  {
  }

  lemma SliceOfSuffix<T>(s: seq<T>, p: nat, n: nat)
    requires p + n <= |s|
    ensures s[p..][..n] == s[p..p + n] && s[p..][n..] == s[p + n..]
  {
  }

  /** The global search from `p` returns the lines `ls` and then the final empty match. */
  predicate MatchesAre(s: string, p: nat, ls: seq<string>)
    requires p <= |s|
  {
    GlobalMatches(s, p) == ls + [""]
  }

  /** The input from `p` on is exactly the LF-terminated lines `ls`, one after the other. */
  predicate LinesAt(s: string, p: nat, ls: seq<string>)
    decreases |ls|
  {
    && p <= |s|
    && if ls == [] then p == |s|
       else LfLine(ls[0]) && p + |ls[0]| <= |s| && s[p..p + |ls[0]|] == ls[0] && LinesAt(s, p + |ls[0]|, ls[1..])
  }

  /** From a position where the rest of the input is LF-terminated lines, the global search
      returns those lines and then the final empty match. */
  lemma {:induction false} MatchesOfLines(s: string, p: nat, ls: seq<string>)
    requires LinesAt(s, p, ls)
    ensures MatchesAre(s, p, ls)
    decreases |ls|
  {
    if ls == [] {
      MatchesAtEnd(s);
      EmptyLeft(ls, [""]);
    } else {
      MatchesOfLines(s, p + |ls[0]|, ls[1..]);
      LineMatch(s, p, ls[0]);
      LfLinesStep(s, p, ls);
    }
  }

  /** LF-terminated lines put together are those lines at position 0. */
  lemma {:induction false} ConcatLinesAt(s: string, p: nat, ls: seq<string>)
    requires p <= |s| && s[p..] == Concat(ls) && AllLfLines(ls)
    ensures LinesAt(s, p, ls)
    decreases |ls|
  {
    if ls == [] {
      assert |s[p..]| == 0;
    } else {
      var rest := ls[1..];
      assert LfLine(ls[0]);
      assert AllLfLines(rest) by {
        forall k | 0 <= k < |rest| ensures LfLine(rest[k]) {
          assert rest[k] == ls[k + 1];
        }
      }
      LineThenRest(s, p, ls);
      ConcatLinesAt(s, p + |ls[0]|, rest);
    }
  }

  /** The text from `p` on starts with the first line, and the other lines follow it. */
  lemma LineThenRest(s: string, p: nat, ls: seq<string>)
    requires p <= |s| && s[p..] == Concat(ls) && ls != []
    ensures p + |ls[0]| <= |s| && s[p..p + |ls[0]|] == ls[0] && s[p + |ls[0]|..] == Concat(ls[1..])
  {
    SplitParts(s[p..], ls[0], Concat(ls[1..]));
    SliceOfSuffix(s, p, |ls[0]|);
  }

  /** One line more in front of the lines the search returns. */
  lemma LfLinesStep(s: string, p: nat, ls: seq<string>)
    requires ls != [] && ls[0] != "" && p + |ls[0]| <= |s| && s[p..p + |ls[0]|] == ls[0]
    requires NextMatch(s, p) == (p, p + |ls[0]|)
    requires MatchesAre(s, p + |ls[0]|, ls[1..])
    ensures MatchesAre(s, p, ls)
  {
    StepPast(s, p, ls[0]);
    ConsThenSnoc(GlobalMatches(s, p), GlobalMatches(s, p + |ls[0]|), ls, "");
  }

  lemma ConsThenSnoc<T>(g: seq<T>, rest: seq<T>, ls: seq<T>, x: T)
    requires ls != [] && g == [ls[0]] + rest && rest == ls[1..] + [x]
    ensures g == ls + [x]
  {
    assert ls == [ls[0]] + ls[1..];
  }

  /** Text made of LF-terminated lines splits back into exactly those lines. */
  lemma SplitLfLines(ls: seq<string>)
    requires AllLfLines(ls)
    ensures SplitLinesKeepEndings(Concat(ls)) == ls
  {
    var s := Concat(ls);
    if ls != [] {
      assert LfLine(ls[0]);
      assert |s| >= |ls[0]|;
      assert s[0..] == s;
      ConcatLinesAt(s, 0, ls);
      MatchesOfLines(s, 0, ls);
    }
  }

  // ---------------------------------------------------------------------------------------
  // Trimming and classifying
  // ---------------------------------------------------------------------------------------

  /** Whitespace on both sides of a visible text is what `trim` removes. */
  lemma TrimPadded(w1: string, x: string, w2: string)
    requires AllWhitespace(w1) && AllWhitespace(w2)
    requires x != "" && !IsWhitespace(x[0]) && !IsWhitespace(x[|x| - 1])
    ensures Trim(w1 + x + w2) == x
  {
    var s := w1 + x + w2;
    var a, b := |w1|, |w1| + |x|;
    assert s[a] == x[0] && s[b - 1] == x[|x| - 1];
    assert forall k | 0 <= k < a :: s[k] == w1[k];
    assert forall k | b <= k < |s| :: s[k] == w2[k - b];
    var l, m := LeadingWhitespace(s), TrailingCut(s);
    assert l == a;
    assert m == b;
    assert s[a..b] == x;
  }

  /** A line whose trimmed form does not start with `#` is content. */
  lemma NoHashBody(line: string)
    requires Trim(line) != "" ==> Trim(line)[0] != '#'
    ensures Classify(line).Body?
  {
    var t := Trim(line);
    if t != "" {
      assert !StartsWith(t, "# ") && !StartsWith(t, "## ") && !StartsWith(t, "### ") by {
        if |t| >= 2 {
          assert t[..2][0] == t[0];
        }
        if |t| >= 3 {
          assert t[..3][0] == t[0];
        }
        if |t| >= 4 {
          assert t[..4][0] == t[0];
        }
      }
    }
  }

  // ---------------------------------------------------------------------------------------
  // `Array.prototype.join` on line feeds
  // ---------------------------------------------------------------------------------------

  /** `parts.join(sep)`. */
  function JoinWith(parts: seq<string>, sep: string): string
    decreases |parts|
  {
    if |parts| == 0 then ""
    else if |parts| == 1 then parts[0]
    else parts[0] + sep + JoinWith(parts[1..], sep)
  }

  /** Each part with a line feed after it. */
  function Terminated(parts: seq<string>): seq<string> {
    seq(|parts|, i requires 0 <= i < |parts| => parts[i] + "\n")
  }

  /** Joining parts on line feeds, with an empty last part, ends every part with a line feed. */
  lemma {:induction false} JoinTerminated(parts: seq<string>)
    ensures JoinWith(parts + [""], "\n") == Concat(Terminated(parts))
    decreases |parts|
  {
    if parts == [] {
      assert parts + [""] == [""];
      assert Terminated(parts) == [];
    } else {
      var rest := parts[1..];
      JoinTerminated(rest);
      assert (parts + [""])[1..] == rest + [""];
      assert Terminated(parts) == [parts[0] + "\n"] + Terminated(rest);
      ConcatCons(parts[0] + "\n", Terminated(rest));
    }
  }

  /** Parts without line terminators become LF-terminated lines. */
  lemma TerminatedLines(parts: seq<string>)
    requires forall i | 0 <= i < |parts| :: OneLine(parts[i])
    ensures AllLfLines(Terminated(parts))
  {
    var ls := Terminated(parts);
    forall i | 0 <= i < |ls| ensures LfLine(ls[i]) {
      assert ls[i] == parts[i] + "\n";
      assert forall k | 0 <= k < |parts[i]| :: ls[i][k] == parts[i][k];
    }
  }

  // ---------------------------------------------------------------------------------------
  // The note of the worked example, for any words in its places
  // ---------------------------------------------------------------------------------------

  /** Text with no line terminator in it. */
  predicate OneLine(x: string) {
    forall k :: 0 <= k < |x| ==> !IsLineTerminator(x[k])
  }

  /** A piece of text on one line that neither starts nor ends with whitespace. */
  predicate Word(x: string) {
    x != "" && !IsWhitespace(x[0]) && !IsWhitespace(x[|x| - 1]) && OneLine(x)
  }

  /** A word that cannot be read as a heading. */
  predicate TextWord(x: string) {
    Word(x) && x[0] != '#'
  }

  /** The words of the note: two content lines before any heading, the three headings and
      the content under each. */
  datatype Note = Note(intro: string, line2: string, h1: string, a: string, b: string,
                       h2: string, c: string, h3: string, d: string)

  predicate WellChosen(n: Note) {
    && TextWord(n.intro) && TextWord(n.line2) && Word(n.h1) && TextWord(n.a) && TextWord(n.b)
    && Word(n.h2) && TextWord(n.c) && Word(n.h3) && TextWord(n.d)
  }

  /** The parts the note is joined from, a final empty part included. */
  function Parts(n: Note): seq<string> {
    [n.intro, n.line2, "", "# " + n.h1, "", n.a, n.b, "", "## " + n.h2, n.c, "", "### " + n.h3, n.d, ""]
  }

  function Before(n: Note): seq<string> { [n.intro + "\n", n.line2 + "\n", "\n"] }
  function UnderH1(n: Note): seq<string> { ["\n", n.a + "\n", n.b + "\n", "\n"] }
  function UnderH2(n: Note): seq<string> { [n.c + "\n", "\n"] }
  function UnderH3(n: Note): seq<string> { [n.d + "\n"] }

  function UpToH1(n: Note): seq<string> { Before(n) + ["# " + n.h1 + "\n"] + UnderH1(n) }
  function UpToH2(n: Note): seq<string> { UpToH1(n) + ["## " + n.h2 + "\n"] + UnderH2(n) }

  /** The lines of the note. */
  function Lines(n: Note): seq<string> { UpToH2(n) + ["### " + n.h3 + "\n"] + UnderH3(n) }

  /** The four cards the note is expected to give. */
  function Expected(n: Note): seq<KnowledgeCard> {
    [ KnowledgeCard(0, Uncategorized, None, None, Untitled, n.intro + "\n" + n.line2),
      KnowledgeCard(1, n.h1, None, None, n.h1, n.a + "\n" + n.b),
      KnowledgeCard(2, n.h1, Some(n.h2), None, n.h2, n.c),
      KnowledgeCard(3, n.h1, Some(n.h2), Some(n.h3), n.h3, n.d) ]
  }

  lemma OneLineAppend(x: string, y: string)
    requires OneLine(x) && OneLine(y)
    ensures OneLine(x + y)
  {
    assert forall k | 0 <= k < |x + y| :: (x + y)[k] == if k < |x| then x[k] else y[k - |x|];
  }

  lemma MarkedOneLine(n: Note)
    requires WellChosen(n)
    ensures OneLine("# " + n.h1) && OneLine("## " + n.h2) && OneLine("### " + n.h3)
  {
    assert OneLine("# ") && OneLine("## ") && OneLine("### ");
    OneLineAppend("# ", n.h1);
    OneLineAppend("## ", n.h2);
    OneLineAppend("### ", n.h3);
  }

  lemma NoteTerminated(n: Note)
    ensures Terminated(Parts(n)[..13]) == Lines(n)
  {
    var ps, ls := Parts(n)[..13], Lines(n);
    assert ls == [n.intro + "\n", n.line2 + "\n", "\n", "# " + n.h1 + "\n", "\n", n.a + "\n", n.b + "\n", "\n",
                  "## " + n.h2 + "\n", n.c + "\n", "\n", "### " + n.h3 + "\n", n.d + "\n"];
    assert ps == [n.intro, n.line2, "", "# " + n.h1, "", n.a, n.b, "", "## " + n.h2, n.c, "", "### " + n.h3, n.d];
    forall k | 0 <= k < 13 ensures Terminated(ps)[k] == ls[k] {
      assert Terminated(ps)[k] == ps[k] + "\n";
    }
  }

  /** The note splits into its lines. */
  lemma NoteSplit(n: Note)
    requires WellChosen(n)
    ensures SplitLinesKeepEndings(JoinWith(Parts(n), "\n")) == Lines(n)
  {
    var ps := Parts(n)[..13];
    assert Parts(n) == ps + [""];
    NoteTerminated(n);
    MarkedOneLine(n);
    assert OneLine("");
    assert forall i | 0 <= i < |ps| :: OneLine(ps[i]);
    TerminatedLines(ps);
    JoinTerminated(ps);
    SplitLfLines(Terminated(ps));
  }

  // ---------------------------------------------------------------------------------------
  // The lines classified and the runs of content trimmed
  // ---------------------------------------------------------------------------------------

  /** A blank line, or a line of visible text that does not start with `#`, is content. */
  lemma BodyLine(x: string)
    requires x == "" || TextWord(x)
    ensures Classify(x + "\n").Body?
  {
    if x == "" {
      assert x + "\n" == "\n";
      assert AllWhitespace("\n");
    } else {
      TrimPadded("", x, "\n");
      assert "" + x + "\n" == x + "\n";
    }
    NoHashBody(x + "\n");
  }

  lemma BlankLine()
    ensures Classify("\n").Body?
  {
    BodyLine("");
    assert "" + "\n" == "\n";
  }

  lemma BeforeBody(n: Note)
    requires WellChosen(n)
    ensures AllBody(Before(n))
  {
    BodyLine(n.intro);
    BodyLine(n.line2);
    BlankLine();
    var ls := Before(n);
    forall k | 0 <= k < |ls| ensures Classify(ls[k]).Body? {
      if k == 0 { assert ls[k] == n.intro + "\n"; }
      else if k == 1 { assert ls[k] == n.line2 + "\n"; }
      else { assert ls[k] == "\n"; }
    }
  }

  lemma UnderH1Body(n: Note)
    requires WellChosen(n)
    ensures AllBody(UnderH1(n))
  {
    BodyLine(n.a);
    BodyLine(n.b);
    BlankLine();
    var ls := UnderH1(n);
    forall k | 0 <= k < |ls| ensures Classify(ls[k]).Body? {
      if k == 1 { assert ls[k] == n.a + "\n"; }
      else if k == 2 { assert ls[k] == n.b + "\n"; }
      else { assert ls[k] == "\n"; }
    }
  }

  lemma LastBodies(n: Note)
    requires WellChosen(n)
    ensures AllBody(UnderH2(n)) && AllBody(UnderH3(n))
  {
    BodyLine(n.c);
    BodyLine(n.d);
    BlankLine();
    var ls := UnderH2(n);
    forall k | 0 <= k < |ls| ensures Classify(ls[k]).Body? {
      if k == 0 { assert ls[k] == n.c + "\n"; }
      else { assert ls[k] == "\n"; }
    }
    assert UnderH3(n)[0] == n.d + "\n";
  }

  /** The line `marker + x` trims to itself, and what follows the marker trims to `x`. */
  lemma MarkedTrim(marker: string, x: string)
    requires Word(x) && marker != "" && marker[0] == '#'
    ensures Trim(marker + x + "\n") == marker + x
    ensures (marker + x)[|marker|..] == x && Trim(x) == x
  {
    MarkedLineTrim(marker, x);
    TrimPadded("", x, "");
    assert "" + x + "" == x;
  }

  lemma MarkedLineTrim(marker: string, x: string)
    requires Word(x) && marker != "" && marker[0] == '#'
    ensures Trim(marker + x + "\n") == marker + x
  {
    var t := marker + x;
    assert t[0] == '#' && t[|t| - 1] == x[|x| - 1];
    TrimPadded("", t, "\n");
    assert "" + t + "\n" == t + "\n";
  }

  lemma Heading1Line(x: string)
    requires Word(x)
    ensures Classify("# " + x + "\n") == Heading1(x)
  {
    MarkedTrim("# ", x);
    assert ("# " + x)[..2] == "# ";
  }

  lemma Heading2Line(x: string)
    requires Word(x)
    ensures Classify("## " + x + "\n") == Heading2(x)
  {
    MarkedTrim("## ", x);
    var t := "## " + x;
    assert t[..3] == "## ";
    assert !StartsWith(t, "# ") by {
      assert t[..2][1] == '#';
    }
  }

  lemma Heading3Line(x: string)
    requires Word(x)
    ensures Classify("### " + x + "\n") == Heading3(x)
  {
    MarkedTrim("### ", x);
    var t := "### " + x;
    assert t[..4] == "### ";
    assert !StartsWith(t, "# ") by {
      assert t[..2][1] == '#';
    }
    assert !StartsWith(t, "## ") by {
      assert t[..3][2] == '#';
    }
  }

  lemma BeforeText(n: Note)
    requires WellChosen(n)
    ensures Trim(Concat(Before(n))) == n.intro + "\n" + n.line2
  {
    var x := n.intro + "\n" + n.line2;
    var c := Before(n);
    assert Concat(c[2..]) == "\n";
    assert Concat(c[1..]) == n.line2 + "\n" + "\n";
    assert Concat(c) == "" + x + "\n\n";
    assert x[0] == n.intro[0] && x[|x| - 1] == n.line2[|n.line2| - 1];
    assert AllWhitespace("\n\n");
    TrimPadded("", x, "\n\n");
  }

  lemma UnderH1Text(n: Note)
    requires WellChosen(n)
    ensures Trim(Concat(UnderH1(n))) == n.a + "\n" + n.b
  {
    var x := n.a + "\n" + n.b;
    var c := UnderH1(n);
    assert Concat(c[3..]) == "\n";
    assert Concat(c[2..]) == n.b + "\n" + "\n";
    assert Concat(c[1..]) == n.a + "\n" + n.b + "\n" + "\n";
    assert Concat(c) == "\n" + x + "\n\n";
    assert x[0] == n.a[0] && x[|x| - 1] == n.b[|n.b| - 1];
    assert AllWhitespace("\n") && AllWhitespace("\n\n");
    TrimPadded("\n", x, "\n\n");
  }

  lemma LastTexts(n: Note)
    requires WellChosen(n)
    ensures Trim(Concat(UnderH2(n))) == n.c && Trim(Concat(UnderH3(n))) == n.d
  {
    assert Concat(UnderH2(n)[1..]) == "\n";
    assert Concat(UnderH2(n)) == "" + n.c + "\n\n";
    assert AllWhitespace("\n\n") && AllWhitespace("\n");
    TrimPadded("", n.c, "\n\n");
    assert Concat(UnderH3(n)) == "" + n.d + "\n";
    TrimPadded("", n.d, "\n");
  }

  // ---------------------------------------------------------------------------------------
  // The scan, heading by heading
  // ---------------------------------------------------------------------------------------

  /** Up to the first heading: the two lines of text wait in the buffer. */
  lemma ScanBefore(n: Note)
    requires WellChosen(n)
    ensures Scan(Initial, Before(n)) == ScanState([], Start, Before(n))
  {
    BeforeBody(n);
    ScanBody(Initial, Before(n));
    EmptyLeft(Initial.buffer, Before(n));
  }

  /** The `# ` heading flushes the first, uncategorized and untitled, card. */
  lemma ScanUpToH1(n: Note)
    requires WellChosen(n)
    ensures Scan(Initial, UpToH1(n)) == ScanState(Expected(n)[..1], Context(n.h1, None, None, Some(n.h1)), UnderH1(n))
  {
    var st0 := ScanState([], Start, Before(n));
    var heading := "# " + n.h1 + "\n";
    ScanBefore(n);
    Heading1Line(n.h1);
    UnderH1Body(n);
    ScanHeadingBody(Before(n), heading, UnderH1(n));
    assert Scan(Initial, UpToH1(n)) == ScanState(Flush(st0).cards, Enter(Start, Heading1(n.h1)), UnderH1(n));
    FirstCard(n);
  }

  lemma FirstCard(n: Note)
    requires WellChosen(n)
    ensures Flush(ScanState([], Start, Before(n))).cards == Expected(n)[..1]
  {
    var st0 := ScanState([], Start, Before(n));
    BeforeText(n);
    FlushAddsLast(st0);
    var cs := Flush(st0).cards;
    assert cs == [cs[0]];
  }

  /** The `## ` heading flushes the card under the first heading. */
  lemma ScanUpToH2(n: Note)
    requires WellChosen(n)
    ensures Scan(Initial, UpToH2(n)) == ScanState(Expected(n)[..2], Context(n.h1, Some(n.h2), None, Some(n.h2)), UnderH2(n))
  {
    var st0 := ScanState(Expected(n)[..1], Context(n.h1, None, None, Some(n.h1)), UnderH1(n));
    ScanUpToH1(n);
    Heading2Line(n.h2);
    LastBodies(n);
    ScanHeadingBody(UpToH1(n), "## " + n.h2 + "\n", UnderH2(n));
    assert Scan(Initial, UpToH2(n)) == ScanState(Flush(st0).cards, Enter(st0.ctx, Heading2(n.h2)), UnderH2(n));
    SecondCard(n);
  }

  lemma SecondCard(n: Note)
    requires WellChosen(n)
    ensures Flush(ScanState(Expected(n)[..1], Context(n.h1, None, None, Some(n.h1)), UnderH1(n))).cards == Expected(n)[..2]
  {
    var st0 := ScanState(Expected(n)[..1], Context(n.h1, None, None, Some(n.h1)), UnderH1(n));
    UnderH1Text(n);
    FlushAddsLast(st0);
    var cs := Flush(st0).cards;
    assert cs == cs[..1] + [cs[1]];
  }

  /** The `### ` heading flushes the card under the second heading. */
  lemma ScanLines(n: Note)
    requires WellChosen(n)
    ensures Scan(Initial, Lines(n)) == ScanState(Expected(n)[..3], Context(n.h1, Some(n.h2), Some(n.h3), Some(n.h3)), UnderH3(n))
  {
    var st0 := ScanState(Expected(n)[..2], Context(n.h1, Some(n.h2), None, Some(n.h2)), UnderH2(n));
    ScanUpToH2(n);
    Heading3Line(n.h3);
    LastBodies(n);
    ScanHeadingBody(UpToH2(n), "### " + n.h3 + "\n", UnderH3(n));
    assert Scan(Initial, Lines(n)) == ScanState(Flush(st0).cards, Enter(st0.ctx, Heading3(n.h3)), UnderH3(n));
    ThirdCard(n);
  }

  lemma ThirdCard(n: Note)
    requires WellChosen(n)
    ensures Flush(ScanState(Expected(n)[..2], Context(n.h1, Some(n.h2), None, Some(n.h2)), UnderH2(n))).cards == Expected(n)[..3]
  {
    var st0 := ScanState(Expected(n)[..2], Context(n.h1, Some(n.h2), None, Some(n.h2)), UnderH2(n));
    LastTexts(n);
    FlushAddsLast(st0);
    var cs := Flush(st0).cards;
    assert cs == cs[..2] + [cs[2]];
  }

  /** The end of the text flushes the card under the third heading. */
  lemma LinesCards(n: Note)
    requires WellChosen(n)
    ensures ParseLines(Lines(n)) == Expected(n)
  {
    var st0 := ScanState(Expected(n)[..3], Context(n.h1, Some(n.h2), Some(n.h3), Some(n.h3)), UnderH3(n));
    ScanLines(n);
    LastTexts(n);
    FlushAddsLast(st0);
    var cs := Flush(st0).cards;
    assert cs == cs[..3] + [cs[3]];
  }

  /** The worked example of the parser's tests, for any words in its places: text before the
      first heading is one uncategorized, untitled card; each heading opens a card titled by
      it, under the headings above it; blank lines around the text of a card are trimmed. */
  lemma NoteCards(n: Note)
    requires WellChosen(n)
    ensures ParsedCards(JoinWith(Parts(n), "\n")) == Expected(n)
  {
    NoteSplit(n);
    LinesCards(n);
  }

  // ---------------------------------------------------------------------------------------
  // The example itself
  // ---------------------------------------------------------------------------------------

  /** Letters and digits are neither whitespace nor line terminators. */
  lemma PlainWord(x: string)
    requires x != "" && x[0] != '#'
    requires forall k | 0 <= k < |x| :: 'a' <= x[k] <= 'z' || 'A' <= x[k] <= 'Z' || '0' <= x[k] <= '9'
    ensures TextWord(x)
  {
  }

  /** The words of the worked example. */
  const Sample: Note := Note.Note("intro", "line2", "H1", "a", "b", "H2", "c", "H3", "d")

  lemma SampleWellChosen()
    ensures WellChosen(Sample)
  {
    PlainWord("intro");
    PlainWord("line2");
    PlainWord("H1");
    PlainWord("a");
    PlainWord("b");
    PlainWord("H2");
    PlainWord("c");
    PlainWord("H3");
    PlainWord("d");
  }

  lemma SampleParts()
    ensures Parts(Sample) == ["intro", "line2", "", "# H1", "", "a", "b", "", "## H2", "c", "", "### H3", "d", ""]
  {
    assert "# " + "H1" == "# H1";
    assert "## " + "H2" == "## H2";
    assert "### " + "H3" == "### H3";
  }

  lemma SampleExpected()
    ensures Expected(Sample)
         == [ KnowledgeCard(0, Uncategorized, None, None, Untitled, "intro\nline2"),
              KnowledgeCard(1, "H1", None, None, "H1", "a\nb"),
              KnowledgeCard(2, "H1", Some("H2"), None, "H2", "c"),
              KnowledgeCard(3, "H1", Some("H2"), Some("H3"), "H3", "d") ]
  {
    assert "intro" + "\n" + "line2" == "intro\nline2";
    assert "a" + "\n" + "b" == "a\nb";
  }

  /** The four cards of the parser's worked example: the note
      `intro`, `line2`, blank, `# H1`, blank, `a`, `b`, blank, `## H2`, `c`, blank, `### H3`, `d`
      joined with line feeds and ending in one. */
  lemma ExampleCards()
    ensures ParsedCards(JoinWith(["intro", "line2", "", "# H1", "", "a", "b", "", "## H2", "c", "", "### H3", "d", ""], "\n"))
         == [ KnowledgeCard(0, Uncategorized, None, None, Untitled, "intro\nline2"),
              KnowledgeCard(1, "H1", None, None, "H1", "a\nb"),
              KnowledgeCard(2, "H1", Some("H2"), None, "H2", "c"),
              KnowledgeCard(3, "H1", Some("H2"), Some("H3"), "H3", "d") ]
  {
    SampleWellChosen();
    NoteCards(Sample);
    SampleParts();
    SampleExpected();
  }
}
