/** Worked lines of the Given/When/Then template and what they become. */
module Examples {
  import opened Wrappers
  import opened Adf
  import opened Strings
  import opened Inline
  import opened Blocks

  /** A test-case title becomes a level-3 heading holding the line. */
  lemma HeadingTitle()
    ensures ConvertLine("CT01 - x") == Some(Heading(3, [Plain("CT01 - x")]))
  {
    var line := "CT01 - x";
    StripExact(line, 0, 0);
    assert line[0..|line|] == line;
    assert IsHeadingLine(line);
    ConvertLineKinds(line);
  }

  /** Three digits after "CT" do not make a heading: the line falls to the
      plain-paragraph case. */
  lemma ThreeDigitNumber()
    ensures ConvertLine("CT100 - x") == Some(Paragraph([Plain("CT100 - x")]))
  {
    var line := "CT100 - x";
    StripExact(line, 0, 0);
    assert line[0..|line|] == line;
    assert !IsHeadingLine(line) && !IsChecklistLine(line) && !IsLabelledLine(line);
    ClassifyExact(line);
  }

  /** "---" is a rule, not a checklist item: "-" must be followed by
      whitespace for the checklist test. */
  lemma RuleLine()
    ensures ConvertLine(" --- ") == Some(Rule)
  {
    var line := " --- ";
    StripExact(line, 1, 1);
    assert line[1..|line| - 1] == RuleText;
    ConvertLineKinds(line);
  }

  lemma BlankLine()
    ensures ConvertLine("") == Some(Paragraph([]))
    ensures ConvertLine(" \t ") == Some(Paragraph([]))
  {
    ConvertLineKinds("");
    ConvertLineKinds(" \t ");
  }

  /** A checklist line gives one plain node holding `expected`, when
      `expected` is the raw line with each "✔ " turned into "• ". */
  lemma ChecklistIs(line: string, expected: string)
    requires IsChecklistLine(Strip(line))
    requires |expected| == |line|
    requires forall i :: 0 <= i < |line| ==>
      expected[i] == (if line[i] == '\U{2714}' && i + 1 < |line| && line[i + 1] == ' ' then '\U{2022}' else line[i])
    ensures ConvertLine(line) == Some(Paragraph([Plain(expected)]))
  {
    var r := Replace(line, CheckSpace, BulletSpace);
    assert ConvertLine(line) == Some(Paragraph([Plain(r)])) by { ClassifyExact(line); }
    if line != [] { ReplaceCheckAt(line, 0); }
    forall i | 0 <= i < |line| ensures r[i] == expected[i] { ReplaceCheckAt(line, i); }
    assert r == expected;
  }

  /** A check mark followed by a space is rewritten to a bullet. */
  lemma CheckedItem(line: string)
    requires line == "\U{2714} Ok."
    ensures ConvertLine(line) == Some(Paragraph([Plain("\U{2022} Ok.")]))
  {
    UnpaddedChecklist(line);
    ChecklistIs(line, "\U{2022} Ok.");
  }

  /** A check mark followed by a tab passes the test but is not rewritten. */
  lemma CheckedItemTab(line: string)
    requires line == "\U{2714}\tok"
    ensures ConvertLine(line) == Some(Paragraph([Plain(line)]))
  {
    UnpaddedChecklist(line);
    ChecklistIs(line, line);
  }

  /** The raw line is kept, indentation included, and a "✔ " that is not
      the bullet is rewritten too. */
  lemma ChecklistRawLine(line: string)
    requires line == "  - a \U{2714} b"
    ensures ConvertLine(line) == Some(Paragraph([Plain("  - a \U{2022} b")]))
  {
    StripExact(line, 2, 0);
    var t := line[2..|line|];
    assert t[0] == '-' && t[1] == ' ';
    assert IsChecklistLine(Strip(line));
    ChecklistIs(line, "  - a \U{2022} b");
  }

  /** A checklist item is not bold-split. */
  lemma ChecklistKeepsMarkers(line: string)
    requires line == "- **x**"
    ensures ConvertLine(line) == Some(Paragraph([Plain(line)]))
  {
    UnpaddedChecklist(line);
    ChecklistIs(line, line);
  }

  /** A line that starts with a bullet and a space or tab and ends in a
      non-space is its own stripped line, and a checklist line. */
  lemma UnpaddedChecklist(line: string)
    requires |line| >= 2 && IsBullet(line[0]) && (line[1] == ' ' || line[1] == '\t')
    requires !IsSpace(line[|line| - 1])
    ensures Strip(line) == line && IsChecklistLine(Strip(line))
  {
    StripExact(line, 0, 0);
    assert line[0..|line|] == line;
  }

  /** A line made of a bold label and text without markers: the label
      becomes a strong node without its "**", the text one plain node, and
      the empty gap before the label gives no node. */
  lemma LabelThenText(w: string, rest: string)
    requires IsLabelledLine("**" + w + "**")
    requires forall n :: 0 <= n < |w| ==> w[n] != '*' && w[n] != '\n'
    requires forall n :: 0 <= n < |rest| ==> rest[n] != '*' && rest[n] != '_'
    requires rest == [] || !IsSpace(rest[|rest| - 1])
    ensures ConvertLine("**" + w + "**" + rest)
      == Some(Paragraph([Bold(w)] + if rest == [] then [] else [Plain(rest)]))
  {
    var tag := "**" + w + "**";
    var line := tag + rest;
    assert line[0] == '*' && (rest == [] ==> line[|line| - 1] == '*');
    assert rest != [] ==> line[|line| - 1] == rest[|rest| - 1];
    StripExact(line, 0, 0);
    assert line[0..|line|] == line;
    PrefixLabelled(tag, rest);
    var t := Strip(line);
    assert t == line;
    LabelledParagraph(line);
    assert ConvertLine(line) == Some(Paragraph(Emphasize(t)));
    BoldThenPlain(w, rest);
  }

  lemma PrefixLabelled(t: string, rest: string)
    requires IsLabelledLine(t)
    ensures IsLabelledLine(t + rest)
  {
    var u := t + rest;
    assert forall n :: 0 <= n <= |t| ==> u[..n] == t[..n];
  }

  /** "**Dado que** o usuário está logado" and every other Given line whose
      text has no markers. */
  lemma GivenLine(rest: string)
    requires forall n :: 0 <= n < |rest| ==> rest[n] != '*' && rest[n] != '_'
    requires rest == [] || !IsSpace(rest[|rest| - 1])
    ensures ConvertLine(DadoQue + rest)
      == Some(Paragraph([Bold("Dado que")] + if rest == [] then [] else [Plain(rest)]))
  {
    assert DadoQue == "**" + "Dado que" + "**";
    assert StartsWith(DadoQue, DadoQue);
    LabelThenText("Dado que", rest);
  }

  /** The same for the Then label, whose word carries a non-ASCII letter. */
  lemma ThenLine(rest: string)
    requires forall n :: 0 <= n < |rest| ==> rest[n] != '*' && rest[n] != '_'
    requires rest == [] || !IsSpace(rest[|rest| - 1])
    ensures ConvertLine(Entao + rest)
      == Some(Paragraph([Bold("Ent\U{E3}o")] + if rest == [] then [] else [Plain(rest)]))
  {
    assert Entao == "**" + "Ent\U{E3}o" + "**";
    assert StartsWith(Entao, Entao);
    LabelThenText("Ent\U{E3}o", rest);
  }

  /** A stray "**" with no closer stays inside a plain node, text and all. */
  lemma StrayMarker(s: string)
    requires s == "**a** **b"
    ensures Emphasize(s) == [Bold("a"), Plain(" **b")]
  {
    StraySplit(s);
    var parts := SplitSpans(s);
    assert parts[1][2] == 'a' && parts[2][0] == ' ';
    SpanThenGap(parts[1], parts[2]);
    PlainNode(parts[2]);
  }

  lemma StraySplit(s: string)
    requires s == "**a** **b"
    ensures SplitSpans(s) == ["", "**a**", " **b"]
  {
    CloseFinds(s, 2, 3, '*', '*');
    assert MatchAt(s, 0) == Some(5);
    forall q | 5 <= q < |s| ensures MatchAt(s, q).None? {
      assert q + 2 < |s| ==> s[q] != '*' || s[q + 1] != '*' || s[q + 2] != '*';
    }
    NoMatchTail(s, 5, 5);
    assert s[0..0] == "" && s[0..5] == "**a**" && s[5..] == " **b";
  }

  /** Bold is decided by shape: a left-over "**" gap starts and ends with
      "**", so it becomes a strong node with an empty text. */
  lemma LeftoverMarker(s: string)
    requires s == "**a****"
    ensures Emphasize(s) == [Bold("a"), Bold("")]
  {
    LeftoverSplit(s);
    var parts := SplitSpans(s);
    assert parts[1][2] == 'a';
    SpanThenGap(parts[1], parts[2]);
    MarkerNode(parts[2]);
  }

  /** The parts empty gap, a five-character bold span and a last part give
      the strong node of the span's middle character, then the last part's
      node. */
  lemma SpanThenGap(tag: string, m: string)
    requires |tag| == 5 && tag[0] == '*' && tag[1] == '*' && tag[3] == '*' && tag[4] == '*'
    ensures PartsToNodes(["", tag, m]) == [Bold([tag[2]])] + NodeOf(m)
  {
    var parts := ["", tag, m];
    assert parts[..2] == ["", tag] && parts[..2][..1] == [""] && parts[..2][..1][..0] == [];
    assert tag[..2] == "**" && tag[|tag| - 2..] == "**" && tag[2..|tag| - 2] == [tag[2]];
    assert PartsToNodes([""]) == [];
    assert PartsToNodes(["", tag]) == [Bold([tag[2]])];
  }

  /** A gap that is exactly "**" gives a strong node with no text. */
  lemma MarkerNode(p: string)
    requires p == "**"
    ensures NodeOf(p) == [Bold("")]
  {
    assert p[..2] == "**" && p[|p| - 2..] == "**";
  }

  lemma LeftoverSplit(s: string)
    requires s == "**a****"
    ensures SplitSpans(s) == ["", "**a**", "**"]
  {
    CloseFinds(s, 2, 3, '*', '*');
    assert MatchAt(s, 0) == Some(5);
    assert MatchAt(s, 5).None? && MatchAt(s, 6).None?;
    NoMatchTail(s, 5, 5);
    assert s[0..0] == "" && s[0..5] == "**a**" && s[5..] == "**";
  }

  /** A `_…_\`` span is captured and becomes a plain node of its own, next
      to the plain node of the text after it: plain nodes are not merged. */
  lemma TickSpan(s: string)
    requires s == "_b_`c"
    ensures Emphasize(s) == [Plain("_b_`"), Plain("c")]
  {
    TickSplit(s);
    var parts := SplitSpans(s);
    PlainPair(parts[1], parts[2]);
  }

  /** A span and a gap, neither starting with '*', give two plain nodes. */
  lemma PlainPair(a: string, b: string)
    requires a != [] && a[0] != '*' && b != [] && b[0] != '*'
    ensures PartsToNodes(["", a, b]) == [Plain(a), Plain(b)]
  {
    var parts := ["", a, b];
    assert parts[..2] == ["", a] && parts[..2][..1] == [""] && parts[..2][..1][..0] == [];
    PlainNode(a);
    PlainNode(b);
    assert PartsToNodes([""]) == [];
    assert PartsToNodes(["", a]) == [Plain(a)];
  }

  lemma TickSplit(s: string)
    requires s == "_b_`c"
    ensures SplitSpans(s) == ["", "_b_`", "c"]
  {
    CloseFinds(s, 1, 2, '_', '`');
    assert MatchAt(s, 0) == Some(4);
    assert MatchAt(s, 4).None?;
    NoMatchTail(s, 4, 4);
    assert s[0..0] == "" && s[0..4] == "_b_`" && s[4..] == "c";
  }
}
