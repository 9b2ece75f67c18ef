/** The line classifier and the block each line becomes
    (gerar_teste.py:185-240). */
module Blocks {
  import opened Wrappers
  import opened Adf
  import opened Strings
  import opened Inline

  /** `re.match(r"CT\d{2} - ", t)`: anchored at the start only, so any text
      may follow the prefix. */
  predicate IsHeadingLine(t: string) {
    |t| >= 7 && t[0] == 'C' && t[1] == 'T' && IsDigit(t[2]) && IsDigit(t[3])
    && t[4] == ' ' && t[5] == '-' && t[6] == ' '
  }

  const DadoQue: string := "**Dado que**"
  const Quando: string := "**Quando**"
  const Entao: string := "**Ent\U{E3}o**"                 // "**Então**"
  const Validacoes: string := "\U{1F4CC} Valida\U{E7}\U{F5}es:"  // "📌 Validações:"

  /** The four `startswith` tests of a labelled line. */
  predicate IsLabelledLine(t: string) {
    StartsWith(t, DadoQue) || StartsWith(t, Quando) || StartsWith(t, Entao)
    || StartsWith(t, Validacoes)
  }

  /** The class `[\✔\•\*\-]`. */
  predicate IsBullet(c: char) {
    c == '\U{2714}' || c == '\U{2022}' || c == '*' || c == '-'
  }

  /** `re.match(r"[\✔\•\*\-]\s", t)`. */
  predicate IsChecklistLine(t: string) {
    |t| >= 2 && IsBullet(t[0]) && IsSpace(t[1])
  }

  const RuleText: string := "---"

  datatype Kind = HeadingLine | LabelledLine | ChecklistLine | RuleLine | PlainLine | BlankLine

  /** The first of the six tests, in source order, that the stripped line
      passes. */
  function Classify(line: string): Kind {
    var t := Strip(line);
    if IsHeadingLine(t) then HeadingLine
    else if IsLabelledLine(t) then LabelledLine
    else if IsChecklistLine(t) then ChecklistLine
    else if t == RuleText then RuleLine
    else if t != [] then PlainLine
    else BlankLine
  }

  /** The block the loop body appends for one line; `None` where the
      labelled branch's `if text_nodes:` guard would append nothing. */
  function ConvertLine(line: string): Option<Block> {
    var t := Strip(line);
    match Classify(line)
    case HeadingLine => Some(Heading(HeadingLevel, [Plain(t)]))
    case LabelledLine =>
      var nodes := Emphasize(t);
      if nodes != [] then Some(Paragraph(nodes)) else None
    case ChecklistLine => Some(Paragraph([Plain(Replace(line, CheckSpace, BulletSpace))]))
    case RuleLine => Some(Rule)
    case PlainLine => Some(Paragraph([Plain(t)]))
    case BlankLine => Some(Paragraph([]))
  }

  /** The five specific tests never overlap, so each kind is recognised by
      its own test alone: the order of the tests never decides. A plain line
      is a non-blank line that passes none of them. */
  lemma ClassifyExact(line: string)
    ensures Classify(line) == HeadingLine <==> IsHeadingLine(Strip(line))
    ensures Classify(line) == LabelledLine <==> IsLabelledLine(Strip(line))
    ensures Classify(line) == ChecklistLine <==> IsChecklistLine(Strip(line))
    ensures Classify(line) == RuleLine <==> Strip(line) == RuleText
    ensures Classify(line) == BlankLine <==> Strip(line) == []
    ensures Classify(line) == PlainLine <==>
      Strip(line) != [] && Strip(line) != RuleText && !IsHeadingLine(Strip(line))
      && !IsLabelledLine(Strip(line)) && !IsChecklistLine(Strip(line))
  {
    var t := Strip(line);
    if StartsWith(t, DadoQue) { assert t[..|DadoQue|][1] == t[1]; }
    if StartsWith(t, Quando) { assert t[..|Quando|][1] == t[1]; }
    if StartsWith(t, Entao) { assert t[..|Entao|][1] == t[1]; }
    if StartsWith(t, Validacoes) { assert t[..|Validacoes|][0] == t[0]; }
    if IsLabelledLine(t) {
      assert t[0] == '*' || t[0] == '\U{1F4CC}';
      assert t[0] == '*' ==> t[1] == '*';
    }
  }

  /** Every line gives a block: a labelled line is non-blank after
      stripping, so its node list is never empty. */
  lemma ConvertLineSome(line: string)
    ensures ConvertLine(line).Some?
  {
    var t := Strip(line);
    if Classify(line) == LabelledLine {
      ClassifyExact(line);
      assert |t| > 0;
      EmphasizeNonEmpty(t);
    }
  }

  /** Which block a line gives, by the shape of the stripped line; a line
      that passes none of the tests keeps its stripped text as one plain
      node. */
  lemma ConvertLineKinds(line: string)
    ensures ConvertLine(line).Some?
    ensures ConvertLine(line).value.Heading? <==> IsHeadingLine(Strip(line))
    ensures ConvertLine(line).value.Heading? ==>
      ConvertLine(line).value == Heading(3, [Plain(Strip(line))])
    ensures ConvertLine(line).value == Rule <==> Strip(line) == RuleText
    ensures ConvertLine(line).value == Paragraph([]) <==> Strip(line) == []
    ensures Classify(line) == PlainLine ==> ConvertLine(line) == Some(Paragraph([Plain(Strip(line))]))
  {
    ConvertLineSome(line);
    ClassifyExact(line);
  }

  /** A labelled line becomes one paragraph whose nodes come from the split
      parts of the stripped line; those parts join back into the stripped
      line, so no text is lost, and on a line without "\n" no strong node
      carries "**" and no plain node is empty. */
  lemma LabelledParagraph(line: string)
    requires IsLabelledLine(Strip(line))
    ensures Concat(SplitSpans(Strip(line))) == Strip(line)
    ensures ConvertLine(line) == Some(Paragraph(PartsToNodes(SplitSpans(Strip(line)))))
    ensures PartsToNodes(SplitSpans(Strip(line))) != []
    ensures '\n' !in line ==>
      forall j :: 0 <= j < |Emphasize(Strip(line))| ==> CleanNode(Emphasize(Strip(line))[j])
  {
    var t := Strip(line);
    ClassifyExact(line);
    ConvertLineSome(line);
    if '\n' !in line {
      EmphasizeClean(t);
    }
  }

  /** A checklist line becomes one plain node holding the raw, unstripped
      line in which every "✔ " (not only a leading one) is now "• "; no bold
      splitting is done. */
  lemma ChecklistParagraph(line: string)
    requires IsChecklistLine(Strip(line))
    ensures ConvertLine(line).Some? && ConvertLine(line).value.Paragraph?
    ensures |ConvertLine(line).value.content| == 1
    ensures ConvertLine(line).value.content[0].marks == []
    ensures |ConvertLine(line).value.content[0].text| == |line|
    ensures forall i :: 0 <= i < |line| ==>
      ConvertLine(line).value.content[0].text[i]
      == (if line[i] == '\U{2714}' && i + 1 < |line| && line[i + 1] == ' ' then '\U{2022}' else line[i])
  {
    ClassifyExact(line);
    var r := Replace(line, CheckSpace, BulletSpace);
    ReplaceCheckAt(line, 0);
    forall i | 0 <= i < |line|
      ensures r[i] == (if line[i] == '\U{2714}' && i + 1 < |line| && line[i + 1] == ' ' then '\U{2022}' else line[i])
    {
      ReplaceCheckAt(line, i);
    }
  }
}
