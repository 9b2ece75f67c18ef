/** `markdown_para_adf` (gerar_teste.py:177-246): one block per line of the
    input, in order, inside a version-1 document. */
module Converter {
  import opened Wrappers
  import opened Adf
  import opened Strings
  import opened Inline
  import opened Blocks

  /** The blocks appended for the per-line outcomes, in order; a `None`
      appends nothing. */
  function Collect(outcomes: seq<Option<Block>>): seq<Block> {
    if outcomes == [] then []
    else
      Collect(outcomes[..|outcomes| - 1])
      + match outcomes[|outcomes| - 1] case Some(b) => [b] case None => []
  }

  /** Each line's outcome, in order. */
  function Converted(lines: seq<string>): seq<Option<Block>> {
    seq(|lines|, i requires 0 <= i < |lines| => ConvertLine(lines[i]))
  }

  /** The document `markdown_para_adf(text)` returns. */
  function Document(text: string): Doc {
    Doc(DocVersion, Collect(Converted(SplitLines(text))))
  }

  /** Where every outcome is a block, each contributes exactly that block,
      in order. */
  lemma {:induction false} CollectAllSome(outcomes: seq<Option<Block>>)
    requires forall i :: 0 <= i < |outcomes| ==> outcomes[i].Some?
    ensures |Collect(outcomes)| == |outcomes|
    ensures forall i :: 0 <= i < |outcomes| ==> Some(Collect(outcomes)[i]) == outcomes[i]
  {
    if outcomes != [] {
      var init := outcomes[..|outcomes| - 1];
      CollectAllSome(init);
      assert Collect(outcomes) == Collect(init) + [outcomes[|outcomes| - 1].value];
      forall i | 0 <= i < |outcomes| ensures Some(Collect(outcomes)[i]) == outcomes[i] {
        if i < |init| { assert outcomes[i] == init[i]; }
      }
    }
  }

  /** The document is always version 1 with exactly one top-level block per
      element of `splitlines()`, in input order; an empty text gives no
      blocks. */
  lemma DocumentShape(text: string)
    ensures Document(text).version == 1
    ensures |Document(text).content| == |SplitLines(text)|
    ensures forall i :: 0 <= i < |SplitLines(text)| ==>
      Some(Document(text).content[i]) == ConvertLine(SplitLines(text)[i])
    ensures Document(text).content == [] <==> text == []
  {
    var lines := SplitLines(text);
    forall i | 0 <= i < |lines| ensures Converted(lines)[i].Some? {
      ConvertLineSome(lines[i]);
    }
    CollectAllSome(Converted(lines));
  }

  /** A final terminator does not add a block. */
  lemma DocumentTrailingTerminator(text: string, term: string)
    requires text != [] && !IsLineBreak(text[|text| - 1])
    requires term == "\n" || term == "\r" || term == "\r\n"
    ensures Document(text + term) == Document(text)
  {
    TrailingTerminator(text, term);
  }

  lemma {:induction false} CollectAppend(a: seq<Option<Block>>, b: seq<Option<Block>>)
    ensures Collect(a + b) == Collect(a) + Collect(b)
    decreases |b|
  {
    if b == [] {
      assert a + b == a;
    } else {
      var init := b[..|b| - 1];
      CollectAppend(a, init);
      assert (a + b)[..|a + b| - 1] == a + init;
      assert (a + b)[|a + b| - 1] == b[|b| - 1];
    }
  }

  /** No line looks at another: converting two texts of whole lines one
      after the other gives the blocks of each, concatenated. */
  lemma DocumentAppend(a: seq<string>, b: seq<string>)
    requires forall i :: 0 <= i < |a| ==> NoBreaks(a[i])
    requires forall i :: 0 <= i < |b| ==> NoBreaks(b[i])
    ensures Document(Terminated(a + b)).content
      == Document(Terminated(a)).content + Document(Terminated(b)).content
  {
    forall i | 0 <= i < |a + b| ensures NoBreaks((a + b)[i]) {
      if i >= |a| { assert (a + b)[i] == b[i - |a|]; }
    }
    SplitTerminated(a + b);
    SplitTerminated(a);
    SplitTerminated(b);
    ConvertedAppend(a, b);
    CollectAppend(Converted(a), Converted(b));
  }

  lemma ConvertedAppend(a: seq<string>, b: seq<string>)
    ensures Converted(a + b) == Converted(a) + Converted(b)
  {
    var l, r := Converted(a + b), Converted(a) + Converted(b);
    forall i | 0 <= i < |a + b| ensures l[i] == r[i] {
      var line := (a + b)[i];
      assert l[i] == ConvertLine(line);
      if i < |a| {
        assert line == a[i] && r[i] == Converted(a)[i];
      } else {
        assert line == b[i - |a|] && r[i] == Converted(b)[i - |a|];
      }
    }
  }

  /** The inner loop over the split parts (gerar_teste.py:200-212). */
  method TextNodes(parts: seq<string>) returns (nodes: seq<TextNode>)
    ensures nodes == PartsToNodes(parts)
  {
    nodes := [];
    var k := 0;
    while k < |parts|
      invariant 0 <= k <= |parts|
      invariant nodes == PartsToNodes(parts[..k])
    {
      var part := parts[k];
      if |part| >= 2 && part[..2] == "**" && part[|part| - 2..] == "**" {
        nodes := nodes + [Bold(Inner(part))];
      } else if part != [] {
        nodes := nodes + [Plain(part)];
      }
      assert parts[..k + 1][..k] == parts[..k];
      k := k + 1;
    }
    assert parts[..k] == parts;
  }

  /** The body of the loop over the lines (gerar_teste.py:185-240): the
      block, if any, that `linha` appends to `content_blocks`. */
  method LineBlocks(linha: string) returns (appended: seq<Block>)
    ensures appended == match ConvertLine(linha) case Some(b) => [b] case None => []
  {
    var t := Strip(linha);
    if IsHeadingLine(t) {
      appended := [Heading(HeadingLevel, [Plain(t)])];
    } else if IsLabelledLine(t) {
      var parts := SplitSpans(t);
      var nodes := TextNodes(parts);
      if nodes != [] {
        appended := [Paragraph(nodes)];
      } else {
        appended := [];
      }
    } else if IsChecklistLine(t) {
      var finalText := Replace(linha, CheckSpace, BulletSpace);
      appended := [Paragraph([Plain(finalText)])];
    } else if t == RuleText {
      appended := [Rule];
    } else if t != [] {
      appended := [Paragraph([Plain(t)])];
    } else {
      appended := [Paragraph([])];
    }
  }

  /** `markdown_para_adf`: the loop over the lines, appending each line's
      block to `content_blocks`. */
  method MarkdownToAdf(text: string) returns (doc: Doc)
    ensures doc == Document(text)
    ensures doc.version == 1 && |doc.content| == |SplitLines(text)|
    ensures forall i :: 0 <= i < |doc.content| ==>
      Some(doc.content[i]) == ConvertLine(SplitLines(text)[i])
  {
    var lines := SplitLines(text);
    var blocks: seq<Block> := [];
    var k := 0;
    while k < |lines|
      invariant 0 <= k <= |lines|
      invariant blocks == Collect(Converted(lines[..k]))
    {
      var appended := LineBlocks(lines[k]);
      blocks := blocks + appended;
      assert Converted(lines[..k + 1])[..k] == Converted(lines[..k]);
      k := k + 1;
    }
    assert lines[..k] == lines;
    doc := Doc(DocVersion, blocks);
    DocumentShape(text);
  }
}
