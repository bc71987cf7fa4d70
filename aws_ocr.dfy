/** ocr_app/aws_ocr.py, extract_text_from_aws_textract: turning the Blocks of
    an AWS Textract analyze_document response into plain text. The client
    call itself is not modelled; its response is an input. */
module AwsOcr {
  import opened Wrappers
  import opened PyStr

  const LINE_TYPE := "LINE"

  /** One entry of response["Blocks"]: its "BlockType" and "Text" keys. */
  datatype Block = Block(blockType: string, text: string)

  /** An analyze_document response; blocks is None when it has no "Blocks" key. */
  datatype Response = Response(blocks: Option<seq<Block>>)

  /** response.get("Blocks", []) */
  function BlocksOf(response: Response): (blocks: seq<Block>)
    ensures response.blocks.None? ==> blocks == []
  {
    match response.blocks
    case None => []
    case Some(b) => b
  }

  /** The texts of the LINE blocks, in the order of the blocks. */
  function LineTexts(blocks: seq<Block>): (lines: seq<string>)
    ensures |lines| <= |blocks|
    ensures forall t :: t in lines ==> exists b :: b in blocks && b.blockType == LINE_TYPE && b.text == t
  {
    if blocks == [] then []
    else
      var last := blocks[|blocks| - 1];
      var init := blocks[..|blocks| - 1];
      var before := LineTexts(init);
      assert forall b :: b in init ==> b in blocks;
      if last.blockType == LINE_TYPE then before + [last.text] else before
  }

  /** Each line followed by "\n", in order: what the loop accumulates. */
  function Terminated(lines: seq<string>): (text: string)
    ensures |text| >= |lines|
  {
    if lines == [] then "" else Terminated(lines[..|lines| - 1]) + lines[|lines| - 1] + "\n"
  }

  /** "\n".join(lines) */
  function JoinLines(lines: seq<string>): string {
    if lines == [] then ""
    else if |lines| == 1 then lines[0]
    else JoinLines(lines[..|lines| - 1]) + "\n" + lines[|lines| - 1]
  }

  /** The text extract_text_from_aws_textract returns for a response. */
  function TextractText(response: Response): (text: string)
    ensures NoSurroundingSpace(text)
    ensures |text| <= |Terminated(LineTexts(BlocksOf(response)))|
  {
    Strip(Terminated(LineTexts(BlocksOf(response))))
  }

  /** The post-processing loop of extract_text_from_aws_textract and its
      final strip. */
  method ExtractText(response: Response) returns (text: string)
    ensures text == TextractText(response)
  {
    var blocks := BlocksOf(response);
    var extracted := "";
    for i := 0 to |blocks|
      invariant extracted == Terminated(LineTexts(blocks[..i]))
    {
      var block := blocks[i];
      assert blocks[..i + 1][..i] == blocks[..i];
      if block.blockType == LINE_TYPE {
        extracted := extracted + block.text + "\n";
        assert LineTexts(blocks[..i + 1]) == LineTexts(blocks[..i]) + [block.text];
      }
    }
    assert blocks[..|blocks|] == blocks;
    text := Strip(extracted);
  }

  /** Filtering the blocks distributes over concatenation: LINE texts keep
      the order of their blocks. */
  lemma {:induction false} LineTextsAppend(a: seq<Block>, b: seq<Block>)
    ensures LineTexts(a + b) == LineTexts(a) + LineTexts(b)
    decreases |b|
  {
    if b == [] {
      assert a + b == a;
    } else {
      assert (a + b)[..|a + b| - 1] == a + b[..|b| - 1];
      LineTextsAppend(a, b[..|b| - 1]);
    }
  }

  /** A single block contributes its text exactly when it is a LINE block. */
  lemma LineTextsSingle(b: Block)
    ensures LineTexts([b]) == if b.blockType == LINE_TYPE then [b.text] else []
  {
    assert [b][..0] == [];
  }

  /** A block that is not a LINE block changes nothing, wherever it stands. */
  lemma NonLineIgnored(a: seq<Block>, b: Block, c: seq<Block>)
    requires b.blockType != LINE_TYPE
    ensures TextractText(Response(Some(a + [b] + c))) == TextractText(Response(Some(a + c)))
  {
    LineTextsAppend(a + [b], c);
    LineTextsAppend(a, [b]);
    LineTextsSingle(b);
    LineTextsAppend(a, c);
  }

  /** The accumulated text of two runs of lines is the text of the first
      run followed by that of the second. */
  lemma {:induction false} TerminatedAppend(a: seq<string>, b: seq<string>)
    ensures Terminated(a + b) == Terminated(a) + Terminated(b)
    decreases |b|
  {
    if b == [] {
      assert a + b == a;
    } else {
      var init, last := b[..|b| - 1], b[|b| - 1];
      assert (a + b)[..|a + b| - 1] == a + init && (a + b)[|a + b| - 1] == last;
      TerminatedAppend(a, init);
      assert Terminated(a + b) == (Terminated(a) + Terminated(init)) + last + "\n";
    }
  }

  /** With no "Blocks" key, no blocks, or no LINE blocks, the text is empty. */
  lemma NoLinesNoText(response: Response)
    requires response.blocks.None? || forall b :: b in BlocksOf(response) ==> b.blockType != LINE_TYPE
    ensures TextractText(response) == ""
  {
    if response.blocks.Some? {
      NoLineBlocks(BlocksOf(response));
    }
  }

  /** Blocks none of which is a LINE block contribute no text. */
  lemma {:induction false} NoLineBlocks(blocks: seq<Block>)
    requires forall b :: b in blocks ==> b.blockType != LINE_TYPE
    ensures LineTexts(blocks) == []
  {
    if blocks != [] {
      var init := blocks[..|blocks| - 1];
      assert forall b :: b in init ==> b in blocks;
      assert blocks[|blocks| - 1] in blocks;
      NoLineBlocks(init);
    }
  }

  /** The returned text has no leading or trailing whitespace, and is empty
      exactly when the LINE texts hold nothing but whitespace. */
  lemma TextractTextStripped(response: Response)
    ensures NoSurroundingSpace(TextractText(response))
    ensures TextractText(response) == "" <==> AllSpace(Terminated(LineTexts(BlocksOf(response))))
  {
    StripEmptyIff(Terminated(LineTexts(BlocksOf(response))));
  }

  predicate CleanLine(line: string) {
    line != [] && NoSurroundingSpace(line)
  }

  /** Terminating each of one or more lines is joining them with "\n" and
      adding one final "\n". */
  lemma {:induction false} TerminatedIsJoined(lines: seq<string>)
    requires lines != []
    ensures Terminated(lines) == JoinLines(lines) + "\n"
    decreases |lines|
  {
    if |lines| > 1 {
      TerminatedIsJoined(lines[..|lines| - 1]);
    } else {
      assert lines[..0] == [];
    }
  }

  /** The joined text starts with the first line's first character and ends
      with the last line's last character. */
  lemma {:induction false} JoinLinesEnds(lines: seq<string>)
    requires lines != [] && forall i :: 0 <= i < |lines| ==> CleanLine(lines[i])
    ensures NoSurroundingSpace(JoinLines(lines))
    ensures JoinLines(lines) != []
    decreases |lines|
  {
    if |lines| > 1 {
      var init := lines[..|lines| - 1];
      JoinLinesEnds(init);
      var j := JoinLines(lines);
      assert j == JoinLines(init) + "\n" + lines[|lines| - 1];
      assert j[0] == JoinLines(init)[0];
      assert j[|j| - 1] == lines[|lines| - 1][|lines[|lines| - 1]| - 1];
    }
  }

  /** When every LINE text is non-empty with no whitespace at its ends, the
      result is those texts joined by single line breaks. */
  lemma CleanLinesJoined(response: Response)
    requires forall t :: t in LineTexts(BlocksOf(response)) ==> CleanLine(t)
    ensures TextractText(response) == JoinLines(LineTexts(BlocksOf(response)))
  {
    var lines := LineTexts(BlocksOf(response));
    if lines != [] {
      assert forall i :: 0 <= i < |lines| ==> lines[i] in lines;
      TerminatedIsJoined(lines);
      JoinLinesEnds(lines);
      assert JoinLines(lines) + "\n" == "" + JoinLines(lines) + "\n";
      StripSurrounded("", JoinLines(lines), "\n");
    }
  }

}
