/**
 * Text frames and `set_text_preserve_style`: a frame is a list of paragraphs, a paragraph a
 * list of runs, and paragraphs and runs carry formatting. Replacing a text box's text keeps
 * the formatting of its first paragraph and first run when there is one.
 */
module Frames {
  import opened PyText

  /** The formatting attributes of a paragraph or a run, as name/value pairs. */
  datatype Style = Style(attributes: map<string, string>)

  /** The formatting of a paragraph or run created without attributes. */
  const Plain: Style := Style(map[])

  datatype Run = Run(style: Style, text: string)

  datatype Paragraph = Paragraph(style: Style, runs: seq<Run>)

  type TextFrame = seq<Paragraph>

  /** The text of a paragraph: its runs' texts, concatenated. */
  function RunsText(runs: seq<Run>): string
    decreases |runs|
  {
    if runs == [] then [] else RunsText(runs[..|runs| - 1]) + runs[|runs| - 1].text
  }

  function ParagraphTexts(tf: TextFrame): (r: seq<string>)
    ensures |r| == |tf|
  {
    seq(|tf|, i requires 0 <= i < |tf| => RunsText(tf[i].runs))
  }

  /** A frame's text: the paragraph texts separated by line feeds. */
  function FrameText(tf: TextFrame): string {
    Join(ParagraphTexts(tf), "\n")
  }

  /**
   * The frame that assigning `text_frame.text` leaves: every paragraph is removed, then one
   * plain paragraph per line of `text`, holding the line as one plain run (none when the line
   * is empty).
   */
  function PlainFrame(text: string): (r: TextFrame)
    ensures |r| == |SplitOn(text, '\n')|
    ensures forall i :: 0 <= i < |r| ==> r[i].style == Plain && forall j :: 0 <= j < |r[i].runs| ==> r[i].runs[j].style == Plain
  {
    var lines := SplitOn(text, '\n');
    seq(|lines|, i requires 0 <= i < |lines| => Paragraph(Plain, if lines[i] == [] then [] else [Run(Plain, lines[i])]))
  }

  /** The frame after `set_text_preserve_style(shape, text)`. */
  function ReplacedText(tf: TextFrame, text: string): TextFrame {
    if |tf| > 0 && |tf[0].runs| > 0 then [Paragraph(tf[0].style, [tf[0].runs[0].(text := text)])]
    else PlainFrame(text)
  }

  /**
   * `set_text_preserve_style`: the first run of the first paragraph gets the new text, the
   * other runs of that paragraph are removed one by one, then every paragraph after the first
   * is removed one by one. Without a first run the frame's text is assigned directly.
   */
  method SetTextPreserveStyle(tf: TextFrame, newText: string) returns (r: TextFrame)
    ensures r == ReplacedText(tf, newText)
  {
    r := tf;
    if |r| > 0 && |r[0].runs| > 0 {
      var first := r[0].runs[0].(text := newText);
      r := r[0 := r[0].(runs := r[0].runs[0 := first])];
      var extraRuns := tf[0].runs[1..];
      var k := 0;
      while k < |extraRuns|
        invariant 0 <= k <= |extraRuns|
        invariant |r| == |tf| && r[1..] == tf[1..]
        invariant r[0] == Paragraph(tf[0].style, [first] + extraRuns[k..])
      {
        r := r[0 := r[0].(runs := r[0].runs[..1] + r[0].runs[2..])];
        k := k + 1;
      }
      assert [first] + extraRuns[k..] == [first];
      assert r == [r[0]] + r[1..];
      var extraParagraphs := tf[1..];
      var m := 0;
      while m < |extraParagraphs|
        invariant 0 <= m <= |extraParagraphs|
        invariant r == [Paragraph(tf[0].style, [first])] + extraParagraphs[m..]
      {
        r := r[..1] + r[2..];
        m := m + 1;
      }
    } else {
      r := PlainFrame(newText);
    }
  }

  // ------------------------------------------------------------ properties

  lemma PlainFrameTexts(text: string)
    ensures ParagraphTexts(PlainFrame(text)) == SplitOn(text, '\n')
  {
    var lines := SplitOn(text, '\n');
    var ps := PlainFrame(text);
    forall i | 0 <= i < |lines|
      ensures RunsText(ps[i].runs) == lines[i]
    {
      if lines[i] != [] {
        assert ps[i].runs == [Run(Plain, lines[i])];
        assert ps[i].runs[..0] == [];
      }
    }
  }

  /** Whatever the frame held, reading it back gives exactly the text that was set. */
  lemma ReplacedReadBack(tf: TextFrame, text: string)
    ensures FrameText(ReplacedText(tf, text)) == text
  {
    var r := ReplacedText(tf, text);
    if |tf| > 0 && |tf[0].runs| > 0 {
      assert r[0].runs[..0] == [];
      assert RunsText(r[0].runs) == text;
      assert ParagraphTexts(r) == [text];
    } else {
      PlainFrameTexts(text);
      SplitOnSpec(text, '\n');
    }
  }

  /**
   * When the first paragraph has a run, the frame ends with one paragraph holding one run,
   * with the first paragraph's and the first run's formatting.
   */
  lemma ReplacedKeepsStyle(tf: TextFrame, text: string)
    requires |tf| > 0 && |tf[0].runs| > 0
    ensures var r := ReplacedText(tf, text);
      |r| == 1 && |r[0].runs| == 1 && r[0].style == tf[0].style
      && r[0].runs[0].style == tf[0].runs[0].style && r[0].runs[0].text == text
  {
  }

  /**
   * Without a first run the formatting is lost: one plain paragraph per line of the text,
   * whatever the frame held before.
   */
  lemma FallbackIsPlain(tf: TextFrame, text: string)
    requires |tf| == 0 || |tf[0].runs| == 0
    ensures var r := ReplacedText(tf, text);
      |r| == |SplitOn(text, '\n')|
      && forall i :: 0 <= i < |r| ==> r[i].style == Plain && forall j :: 0 <= j < |r[i].runs| ==> r[i].runs[j].style == Plain
  {
  }

  /** On a frame with a first run, setting the text twice is the same as setting it once, to the second text. */
  lemma LastWriteWins(tf: TextFrame, a: string, b: string)
    requires |tf| > 0 && |tf[0].runs| > 0
    ensures ReplacedText(ReplacedText(tf, a), b) == ReplacedText(tf, b)
  {
  }
}
