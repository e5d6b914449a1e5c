/**
 * Slide generation (`create_ppt`, `_create_slide`, `_create_split_slides`, `clone_slide`).
 * A presentation is a list of slides, a slide a list of shapes; the first slide of the
 * template file is the pattern every verse slide is cloned from. Each verse becomes one
 * slide, or, when its text is longer than `max_chars`, several slides filled by a greedy
 * word wrap. The text boxes named `TitleBox`, `VerseBox` and `ContentBox` receive the
 * reference, the verse number and the text.
 *
 * The pure part (`DeckPlan`, `Rendered`) says which slides come out; the class
 * `Presentation` holds the slide list that the methods change step by step.
 */
module Slides {
  import opened Wrappers
  import opened PyText
  import opened Frames
  import opened Chunking
  import L = Lookup

  /** What a shape draws, apart from its name and its text. */
  datatype Kind = Picture | BlackRectangle | Drawn(description: string)

  /** A shape; `frame` is `None` for a shape without a text frame (`has_text_frame` is false). */
  datatype Shape = Shape(name: string, kind: Kind, frame: Option<TextFrame>)

  datatype Slide = Slide(layout: string, shapes: seq<Shape>)

  /** The three texts of one verse slide. */
  datatype SlideText = SlideText(title: string, verse: string, content: string)

  datatype PptError =
    | NoTemplateSlide                  // `prs.slides[0]` raises IndexError
    | MissingNames(names: set<string>) // the text boxes the template lacks

  const RequiredNames: set<string> := {"TitleBox", "VerseBox", "ContentBox"}

  /** The full-slide background picture added when a background image exists. */
  const BackgroundPicture: Shape := Shape("Picture", Picture, None)

  /** The black full-slide rectangle added otherwise; an auto shape has an empty, centred text frame. */
  const BackgroundRectangle: Shape := Shape("Rectangle", BlackRectangle, Some([Paragraph(Style(map["algn" := "ctr"]), [])]))

  /** `f"{book} {chapter}장"`. */
  function Title(book: string, chapter: int): string {
    book + " " + IntToString(chapter) + "장"
  }

  /** The names of the shapes that have a text frame. */
  function TextBoxNames(shapes: seq<Shape>): set<string> {
    set i | 0 <= i < |shapes| && shapes[i].frame.Some? :: shapes[i].name
  }

  /** `name_to_text` of `_create_slide`. */
  function TextFor(t: SlideText, name: string): Option<string> {
    if name == "TitleBox" then Some(t.title)
    else if name == "VerseBox" then Some(t.verse)
    else if name == "ContentBox" then Some(t.content)
    else None
  }

  function FillShape(s: Shape, t: SlideText): Shape {
    if s.frame.Some? && TextFor(t, s.name).Some? then s.(frame := Some(ReplacedText(s.frame.value, TextFor(t, s.name).value)))
    else s
  }

  /** A slide whose named text boxes have been given the texts of `t`. */
  function Filled(slide: Slide, t: SlideText): Slide {
    slide.(shapes := seq(|slide.shapes|, i requires 0 <= i < |slide.shapes| => FillShape(slide.shapes[i], t)))
  }

  /** The template slide once the background shape has been put behind everything else. */
  function WithBackground(slide: Slide, hasImage: bool): Slide {
    slide.(shapes := [if hasImage then BackgroundPicture else BackgroundRectangle] + slide.shapes)
  }

  /** The slide `_create_slide` adds: a copy of the template, one more background picture when there is an image, then the texts. */
  function Rendered(template: Slide, t: SlideText, hasImage: bool): Slide {
    Filled(if hasImage then template.(shapes := [BackgroundPicture] + template.shapes) else template, t)
  }

  function Rendering(template: Slide, plan: seq<SlideText>, hasImage: bool): (r: seq<Slide>)
    ensures |r| == |plan|
  {
    seq(|plan|, i requires 0 <= i < |plan| => Rendered(template, plan[i], hasImage))
  }

  /** The slides of a long verse: one per group of words, all with the same title and verse label. */
  function SplitPlan(title: string, verseLabel: string, groups: seq<seq<string>>): (r: seq<SlideText>)
    ensures |r| == |groups|
  {
    seq(|groups|, k requires 0 <= k < |groups| => SlideText(title, verseLabel, Join(groups[k], " ")))
  }

  /** The slides one verse becomes. */
  function VersePlan(v: L.Verse, maxChars: int): seq<SlideText> {
    var title, verseLabel := Title(v.book, v.chapter), IntToString(v.verse);
    if |v.text| <= maxChars then [SlideText(title, verseLabel, v.text)]
    else SplitPlan(title, verseLabel, Groups([], SplitWords(v.text), maxChars))
  }

  /** The slides of all verses, verse after verse. */
  function DeckPlan(verses: seq<L.Verse>, maxChars: int): seq<SlideText>
    decreases |verses|
  {
    if verses == [] then []
    else DeckPlan(verses[..|verses| - 1], maxChars) + VersePlan(verses[|verses| - 1], maxChars)
  }

  // ------------------------------------------------------------ the presentation

  class Presentation {
    /** The slides, in order. */
    var slides: seq<Slide>
    /** The placeholder shapes each slide layout puts on a slide added with it. */
    var layouts: map<string, seq<Shape>>

    constructor (slides: seq<Slide>, layouts: map<string, seq<Shape>>)
      ensures this.slides == slides && this.layouts == layouts
    {
      this.slides := slides;
      this.layouts := layouts;
    }

    function Placeholders(layout: string): seq<Shape>
      reads this
    {
      if layout in layouts then layouts[layout] else []
    }

    /** `prs.slides.add_slide(layout)`: a new last slide holding the layout's placeholders. */
    method AddSlide(layout: string)
      modifies this
      ensures slides == old(slides) + [Slide(layout, Placeholders(layout))]
      ensures layouts == old(layouts)
    {
      slides := slides + [Slide(layout, Placeholders(layout))];
    }

    /** `clone_slide`: add a slide with the template's layout, empty it, then copy the template's shapes in order. */
    method CloneSlide(template: Slide)
      modifies this
      ensures slides == old(slides) + [template]
      ensures layouts == old(layouts)
    {
      AddSlide(template.layout);
      var n := |slides| - 1;
      var placeholders := slides[n].shapes;
      for k := 0 to |placeholders|
        invariant |slides| == n + 1 && slides[..n] == old(slides) && layouts == old(layouts)
        invariant slides[n] == Slide(template.layout, placeholders[k..])
      {
        slides := slides[n := slides[n].(shapes := slides[n].shapes[1..])];
      }
      for k := 0 to |template.shapes|
        invariant |slides| == n + 1 && slides[..n] == old(slides) && layouts == old(layouts)
        invariant slides[n] == Slide(template.layout, template.shapes[..k])
      {
        assert template.shapes[..k + 1] == template.shapes[..k] + [template.shapes[k]];
        slides := slides[n := slides[n].(shapes := slides[n].shapes + [template.shapes[k]])];
      }
      assert template.shapes[..|template.shapes|] == template.shapes;
      assert slides == slides[..n] + [slides[n]];
    }

    /** `_spTree.insert(2, el)`: the shape goes behind every other shape of slide `n`. */
    method InsertBehind(n: nat, shape: Shape)
      requires n < |slides|
      modifies this
      ensures slides == old(slides)[n := old(slides)[n].(shapes := [shape] + old(slides)[n].shapes)]
      ensures layouts == old(layouts)
    {
      slides := slides[n := slides[n].(shapes := [shape] + slides[n].shapes)];
    }

    /** The text loop of `_create_slide` over the shapes of slide `n`. */
    method FillSlide(n: nat, t: SlideText)
      requires n < |slides|
      modifies this
      ensures slides == old(slides)[n := Filled(old(slides)[n], t)]
      ensures layouts == old(layouts)
    {
      var original := slides[n].shapes;
      var shapes := original;
      for k := 0 to |shapes|
        invariant slides == old(slides) && layouts == old(layouts)
        invariant |shapes| == |original|
        invariant forall i :: 0 <= i < k ==> shapes[i] == FillShape(original[i], t)
        invariant forall i :: k <= i < |shapes| ==> shapes[i] == original[i]
      {
        var shape := shapes[k];
        if shape.frame.Some? {
          var text := TextFor(t, shape.name);
          if text.Some? {
            var tf := SetTextPreserveStyle(shape.frame.value, text.value);
            shapes := shapes[k := shape.(frame := Some(tf))];
          }
        }
      }
      assert shapes == Filled(slides[n], t).shapes;
      slides := slides[n := slides[n].(shapes := shapes)];
    }

    /** `_create_slide`: clone the template, add the background picture when there is an image, fill the texts. */
    method CreateSlide(template: Slide, book: string, chapter: int, verseLabel: string, text: string, hasImage: bool)
      modifies this
      ensures slides == old(slides) + [Rendered(template, SlideText(Title(book, chapter), verseLabel, text), hasImage)]
      ensures layouts == old(layouts)
    {
      CloneSlide(template);
      var n := |slides| - 1;
      if hasImage {
        InsertBehind(n, BackgroundPicture);
      }
      FillSlide(n, SlideText(Title(book, chapter), verseLabel, text));
    }

    /** `_create_slide` for one closed group of words of a long verse. */
    method AddGroupSlide(template: Slide, book: string, chapter: int, verseLabel: string, text: string, hasImage: bool,
                         ghost base: seq<Slide>, ghost groups: seq<seq<string>>, ghost g: seq<string>)
      requires text == Join(g, " ")
      requires slides == base + Rendering(template, SplitPlan(Title(book, chapter), verseLabel, groups), hasImage)
      modifies this
      ensures slides == base + Rendering(template, SplitPlan(Title(book, chapter), verseLabel, groups + [g]), hasImage)
      ensures layouts == old(layouts)
    {
      CreateSlide(template, book, chapter, verseLabel, text, hasImage);
      RenderingSnoc(template, Title(book, chapter), verseLabel, groups, g, hasImage);
    }

    /**
     * `_create_split_slides`: the greedy word wrap over `full_text.split()`, adding a slide
     * each time the next word does not fit and once more for the last, non-empty slide.
     */
    method CreateSplitSlides(template: Slide, book: string, chapter: int, verse: int, fullText: string, maxChars: int, hasImage: bool)
      modifies this
      ensures slides == old(slides)
        + Rendering(template, SplitPlan(Title(book, chapter), IntToString(verse), Groups([], SplitWords(fullText), maxChars)), hasImage)
      ensures layouts == old(layouts)
    {
      var title, verseLabel := Title(book, chapter), IntToString(verse);
      var words := SplitWords(fullText);
      var currentText := "";
      var slideCount := 0;
      ghost var cur: seq<string> := [];
      ghost var done: seq<seq<string>> := [];
      for i := 0 to |words|
        invariant AllWords(cur) && currentText == Join(cur, " ")
        invariant done + Groups(cur, words[i..], maxChars) == Groups([], words, maxChars)
        invariant slideCount == |done|
        invariant slides == old(slides) + Rendering(template, SplitPlan(title, verseLabel, done), hasImage)
        invariant layouts == old(layouts)
      {
        var word := words[i];
        GroupsStep(done, cur, words, i, maxChars);
        NextText(cur, word);
        var testText := if currentText != "" then currentText + " " + word else word;
        if |testText| <= maxChars {
          currentText := testText;
          cur := cur + [word];
        } else {
          if currentText != "" {
            slideCount := slideCount + 1;
            var verseDisplay := if slideCount > 1 then IntToString(verse) else IntToString(verse);
            AddGroupSlide(template, book, chapter, verseDisplay, currentText, hasImage, old(slides), done, cur);
            done := done + [cur];
          }
          currentText := word;
          cur := [word];
        }
      }
      GroupsEnd(done, cur, words, maxChars);
      JoinAllWords(cur);
      if currentText != "" {
        slideCount := slideCount + 1;
        var verseDisplay := if slideCount > 1 then IntToString(verse) else IntToString(verse);
        AddGroupSlide(template, book, chapter, verseDisplay, currentText, hasImage, old(slides), done, cur);
        done := done + [cur];
      }
    }

    /** One verse of `create_ppt`: a single slide when its text fits in `max_chars`, split slides otherwise. */
    method AddVerse(template: Slide, v: L.Verse, maxChars: int, hasImage: bool)
      modifies this
      ensures slides == old(slides) + Rendering(template, VersePlan(v, maxChars), hasImage)
      ensures layouts == old(layouts)
    {
      if |v.text| <= maxChars {
        CreateSlide(template, v.book, v.chapter, IntToString(v.verse), v.text, hasImage);
        assert Rendering(template, VersePlan(v, maxChars), hasImage)
            == [Rendered(template, SlideText(Title(v.book, v.chapter), IntToString(v.verse), v.text), hasImage)];
      } else {
        CreateSplitSlides(template, v.book, v.chapter, v.verse, v.text, maxChars, hasImage);
      }
    }

    /** The verse loop of `create_ppt`: each verse's slides are added after the slides already there. */
    method AddVerses(template: Slide, verses: seq<L.Verse>, maxChars: int, hasImage: bool)
      modifies this
      ensures slides == old(slides) + Rendering(template, DeckPlan(verses, maxChars), hasImage)
      ensures layouts == old(layouts)
    {
      for i := 0 to |verses|
        invariant slides == old(slides) + Rendering(template, DeckPlan(verses[..i], maxChars), hasImage)
        invariant layouts == old(layouts)
      {
        ghost var before := slides;
        AddVerse(template, verses[i], maxChars, hasImage);
        AddVerseStep(template, verses, i, maxChars, hasImage);
        ConcatAssoc(old(slides), Rendering(template, DeckPlan(verses[..i], maxChars), hasImage),
          Rendering(template, VersePlan(verses[i], maxChars), hasImage));
      }
      assert verses[..|verses|] == verses;
    }

    /**
     * `create_ppt` once the template file is open: the background goes behind the template
     * slide's shapes, every slide is deleted, the template slide's text box names are checked,
     * and then each verse's slides are added in order.
     */
    method CreatePpt(verses: seq<L.Verse>, hasImage: bool, maxChars: int) returns (r: Result<(), PptError>)
      modifies this
      ensures layouts == old(layouts)
      ensures old(slides) == [] ==> r == Err(NoTemplateSlide) && slides == []
      ensures old(slides) != [] ==>
        var template := WithBackground(old(slides)[0], hasImage);
        var missing := RequiredNames - TextBoxNames(template.shapes);
        && (r.Ok? <==> missing == {})
        && (r.Err? ==> r == Err(MissingNames(missing)) && slides == [])
        && (r.Ok? ==> slides == Rendering(template, DeckPlan(verses, maxChars), hasImage))
    {
      if |slides| == 0 {
        return Err(NoTemplateSlide);
      }
      InsertBehind(0, if hasImage then BackgroundPicture else BackgroundRectangle);
      var template := slides[0];
      while |slides| > 0
        invariant layouts == old(layouts)
        decreases |slides|
      {
        slides := slides[1..];
      }
      var missing := RequiredNames - TextBoxNames(template.shapes);
      if missing != {} {
        return Err(MissingNames(missing));
      }
      AddVerses(template, verses, maxChars, hasImage);
      return Ok(());
    }
  }

  // ------------------------------------------------------------ properties

  /** One more verse adds its own slides after the earlier verses' slides. */
  lemma AddVerseStep(template: Slide, verses: seq<L.Verse>, i: nat, maxChars: int, hasImage: bool)
    requires i < |verses|
    ensures Rendering(template, DeckPlan(verses[..i + 1], maxChars), hasImage)
         == Rendering(template, DeckPlan(verses[..i], maxChars), hasImage) + Rendering(template, VersePlan(verses[i], maxChars), hasImage)
  {
    assert verses[..i + 1] == verses[..i] + [verses[i]];
    DeckPlanSnoc(verses[..i], verses[i], maxChars);
    RenderingAppend(template, DeckPlan(verses[..i], maxChars), VersePlan(verses[i], maxChars), hasImage);
  }

  lemma RenderingAppend(template: Slide, a: seq<SlideText>, b: seq<SlideText>, hasImage: bool)
    ensures Rendering(template, a + b, hasImage) == Rendering(template, a, hasImage) + Rendering(template, b, hasImage)
  {
  }

  lemma RenderingSnoc(template: Slide, title: string, verseLabel: string, groups: seq<seq<string>>, g: seq<string>, hasImage: bool)
    ensures Rendering(template, SplitPlan(title, verseLabel, groups + [g]), hasImage)
         == Rendering(template, SplitPlan(title, verseLabel, groups), hasImage)
            + [Rendered(template, SlideText(title, verseLabel, Join(g, " ")), hasImage)]
  {
    assert SplitPlan(title, verseLabel, groups + [g]) == SplitPlan(title, verseLabel, groups) + [SlideText(title, verseLabel, Join(g, " "))];
    RenderingAppend(template, SplitPlan(title, verseLabel, groups), [SlideText(title, verseLabel, Join(g, " "))], hasImage);
  }

  /** One step of the word loop, as the specification of the wrap takes it. */
  lemma GroupsStep(done: seq<seq<string>>, cur: seq<string>, words: seq<string>, i: nat, maxChars: int)
    requires i < |words| && done + Groups(cur, words[i..], maxChars) == Groups([], words, maxChars)
    ensures |Join(cur + [words[i]], " ")| <= maxChars ==>
      done + Groups(cur + [words[i]], words[i + 1..], maxChars) == Groups([], words, maxChars)
    ensures |Join(cur + [words[i]], " ")| > maxChars ==>
      (if cur == [] then done else done + [cur]) + Groups([words[i]], words[i + 1..], maxChars) == Groups([], words, maxChars)
  {
    assert words[i..][0] == words[i] && words[i..][1..] == words[i + 1..];
    var tail := Groups([words[i]], words[i + 1..], maxChars);
    if cur != [] {
      assert done + ([cur] + tail) == (done + [cur]) + tail;
    } else {
      assert [] + tail == tail;
    }
  }

  /** The candidate text of the loop: the current slide's words with the next word added. */
  lemma NextText(cur: seq<string>, word: string)
    requires AllWords(cur) && IsWord(word)
    ensures AllWords(cur + [word]) && AllWords([word])
    ensures (Join(cur, " ") != "") == (cur != [])
    ensures (if Join(cur, " ") != "" then Join(cur, " ") + " " + word else word) == Join(cur + [word], " ")
  {
    JoinSnoc(cur, word, " ");
    JoinAllWords(cur);
    assert forall j :: 0 <= j < |cur + [word]| ==> (cur + [word])[j] == if j < |cur| then cur[j] else word;
  }

  lemma GroupsEnd(done: seq<seq<string>>, cur: seq<string>, words: seq<string>, maxChars: int)
    requires done + Groups(cur, words[|words|..], maxChars) == Groups([], words, maxChars)
    ensures (if cur == [] then done else done + [cur]) == Groups([], words, maxChars)
  {
    assert words[|words|..] == [];
    assert done + [] == done;
  }

  /**
   * Reading a verse slide back: it has the template's shapes, in order, behind one more
   * background picture when there is an image; each text box named `TitleBox`, `VerseBox` or
   * `ContentBox` holds exactly its text, and every other shape is the template's own.
   */
  lemma RenderedReadBack(template: Slide, t: SlideText, hasImage: bool)
    ensures var base := if hasImage then [BackgroundPicture] + template.shapes else template.shapes;
      var shapes := Rendered(template, t, hasImage).shapes;
      && |shapes| == |base|
      && forall i :: 0 <= i < |shapes| ==>
           && shapes[i].name == base[i].name && shapes[i].kind == base[i].kind
           && shapes[i].frame.Some? == base[i].frame.Some?
           && (shapes[i].frame.Some? && shapes[i].name == "TitleBox" ==> FrameText(shapes[i].frame.value) == t.title)
           && (shapes[i].frame.Some? && shapes[i].name == "VerseBox" ==> FrameText(shapes[i].frame.value) == t.verse)
           && (shapes[i].frame.Some? && shapes[i].name == "ContentBox" ==> FrameText(shapes[i].frame.value) == t.content)
           && (shapes[i].name !in RequiredNames ==> shapes[i] == base[i])
  {
    var base := if hasImage then [BackgroundPicture] + template.shapes else template.shapes;
    var shapes := Rendered(template, t, hasImage).shapes;
    forall i | 0 <= i < |shapes| && shapes[i].frame.Some? && TextFor(t, base[i].name).Some?
      ensures FrameText(shapes[i].frame.value) == TextFor(t, base[i].name).value
    {
      ReplacedReadBack(base[i].frame.value, TextFor(t, base[i].name).value);
    }
  }

  /** Every slide of a verse carries the verse's reference as title and its number as verse label. */
  lemma VersePlanLabels(v: L.Verse, maxChars: int)
    ensures forall k :: 0 <= k < |VersePlan(v, maxChars)| ==>
      VersePlan(v, maxChars)[k].title == Title(v.book, v.chapter) && VersePlan(v, maxChars)[k].verse == IntToString(v.verse)
    ensures |v.text| <= maxChars ==> |VersePlan(v, maxChars)| == 1 && VersePlan(v, maxChars)[0].content == v.text
  {
  }

  /**
   * A verse longer than `maxChars` is spread over slides whose texts are its words joined by
   * single spaces: no slide text is empty, a slide text over the limit is a single word, the
   * words of the slides in order are exactly `text.split()`, and each slide but the last was
   * closed only because the next word did not fit.
   */
  lemma LongVersePlan(v: L.Verse, maxChars: int)
    requires |v.text| > maxChars
    ensures var plan := VersePlan(v, maxChars);
      forall k :: 0 <= k < |plan| ==> plan[k].content != [] && (|plan[k].content| > maxChars ==> IsWord(plan[k].content))
    ensures var plan := VersePlan(v, maxChars);
      Flatten(seq(|plan|, k requires 0 <= k < |plan| => SplitWords(plan[k].content))) == SplitWords(v.text)
    ensures var plan := VersePlan(v, maxChars);
      forall k :: 0 <= k < |plan| - 1 ==> NextWordOverflows(plan[k].content, plan[k + 1].content, maxChars)
  {
    LongVersePlanChunks(v, maxChars);
    LongVersePlanGreedy(v, maxChars);
  }

  /** The slide texts of a long verse are its chunks. */
  lemma LongVersePlanChunks(v: L.Verse, maxChars: int)
    requires |v.text| > maxChars
    ensures var plan, cs := VersePlan(v, maxChars), Chunks(SplitWords(v.text), maxChars);
      |plan| == |cs| && forall k :: 0 <= k < |plan| ==> plan[k].content == cs[k]
    ensures var plan := VersePlan(v, maxChars);
      forall k :: 0 <= k < |plan| ==> plan[k].content != [] && (|plan[k].content| > maxChars ==> IsWord(plan[k].content))
    ensures var plan := VersePlan(v, maxChars);
      Flatten(seq(|plan|, k requires 0 <= k < |plan| => SplitWords(plan[k].content))) == SplitWords(v.text)
  {
    var words := SplitWords(v.text);
    var plan := VersePlan(v, maxChars);
    var cs := Chunks(words, maxChars);
    ChunksOfWords(words, maxChars);
    assert forall k :: 0 <= k < |plan| ==> plan[k].content == cs[k];
    assert seq(|plan|, k requires 0 <= k < |plan| => SplitWords(plan[k].content))
        == seq(|cs|, k requires 0 <= k < |cs| => SplitWords(cs[k]));
  }

  /** Each slide of a long verse but the last was closed because the next word did not fit. */
  lemma LongVersePlanGreedy(v: L.Verse, maxChars: int)
    requires |v.text| > maxChars
    ensures var plan := VersePlan(v, maxChars);
      forall k :: 0 <= k < |plan| - 1 ==> NextWordOverflows(plan[k].content, plan[k + 1].content, maxChars)
  {
    var words := SplitWords(v.text);
    var plan := VersePlan(v, maxChars);
    var gs := Groups([], words, maxChars);
    GroupsMaximal([], words, maxChars);
    GroupsNonEmpty([], words, maxChars);
    GroupsFlatten([], words, maxChars);
    assert [] + words == words;
    FlattenWords(gs);
    forall k | 0 <= k < |plan| - 1
      ensures NextWordOverflows(plan[k].content, plan[k + 1].content, maxChars)
    {
      assert plan[k].content == Join(gs[k], " ") && plan[k + 1].content == Join(gs[k + 1], " ");
      assert Overflows(gs[k], gs[k + 1], maxChars);
      SplitWordsJoin(gs[k + 1]);
      JoinSnoc(gs[k], gs[k + 1][0], " ");
    }
  }

  /** The first word of the slide text `next` does not fit after the slide text `text`. */
  predicate NextWordOverflows(text: string, next: string, maxChars: int) {
    SplitWords(next) != [] && |text + " " + SplitWords(next)[0]| > maxChars
  }

  /** A verse longer than `maxChars` made only of whitespace has no words and gets no slide at all. */
  lemma BlankLongVerse(v: L.Verse, maxChars: int)
    requires |v.text| > maxChars && SplitWords(v.text) == []
    ensures VersePlan(v, maxChars) == []
  {
  }

  lemma DeckPlanSnoc(verses: seq<L.Verse>, v: L.Verse, maxChars: int)
    ensures DeckPlan(verses + [v], maxChars) == DeckPlan(verses, maxChars) + VersePlan(v, maxChars)
  {
    assert (verses + [v])[..|verses|] == verses;
  }

  /** The slides of `a ++ b` are the slides of `a`, then those of `b`: verse order is slide order. */
  lemma {:induction false} DeckPlanAppend(a: seq<L.Verse>, b: seq<L.Verse>, maxChars: int)
    ensures DeckPlan(a + b, maxChars) == DeckPlan(a, maxChars) + DeckPlan(b, maxChars)
    decreases |b|
  {
    if b == [] {
      assert a + b == a;
    } else {
      var b', last := b[..|b| - 1], b[|b| - 1];
      assert b == b' + [last] && a + b == (a + b') + [last];
      DeckPlanAppend(a, b', maxChars);
      DeckPlanAppendStep(a, b', last, maxChars);
    }
  }

  /** One verse appended to `b` extends the slides of `a ++ b` exactly as it extends those of `b`. */
  lemma DeckPlanAppendStep(a: seq<L.Verse>, b: seq<L.Verse>, last: L.Verse, maxChars: int)
    requires DeckPlan(a + b, maxChars) == DeckPlan(a, maxChars) + DeckPlan(b, maxChars)
    ensures DeckPlan((a + b) + [last], maxChars) == DeckPlan(a, maxChars) + DeckPlan(b + [last], maxChars)
  {
    DeckPlanSnoc(a + b, last, maxChars);
    DeckPlanSnoc(b, last, maxChars);
    ConcatAssoc(DeckPlan(a, maxChars), DeckPlan(b, maxChars), VersePlan(last, maxChars));
  }

  lemma ConcatAssoc<T>(x: seq<T>, y: seq<T>, z: seq<T>)
    ensures (x + y) + z == x + (y + z)
  {
  }

  /**
   * The background shape never satisfies the text box check: the template passes it exactly
   * when its own shapes include text boxes named `TitleBox`, `VerseBox` and `ContentBox`.
   */
  lemma BackgroundNotCounted(template: Slide, hasImage: bool)
    ensures RequiredNames - TextBoxNames(WithBackground(template, hasImage).shapes) == RequiredNames - TextBoxNames(template.shapes)
  {
    var bg := if hasImage then BackgroundPicture else BackgroundRectangle;
    var shapes := WithBackground(template, hasImage).shapes;
    assert shapes == [bg] + template.shapes;
    forall name | name in TextBoxNames(template.shapes)
      ensures name in TextBoxNames(shapes)
    {
      var i :| 0 <= i < |template.shapes| && template.shapes[i].frame.Some? && template.shapes[i].name == name;
      assert shapes[i + 1] == template.shapes[i];
    }
    forall name | name in TextBoxNames(shapes) && name in RequiredNames
      ensures name in TextBoxNames(template.shapes)
    {
      var i :| 0 <= i < |shapes| && shapes[i].frame.Some? && shapes[i].name == name;
      assert i > 0;
      assert template.shapes[i - 1] == shapes[i];
    }
  }
}
