/**
 * Verse lookup (`get_verses`): the parsed selections are joined against the nested Bible
 * dataset `translation -> book -> chapter -> verse -> text`, whose chapter and verse keys
 * are decimal strings. A selection entry whose key path is missing is skipped silently.
 */
module Lookup {
  import opened Wrappers
  import opened PyText
  import Bible
  import S = Selection

  /** One found verse: the `(book, chapter, verse, text)` tuple of the source. */
  datatype Verse = Verse(book: string, chapter: int, verse: int, text: string)

  /**
   * `bible_data["개역개정"][book][str(chapter)][str(verse)]`, or `None` where that
   * subscript chain raises `KeyError`.
   */
  function VerseText(data: Bible.Dataset, book: string, chapter: int, verse: int): Option<string> {
    var ch, v := IntToString(chapter), IntToString(verse);
    if Bible.Translation in data && book in data[Bible.Translation]
       && ch in data[Bible.Translation][book] && v in data[Bible.Translation][book][ch]
    then Some(data[Bible.Translation][book][ch][v])
    else None
  }

  /** The found verses among the first verses of one selection, in verse order. */
  function SelectionVerses(data: Bible.Dataset, book: string, chapter: int, verses: seq<int>): seq<Verse>
    decreases |verses|
  {
    if verses == [] then []
    else
      var found := SelectionVerses(data, book, chapter, verses[..|verses| - 1]);
      match VerseText(data, book, chapter, verses[|verses| - 1])
      case Some(text) => found + [Verse(book, chapter, verses[|verses| - 1], text)]
      case None => found
  }

  /** What `get_verses` returns: the found verses, selection by selection. */
  function Verses(data: Bible.Dataset, selections: seq<S.Selection>): seq<Verse>
    decreases |selections|
  {
    if selections == [] then []
    else
      var last := selections[|selections| - 1];
      Verses(data, selections[..|selections| - 1]) + SelectionVerses(data, last.book, last.chapter, last.verses)
  }

  /**
   * The inner loop of `get_verses`: the verse numbers of one selection, looked up in order;
   * a number whose key path is missing is skipped.
   */
  method LookupSelection(bibleData: Bible.Dataset, book: string, chapter: int, numbers: seq<int>) returns (found: seq<Verse>)
    ensures found == SelectionVerses(bibleData, book, chapter, numbers)
  {
    found := [];
    var j := 0;
    while j < |numbers|
      invariant 0 <= j <= |numbers|
      invariant found == SelectionVerses(bibleData, book, chapter, numbers[..j])
    {
      assert numbers[..j + 1][..j] == numbers[..j];
      var text := VerseText(bibleData, book, chapter, numbers[j]);
      if text.Some? {
        found := found + [Verse(book, chapter, numbers[j], text.value)];
      }
      j := j + 1;
    }
    assert numbers[..j] == numbers;
  }

  /**
   * `get_verses`: the outer loop over the selections. The `version` argument is overwritten
   * with the fixed translation before use, so it has no effect.
   */
  method GetVerses(bibleData: Bible.Dataset, version: string, selections: seq<S.Selection>) returns (verses: seq<Verse>)
    ensures verses == Verses(bibleData, selections)
  {
    verses := [];
    var i := 0;
    while i < |selections|
      invariant 0 <= i <= |selections|
      invariant verses == Verses(bibleData, selections[..i])
    {
      var sel := selections[i];
      assert selections[..i + 1][..i] == selections[..i];
      var found := LookupSelection(bibleData, sel.book, sel.chapter, sel.verses);
      verses := verses + found;
      i := i + 1;
    }
    assert selections[..i] == selections;
  }

  // ------------------------------------------------------------ properties

  lemma {:induction false} SelectionVersesMember(data: Bible.Dataset, book: string, chapter: int, verses: seq<int>, v: Verse)
    ensures v in SelectionVerses(data, book, chapter, verses) <==>
      v.book == book && v.chapter == chapter && v.verse in verses
      && VerseText(data, book, chapter, v.verse) == Some(v.text)
    decreases |verses|
  {
    if verses != [] {
      var init := verses[..|verses| - 1];
      SelectionVersesMember(data, book, chapter, init, v);
      assert verses == init + [verses[|verses| - 1]];
    }
  }

  /** The selection `sel` names `v`'s book, chapter and verse, and the dataset holds `v`'s text there. */
  predicate Names(data: Bible.Dataset, sel: S.Selection, v: Verse) {
    v.book == sel.book && v.chapter == sel.chapter && v.verse in sel.verses
    && VerseText(data, v.book, v.chapter, v.verse) == Some(v.text)
  }

  /**
   * Exactly the entries present in the dataset come out: a verse is returned if and only
   * if some selection names its book, chapter and verse number and the fixed translation
   * holds its text under those keys.
   */
  lemma {:induction false} VersesMember(data: Bible.Dataset, selections: seq<S.Selection>, v: Verse)
    ensures v in Verses(data, selections) <==> exists i :: 0 <= i < |selections| && Names(data, selections[i], v)
    decreases |selections|
  {
    if selections != [] {
      var n := |selections| - 1;
      var init, last := selections[..n], selections[n];
      VersesMember(data, init, v);
      SelectionVersesMember(data, last.book, last.chapter, last.verses, v);
      assert selections == init + [last];
      VersesMemberStep(data, init, last, v);
    }
  }

  /** Adding one selection adds exactly the verses it names. */
  lemma VersesMemberStep(data: Bible.Dataset, init: seq<S.Selection>, last: S.Selection, v: Verse)
    requires v in Verses(data, init) <==> exists i :: 0 <= i < |init| && Names(data, init[i], v)
    requires v in SelectionVerses(data, last.book, last.chapter, last.verses) <==> Names(data, last, v)
    ensures v in Verses(data, init + [last]) <==> exists i :: 0 <= i < |init + [last]| && Names(data, (init + [last])[i], v)
  {
    var all := init + [last];
    assert all[..|init|] == init && all[|init|] == last;
    assert Verses(data, all) == Verses(data, init) + SelectionVerses(data, last.book, last.chapter, last.verses);
    if v in Verses(data, all) {
      if Names(data, last, v) {
        assert Names(data, all[|init|], v);
      } else {
        var i :| 0 <= i < |init| && Names(data, init[i], v);
        assert all[i] == init[i];
      }
    }
    forall i | 0 <= i < |all| && Names(data, all[i], v)
      ensures v in Verses(data, all)
    {
      if i < |init| {
        assert all[i] == init[i];
      }
    }
  }

  /** Order is kept across selections: the verses of `a ++ b` are those of `a`, then those of `b`. */
  lemma {:induction false} VersesAppend(data: Bible.Dataset, a: seq<S.Selection>, b: seq<S.Selection>)
    ensures Verses(data, a + b) == Verses(data, a) + Verses(data, b)
    decreases |b|
  {
    if b == [] {
      assert a + b == a;
    } else {
      var b' := b[..|b| - 1];
      assert (a + b)[..|a + b| - 1] == a + b';
      VersesAppend(data, a, b');
    }
  }

  /** Within one selection, verse numbers are looked up in the order written, duplicates included. */
  lemma {:induction false} SelectionVersesAppend(data: Bible.Dataset, book: string, chapter: int, x: seq<int>, y: seq<int>)
    ensures SelectionVerses(data, book, chapter, x + y)
         == SelectionVerses(data, book, chapter, x) + SelectionVerses(data, book, chapter, y)
    decreases |y|
  {
    if y == [] {
      assert x + y == x;
    } else {
      var y' := y[..|y| - 1];
      assert (x + y)[..|x + y| - 1] == x + y';
      SelectionVersesAppend(data, book, chapter, x, y');
    }
  }

  /** With every entry present, each verse number of each selection gives one verse, in order. */
  lemma {:induction false} AllPresent(data: Bible.Dataset, book: string, chapter: int, verses: seq<int>)
    requires forall j :: 0 <= j < |verses| ==> VerseText(data, book, chapter, verses[j]).Some?
    ensures var r := SelectionVerses(data, book, chapter, verses);
      |r| == |verses| && forall j :: 0 <= j < |r| ==>
        r[j] == Verse(book, chapter, verses[j], VerseText(data, book, chapter, verses[j]).value)
    decreases |verses|
  {
    if verses != [] {
      var n := |verses| - 1;
      var init := verses[..n];
      assert forall j :: 0 <= j < |init| ==> init[j] == verses[j];
      AllPresent(data, book, chapter, init);
      var text := VerseText(data, book, chapter, verses[n]);
      assert text.Some?;
      assert SelectionVerses(data, book, chapter, verses)
          == SelectionVerses(data, book, chapter, init) + [Verse(book, chapter, verses[n], text.value)];
    }
  }

  /** A dataset without the fixed translation yields no verses, whatever was selected. */
  lemma {:induction false} NoTranslationNoVerses(data: Bible.Dataset, selections: seq<S.Selection>)
    requires Bible.Translation !in data
    ensures Verses(data, selections) == []
    decreases |selections|
  {
    if selections != [] {
      var last := selections[|selections| - 1];
      NoTranslationNoVerses(data, selections[..|selections| - 1]);
      SelectionVersesMember(data, last.book, last.chapter, last.verses, Verse(last.book, 0, 0, ""));
      if SelectionVerses(data, last.book, last.chapter, last.verses) != [] {
        var w := SelectionVerses(data, last.book, last.chapter, last.verses)[0];
        SelectionVersesMember(data, last.book, last.chapter, last.verses, w);
      }
    }
  }
}
