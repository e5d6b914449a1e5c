/**
 * The greedy word wrap of `_create_split_slides`: the words of a long verse are taken in
 * order, and a word joins the current slide when the slide's text, with that word added
 * after a single space, is still at most `max_chars` characters long; otherwise the current
 * slide is closed and the word starts the next one.
 *
 * `Groups` is the specification, one group of words per slide; a slide's text is its group
 * joined by single spaces (`Chunks`).
 */
module Chunking {
  import opened PyText

  predicate AllWords(ws: seq<string>) {
    forall i :: 0 <= i < |ws| ==> IsWord(ws[i])
  }

  /**
   * The groups the loop closes, given the group `cur` it is filling and the words still to
   * come. The last group is closed after the loop when it is not empty.
   */
  function Groups(cur: seq<string>, words: seq<string>, maxChars: int): seq<seq<string>>
    decreases |words|
  {
    if words == [] then (if cur == [] then [] else [cur])
    else
      var test := cur + [words[0]];
      if |Join(test, " ")| <= maxChars then Groups(test, words[1..], maxChars)
      else (if cur == [] then [] else [cur]) + Groups([words[0]], words[1..], maxChars)
  }

  /** The text of each slide: its group of words joined by single spaces. */
  function Chunks(words: seq<string>, maxChars: int): (r: seq<string>)
    ensures |r| == |Groups([], words, maxChars)|
  {
    var gs := Groups([], words, maxChars);
    seq(|gs|, k requires 0 <= k < |gs| => Join(gs[k], " "))
  }

  function Flatten(gs: seq<seq<string>>): seq<string>
    decreases |gs|
  {
    if gs == [] then [] else gs[0] + Flatten(gs[1..])
  }

  // ------------------------------------------------------------ properties

  /** No word is lost, duplicated or reordered: the groups, read in order, are exactly the words. */
  lemma {:induction false} GroupsFlatten(cur: seq<string>, words: seq<string>, maxChars: int)
    ensures Flatten(Groups(cur, words, maxChars)) == cur + words
    decreases |words|
  {
    if words == [] {
      assert cur + words == cur;
      if cur != [] {
        assert Flatten([cur]) == cur + Flatten([]);
      }
    } else {
      var w, rest := words[0], words[1..];
      var test := cur + [w];
      assert words == [w] + rest;
      if |Join(test, " ")| <= maxChars {
        GroupsFlatten(test, rest, maxChars);
        assert test + rest == cur + words;
      } else {
        GroupsFlatten([w], rest, maxChars);
        var tail := Groups([w], rest, maxChars);
        if cur != [] {
          assert ([cur] + tail)[1..] == tail;
          assert Flatten([cur] + tail) == cur + Flatten(tail);
        } else {
          assert [] + tail == tail;
        }
      }
    }
  }

  /** Every slide gets at least one word. */
  lemma {:induction false} GroupsNonEmpty(cur: seq<string>, words: seq<string>, maxChars: int)
    ensures forall k :: 0 <= k < |Groups(cur, words, maxChars)| ==> Groups(cur, words, maxChars)[k] != []
    decreases |words|
  {
    if words != [] {
      var w, rest := words[0], words[1..];
      if |Join(cur + [w], " ")| <= maxChars {
        assert Groups(cur, words, maxChars) == Groups(cur + [w], rest, maxChars);
        GroupsNonEmpty(cur + [w], rest, maxChars);
      } else {
        GroupsNonEmpty([w], rest, maxChars);
      }
    }
  }

  /** Every group of two or more words fits in `maxChars` characters. */
  predicate GroupsFitIn(gs: seq<seq<string>>, maxChars: int) {
    forall k :: 0 <= k < |gs| && |gs[k]| > 1 ==> |Join(gs[k], " ")| <= maxChars
  }

  /**
   * Only a group of one word can exceed the limit: every group of two or more words, joined
   * by single spaces, has at most `maxChars` characters.
   */
  lemma {:induction false} GroupsFit(cur: seq<string>, words: seq<string>, maxChars: int)
    requires |cur| <= 1 || |Join(cur, " ")| <= maxChars
    ensures GroupsFitIn(Groups(cur, words, maxChars), maxChars)
    decreases |words|
  {
    if words != [] {
      var w, rest := words[0], words[1..];
      if |Join(cur + [w], " ")| <= maxChars {
        assert Groups(cur, words, maxChars) == Groups(cur + [w], rest, maxChars);
        GroupsFit(cur + [w], rest, maxChars);
      } else {
        GroupsFit([w], rest, maxChars);
        var tail := Groups([w], rest, maxChars);
        var gs := (if cur == [] then [] else [cur]) + tail;
        assert Groups(cur, words, maxChars) == gs;
        forall k | 0 <= k < |gs| && |gs[k]| > 1
          ensures |Join(gs[k], " ")| <= maxChars
        {
          if cur == [] {
            assert gs[k] == tail[k];
          } else if k > 0 {
            assert gs[k] == tail[k - 1];
          } else {
            assert gs[k] == cur;
          }
        }
      }
    }
  }

  /** A group that is being filled stays the first group, so its first word opens the next slide. */
  lemma {:induction false} GroupsHead(cur: seq<string>, words: seq<string>, maxChars: int)
    requires cur != []
    ensures var gs := Groups(cur, words, maxChars);
      |gs| > 0 && |gs[0]| > 0 && gs[0][0] == cur[0]
    decreases |words|
  {
    if words != [] {
      var w, rest := words[0], words[1..];
      if |Join(cur + [w], " ")| <= maxChars {
        assert Groups(cur, words, maxChars) == Groups(cur + [w], rest, maxChars);
        GroupsHead(cur + [w], rest, maxChars);
      }
    }
  }

  /** The group `next` starts with a word that does not fit after the words of `g`. */
  predicate Overflows(g: seq<string>, next: seq<string>, maxChars: int) {
    next != [] && |Join(g + [next[0]], " ")| > maxChars
  }

  /** Each group but the last is closed because the first word of the next one overflows it. */
  predicate Greedy(gs: seq<seq<string>>, maxChars: int) {
    forall k :: 0 <= k < |gs| - 1 ==> Overflows(gs[k], gs[k + 1], maxChars)
  }

  /**
   * The wrap is greedy: a slide is closed only when the next word would not fit, so each
   * group followed by the first word of the next group is over the limit.
   */
  lemma {:induction false} GroupsMaximal(cur: seq<string>, words: seq<string>, maxChars: int)
    ensures Greedy(Groups(cur, words, maxChars), maxChars)
    decreases |words|
  {
    if words != [] {
      var w, rest := words[0], words[1..];
      if |Join(cur + [w], " ")| <= maxChars {
        var gs := Groups(cur + [w], rest, maxChars);
        assert Groups(cur, words, maxChars) == gs;
        GroupsMaximal(cur + [w], rest, maxChars);
        forall k | 0 <= k < |gs| - 1
          ensures Overflows(gs[k], gs[k + 1], maxChars)
        {
        }
      } else {
        GroupsMaximal([w], rest, maxChars);
        GroupsHead([w], rest, maxChars);
        var tail := Groups([w], rest, maxChars);
        if cur == [] {
          assert [] + tail == tail;
        } else {
          var gs := [cur] + tail;
          assert Groups(cur, words, maxChars) == gs;
          forall k | 0 <= k < |gs| - 1
            ensures Overflows(gs[k], gs[k + 1], maxChars)
          {
            if k > 0 {
              assert gs[k] == tail[k - 1] && gs[k + 1] == tail[k];
            } else {
              assert gs[0] == cur && gs[1] == tail[0] && tail[0][0] == w;
            }
          }
        }
      }
    }
  }

  lemma JoinNonEmpty(ws: seq<string>, sep: string)
    requires ws != [] && ws[0] != []
    ensures Join(ws, sep) != []
  {
    assert |ws| == 1 || Join(ws, sep) == ws[0] + sep + Join(ws[1..], sep);
  }

  lemma {:induction false} JoinAllWords(ws: seq<string>)
    requires AllWords(ws)
    ensures Join(ws, " ") == [] <==> ws == []
  {
    if ws != [] {
      JoinNonEmpty(ws, " ");
    }
  }

  /**
   * The slide texts of a long verse: none is empty, one that exceeds `maxChars` is a single
   * word, and the words of the slides, read in order, are exactly the verse's words.
   */
  lemma ChunksOfWords(words: seq<string>, maxChars: int)
    requires AllWords(words)
    ensures var cs := Chunks(words, maxChars);
      forall k :: 0 <= k < |cs| ==> cs[k] != [] && (|cs[k]| > maxChars ==> IsWord(cs[k]))
    ensures var cs := Chunks(words, maxChars);
      Flatten(seq(|cs|, k requires 0 <= k < |cs| => SplitWords(cs[k]))) == words
  {
    var gs := Groups([], words, maxChars);
    var cs := Chunks(words, maxChars);
    GroupsFlatten([], words, maxChars);
    GroupsNonEmpty([], words, maxChars);
    GroupsFit([], words, maxChars);
    assert [] + words == words;
    FlattenWords(gs);
    forall k | 0 <= k < |cs|
      ensures cs[k] != [] && (|cs[k]| > maxChars ==> IsWord(cs[k]))
      ensures SplitWords(cs[k]) == gs[k]
    {
      assert cs[k] == Join(gs[k], " ");
      JoinAllWords(gs[k]);
      SplitWordsJoin(gs[k]);
      if |cs[k]| > maxChars {
        assert |gs[k]| == 1;
      }
    }
    assert seq(|cs|, k requires 0 <= k < |cs| => SplitWords(cs[k])) == gs;
  }

  /** Each group of a flattened list of words is a list of words. */
  lemma {:induction false} FlattenWords(gs: seq<seq<string>>)
    requires AllWords(Flatten(gs))
    ensures forall k :: 0 <= k < |gs| ==> AllWords(gs[k])
    decreases |gs|
  {
    if gs != [] {
      var f := Flatten(gs);
      assert f == gs[0] + Flatten(gs[1..]);
      forall i | 0 <= i < |Flatten(gs[1..])|
        ensures IsWord(Flatten(gs[1..])[i])
      {
        assert Flatten(gs[1..])[i] == f[|gs[0]| + i];
      }
      FlattenWords(gs[1..]);
      forall k | 0 <= k < |gs|
        ensures AllWords(gs[k])
      {
        if k == 0 {
          forall i | 0 <= i < |gs[0]|
            ensures IsWord(gs[0][i])
          {
            assert gs[0][i] == f[i];
          }
        } else {
          assert gs[k] == gs[1..][k - 1];
        }
      }
    }
  }
}
