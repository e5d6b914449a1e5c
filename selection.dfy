/**
 * The reference parser (`parse_selection`): a string such as `창1:1-3,2:1-2; 왕상3:1-5`
 * becomes a list of (book, chapter, verse list) selections.
 *
 * `Parse` is the specification, written as three layers that follow the source's three
 * nested loops (`;` segments, `,` fragments, verse tokens); `ParseSelection` is the loop
 * program, proved equal to it.
 */
module Selection {
  import opened Wrappers
  import opened PyText
  import Bible

  /** One parsed reference: the book, the chapter and the verse numbers as written. */
  datatype Selection = Selection(book: string, chapter: int, verses: seq<int>)

  /** The `ValueError` raised by `int()` or by a tuple unpacking, with the stripped `,` fragment it came from. */
  datatype ParseError = ValueError(fragment: string)

  type Parsed = Result<seq<Selection>, ParseError>

  /** Two parse steps in sequence: the first exception escapes, otherwise the selections concatenate. */
  function Then(a: Parsed, b: Parsed): Parsed {
    if a.Err? then a else if b.Err? then b else Ok(a.value + b.value)
  }

  lemma ThenAssociative(a: Parsed, b: Parsed, c: Parsed)
    ensures Then(Then(a, b), c) == Then(a, Then(b, c))
  {
    if a.Ok? && b.Ok? && c.Ok? {
      assert (a.value + b.value) + c.value == a.value + (b.value + c.value);
    }
  }

  /** An exception stops the parse: whatever follows, the first error is the result. */
  lemma ThenErr(a: Parsed, b: Parsed)
    requires a.Err?
    ensures Then(a, b) == a
  {
  }

  /** Python's `list(range(a, b + 1))`: the integers from `a` to `b` inclusive, empty when `a > b`. */
  function Range(a: int, b: int): (r: seq<int>)
    ensures |r| == if a <= b then b - a + 1 else 0
    ensures forall i :: 0 <= i < |r| ==> r[i] == a + i
    decreases b - a
  {
    if a > b then [] else [a] + Range(a + 1, b)
  }

  // ------------------------------------------------------- re.search(r'(\d+:)')

  /** The pattern `\d+:` matches at index `i` of `s`: digits from `i` up to a colon. */
  predicate ChapterMarkAt(s: string, i: int) {
    0 <= i < |s| && exists k :: i < k < |s| && s[k] == ':' && forall m :: i <= m < k ==> IsDigit(s[m])
  }

  function DigitRunEnd(s: string, i: nat): (k: nat)
    requires i <= |s|
    ensures i <= k <= |s|
    ensures forall m :: i <= m < k ==> IsDigit(s[m])
    ensures k == |s| || !IsDigit(s[k])
    decreases |s| - i
  {
    if i < |s| && IsDigit(s[i]) then DigitRunEnd(s, i + 1) else i
  }

  lemma NoMarkAt(s: string, i: nat)
    requires i < |s|
    requires var k := DigitRunEnd(s, i); !(i < k < |s| && s[k] == ':')
    ensures !ChapterMarkAt(s, i)
  {
    var e := DigitRunEnd(s, i);
    forall k | i < k < |s| && s[k] == ':'
      ensures exists m :: i <= m < k && !IsDigit(s[m])
    {
      if e < k {
        assert !IsDigit(s[e]);
      }
    }
  }

  /** Where the leftmost match of `\d+:` at or after `i` starts, as `re.search` finds it. */
  function FindMarkFrom(s: string, i: nat): (r: Option<nat>)
    requires i <= |s|
    ensures r.Some? ==> i <= r.value < |s| && ChapterMarkAt(s, r.value)
    ensures r.Some? ==> forall j :: i <= j < r.value ==> !ChapterMarkAt(s, j)
    ensures r.None? ==> forall j :: i <= j < |s| ==> !ChapterMarkAt(s, j)
    decreases |s| - i
  {
    if i == |s| then None
    else
      var k := DigitRunEnd(s, i);
      if i < k < |s| && s[k] == ':' then Some(i)
      else
        NoMarkAt(s, i);
        FindMarkFrom(s, i + 1)
  }

  // ------------------------------------------------------------ specification

  /** The verse list one stripped, non-empty token denotes: `a-b` is a range, anything else one number. */
  function ExpandVerses(v: string): Option<seq<int>> {
    if '-' in v then
      var ends := SplitOn(v, '-');
      if |ends| != 2 then None
      else
        match (ParseInt(ends[0]), ParseInt(ends[1]))
        case (Some(a), Some(b)) => Some(Range(a, b))
        case _ => None
    else
      match ParseInt(v)
      case Some(n) => Some([n])
      case None => None
  }

  /** One verse token of the fragment `frag`: skipped when blank, otherwise one selection. */
  function ParseToken(book: string, chapter: int, frag: string, raw: string): (r: Parsed)
    ensures r.Err? ==> r.error == ValueError(frag)
    ensures r.Ok? ==> |r.value| <= 1 && forall i :: 0 <= i < |r.value| ==> r.value[i].book == book && r.value[i].chapter == chapter
  {
    var v := Strip(raw);
    if v == [] then Ok([])
    else
      match ExpandVerses(v)
      case Some(vs) => Ok([Selection(book, chapter, vs)])
      case None => Err(ValueError(frag))
  }

  function ParseTokens(book: string, chapter: int, frag: string, tokens: seq<string>): (r: Parsed)
    ensures r.Err? ==> r.error == ValueError(frag)
    decreases |tokens|
  {
    if tokens == [] then Ok([])
    else Then(ParseTokens(book, chapter, frag, tokens[..|tokens| - 1]), ParseToken(book, chapter, frag, tokens[|tokens| - 1]))
  }

  /** One `,` fragment `chapter:verses`; skipped when blank or without a colon. */
  function ParseFragment(book: string, raw: string): (r: Parsed)
    ensures r.Err? ==> r.error == ValueError(Strip(raw)) && ':' in Strip(raw)
  {
    var f := Strip(raw);
    if f == [] || ':' !in f then Ok([])
    else
      var parts := SplitOn(f, ':');
      if |parts| != 2 then Err(ValueError(f))
      else
        match ParseInt(parts[0])
        case None => Err(ValueError(f))
        case Some(chapter) => ParseTokens(book, chapter, f, SplitOn(parts[1], ','))
  }

  function ParseFragments(book: string, frags: seq<string>): (r: Parsed)
    ensures r.Err? ==> ':' in r.error.fragment
    decreases |frags|
  {
    if frags == [] then Ok([])
    else Then(ParseFragments(book, frags[..|frags| - 1]), ParseFragment(book, frags[|frags| - 1]))
  }

  /** One `;` segment: the book name before the first `\d+:`, then its `,` fragments. */
  function ParseSegment(raw: string): (r: Parsed)
    ensures r.Err? ==> ':' in r.error.fragment
  {
    var seg := Strip(raw);
    if seg == [] then Ok([])
    else
      match FindMarkFrom(seg, 0)
      case None => Ok([])
      case Some(p) => ParseFragments(Bible.Resolve(Strip(seg[..p])), SplitOn(seg[p..], ','))
  }

  function ParseSegments(segs: seq<string>): (r: Parsed)
    ensures r.Err? ==> ':' in r.error.fragment
    decreases |segs|
  {
    if segs == [] then Ok([])
    else Then(ParseSegments(segs[..|segs| - 1]), ParseSegment(segs[|segs| - 1]))
  }

  /** What `parse_selection` returns for `selection`, or the `ValueError` it raises. */
  function Parse(selection: string): (r: Parsed)
    ensures r.Err? ==> ':' in r.error.fragment
  {
    ParseSegments(SplitOn(selection, ';'))
  }

  // ------------------------------------------------- an exception escapes

  lemma TokensErrStep(book: string, chapter: int, frag: string, tokens: seq<string>, n: nat, e: ParseError)
    requires n < |tokens| && ParseTokens(book, chapter, frag, tokens[..n]) == Err(e)
    ensures ParseTokens(book, chapter, frag, tokens[..n + 1]) == Err(e)
  {
    assert tokens[..n + 1][..n] == tokens[..n];
    ThenErr(ParseTokens(book, chapter, frag, tokens[..n]), ParseToken(book, chapter, frag, tokens[n]));
  }

  lemma FragmentsErrStep(book: string, frags: seq<string>, n: nat, e: ParseError)
    requires n < |frags| && ParseFragments(book, frags[..n]) == Err(e)
    ensures ParseFragments(book, frags[..n + 1]) == Err(e)
  {
    assert frags[..n + 1][..n] == frags[..n];
    ThenErr(ParseFragments(book, frags[..n]), ParseFragment(book, frags[n]));
  }

  lemma SegmentsErrStep(segs: seq<string>, n: nat, e: ParseError)
    requires n < |segs| && ParseSegments(segs[..n]) == Err(e)
    ensures ParseSegments(segs[..n + 1]) == Err(e)
  {
    assert segs[..n + 1][..n] == segs[..n];
    ThenErr(ParseSegments(segs[..n]), ParseSegment(segs[n]));
  }

  lemma {:induction false} TokensErrSticks(book: string, chapter: int, frag: string, tokens: seq<string>, n: nat, e: ParseError)
    requires n <= |tokens| && ParseTokens(book, chapter, frag, tokens[..n]) == Err(e)
    ensures ParseTokens(book, chapter, frag, tokens) == Err(e)
    decreases |tokens| - n
  {
    if n < |tokens| {
      TokensErrStep(book, chapter, frag, tokens, n, e);
      TokensErrSticks(book, chapter, frag, tokens, n + 1, e);
    } else {
      assert tokens[..n] == tokens;
    }
  }

  lemma {:induction false} FragmentsErrSticks(book: string, frags: seq<string>, n: nat, e: ParseError)
    requires n <= |frags| && ParseFragments(book, frags[..n]) == Err(e)
    ensures ParseFragments(book, frags) == Err(e)
    decreases |frags| - n
  {
    if n < |frags| {
      FragmentsErrStep(book, frags, n, e);
      FragmentsErrSticks(book, frags, n + 1, e);
    } else {
      assert frags[..n] == frags;
    }
  }

  lemma {:induction false} SegmentsErrSticks(segs: seq<string>, n: nat, e: ParseError)
    requires n <= |segs| && ParseSegments(segs[..n]) == Err(e)
    ensures ParseSegments(segs) == Err(e)
    decreases |segs| - n
  {
    if n < |segs| {
      SegmentsErrStep(segs, n, e);
      SegmentsErrSticks(segs, n + 1, e);
    } else {
      assert segs[..n] == segs;
    }
  }

  // ------------------------------------------------- one more element

  lemma TokensStep(book: string, chapter: int, frag: string, tokens: seq<string>, k: nat, acc: seq<Selection>)
    requires k < |tokens| && ParseTokens(book, chapter, frag, tokens[..k]) == Ok(acc)
    ensures ParseTokens(book, chapter, frag, tokens[..k + 1]) == Then(Ok(acc), ParseToken(book, chapter, frag, tokens[k]))
  {
    assert tokens[..k + 1][..k] == tokens[..k];
  }

  lemma FragmentsStep(book: string, frags: seq<string>, j: nat, acc: seq<Selection>)
    requires j < |frags| && ParseFragments(book, frags[..j]) == Ok(acc)
    ensures ParseFragments(book, frags[..j + 1]) == Then(Ok(acc), ParseFragment(book, frags[j]))
  {
    assert frags[..j + 1][..j] == frags[..j];
  }

  /** A fragment that parses adds its selections to those of the fragments before it. */
  lemma FragmentOk(book: string, frags: seq<string>, j: nat, acc: seq<Selection>, sel: seq<Selection>)
    requires j < |frags| && ParseFragments(book, frags[..j]) == Ok(acc)
    requires ParseFragment(book, frags[j]) == Ok(sel)
    ensures ParseFragments(book, frags[..j + 1]) == Ok(acc + sel)
  {
    FragmentsStep(book, frags, j, acc);
  }

  /** A fragment that fails, after fragments that all parse, is the error of the whole list. */
  lemma FragmentErr(book: string, frags: seq<string>, j: nat, acc: seq<Selection>, e: ParseError)
    requires j < |frags| && ParseFragments(book, frags[..j]) == Ok(acc)
    requires ParseFragment(book, frags[j]) == Err(e)
    ensures ParseFragments(book, frags) == Err(e)
  {
    FragmentsStep(book, frags, j, acc);
    FragmentsErrSticks(book, frags, j + 1, e);
  }

  /** A blank fragment, or one without `:`, is skipped. */
  lemma FragmentSkipped(book: string, raw: string)
    requires Strip(raw) == [] || ':' !in Strip(raw)
    ensures ParseFragment(book, raw) == Ok([])
  {
  }

  /** A fragment that does not split into two parts at `:`, or whose chapter is not a number, is rejected. */
  lemma FragmentRejected(book: string, raw: string)
    requires var f := Strip(raw); var parts := SplitOn(f, ':');
      f != [] && ':' in f && (|parts| != 2 || ParseInt(parts[0]).None?)
    ensures ParseFragment(book, raw) == Err(ValueError(Strip(raw)))
  {
  }

  /** Otherwise the fragment is parsed token by token. */
  lemma FragmentTokens(book: string, raw: string, chapter: int)
    requires var f := Strip(raw); var parts := SplitOn(f, ':');
      f != [] && ':' in f && |parts| == 2 && ParseInt(parts[0]) == Some(chapter)
    ensures var parts := SplitOn(Strip(raw), ':');
      ParseFragment(book, raw) == ParseTokens(book, chapter, Strip(raw), SplitOn(parts[1], ','))
  {
  }

  lemma SegmentsStep(segs: seq<string>, i: nat, acc: seq<Selection>)
    requires i < |segs| && ParseSegments(segs[..i]) == Ok(acc)
    ensures ParseSegments(segs[..i + 1]) == Then(Ok(acc), ParseSegment(segs[i]))
  {
    assert segs[..i + 1][..i] == segs[..i];
  }

  // ------------------------------------------------------------ properties

  lemma {:induction false} ParseSegmentsAppend(x: seq<string>, y: seq<string>)
    ensures ParseSegments(x + y) == Then(ParseSegments(x), ParseSegments(y))
    decreases |y|
  {
    if y == [] {
      assert x + y == x;
      assert ParseSegments(x).Ok? ==> ParseSegments(x).value + [] == ParseSegments(x).value;
    } else {
      var y' := y[..|y| - 1];
      assert (x + y)[..|x + y| - 1] == x + y';
      ParseSegmentsAppend(x, y');
      ThenAssociative(ParseSegments(x), ParseSegments(y'), ParseSegment(y[|y| - 1]));
    }
  }

  /**
   * Segments are independent: parsing `a;b` gives the selections of `a` followed by
   * those of `b`, and the first `ValueError` when either raises.
   */
  lemma ParseSemicolon(a: string, b: string)
    ensures Parse(a + ";" + b) == Then(Parse(a), Parse(b))
  {
    SplitOnAppend(a, b, ';');
    ParseSegmentsAppend(SplitOn(a, ';'), SplitOn(b, ';'));
  }

  lemma NatToStringHasNo(n: nat, c: char)
    requires !IsDigit(c)
    ensures c !in NatToString(n)
  {
  }

  /** A range whose first end holds an information separator is rejected, as `int()` rejects that end. */
  lemma ExpandRejectsSeparator(a: string, b: string)
    requires '-' !in a && '-' !in b && HasInfoSeparator(a)
    ensures ExpandVerses(a + "-" + b) == None
  {
    var v := a + "-" + b;
    assert v == a + ['-'] + b;
    assert '-' in v by { assert v[|a|] == '-'; }
    SplitOnAppend(a, b, '-');
    SplitOnFree(a, '-');
    SplitOnFree(b, '-');
  }

  /** `1<U+001F>-3` is not a range: `int("1\x1f")` raises `ValueError`. */
  lemma SeparatorRangeRejected()
    ensures ExpandVerses("1\U{1F}-3") == None
  {
    assert IsInfoSeparator("1\U{1F}"[1]);
    ExpandRejectsSeparator("1\U{1F}", "3");
    assert "1\U{1F}" + "-" + "3" == "1\U{1F}-3";
  }

  /** A token `a-b` expands to the inclusive range from `a` to `b`; a reversed range expands to no verses. */
  lemma ExpandRange(a: nat, b: nat)
    ensures ExpandVerses(NatToString(a) + "-" + NatToString(b)) == Some(Range(a, b))
    ensures a > b ==> Range(a, b) == []
  {
    var sa, sb := NatToString(a), NatToString(b);
    var v := sa + "-" + sb;
    assert v[|sa|] == '-';
    NatToStringHasNo(a, '-');
    NatToStringHasNo(b, '-');
    assert Join([sa, sb], "-") == v;
    SplitOnJoin([sa, sb], '-');
    ParseIntOfString(a);
    ParseIntOfString(b);
  }

  /** A token without `-` is one verse number. */
  lemma ExpandSingle(n: nat)
    ensures ExpandVerses(NatToString(n)) == Some([n])
  {
    NatToStringHasNo(n, '-');
    ParseIntOfString(n);
  }

  /** A negative verse number is read as a range with an empty start, and `int("")` raises. */
  lemma ExpandNegative(n: nat)
    ensures ExpandVerses("-" + NatToString(n)) == None
  {
    var sn := NatToString(n);
    var v := "-" + sn;
    NatToStringHasNo(n, '-');
    assert Join(["", sn], "-") == v;
    SplitOnJoin(["", sn], '-');
    assert Strip("") == "";
  }

  /**
   * A fragment from the `,` split holds no comma, so the inner `verses.split(",")` sees one
   * token: the fragment yields nothing without a colon or with a blank verse part, raises
   * on a second colon or a non-numeric chapter, and otherwise yields exactly the one
   * selection of its verse token.
   */
  lemma FragmentSelection(book: string, raw: string)
    requires ',' !in raw
    ensures var f := Strip(raw); var r := ParseFragment(book, raw);
      && (':' !in f ==> r == Ok([]))
      && (':' in f && (|SplitOn(f, ':')| != 2 || ParseInt(SplitOn(f, ':')[0]).None?) ==> r == Err(ValueError(f)))
      && (':' in f && |SplitOn(f, ':')| == 2 && ParseInt(SplitOn(f, ':')[0]).Some? ==>
            r == ParseToken(book, ParseInt(SplitOn(f, ':')[0]).value, f, SplitOn(f, ':')[1]))
    ensures ParseFragment(book, raw).Ok? ==> |ParseFragment(book, raw).value| <= 1
  {
    var f := Strip(raw);
    StripKeepsOut(raw, ',');
    if ':' in f {
      var parts := SplitOn(f, ':');
      SplitOnSpec(f, ':');
      if |parts| == 2 && ParseInt(parts[0]).Some? {
        JoinKeepsOut(parts, ":", ',', 1);
        SplitOnFree(parts[1], ',');
        var ch := ParseInt(parts[0]).value;
        var t := ParseToken(book, ch, f, parts[1]);
        assert [parts[1]][..0] == [];
        assert t.Ok? ==> [] + t.value == t.value;
        assert ParseTokens(book, ch, f, [parts[1]]) == Then(Ok([]), t);
      }
    }
  }

  /** Every selection of a segment's fragments carries the segment's book, at most one per fragment. */
  lemma {:induction false} FragmentsBook(book: string, frags: seq<string>)
    requires forall i :: 0 <= i < |frags| ==> ',' !in frags[i]
    ensures var r := ParseFragments(book, frags);
      r.Ok? ==> |r.value| <= |frags| && forall k :: 0 <= k < |r.value| ==> r.value[k].book == book
    decreases |frags|
  {
    if frags != [] {
      var last := frags[|frags| - 1];
      FragmentsBook(book, frags[..|frags| - 1]);
      FragmentSelection(book, last);
    }
  }

  /**
   * A blank segment, or one with no `\d+:`, contributes nothing; otherwise the book of every
   * selection is the trimmed text before the first `\d+:`, resolved by exact abbreviation
   * match, with at most one selection per `,` fragment.
   */
  lemma SegmentBook(raw: string)
    ensures var seg := Strip(raw);
      (seg == [] || FindMarkFrom(seg, 0).None?) ==> ParseSegment(raw) == Ok([])
    ensures var seg := Strip(raw);
      seg != [] && FindMarkFrom(seg, 0).Some? && ParseSegment(raw).Ok? ==>
        var p := FindMarkFrom(seg, 0).value;
        var sels := ParseSegment(raw).value;
        |sels| <= |SplitOn(seg[p..], ',')| &&
        forall k :: 0 <= k < |sels| ==> sels[k].book == Bible.Resolve(Strip(seg[..p]))
  {
    var seg := Strip(raw);
    if seg != [] && FindMarkFrom(seg, 0).Some? {
      var p := FindMarkFrom(seg, 0).value;
      SplitOnSpec(seg[p..], ',');
      FragmentsBook(Bible.Resolve(Strip(seg[..p])), SplitOn(seg[p..], ','));
    }
  }

  lemma FindMarkLeast(s: string, p: nat)
    requires ChapterMarkAt(s, p)
    requires forall j :: 0 <= j < p ==> !ChapterMarkAt(s, j)
    ensures FindMarkFrom(s, 0) == Some(p)
  {
  }

  /** Without a `;` the whole selection is one segment. */
  lemma OneSegment(s: string)
    requires ';' !in s
    ensures Parse(s) == ParseSegment(s)
  {
    SplitOnFree(s, ';');
    var noSegs: seq<string> := [];
    assert [s][..0] == noSegs;
    var r := ParseSegment(s);
    assert r.Ok? ==> [] + r.value == r.value;
  }

  /** Without a `,` a segment's verse part is one fragment. */
  lemma OneFragment(book: string, f: string)
    requires ',' !in f
    ensures ParseFragments(book, SplitOn(f, ',')) == ParseFragment(book, f)
  {
    SplitOnFree(f, ',');
    var noFrags: seq<string> := [];
    assert [f][..0] == noFrags;
    var r := ParseFragment(book, f);
    assert r.Ok? ==> [] + r.value == r.value;
  }

  /** No match of `\d+:` starts at a character that is not a digit. */
  lemma NoMarkAtNonDigit(s: string, j: nat)
    requires j < |s| && !IsDigit(s[j])
    ensures !ChapterMarkAt(s, j)
  {
  }

  /** No match of `\d+:` starts inside a book name that holds no digit. */
  lemma DigitFreeName(name: string, f: string)
    requires forall i :: 0 <= i < |name| ==> !IsDigit(name[i])
    ensures forall j :: 0 <= j < |name| ==> !ChapterMarkAt(name + f, j)
  {
    forall j | 0 <= j < |name|
      ensures !ChapterMarkAt(name + f, j)
    {
      assert (name + f)[j] == name[j];
      NoMarkAtNonDigit(name + f, j);
    }
  }

  /**
   * No match of `\d+:` starts inside `요한1서`, `요한2서` or `요한3서`: the digit is followed
   * by a syllable, not a colon.
   */
  lemma NumberedLetterName(name: string, f: string)
    requires |name| == 4 && !IsDigit(name[0]) && !IsDigit(name[1]) && !IsDigit(name[3]) && name[3] != ':'
    ensures forall j :: 0 <= j < |name| ==> !ChapterMarkAt(name + f, j)
  {
    var s := name + f;
    assert s[0] == name[0] && s[1] == name[1] && s[3] == name[3];
    NoMarkAtNonDigit(s, 0);
    NoMarkAtNonDigit(s, 1);
    NoMarkAtNonDigit(s, 3);
  }

  /** The leftmost `\d+:` of `name + f` is where `f` starts, when no match starts inside `name`. */
  lemma MarkAfterName(name: string, f: string, c: nat)
    requires forall j :: 0 <= j < |name| ==> !ChapterMarkAt(name + f, j)
    requires 0 < c < |f| && f[c] == ':'
    requires forall m :: 0 <= m < c ==> IsDigit(f[m])
    ensures FindMarkFrom(name + f, 0) == Some(|name|)
  {
    var s := name + f;
    var p := |name|;
    assert s[p + c] == ':';
    forall m | p <= m < p + c
      ensures IsDigit(s[m])
    {
      assert s[m] == f[m - p];
    }
    assert ChapterMarkAt(s, p);
    FindMarkLeast(s, p);
  }

  /**
   * A single segment `<name><chapter digits>:...` whose book name holds no `;` and no match
   * of `\d+:` is split at the chapter digits, and its book name is resolved.
   */
  lemma SegmentSplit(name: string, f: string, c: nat)
    requires ';' !in name && (name == [] || !IsSpace(name[0]))
    requires forall j :: 0 <= j < |name| ==> !ChapterMarkAt(name + f, j)
    requires ';' !in f && 0 < c < |f| && f[c] == ':' && !IsSpace(f[|f| - 1])
    requires forall m :: 0 <= m < c ==> IsDigit(f[m])
    ensures Parse(name + f) == ParseFragments(Bible.Resolve(Strip(name)), SplitOn(f, ','))
  {
    TrimmedReference(name, f, c);
    MarkAfterName(name, f, c);
    SegmentAtJoin(name, f);
  }

  /** `SegmentAt` with the segment given as the book name and the text after it. */
  lemma SegmentAtJoin(name: string, f: string)
    requires var s := name + f; ';' !in s && s != [] && !IsSpace(s[0]) && !IsSpace(s[|s| - 1])
    requires FindMarkFrom(name + f, 0) == Some(|name|)
    ensures Parse(name + f) == ParseFragments(Bible.Resolve(Strip(name)), SplitOn(f, ','))
  {
    var s := name + f;
    assert s[..|name|] == name && s[|name|..] == f;
    SegmentAt(s, |name|);
  }

  /** A reference made of such a name and fragment is one trimmed segment. */
  lemma TrimmedReference(name: string, f: string, c: nat)
    requires ';' !in name && (name == [] || !IsSpace(name[0]))
    requires ';' !in f && 0 < c < |f| && f[c] == ':' && !IsSpace(f[|f| - 1])
    requires forall m :: 0 <= m < c ==> IsDigit(f[m])
    ensures var s := name + f;
      ';' !in s && s != [] && !IsSpace(s[0]) && !IsSpace(s[|s| - 1])
  {
    var s := name + f;
    assert IsDigit(f[0]);
    assert s[0] == if name == [] then f[0] else name[0];
    assert s[|s| - 1] == f[|f| - 1];
  }

  /** A trimmed segment whose first `\d+:` is at `p`: the book is the text before `p`. */
  lemma SegmentAt(s: string, p: nat)
    requires ';' !in s && s != [] && !IsSpace(s[0]) && !IsSpace(s[|s| - 1])
    requires FindMarkFrom(s, 0) == Some(p)
    ensures Parse(s) == ParseFragments(Bible.Resolve(Strip(s[..p])), SplitOn(s[p..], ','))
  {
    OneSegment(s);
    StripOfTrimmed(s);
  }

  /** A fragment `<chapter>:<token>` with a numeric chapter and a single token is that token's selection. */
  lemma ChapterFragment(book: string, chapter: nat, v: string)
    requires ':' !in v && ',' !in v && v != [] && !IsSpace(v[|v| - 1])
    ensures var f := NatToString(chapter) + ":" + v;
      ParseFragment(book, f) == ParseToken(book, chapter, f, v)
  {
    var sc := NatToString(chapter);
    var f := sc + ":" + v;
    NatToStringHasNo(chapter, ',');
    NatToStringHasNo(chapter, ':');
    assert f[|sc|] == ':';
    assert f[|f| - 1] == v[|v| - 1];
    StripOfTrimmed(f);
    assert Join([sc, v], ":") == f;
    SplitOnJoin([sc, v], ':');
    ParseIntOfString(chapter);
    FragmentSelection(book, f);
  }

  /** The verse token `<a>-<b>` is one selection of the verses `a` to `b`. */
  lemma RangeToken(book: string, chapter: int, frag: string, a: nat, b: nat)
    ensures ParseToken(book, chapter, frag, NatToString(a) + "-" + NatToString(b))
         == Ok([Selection(book, chapter, Range(a, b))])
  {
    var sb := NatToString(b);
    var v := NatToString(a) + "-" + sb;
    assert v[|v| - 1] == sb[|sb| - 1];
    StripOfTrimmed(v);
    ExpandRange(a, b);
  }

  /** The fragment `<chapter>:<a>-<b>` is one selection of the verses `a` to `b`. */
  lemma RangeFragment(book: string, chapter: nat, a: nat, b: nat)
    ensures ParseFragment(book, NatToString(chapter) + ":" + (NatToString(a) + "-" + NatToString(b)))
         == Ok([Selection(book, chapter, Range(a, b))])
  {
    var sb := NatToString(b);
    var v := NatToString(a) + "-" + sb;
    NatToStringHasNo(a, ',');
    NatToStringHasNo(b, ',');
    NatToStringHasNo(a, ':');
    NatToStringHasNo(b, ':');
    assert v[|v| - 1] == sb[|sb| - 1];
    ChapterFragment(book, chapter, v);
    RangeToken(book, chapter, NatToString(chapter) + ":" + v, a, b);
  }

  /**
   * A one-range reference `<name><chapter>:<a>-<b>` parses to exactly one selection: the
   * resolved book, the chapter, and the verses from `a` to `b` (none when `a > b`).
   */
  lemma SingleRangeReference(name: string, chapter: nat, a: nat, b: nat)
    requires ';' !in name && (name == [] || !IsSpace(name[0]))
    requires forall j :: 0 <= j < |name| ==>
      !ChapterMarkAt(name + (NatToString(chapter) + ":" + (NatToString(a) + "-" + NatToString(b))), j)
    ensures Parse(name + (NatToString(chapter) + ":" + (NatToString(a) + "-" + NatToString(b))))
         == Ok([Selection(Bible.Resolve(Strip(name)), chapter, Range(a, b))])
  {
    var sc, sa, sb := NatToString(chapter), NatToString(a), NatToString(b);
    var f := sc + ":" + (sa + "-" + sb);
    NumeralShape(sc, sa, sb);
    SegmentSplit(name, f, |sc|);
    OneFragment(Bible.Resolve(Strip(name)), f);
    RangeFragment(Bible.Resolve(Strip(name)), chapter, a, b);
  }

  /** A non-empty string of decimal digits. */
  predicate Numeral(s: string) {
    s != [] && forall i :: 0 <= i < |s| ==> IsDigit(s[i])
  }

  /** The shape of `<c>:<a>-<b>` for any three numerals. */
  lemma NumeralShape(sc: string, sa: string, sb: string)
    requires Numeral(sc) && Numeral(sa) && Numeral(sb)
    ensures var f := sc + ":" + (sa + "-" + sb);
      && ';' !in f && ',' !in f && 0 < |sc| < |f| && f[|sc|] == ':' && !IsSpace(f[|f| - 1])
      && forall m :: 0 <= m < |sc| ==> IsDigit(f[m])
  {
    var f := sc + ":" + (sa + "-" + sb);
    assert f[|f| - 1] == sb[|sb| - 1];
    forall m | 0 <= m < |f|
      ensures f[m] != ';' && f[m] != ','
    {
      if m < |sc| {
        assert f[m] == sc[m];
      } else if m == |sc| {
      } else if m < |sc| + 1 + |sa| {
        assert f[m] == sa[m - |sc| - 1];
      } else if m == |sc| + 1 + |sa| {
      } else {
        assert f[m] == sb[m - |sc| - 2 - |sa|];
      }
    }
    forall m | 0 <= m < |sc|
      ensures IsDigit(f[m])
    {
      assert f[m] == sc[m];
    }
  }

  /** Worked example: the abbreviation `창` resolves to its full name and `1-3` expands. */
  lemma ParseExample()
    ensures Parse("창1:1-3") == Ok([Selection("창세기", 1, [1, 2, 3])])
  {
    var one: nat, three: nat := 1, 3;
    var ref := "창" + (NatToString(one) + ":" + (NatToString(one) + "-" + NatToString(three)));
    DigitFreeName("창", NatToString(one) + ":" + (NatToString(one) + "-" + NatToString(three)));
    SingleRangeReference("창", one, one, three);
    assert NatToString(one) == "1" && NatToString(three) == "3";
    assert ref == "창1:1-3";
    StripOfTrimmed("창");
    assert Range(one, three) == [1, 2, 3];
  }
  /**
   * A numbered letter keeps its full name: `요한1서<c>:<a>-<b>` is one selection of
   * `요한1서`, split after the name's own digit.
   */
  lemma NumberedLetterReference(chapter: nat, a: nat, b: nat)
    ensures Parse("요한1서" + (NatToString(chapter) + ":" + (NatToString(a) + "-" + NatToString(b))))
         == Ok([Selection("요한1서", chapter, Range(a, b))])
  {
    var name := "요한1서";
    NumberedLetterName(name, NatToString(chapter) + ":" + (NatToString(a) + "-" + NatToString(b)));
    SingleRangeReference(name, chapter, a, b);
    StripOfTrimmed(name);
    assert Bible.Abbreviation(name) == None;
  }


  /**
   * A `,` fragment with no colon, such as the bare `5` of `창1:1-3,5`, adds nothing: it is
   * not read as a verse of the previous chapter.
   */
  lemma BareFragmentIgnored(book: string, frags: seq<string>, g: string)
    requires ':' !in Strip(g)
    ensures ParseFragments(book, frags + [g]) == ParseFragments(book, frags)
  {
    assert (frags + [g])[..|frags|] == frags;
    var r := ParseFragments(book, frags);
    assert r.Ok? ==> r.value + [] == r.value;
  }

  // ------------------------------------------------------------ the program
  //
  // `parse_selection` is one function with three nested loops; here each loop level is
  // its own method so that each is verified against its own layer of the specification.

  /**
   * `parse_selection`: the loop over the `;` segments. A blank segment, or one with no
   * `\d+:`, is skipped; otherwise the book name is resolved and the segment's fragments
   * are parsed. The dataset and the translation name are accepted and not used, as in the source.
   */
  method ParseSelection(selection: string, bibleData: Bible.Dataset, version: string) returns (r: Parsed)
    ensures r == Parse(selection)
  {
    var result: seq<Selection> := [];
    var segments := SplitOn(selection, ';');
    var i := 0;
    while i < |segments|
      invariant 0 <= i <= |segments|
      invariant ParseSegments(segments[..i]) == Ok(result)
    {
      SegmentsStep(segments, i, result);
      var bookPart := Strip(segments[i]);
      if bookPart == [] {
        assert result + [] == result;
        i := i + 1;
        continue;
      }
      var mark := FindMarkFrom(bookPart, 0);
      if mark.None? {
        assert result + [] == result;
        i := i + 1;
        continue;
      }
      var splitPos := mark.value;
      var bookName := Strip(bookPart[..splitPos]);
      var rest := bookPart[splitPos..];
      var bookNameFull := match Bible.Abbreviation(bookName) case Some(full) => full case None => bookName;
      var selections := ParseChapterRanges(bookNameFull, SplitOn(rest, ','));
      if selections.Err? {
        SegmentsErrSticks(segments, i + 1, selections.error);
        return selections;
      }
      result := result + selections.value;
      i := i + 1;
    }
    assert segments[..i] == segments;
    return Ok(result);
  }

  /** The loop of `parse_selection` over the `,` fragments of one segment, all of one book. */
  method ParseChapterRanges(book: string, chapterRanges: seq<string>) returns (r: Parsed)
    ensures r == ParseFragments(book, chapterRanges)
  {
    var result: seq<Selection> := [];
    var j := 0;
    while j < |chapterRanges|
      invariant 0 <= j <= |chapterRanges|
      invariant ParseFragments(book, chapterRanges[..j]) == Ok(result)
    {
      var chapterRange := Strip(chapterRanges[j]);
      if chapterRange == [] || ':' !in chapterRange {
        FragmentSkipped(book, chapterRanges[j]);
        FragmentOk(book, chapterRanges, j, result, []);
        assert result + [] == result;
        j := j + 1;
        continue;
      }
      var parts := SplitOn(chapterRange, ':');
      var chapter := if |parts| == 2 then ParseInt(parts[0]) else None;
      if chapter.None? {
        FragmentRejected(book, chapterRanges[j]);
        FragmentErr(book, chapterRanges, j, result, ValueError(chapterRange));
        return Err(ValueError(chapterRange));
      }
      FragmentTokens(book, chapterRanges[j], chapter.value);
      var selections := ParseVerseTokens(book, chapter.value, chapterRange, SplitOn(parts[1], ','));
      if selections.Err? {
        FragmentErr(book, chapterRanges, j, result, selections.error);
        return selections;
      }
      FragmentOk(book, chapterRanges, j, result, selections.value);
      result := result + selections.value;
      j := j + 1;
    }
    assert chapterRanges[..j] == chapterRanges;
    return Ok(result);
  }

  /**
   * The innermost loop of `parse_selection`, over `verses.split(",")`: one selection per
   * non-blank token, `a-b` expanded to an inclusive range.
   */
  method ParseVerseTokens(book: string, chapter: int, chapterRange: string, tokens: seq<string>) returns (r: Parsed)
    ensures r == ParseTokens(book, chapter, chapterRange, tokens)
  {
    var result: seq<Selection> := [];
    var k := 0;
    while k < |tokens|
      invariant 0 <= k <= |tokens|
      invariant ParseTokens(book, chapter, chapterRange, tokens[..k]) == Ok(result)
    {
      TokensStep(book, chapter, chapterRange, tokens, k, result);
      var v := Strip(tokens[k]);
      if v == [] {
        assert result + [] == result;
        k := k + 1;
        continue;
      }
      var verseList: seq<int>;
      if '-' in v {
        var ends := SplitOn(v, '-');
        var start := if |ends| == 2 then ParseInt(ends[0]) else None;
        var end := if |ends| == 2 then ParseInt(ends[1]) else None;
        if start.None? || end.None? {
          TokensErrSticks(book, chapter, chapterRange, tokens, k + 1, ValueError(chapterRange));
          return Err(ValueError(chapterRange));
        }
        verseList := Range(start.value, end.value);
      } else {
        var n := ParseInt(v);
        if n.None? {
          TokensErrSticks(book, chapter, chapterRange, tokens, k + 1, ValueError(chapterRange));
          return Err(ValueError(chapterRange));
        }
        verseList := [n.value];
      }
      result := result + [Selection(book, chapter, verseList)];
      k := k + 1;
    }
    assert tokens[..k] == tokens;
    return Ok(result);
  }
}
