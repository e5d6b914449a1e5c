/**
 * The handful of Python `str` operations the slide generator relies on:
 * `strip()`, `split(sep)`, `split()`, `" ".join(...)`, `int(...)` and `str(int)`,
 * written over `seq<char>`.
 */
module PyText {
  import opened Wrappers

  /** Python's `str.isspace()`: the characters `strip()` and `split()` treat as whitespace. */
  predicate IsSpace(c: char) {
    c == ' ' || '\U{09}' <= c <= '\U{0D}' || '\U{1C}' <= c <= '\U{1F}'
    || c == '\U{85}' || c == '\U{A0}' || c == '\U{1680}' || '\U{2000}' <= c <= '\U{200A}'
    || c == '\U{2028}' || c == '\U{2029}' || c == '\U{202F}' || c == '\U{205F}' || c == '\U{3000}'
  }

  /** An ASCII decimal digit, the characters `\d` and `int()` are modelled over. */
  predicate IsDigit(c: char) {
    '0' <= c <= '9'
  }

  predicate AllSpace(s: string) {
    forall i :: 0 <= i < |s| ==> IsSpace(s[i])
  }

  /** A word as `str.split()` produces it: non-empty and free of whitespace. */
  predicate IsWord(w: string) {
    w != [] && forall i :: 0 <= i < |w| ==> !IsSpace(w[i])
  }

  // ---------------------------------------------------------------- strip()

  function TrimLeft(s: string): string
    decreases |s|
  {
    if s != [] && IsSpace(s[0]) then TrimLeft(s[1..]) else s
  }

  function TrimRight(s: string): string
    decreases |s|
  {
    if s != [] && IsSpace(s[|s| - 1]) then TrimRight(s[..|s| - 1]) else s
  }

  /** Python's `s.strip()`: no longer than `s`, and neither starting nor ending with whitespace. */
  function Strip(s: string): (r: string)
    ensures |r| <= |s|
    ensures r == [] || (!IsSpace(r[0]) && !IsSpace(r[|r| - 1]))
  {
    TrimLeftSpec(s);
    TrimRightSpec(TrimLeft(s));
    TrimRight(TrimLeft(s))
  }

  lemma {:induction false} TrimLeftSpec(s: string)
    ensures var r := TrimLeft(s);
      |r| <= |s| && r == s[|s| - |r|..] && AllSpace(s[..|s| - |r|]) && (r == [] || !IsSpace(r[0]))
    decreases |s|
  {
    if s != [] && IsSpace(s[0]) {
      TrimLeftSpec(s[1..]);
      var r := TrimLeft(s);
      assert s[1..][..|s| - 1 - |r|] == s[1..|s| - |r|];
    }
  }

  lemma {:induction false} TrimRightSpec(s: string)
    ensures var r := TrimRight(s);
      |r| <= |s| && r == s[..|r|] && AllSpace(s[|r|..]) && (r == [] || !IsSpace(r[|r| - 1]))
    decreases |s|
  {
    if s != [] && IsSpace(s[|s| - 1]) {
      TrimRightSpec(s[..|s| - 1]);
      var r := TrimRight(s);
      assert s[|r|..] == s[..|s| - 1][|r|..] + [s[|s| - 1]];
    }
  }

  /** `strip()` removes whitespace from both ends and nothing else. */
  lemma StripSpec(s: string)
    ensures var r := Strip(s);
      exists i :: 0 <= i <= |s| - |r| && r == s[i..i + |r|] && AllSpace(s[..i]) && AllSpace(s[i + |r|..])
    ensures var r := Strip(s); r == [] || (!IsSpace(r[0]) && !IsSpace(r[|r| - 1]))
  {
    var t := TrimLeft(s);
    TrimLeftSpec(s);
    TrimRightSpec(t);
    var r := TrimRight(t);
    var i := |s| - |t|;
    SuffixSlices(s, i, |r|);
    assert 0 <= i <= |s| - |r| && r == s[i..i + |r|] && AllSpace(s[..i]) && AllSpace(s[i + |r|..]);
  }

  lemma SuffixSlices(s: string, i: nat, k: nat)
    requires i + k <= |s|
    ensures s[i..][..k] == s[i..i + k] && s[i..][k..] == s[i + k..]
  {
  }

  lemma StripKeepsOut(s: string, c: char)
    requires c !in s
    ensures c !in Strip(s)
  {
    StripSpec(s);
    var r := Strip(s);
    var i :| 0 <= i <= |s| - |r| && r == s[i..i + |r|] && AllSpace(s[..i]) && AllSpace(s[i + |r|..]);
  }

  lemma StripOfTrimmed(s: string)
    requires s == [] || (!IsSpace(s[0]) && !IsSpace(s[|s| - 1]))
    ensures Strip(s) == s
  {
  }

  // ------------------------------------------------------- join / split(sep)

  /** Python's `sep.join(parts)`. */
  function Join(parts: seq<string>, sep: string): string
    decreases |parts|
  {
    if |parts| == 0 then [] else if |parts| == 1 then parts[0]
    else parts[0] + sep + Join(parts[1..], sep)
  }

  lemma JoinAppend(a: seq<string>, b: seq<string>, sep: string)
    requires |a| > 0 && |b| > 0
    ensures Join(a + b, sep) == Join(a, sep) + sep + Join(b, sep)
    decreases |a|
  {
    JoinUnfold(a + b, sep);
    SnocParts(a, b);
    if |a| > 1 {
      JoinUnfold(a, sep);
      JoinAppend(a[1..], b, sep);
      ConcatRegroup(a[0], sep, Join(a[1..], sep), Join(b, sep));
    }
  }

  lemma JoinUnfold(p: seq<string>, sep: string)
    requires |p| > 1
    ensures Join(p, sep) == p[0] + sep + Join(p[1..], sep)
  {
  }

  lemma SnocParts(a: seq<string>, b: seq<string>)
    requires |a| > 0
    ensures (a + b)[0] == a[0] && (a + b)[1..] == a[1..] + b
  {
  }

  lemma ConcatRegroup(w: string, sep: string, x: string, y: string)
    ensures w + sep + (x + sep + y) == (w + sep + x) + sep + y
  {
  }

  lemma JoinSnoc(a: seq<string>, w: string, sep: string)
    ensures Join(a + [w], sep) == if a == [] then w else Join(a, sep) + sep + w
  {
    if a != [] {
      JoinAppend(a, [w], sep);
    }
  }

  /** Python's `s.split(sep)` for a one-character separator. */
  function SplitOn(s: string, sep: char): (r: seq<string>)
    ensures |r| >= 1
    decreases |s|
  {
    if s == [] then [[]]
    else
      var rest := SplitOn(s[1..], sep);
      if s[0] == sep then [[]] + rest
      else [[s[0]] + rest[0]] + rest[1..]
  }

  /** The parts of `s.split(sep)` are free of `sep` and join back to `s`. */
  lemma {:induction false} SplitOnSpec(s: string, sep: char)
    ensures forall i :: 0 <= i < |SplitOn(s, sep)| ==> sep !in SplitOn(s, sep)[i]
    ensures Join(SplitOn(s, sep), [sep]) == s
    decreases |s|
  {
    if s != [] {
      var rest := SplitOn(s[1..], sep);
      SplitOnSpec(s[1..], sep);
      if s[0] == sep {
        assert ([[]] + rest)[1..] == rest;
      } else {
        var r := [[s[0]] + rest[0]] + rest[1..];
        assert |rest| > 1 ==> rest == [rest[0]] + rest[1..] && Join(rest, [sep]) == rest[0] + [sep] + Join(rest[1..], [sep]);
        assert r[1..] == rest[1..];
        assert s == [s[0]] + s[1..];
      }
    }
  }

  /** Splitting is the inverse of joining separator-free parts. */
  lemma {:induction false} SplitOnJoin(parts: seq<string>, sep: char)
    requires |parts| >= 1
    requires forall i :: 0 <= i < |parts| ==> sep !in parts[i]
    ensures SplitOn(Join(parts, [sep]), sep) == parts
    decreases |Join(parts, [sep])|
  {
    var s := Join(parts, [sep]);
    if |parts| == 1 {
      SplitOnFree(parts[0], sep);
    } else if parts[0] == [] {
      assert s == [sep] + Join(parts[1..], [sep]);
      assert s[1..] == Join(parts[1..], [sep]);
      SplitOnJoin(parts[1..], sep);
      assert parts == [[]] + parts[1..];
    } else {
      var p := parts[0];
      var tail := [p[1..]] + parts[1..];
      assert tail[1..] == parts[1..];
      assert s == [p[0]] + (p[1..] + [sep] + Join(parts[1..], [sep]));
      assert s[1..] == Join(tail, [sep]);
      assert p[0] != sep by { assert p[0] in p; }
      assert sep !in p[1..];
      SplitOnJoin(tail, sep);
      assert [p[0]] + p[1..] == p;
    }
  }

  lemma {:induction false} SplitOnFree(s: string, sep: char)
    requires sep !in s
    ensures SplitOn(s, sep) == [s]
    decreases |s|
  {
    if s != [] {
      assert s[0] in s;
      assert sep !in s[1..];
      SplitOnFree(s[1..], sep);
      assert [s[0]] + s[1..] == s;
    }
  }

  /** `(a + sep + b).split(sep) == a.split(sep) + b.split(sep)`. */
  lemma SplitOnAppend(a: string, b: string, sep: char)
    ensures SplitOn(a + [sep] + b, sep) == SplitOn(a, sep) + SplitOn(b, sep)
  {
    var pa, pb := SplitOn(a, sep), SplitOn(b, sep);
    SplitOnSpec(a, sep);
    SplitOnSpec(b, sep);
    var parts := pa + pb;
    JoinAppend(pa, pb, [sep]);
    PartsFree(pa, pb, sep);
    SplitOnJoin(parts, sep);
  }

  lemma PartsFree(pa: seq<string>, pb: seq<string>, sep: char)
    requires forall i :: 0 <= i < |pa| ==> sep !in pa[i]
    requires forall i :: 0 <= i < |pb| ==> sep !in pb[i]
    ensures forall i :: 0 <= i < |pa + pb| ==> sep !in (pa + pb)[i]
  {
    forall i | 0 <= i < |pa + pb|
      ensures sep !in (pa + pb)[i]
    {
      if i < |pa| { assert (pa + pb)[i] == pa[i]; } else { assert (pa + pb)[i] == pb[i - |pa|]; }
    }
  }

  /** A character absent from a joined string is absent from every part. */
  lemma {:induction false} JoinKeepsOut(parts: seq<string>, sep: string, c: char, i: nat)
    requires c !in Join(parts, sep)
    requires i < |parts|
    ensures c !in parts[i]
    decreases |parts|
  {
    if |parts| > 1 {
      var s := Join(parts, sep);
      if i == 0 {
        assert forall k :: 0 <= k < |parts[0]| ==> parts[0][k] == s[k];
      } else {
        var t := Join(parts[1..], sep);
        assert forall k :: 0 <= k < |t| ==> t[k] == s[|parts[0]| + |sep| + k];
        JoinKeepsOut(parts[1..], sep, c, i - 1);
      }
    }
  }

  // ----------------------------------------------------------------- split()

  function WordLength(s: string): (n: nat)
    ensures n <= |s|
    ensures forall i :: 0 <= i < n ==> !IsSpace(s[i])
    ensures n == |s| || IsSpace(s[n])
    decreases |s|
  {
    if s == [] || IsSpace(s[0]) then 0 else 1 + WordLength(s[1..])
  }

  /** Python's `s.split()` with no argument: the maximal runs of non-whitespace, in order. */
  function SplitWords(s: string): (r: seq<string>)
    ensures forall i :: 0 <= i < |r| ==> IsWord(r[i])
    decreases |s|
  {
    if s == [] then []
    else if IsSpace(s[0]) then SplitWords(s[1..])
    else
      var n := WordLength(s);
      [s[..n]] + SplitWords(s[n..])
  }

  lemma {:induction false} WordLengthOfWord(w: string, t: string)
    requires IsWord(w)
    requires t == [] || IsSpace(t[0])
    ensures WordLength(w + t) == |w|
    decreases |w|
  {
    assert (w + t)[0] == w[0];
    if |w| > 1 {
      assert (w + t)[1..] == w[1..] + t;
      WordLengthOfWord(w[1..], t);
    } else {
      assert (w + t)[1..] == t;
    }
  }

  /** `" ".join(words).split() == words` for words as `split()` produces them. */
  lemma {:induction false} SplitWordsJoin(ws: seq<string>)
    requires forall i :: 0 <= i < |ws| ==> IsWord(ws[i])
    ensures SplitWords(Join(ws, " ")) == ws
    decreases |ws|
  {
    if |ws| == 1 {
      var w := ws[0];
      SplitWordsNext([], w, []);
      assert [] + w + [] == w;
    } else if |ws| > 1 {
      var w, rest := ws[0], Join(ws[1..], " ");
      JoinUnfold(ws, " ");
      SplitWordsNext([], w, " " + rest);
      assert [] + w + (" " + rest) == w + " " + rest;
      assert (" " + rest)[0] == ' ' && (" " + rest)[1..] == rest;
      SplitWordsJoin(ws[1..]);
      assert ws == [w] + ws[1..];
    }
  }

  /** `split()` of blank text is the empty list. */
  lemma {:induction false} SplitWordsBlank(s: string)
    requires AllSpace(s)
    ensures SplitWords(s) == []
    decreases |s|
  {
    if s != [] {
      SplitWordsBlank(s[1..]);
    }
  }

  /**
   * `split()` after leading whitespace `g` takes the whole next word `w` and goes on after it;
   * with `SplitWordsBlank` this fixes `split()` on every string: its maximal non-whitespace
   * runs, in order, none dropped.
   */
  lemma {:induction false} SplitWordsNext(g: string, w: string, t: string)
    requires AllSpace(g) && IsWord(w) && (t == [] || IsSpace(t[0]))
    ensures SplitWords(g + w + t) == [w] + SplitWords(t)
    decreases |g|
  {
    var s := g + w + t;
    if g == [] {
      assert s == w + t;
      assert s[0] == w[0];
      WordLengthOfWord(w, t);
      assert s[..|w|] == w && s[|w|..] == t;
    } else {
      assert s[0] == g[0];
      assert s[1..] == g[1..] + w + t;
      SplitWordsNext(g[1..], w, t);
    }
  }

  // ---------------------------------------------------------- int() / str()

  function DigitValue(c: char): nat
    requires IsDigit(c)
  {
    (c as int) - ('0' as int)
  }

  function DigitChar(d: nat): char
    requires d < 10
  {
    ('0' as int + d) as char
  }

  /** The body `int()` accepts after the sign: ASCII digits, single underscores between digits. */
  predicate ValidDigits(b: string) {
    b != [] && IsDigit(b[0]) && IsDigit(b[|b| - 1])
    && (forall i :: 0 <= i < |b| ==> IsDigit(b[i]) || b[i] == '_')
    && (forall i :: 0 <= i < |b| - 1 ==> b[i] == '_' ==> IsDigit(b[i + 1]))
  }

  /** The decimal value of the digits of `b`, underscores skipped. */
  function DigitsValue(b: string): nat
    requires forall i :: 0 <= i < |b| ==> IsDigit(b[i]) || b[i] == '_'
    decreases |b|
  {
    if b == [] then 0
    else if b[|b| - 1] == '_' then DigitsValue(b[..|b| - 1])
    else DigitsValue(b[..|b| - 1]) * 10 + DigitValue(b[|b| - 1])
  }

  /**
   * The ASCII information separators U+001C to U+001F: `str.isspace()` holds of them, but
   * `int()` does not skip them as whitespace, so any of them makes `int()` fail.
   */
  predicate IsInfoSeparator(c: char) {
    '\U{1C}' <= c <= '\U{1F}'
  }

  predicate HasInfoSeparator(s: string) {
    exists i :: 0 <= i < |s| && IsInfoSeparator(s[i])
  }

  /**
   * Python's `int(s)` in base 10: surrounding whitespace, an optional sign, then digits.
   * `int()` skips every `isspace()` character except the information separators, which
   * are neither skipped nor digits; without them its whitespace is exactly `strip()`'s.
   */
  function ParseInt(s: string): (r: Option<int>)
    ensures HasInfoSeparator(s) ==> r.None?
    ensures r.Some? ==> Strip(s) != [] && (r.value < 0 <==> Strip(s)[0] == '-' && r.value != 0)
  {
    if HasInfoSeparator(s) then None
    else
      var t := Strip(s);
      var neg := t != [] && t[0] == '-';
      var body := if t != [] && (t[0] == '+' || t[0] == '-') then t[1..] else t;
      if ValidDigits(body) then
        var v: int := DigitsValue(body);
        Some(if neg then -v else v)
      else None
  }

  /** The digits of `b` with its underscores dropped. */
  function Unscored(b: string): (r: string)
    requires forall i :: 0 <= i < |b| ==> IsDigit(b[i]) || b[i] == '_'
    ensures forall i :: 0 <= i < |r| ==> IsDigit(r[i])
    ensures DigitsValue(r) == DigitsValue(b)
    decreases |b|
  {
    if b == [] then []
    else if b[|b| - 1] == '_' then Unscored(b[..|b| - 1])
    else
      var r := Unscored(b[..|b| - 1]) + [b[|b| - 1]];
      assert r[..|r| - 1] == Unscored(b[..|b| - 1]);
      r
  }

  /** The text after an optional leading sign. */
  function Unsigned(t: string): string {
    if t != [] && (t[0] == '+' || t[0] == '-') then t[1..] else t
  }

  /**
   * What a successful `int(s)` read: the stripped text is an optional sign and then only
   * digits and underscores, and those digits are leading zeros followed by `str(abs(n))`;
   * the sign is `-` exactly when `n` is negative.
   */
  lemma ParseIntNumeral(s: string, n: int)
    requires ParseInt(s) == Some(n)
    ensures var t := Strip(s);
      forall i :: 0 <= i < |t| ==> IsDigit(t[i]) || t[i] == '_' || (i == 0 && (t[0] == '+' || t[0] == '-'))
    ensures var d := Unscored(Unsigned(Strip(s))); var m := NatToString(if n < 0 then -n else n);
      |m| <= |d| && d[|d| - |m|..] == m && forall i :: 0 <= i < |d| - |m| ==> d[i] == '0'
    ensures n < 0 ==> Strip(s)[0] == '-'
  {
    var t := Strip(s);
    var b := Unsigned(t);
    assert ValidDigits(b);
    assert forall i :: 0 < i < |t| && b == t[1..] ==> t[i] == b[i - 1];
    var d := Unscored(b);
    assert d != [] by {
      assert b[0] != '_';
      UnscoredKeepsFirst(b);
    }
    ZerosThenDecimal(d);
  }

  lemma {:induction false} UnscoredKeepsFirst(b: string)
    requires forall i :: 0 <= i < |b| ==> IsDigit(b[i]) || b[i] == '_'
    requires b != [] && b[0] != '_'
    ensures Unscored(b) != []
    decreases |b|
  {
    if |b| > 1 && b[|b| - 1] == '_' {
      UnscoredKeepsFirst(b[..|b| - 1]);
    }
  }

  /** A non-empty run of digits is leading zeros followed by the decimal form of its value. */
  lemma {:induction false} ZerosThenDecimal(d: string)
    requires d != [] && forall i :: 0 <= i < |d| ==> IsDigit(d[i])
    ensures var m := NatToString(DigitsValue(d));
      |m| <= |d| && d[|d| - |m|..] == m && forall i :: 0 <= i < |d| - |m| ==> d[i] == '0'
    decreases |d|
  {
    var p := d[..|d| - 1];
    var c := d[|d| - 1];
    var v := DigitsValue(d);
    assert v == DigitsValue(p) * 10 + DigitValue(c);
    assert DigitChar(DigitValue(c)) == c;
    if DigitsValue(p) == 0 {
      AllZeros(p);
      assert NatToString(v) == [c];
    } else {
      ZerosThenDecimal(p);
      assert v / 10 == DigitsValue(p) && v % 10 == DigitValue(c);
      assert NatToString(v) == NatToString(DigitsValue(p)) + [c];
    }
  }

  lemma {:induction false} AllZeros(p: string)
    requires forall i :: 0 <= i < |p| ==> IsDigit(p[i])
    requires DigitsValue(p) == 0
    ensures forall i :: 0 <= i < |p| ==> p[i] == '0'
    decreases |p|
  {
    if p != [] {
      AllZeros(p[..|p| - 1]);
    }
  }

  function NatToString(n: nat): (r: string)
    ensures |r| > 0
    ensures forall i :: 0 <= i < |r| ==> IsDigit(r[i])
  {
    if n < 10 then [DigitChar(n)] else NatToString(n / 10) + [DigitChar(n % 10)]
  }

  /** Python's `str(n)` for an integer. */
  function IntToString(n: int): string {
    if n < 0 then "-" + NatToString(-n) else NatToString(n)
  }

  lemma {:induction false} NatToStringValue(n: nat)
    ensures ValidDigits(NatToString(n))
    ensures DigitsValue(NatToString(n)) == n
  {
    var r := NatToString(n);
    if n >= 10 {
      NatToStringValue(n / 10);
      assert r[..|r| - 1] == NatToString(n / 10);
    }
  }

  /** `int(str(n)) == n`: the decimal keys the dataset uses read back as the same number. */
  lemma ParseIntOfString(n: int)
    ensures ParseInt(IntToString(n)) == Some(n)
  {
    var s := IntToString(n);
    var m := if n < 0 then -n else n;
    NatToStringValue(m);
    var d := NatToString(m);
    assert !HasInfoSeparator(s) by {
      forall i | 0 <= i < |s| ensures !IsInfoSeparator(s[i]) {
        if n < 0 && i > 0 { assert s[i] == d[i - 1]; }
      }
    }
    assert s[|s| - 1] == d[|d| - 1];
    assert !IsSpace(s[0]) && !IsSpace(s[|s| - 1]);
    StripOfTrimmed(s);
    if n < 0 {
      assert s[1..] == d;
    }
  }

  /** Distinct integers have distinct decimal strings, so dataset keys do not collide. */
  lemma IntToStringInjective(a: int, b: int)
    requires IntToString(a) == IntToString(b)
    ensures a == b
  {
    ParseIntOfString(a);
    ParseIntOfString(b);
  }
}
