/** The handful of Python string operations the interlinear pipeline relies on:
    `str.isspace`, `strip`, `split()`, `split('\n')`, `sep.join` and the
    `replace` calls that pad Strong's markers. */
module Text {
  import opened Results

  /** Python's `str.isspace()`: the characters `str.split()`, `str.strip()`
      and the regex class `\s` treat as whitespace. */
  predicate IsSpace(c: char) {
    || c == ' '
    || ('\t' <= c <= '\r')
    || ('\U{1C}' <= c <= '\U{1F}')
    || c == '\U{85}' || c == '\U{A0}' || c == '\U{1680}'
    || ('\U{2000}' <= c <= '\U{200A}')
    || c == '\U{2028}' || c == '\U{2029}' || c == '\U{202F}' || c == '\U{205F}'
    || c == '\U{3000}'
  }

  /** The regex class `\d`, restricted to ASCII digits. */
  predicate IsDigit(c: char) {
    '0' <= c <= '9'
  }

  /** The regex class `\w`, restricted to ASCII letters, digits and `_`. */
  predicate IsWordChar(c: char) {
    ('a' <= c <= 'z') || ('A' <= c <= 'Z') || IsDigit(c) || c == '_'
  }

  predicate AllSpace(s: string) {
    forall i :: 0 <= i < |s| ==> IsSpace(s[i])
  }

  predicate NoSpace(s: string) {
    forall i :: 0 <= i < |s| ==> !IsSpace(s[i])
  }

  predicate AllDigits(s: string) {
    forall i :: 0 <= i < |s| ==> IsDigit(s[i])
  }

  /** Concatenation of a sequence of sequences, in order. */
  function Flatten<T>(ss: seq<seq<T>>): seq<T> {
    if |ss| == 0 then [] else ss[0] + Flatten(ss[1..])
  }

  lemma {:induction false} FlattenAppend<T>(a: seq<seq<T>>, b: seq<seq<T>>)
    ensures Flatten(a + b) == Flatten(a) + Flatten(b)
    decreases |a|
  {
    if |a| == 0 {
      assert a + b == b;
    } else {
      assert (a + b)[1..] == a[1..] + b;
      FlattenAppend(a[1..], b);
    }
  }

  lemma FlattenSnoc<T>(a: seq<seq<T>>, x: seq<T>)
    ensures Flatten(a + [x]) == Flatten(a) + x
  {
    FlattenAppend(a, [x]);
    assert Flatten([x]) == x + Flatten([x][1..]);
    assert [x][1..] == [];
  }

  /** Python's `sep.join(ws)`. */
  function Join(ws: seq<string>, sep: string): string {
    if |ws| == 0 then ""
    else if |ws| == 1 then ws[0]
    else ws[0] + sep + Join(ws[1..], sep)
  }

  /** Length of the leading run of whitespace. */
  function SpaceRun(s: string): (n: nat)
    ensures n <= |s| && AllSpace(s[..n])
    ensures n < |s| ==> !IsSpace(s[n])
  {
    if |s| == 0 || !IsSpace(s[0]) then 0
    else
      var n := 1 + SpaceRun(s[1..]);
      assert s[..n] == [s[0]] + s[1..][..n - 1];
      n
  }

  /** Length of the trailing run of whitespace. */
  function SpaceTail(s: string): (n: nat)
    ensures n <= |s| && AllSpace(s[|s| - n..])
    ensures n < |s| ==> !IsSpace(s[|s| - n - 1])
  {
    if |s| == 0 || !IsSpace(s[|s| - 1]) then 0
    else
      var m := SpaceTail(s[..|s| - 1]);
      SpaceTailSnoc(s, m);
      m + 1
  }

  lemma SpaceTailSnoc(s: string, m: nat)
    requires |s| > 0 && IsSpace(s[|s| - 1])
    requires m <= |s| - 1 && AllSpace(s[..|s| - 1][|s| - 1 - m..])
    requires m < |s| - 1 ==> !IsSpace(s[..|s| - 1][|s| - 1 - m - 1])
    ensures m + 1 <= |s| && AllSpace(s[|s| - (m + 1)..])
    ensures m + 1 < |s| ==> !IsSpace(s[|s| - (m + 1) - 1])
  {
    var p := s[..|s| - 1];
    var tail, ptail := s[|s| - (m + 1)..], p[|p| - m..];
    assert forall k :: 0 <= k < m ==> tail[k] == ptail[k];
    assert tail[m] == s[|s| - 1];
    assert m + 1 < |s| ==> s[|s| - (m + 1) - 1] == p[|p| - m - 1];
  }

  /** Python's `lstrip()`: the suffix left after dropping leading whitespace. */
  function LStrip(s: string): (r: string)
    ensures |r| <= |s| && r == s[|s| - |r|..]
    ensures AllSpace(s[..|s| - |r|])
    ensures r == [] || !IsSpace(r[0])
  {
    s[SpaceRun(s)..]
  }

  /** Python's `rstrip()`: the prefix left after dropping trailing whitespace. */
  function RStrip(s: string): (r: string)
    ensures |r| <= |s| && r == s[..|r|]
    ensures AllSpace(s[|r|..])
    ensures r == [] || !IsSpace(r[|r| - 1])
  {
    s[..|s| - SpaceTail(s)]
  }

  /** Stripping leading whitespace from whitespace followed by a text that
      does not start with whitespace leaves exactly that text. */
  lemma {:induction false} LStripAfterSpaces(w: string, c: string)
    requires AllSpace(w)
    requires c == [] || !IsSpace(c[0])
    ensures LStrip(w + c) == c
    decreases |w|
  {
    if |w| == 0 {
      assert w + c == c;
      assert SpaceRun(c) == 0;
    } else {
      assert (w + c)[1..] == w[1..] + c;
      LStripAfterSpaces(w[1..], c);
      assert SpaceRun(w + c) == 1 + SpaceRun(w[1..] + c);
    }
  }

  /** Stripping trailing whitespace from a text that does not end with
      whitespace, followed by whitespace, leaves exactly that text. */
  lemma {:induction false} RStripBeforeSpaces(c: string, w: string)
    requires AllSpace(w)
    requires c == [] || !IsSpace(c[|c| - 1])
    ensures RStrip(c + w) == c
    decreases |w|
  {
    if |w| == 0 {
      assert c + w == c;
      assert SpaceTail(c) == 0;
    } else {
      var s := c + w;
      assert s[..|s| - 1] == c + w[..|w| - 1];
      RStripBeforeSpaces(c, w[..|w| - 1]);
      assert SpaceTail(s) == 1 + SpaceTail(c + w[..|w| - 1]);
    }
  }

  /** Python's `strip()`: the slice of `s` between its leading and its
      trailing whitespace; empty exactly when `s` is all whitespace. */
  function Strip(s: string): (r: string)
    ensures var i := SpaceRun(s);
      && i + |r| <= |s|
      && r == s[i..i + |r|]
      && AllSpace(s[i + |r|..])
    ensures r == [] <==> AllSpace(s)
    ensures r != [] ==> !IsSpace(r[0]) && !IsSpace(r[|r| - 1])
  {
    var i := SpaceRun(s);
    var r := RStrip(s[i..]);
    StripSlice(s, i, r);
    r
  }

  lemma StripSlice(s: string, i: nat, r: string)
    requires i == SpaceRun(s) && r == RStrip(s[i..])
    ensures i + |r| <= |s| && r == s[i..i + |r|] && AllSpace(s[i + |r|..])
    ensures r == [] <==> AllSpace(s)
  {
    StripSliceParts(s, i, r);
    StripSliceEmpty(s, i, r);
  }

  lemma StripSliceParts(s: string, i: nat, r: string)
    requires i == SpaceRun(s) && r == RStrip(s[i..])
    ensures i + |r| <= |s| && r == s[i..i + |r|] && AllSpace(s[i + |r|..])
  {
    var l := s[i..];
    assert s[i..i + |r|] == r;
    assert s[i + |r|..] == l[|r|..];
  }

  lemma StripSliceEmpty(s: string, i: nat, r: string)
    requires i == SpaceRun(s) && r == RStrip(s[i..])
    ensures r == [] <==> AllSpace(s)
  {
    AllSpaceSplit(s, i);
    if r == [] {
      assert s[i..][0..] == s[i..];
    }
  }

  lemma AllSpaceSplit(s: string, i: nat)
    requires i <= |s|
    ensures AllSpace(s) <==> AllSpace(s[..i]) && AllSpace(s[i..])
  {
    assert forall k :: 0 <= k < i ==> s[..i][k] == s[k];
    assert forall k :: i <= k < |s| ==> s[i..][k - i] == s[k];
  }

  /** Stripping removes exactly the whitespace around a text that neither
      starts nor ends with whitespace. */
  lemma StripAround(w1: string, c: string, w2: string)
    requires AllSpace(w1) && AllSpace(w2)
    requires c != [] && !IsSpace(c[0]) && !IsSpace(c[|c| - 1])
    ensures Strip(w1 + c + w2) == c
  {
    assert w1 + c + w2 == w1 + (c + w2);
    LStripAfterSpaces(w1, c + w2);
    RStripBeforeSpaces(c, w2);
  }

  /** Length of the leading run of non-whitespace characters. */
  function WordEnd(s: string): (n: nat)
    ensures n <= |s| && NoSpace(s[..n])
    ensures n < |s| ==> IsSpace(s[n])
  {
    if |s| == 0 || IsSpace(s[0]) then 0
    else
      var n := 1 + WordEnd(s[1..]);
      assert s[..n] == [s[0]] + s[1..][..n - 1];
      n
  }

  /** Length of the leading run of ASCII digits. */
  function DigitRun(s: string): (n: nat)
    ensures n <= |s| && AllDigits(s[..n])
    ensures n < |s| ==> !IsDigit(s[n])
  {
    if |s| == 0 || !IsDigit(s[0]) then 0
    else
      var n := 1 + DigitRun(s[1..]);
      assert s[..n] == [s[0]] + s[1..][..n - 1];
      n
  }

  /** Length of the trailing run of ASCII digits. */
  function TrailingDigits(s: string): (n: nat)
    ensures n <= |s| && AllDigits(s[|s| - n..])
    ensures n < |s| ==> !IsDigit(s[|s| - n - 1])
  {
    if |s| == 0 || !IsDigit(s[|s| - 1]) then 0
    else
      var m := TrailingDigits(s[..|s| - 1]);
      TrailingDigitsSnoc(s, m);
      m + 1
  }

  lemma TrailingDigitsSnoc(s: string, m: nat)
    requires |s| > 0 && IsDigit(s[|s| - 1])
    requires m <= |s| - 1 && AllDigits(s[..|s| - 1][|s| - 1 - m..])
    requires m < |s| - 1 ==> !IsDigit(s[..|s| - 1][|s| - 1 - m - 1])
    ensures m + 1 <= |s| && AllDigits(s[|s| - (m + 1)..])
    ensures m + 1 < |s| ==> !IsDigit(s[|s| - (m + 1) - 1])
  {
    var p := s[..|s| - 1];
    var tail, ptail := s[|s| - (m + 1)..], p[|p| - m..];
    assert forall k :: 0 <= k < m ==> tail[k] == ptail[k];
    assert tail[m] == s[|s| - 1];
    assert m + 1 < |s| ==> s[|s| - (m + 1) - 1] == p[|p| - m - 1];
  }

  lemma {:induction false} TrailingDigitsIs(s: string, n: nat)
    requires n <= |s| && AllDigits(s[|s| - n..])
    requires n < |s| ==> !IsDigit(s[|s| - n - 1])
    ensures TrailingDigits(s) == n
    decreases |s|
  {
    if n > 0 {
      TrailingDigitsDrop(s, n);
      TrailingDigitsIs(s[..|s| - 1], n - 1);
    }
  }

  /** The run of `n` trailing digits of `s`, less its last digit, is the run
      of `n - 1` trailing digits of `s` without its last character. */
  lemma TrailingDigitsDrop(s: string, n: nat)
    requires 0 < n <= |s| && AllDigits(s[|s| - n..])
    requires n < |s| ==> !IsDigit(s[|s| - n - 1])
    ensures IsDigit(s[|s| - 1])
    ensures AllDigits(s[..|s| - 1][|s| - 1 - (n - 1)..])
    ensures n - 1 < |s| - 1 ==> !IsDigit(s[..|s| - 1][|s| - 1 - (n - 1) - 1])
  {
    assert s[|s| - 1] == s[|s| - n..][n - 1];
    var p := s[..|s| - 1];
    var q, t := p[|p| - (n - 1)..], s[|s| - n..];
    assert forall k :: 0 <= k < |q| ==> q[k] == t[k];
    if n - 1 < |p| {
      assert p[|p| - (n - 1) - 1] == s[|s| - n - 1];
    }
  }

  /** The non-whitespace characters of `s`, in order. */
  function RemoveSpaces(s: string): string {
    if |s| == 0 then ""
    else (if IsSpace(s[0]) then "" else [s[0]]) + RemoveSpaces(s[1..])
  }

  lemma {:induction false} RemoveSpacesAppend(a: string, b: string)
    ensures RemoveSpaces(a + b) == RemoveSpaces(a) + RemoveSpaces(b)
    decreases |a|
  {
    if |a| > 0 {
      assert (a + b)[1..] == a[1..] + b;
      RemoveSpacesAppend(a[1..], b);
    } else {
      assert a + b == b;
    }
  }

  lemma {:induction false} RemoveSpacesOfSpaces(s: string)
    requires AllSpace(s)
    ensures RemoveSpaces(s) == ""
    decreases |s|
  {
    if |s| > 0 {
      RemoveSpacesOfSpaces(s[1..]);
    }
  }

  lemma {:induction false} RemoveSpacesOfWord(s: string)
    requires NoSpace(s)
    ensures RemoveSpaces(s) == s
    decreases |s|
  {
    if |s| > 0 {
      RemoveSpacesOfWord(s[1..]);
      assert s == [s[0]] + s[1..];
    }
  }

  /** Python's `str.split()` with no argument: the maximal runs of
      non-whitespace characters, each non-empty and whitespace-free. */
  function Split(s: string): (r: seq<string>)
    ensures forall i :: 0 <= i < |r| ==> r[i] != [] && NoSpace(r[i])
    decreases |s|
  {
    if |s| == 0 then []
    else if IsSpace(s[0]) then Split(s[1..])
    else
      var n := WordEnd(s);
      var rest := Split(s[n..]);
      var r := [s[..n]] + rest;
      assert forall i :: 1 <= i < |r| ==> r[i] == rest[i - 1];
      r
  }

  /** The pieces of `Split(s)` hold exactly the non-whitespace characters of
      `s`, in order: splitting drops whitespace and nothing else. */
  lemma {:induction false} SplitKeepsText(s: string)
    ensures Flatten(Split(s)) == RemoveSpaces(s)
    decreases |s|
  {
    if |s| > 0 && IsSpace(s[0]) {
      SplitKeepsText(s[1..]);
    } else if |s| > 0 {
      var n := WordEnd(s);
      assert s == s[..n] + s[n..];
      RemoveSpacesAppend(s[..n], s[n..]);
      RemoveSpacesOfWord(s[..n]);
      SplitKeepsText(s[n..]);
      assert Split(s) == [s[..n]] + Split(s[n..]);
    }
  }

  lemma WordEndOfWord(s: string, n: nat)
    requires n <= |s| && NoSpace(s[..n]) && (n < |s| ==> IsSpace(s[n]))
    ensures WordEnd(s) == n
  {
    var m := WordEnd(s);
    assert forall k :: 0 <= k < n ==> s[..n][k] == s[k];
    assert forall k :: 0 <= k < m ==> s[..m][k] == s[k];
  }

  lemma SplitWordFirst(w: string, rest: string)
    requires w != [] && NoSpace(w)
    requires rest == [] || IsSpace(rest[0])
    ensures Split(w + rest) == [w] + Split(rest)
  {
    var s := w + rest;
    assert s[0] == w[0];
    assert s[..|w|] == w;
    WordEndOfWord(s, |w|);
    assert s[|w|..] == rest;
  }

  lemma SplitEmpty()
    ensures Split("") == []
  {
  }

  lemma SplitLeadingSpace(j: string)
    ensures Split(" " + j) == Split(j)
  {
    assert (" " + j)[1..] == j;
  }

  lemma SplitJoinOne(ws: seq<string>)
    requires |ws| == 1 && ws[0] != [] && NoSpace(ws[0])
    ensures Split(Join(ws, " ")) == ws
  {
    SplitEmpty();
    SplitWordFirst(ws[0], "");
    assert ws[0] + "" == ws[0];
  }

  lemma SplitJoinStep(ws: seq<string>)
    requires |ws| > 1 && ws[0] != [] && NoSpace(ws[0])
    ensures Split(Join(ws, " ")) == [ws[0]] + Split(Join(ws[1..], " "))
  {
    var j := Join(ws[1..], " ");
    var rest := " " + j;
    assert Join(ws, " ") == ws[0] + rest by {
      assert Join(ws, " ") == ws[0] + " " + j;
    }
    assert rest[0] == ' ';
    SplitWordFirst(ws[0], rest);
    SplitLeadingSpace(j);
  }

  /** Joining whitespace-free words with single spaces and splitting again
      gives the words back. */
  lemma {:induction false} SplitJoin(ws: seq<string>)
    requires forall i :: 0 <= i < |ws| ==> ws[i] != [] && NoSpace(ws[i])
    ensures Split(Join(ws, " ")) == ws
    decreases |ws|
  {
    if |ws| == 0 {
      SplitEmpty();
    } else if |ws| == 1 {
      SplitJoinOne(ws);
    } else {
      SplitJoinStep(ws);
      SplitJoin(ws[1..]);
      assert ws == [ws[0]] + ws[1..];
    }
  }

  /** Words with whitespace gaps around and between them:
      `gaps[0] + ws[0] + gaps[1] + ... + ws[n - 1] + gaps[n]`. */
  function Weave(gaps: seq<string>, ws: seq<string>): string
    requires |gaps| == |ws| + 1
    decreases |ws|
  {
    if |ws| == 0 then gaps[0] else gaps[0] + ws[0] + Weave(gaps[1..], ws[1..])
  }

  /** Gaps made of whitespace only, where every gap between two words holds
      at least one whitespace character; the outer two may be empty. */
  predicate SpaceGaps(gaps: seq<string>) {
    && (forall i :: 0 <= i < |gaps| ==> AllSpace(gaps[i]))
    && (forall i :: 0 < i < |gaps| - 1 ==> gaps[i] != [])
  }

  /** The whitespace gaps of `s` around the pieces of `Split(s)`. */
  function Gaps(s: string): (g: seq<string>)
    ensures |g| == |Split(s)| + 1
    decreases |s|
  {
    if |s| == 0 then [""]
    else if IsSpace(s[0]) then
      var g := Gaps(s[1..]);
      [[s[0]] + g[0]] + g[1..]
    else [""] + Gaps(s[WordEnd(s)..])
  }

  lemma WeavePrefix(p: string, g: seq<string>, ws: seq<string>)
    requires |g| == |ws| + 1
    ensures Weave([p + g[0]] + g[1..], ws) == p + Weave(g, ws)
  {
    if |ws| > 0 {
      var g' := [p + g[0]] + g[1..];
      WeaveFirst(g', ws);
      WeaveFirst(g, ws);
      ConsTail(p + g[0], g[1..]);
    }
  }

  /** Every text is the pieces of `split()` woven between whitespace gaps:
      splitting cuts at whitespace and only there. */
  lemma {:induction false} SplitGaps(s: string)
    ensures SpaceGaps(Gaps(s)) && Weave(Gaps(s), Split(s)) == s
    decreases |s|
  {
    if |s| > 0 && IsSpace(s[0]) {
      SplitGaps(s[1..]);
      GapsSpaceStep(s);
    } else if |s| > 0 {
      SplitGaps(s[WordEnd(s)..]);
      GapsWordStep(s);
    }
  }

  lemma GapsSpaceStep(s: string)
    requires |s| > 0 && IsSpace(s[0])
    requires SpaceGaps(Gaps(s[1..])) && Weave(Gaps(s[1..]), Split(s[1..])) == s[1..]
    ensures SpaceGaps(Gaps(s)) && Weave(Gaps(s), Split(s)) == s
  {
    var g := Gaps(s[1..]);
    GapsSpace(s);
    WeavePrefix([s[0]], g, Split(s[1..]));
    ConsTail(s[0], s[1..]);
    SpaceGapsPrefix(s[0], g);
  }

  lemma GapsSpace(s: string)
    requires |s| > 0 && IsSpace(s[0])
    ensures Gaps(s) == [[s[0]] + Gaps(s[1..])[0]] + Gaps(s[1..])[1..]
    ensures Split(s) == Split(s[1..])
  {
  }

  lemma SpaceGapsPrefix(c: char, g: seq<string>)
    requires IsSpace(c) && |g| > 0 && SpaceGaps(g)
    ensures SpaceGaps([[c] + g[0]] + g[1..])
  {
    var g' := [[c] + g[0]] + g[1..];
    assert forall i :: 0 < i < |g'| ==> g'[i] == g[i];
    assert g'[0] == [c] + g[0];
  }

  lemma GapsWordStep(s: string)
    requires |s| > 0 && !IsSpace(s[0])
    requires var t := s[WordEnd(s)..]; SpaceGaps(Gaps(t)) && Weave(Gaps(t), Split(t)) == t
    ensures SpaceGaps(Gaps(s)) && Weave(Gaps(s), Split(s)) == s
  {
    var n := WordEnd(s);
    var t := s[n..];
    GapsWord(s);
    WeaveCons(s[..n], Gaps(t), Split(t));
    SliceConcat(s, n);
    if t != [] {
      GapsFirst(t);
    }
    SpaceGapsCons(Gaps(t));
  }

  lemma GapsWord(s: string)
    requires |s| > 0 && !IsSpace(s[0])
    ensures var n := WordEnd(s);
      && Gaps(s) == [""] + Gaps(s[n..])
      && Split(s) == [s[..n]] + Split(s[n..])
      && (s[n..] != [] ==> IsSpace(s[n..][0]))
      && (s[n..] == [] ==> |Gaps(s[n..])| == 1)
  {
  }

  lemma SliceConcat<T>(s: seq<T>, n: nat)
    requires n <= |s|
    ensures s[..n] + s[n..] == s
  {
  }

  lemma WeaveCons(w: string, g: seq<string>, ws: seq<string>)
    requires |g| == |ws| + 1
    ensures Weave([""] + g, [w] + ws) == w + Weave(g, ws)
  {
    WeaveFirst([""] + g, [w] + ws);
    ConsTail("", g);
    ConsTail(w, ws);
    EmptyConcat(w, Weave(g, ws));
  }

  lemma WeaveFirst(g: seq<string>, ws: seq<string>)
    requires |g| == |ws| + 1 && |ws| > 0
    ensures Weave(g, ws) == g[0] + ws[0] + Weave(g[1..], ws[1..])
  {
  }

  lemma ConsTail<T>(x: T, s: seq<T>)
    ensures ([x] + s)[1..] == s && ([x] + s)[0] == x
  {
  }

  lemma EmptyConcat(w: string, x: string)
    ensures "" + w + x == w + x
  {
  }

  lemma GapsFirst(t: string)
    requires t != [] && IsSpace(t[0])
    ensures Gaps(t)[0] != []
  {
  }

  lemma SpaceGapsCons(g: seq<string>)
    requires SpaceGaps(g) && (|g| > 1 ==> g[0] != [])
    ensures SpaceGaps([""] + g)
  {
    var g' := [""] + g;
    assert forall i :: 0 < i < |g'| ==> g'[i] == g[i - 1];
  }

  lemma {:induction false} SplitAfterSpaces(g: string, t: string)
    requires AllSpace(g)
    ensures Split(g + t) == Split(t)
    decreases |g|
  {
    if |g| > 0 {
      assert (g + t)[1..] == g[1..] + t;
      SplitAfterSpaces(g[1..], t);
    } else {
      assert g + t == t;
    }
  }

  /** Whitespace-free words woven between whitespace gaps split back into
      exactly those words, whatever the width of the gaps: the pieces of
      `split()` are the maximal runs of non-whitespace characters. */
  lemma {:induction false} SplitWoven(gaps: seq<string>, ws: seq<string>)
    requires |gaps| == |ws| + 1 && SpaceGaps(gaps)
    requires forall i :: 0 <= i < |ws| ==> ws[i] != [] && NoSpace(ws[i])
    ensures Split(Weave(gaps, ws)) == ws
    decreases |ws|
  {
    if |ws| == 0 {
      SplitAfterSpaces(gaps[0], "");
      assert gaps[0] + "" == gaps[0];
    } else {
      var rest := Weave(gaps[1..], ws[1..]);
      assert Weave(gaps, ws) == gaps[0] + (ws[0] + rest);
      SplitAfterSpaces(gaps[0], ws[0] + rest);
      assert rest == [] || IsSpace(rest[0]) by {
        if |ws| > 1 {
          assert gaps[1] != [] && AllSpace(gaps[1]);
          assert gaps[1..][0] == gaps[1];
          assert rest[0] == gaps[1][0];
        }
      }
      SplitWordFirst(ws[0], rest);
      assert forall i :: 0 <= i < |gaps| - 1 ==> gaps[1..][i] == gaps[i + 1];
      assert forall i :: 0 <= i < |ws| - 1 ==> ws[1..][i] == ws[i + 1];
      SplitWoven(gaps[1..], ws[1..]);
      assert ws == [ws[0]] + ws[1..];
    }
  }

  /** Position of the first occurrence of `c` in `s`. */
  function Find(s: string, c: char): (r: Option<nat>)
    ensures r.Some? ==> r.value < |s| && s[r.value] == c && c !in s[..r.value]
    ensures r.None? <==> c !in s
  {
    if |s| == 0 then None
    else if s[0] == c then Some(0)
    else
      match Find(s[1..], c)
      case None => None
      case Some(n) =>
        assert s[..n + 1] == [s[0]] + s[1..][..n];
        Some(n + 1)
  }

  lemma FindIs(s: string, c: char, n: nat)
    requires n < |s| && s[n] == c && c !in s[..n]
    ensures Find(s, c) == Some(n)
  {
    var f := Find(s, c);
    assert forall k :: 0 <= k < n ==> s[..n][k] == s[k];
    assert f.Some? ==> forall k :: 0 <= k < f.value ==> s[..f.value][k] == s[k];
  }

  /** Python's `s.split('\n')`: the line-break-free pieces between line
      breaks. Joining them with line breaks gives `s` back. */
  function SplitLines(s: string): (r: seq<string>)
    ensures |r| >= 1
    ensures forall i :: 0 <= i < |r| ==> '\n' !in r[i]
    ensures Join(r, "\n") == s
    decreases |s|
  {
    match Find(s, '\n')
    case None => [s]
    case Some(n) =>
      var rest := SplitLines(s[n + 1..]);
      assert s == s[..n] + "\n" + s[n + 1..];
      [s[..n]] + rest
  }

  /** Splitting lines is a left inverse of joining with line breaks. */
  lemma {:induction false} SplitLinesJoin(ls: seq<string>)
    requires |ls| >= 1
    requires forall i :: 0 <= i < |ls| ==> '\n' !in ls[i]
    ensures SplitLines(Join(ls, "\n")) == ls
    decreases |ls|
  {
    var s := Join(ls, "\n");
    if |ls| == 1 {
      assert Find(s, '\n') == None;
    } else {
      var tail := Join(ls[1..], "\n");
      assert s == ls[0] + "\n" + tail;
      var n := |ls[0]|;
      assert s[..n] == ls[0];
      assert s[n] == '\n';
      assert Find(s, '\n') == Some(n) by {
        var f := Find(s, '\n');
        assert f.Some?;
        assert forall k :: 0 <= k < n ==> s[k] == ls[0][k];
        assert forall k :: 0 <= k < f.value ==> s[..f.value][k] == s[k];
      }
      assert s[n + 1..] == tail;
      SplitLinesJoin(ls[1..]);
    }
  }

  /** One character of the marker padding: `<` gains a space before it and
      `>` a space after it. */
  function PadChar(c: char): string {
    if c == '<' then " <" else if c == '>' then "> " else [c]
  }

  /** `s.replace("<", " <").replace(">", "> ")`. The first replacement adds
      no `>`, so the two passes act as one per-character rewrite. */
  function Pad(s: string): (r: string)
    ensures forall i :: 0 <= i < |r| && r[i] == '<' ==> 0 < i && r[i - 1] == ' '
    ensures forall i :: 0 <= i < |r| && r[i] == '>' ==> i + 1 < |r| && r[i + 1] == ' '
    ensures r != [] ==> r[0] != '<'
  {
    if |s| == 0 then ""
    else
      var h := PadChar(s[0]);
      var t := Pad(s[1..]);
      var r := h + t;
      assert forall i :: |h| <= i < |r| ==> r[i] == t[i - |h|];
      r
  }

  /** Removes the spaces that `Pad` inserted. */
  function Unpad(r: string): string
    decreases |r|
  {
    if |r| == 0 then ""
    else if |r| >= 2 && r[0] == ' ' && r[1] == '<' then "<" + Unpad(r[2..])
    else if |r| >= 2 && r[0] == '>' && r[1] == ' ' then ">" + Unpad(r[2..])
    else [r[0]] + Unpad(r[1..])
  }

  /** Padding loses nothing: the original text can be recovered from it. */
  lemma {:induction false} PadRoundTrip(s: string)
    ensures Unpad(Pad(s)) == s
    decreases |s|
  {
    if |s| > 0 {
      var c := s[0];
      var t := Pad(s[1..]);
      var r := Pad(s);
      assert r == PadChar(c) + t;
      PadRoundTrip(s[1..]);
      if c == '<' || c == '>' {
        assert r[2..] == t;
      } else {
        assert r[1..] == t;
      }
      assert s == [c] + s[1..];
    }
  }
}
