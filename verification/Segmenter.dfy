/** Splitting a module's text into verses (`_parse_bible_str_chirho`): every
    line is either skipped, a verse header that starts a new key, or a
    continuation of the most recent verse; the text of each verse is the
    concatenation of what its lines contribute. */
module Segmenter {
  import opened Results
  import opened Text
  import opened Dicts

  predicate IsWordOrSpace(c: char) {
    IsWordChar(c) || IsSpace(c)
  }

  predicate AllWordOrSpace(s: string) {
    forall i :: 0 <= i < |s| ==> IsWordOrSpace(s[i])
  }

  /** `line[..j + 1]` matches `((\w|\s)+)\s(\d+):`, the book name and the
      chapter number, with the whitespace before the number at `i`. */
  predicate ChapterAt(line: string, i: int, j: int) {
    && 1 <= i && i + 2 <= j < |line|
    && AllWordOrSpace(line[..i])
    && IsSpace(line[i])
    && AllDigits(line[i + 1..j])
    && line[j] == ':'
  }

  /** `line[j + 1..e + 1]` matches `(\d+):`, the verse number. */
  predicate VerseAt(line: string, j: int, e: int) {
    0 <= j && j + 2 <= e < |line| && AllDigits(line[j + 1..e]) && line[e] == ':'
  }

  /** `k` is a verse key whose chapter number starts after `i` and ends
      before the colon at `j`. */
  predicate KeyAt(k: string, i: int, j: int) {
    ChapterAt(k, i, j) && VerseAt(k, j, |k| - 1)
  }

  /** Group 1 of the verse-line pattern: a book name, a chapter and a verse
      number, each number followed by a colon (`Genesis 1:1:`). */
  ghost predicate IsVerseKey(k: string) {
    exists i, j :: KeyAt(k, i, j)
  }

  /** `VERSE_LINE_RE_CHIRHO.match(line)` succeeds with group 1 `key` and group
      6 `content`: the line is the key, a run of whitespace and the content.
      The whitespace run is greedy, so the content starts with whitespace
      only when nothing but whitespace follows the key, in which case the
      content is the one character `.+` must keep. */
  ghost predicate HeaderMatch(line: string, key: string, content: string) {
    && IsVerseKey(key)
    && |key| < |line| - |content|
    && line[..|key|] == key
    && TrailsWith(line[|key|..], content)
  }

  /** `rest` matches `\s+(.+)$` with group 1 `content`. */
  predicate TrailsWith(rest: string, content: string) {
    && 0 < |content| < |rest|
    && rest[|rest| - |content|..] == content
    && AllSpace(rest[..|rest| - |content|])
    && (IsSpace(content[0]) ==> |content| == 1)
  }

  /** The book and chapter part of a header: the first colon of the line
      closes the chapter number, which runs back to the nearest whitespace. */
  function Chapter(line: string): (r: Option<(nat, nat)>)
    ensures r.Some? ==> ChapterAt(line, r.value.0, r.value.1)
  {
    match Find(line, ':')
    case None => None
    case Some(j) =>
      var i := j - TrailingDigits(line[..j]) - 1;
      assert i >= 0 ==> line[..j][i + 1..] == line[i + 1..j];
      assert i >= 0 ==> line[..j][..i] == line[..i];
      if 1 <= i && i + 2 <= j && AllWordOrSpace(line[..i]) && IsSpace(line[i]) then Some((i, j)) else None
  }

  /** The chapter part is found wherever it is present, so it is the only
      one. */
  lemma ChapterComplete(line: string, i: int, j: int)
    requires ChapterAt(line, i, j)
    ensures Chapter(line) == Some((i, j))
  {
    ChapterUnique(line);
    assert line[..j][i + 1..] == line[i + 1..j];
    assert line[..j][..i] == line[..i];
  }

  /** In a chapter match the colon is the first of the line and the
      whitespace is the last before its run of digits. */
  lemma ChapterUnique(line: string)
    ensures forall i, j :: ChapterAt(line, i, j) ==>
              && Find(line, ':') == Some(j)
              && i == j - TrailingDigits(line[..j]) - 1
  {
    forall i, j | ChapterAt(line, i, j)
      ensures Find(line, ':') == Some(j) && i == j - TrailingDigits(line[..j]) - 1
    {
      assert forall p :: 0 <= p < i ==> line[p] == line[..i][p];
      assert forall p :: i < p < j ==> line[p] == line[i + 1..j][p - i - 1];
      assert forall p :: 0 <= p < j ==> line[..j][p] == line[p];
      FindIs(line, ':', j);
      assert line[..j][i + 1..] == line[i + 1..j];
      TrailingDigitsIs(line[..j], j - i - 1);
    }
  }

  /** The verse part of a header: the next colon after the chapter's closes
      the verse number. */
  function Verse(line: string, j: nat): (r: Option<nat>)
    ensures r.Some? ==> VerseAt(line, j, r.value)
  {
    if j >= |line| then None
    else
      match Find(line[j + 1..], ':')
      case None => None
      case Some(m) =>
        assert line[j + 1..][..m] == line[j + 1..j + 1 + m];
        if m >= 1 && AllDigits(line[j + 1..j + 1 + m]) then Some(j + 1 + m) else None
  }

  /** The verse part is found wherever it is present, so it is the only
      one. */
  lemma VerseComplete(line: string, j: nat, e: int)
    requires VerseAt(line, j, e)
    ensures Verse(line, j) == Some(e)
  {
    VerseUnique(line, j);
    assert line[j + 1..][..e - j - 1] == line[j + 1..e];
  }

  lemma VerseUnique(line: string, j: nat)
    ensures forall e :: VerseAt(line, j, e) ==> Find(line[j + 1..], ':') == Some(e - j - 1)
  {
    forall e | VerseAt(line, j, e)
      ensures Find(line[j + 1..], ':') == Some(e - j - 1)
    {
      assert line[j + 1..][..e - j - 1] == line[j + 1..e];
      FindIs(line[j + 1..], ':', e - j - 1);
    }
  }

  /** Group 6: after the greedy whitespace run, what is left, or the last
      character when only whitespace is left. */
  function Content(rest: string): (c: string)
    requires |rest| >= 2 && IsSpace(rest[0])
    ensures TrailsWith(rest, c)
  {
    if LStrip(rest) == [] then
      assert AllSpace(rest);
      [rest[|rest| - 1]]
    else LStrip(rest)
  }

  /** Group 6 is determined by the rest of the line. */
  lemma ContentComplete(rest: string, c: string)
    requires |rest| >= 2 && IsSpace(rest[0]) && TrailsWith(rest, c)
    ensures Content(rest) == c
  {
    ContentUnique(rest);
  }

  lemma ContentUnique(rest: string)
    ensures forall c :: TrailsWith(rest, c) ==> LStrip(rest) == (if IsSpace(c[0]) then [] else c)
  {
    forall c | TrailsWith(rest, c)
      ensures LStrip(rest) == (if IsSpace(c[0]) then [] else c)
    {
      var w := rest[..|rest| - |c|];
      assert rest == w + c;
      if IsSpace(c[0]) {
        assert AllSpace(rest);
        assert rest == rest + [];
        LStripAfterSpaces(rest, []);
      } else {
        LStripAfterSpaces(w, c);
      }
    }
  }

  /** Where the parts of a header sit in a line: the whitespace before the
      chapter number, the colon after it, and the colon after the verse
      number, which must be followed by whitespace and at least one more
      character. */
  function HeaderParts(line: string): Option<(nat, nat, nat)> {
    match Chapter(line)
    case None => None
    case Some(ij) =>
      match Verse(line, ij.1)
      case None => None
      case Some(e) =>
        if |line| - (e + 1) < 2 || !IsSpace(line[e + 1]) then None
        else Some((ij.0, ij.1, e))
  }

  /** The parts found are parts of a header. */
  lemma HeaderPartsSound(line: string)
    ensures var r := HeaderParts(line);
      r.Some? ==> && ChapterAt(line, r.value.0, r.value.1)
                  && VerseAt(line, r.value.1, r.value.2)
                  && |line| - (r.value.2 + 1) >= 2 && IsSpace(line[r.value.2 + 1])
  {
  }

  /** The parts are found wherever they are present. */
  lemma HeaderPartsComplete(line: string, i: int, j: int, e: int)
    requires ChapterAt(line, i, j) && VerseAt(line, j, e)
    requires |line| - (e + 1) >= 2 && IsSpace(line[e + 1])
    ensures HeaderParts(line) == Some((i, j, e))
  {
    ChapterComplete(line, i, j);
    VerseComplete(line, j, e);
  }

  /** A matcher for the verse-line pattern on a line without newlines. */
  function MatchHeader(line: string): Option<(string, string)> {
    match HeaderParts(line)
    case None => None
    case Some(p) =>
      HeaderPartsSound(line);
      Some(HeaderAt(line, p.2))
  }

  /** Groups 1 and 6 of a header whose verse number's colon is at `e`. */
  function HeaderAt(line: string, e: nat): (string, string)
    requires |line| - (e + 1) >= 2 && IsSpace(line[e + 1])
  {
    (line[..e + 1], Content(line[e + 1..]))
  }

  /** A key that is a prefix of a line matches as a key exactly where it
      matches as a prefix of the line. */
  lemma KeyInLine(line: string, k: string, i: int, j: int)
    requires |k| <= |line| && line[..|k|] == k
    ensures KeyAt(k, i, j) <==> ChapterAt(line, i, j) && VerseAt(line, j, |k| - 1)
  {
    if 1 <= i && i + 2 <= j && j + 2 <= |k| - 1 {
      assert forall p :: 0 <= p < |k| ==> line[p] == k[p];
      assert line[..i] == k[..i];
      assert line[i + 1..j] == k[i + 1..j];
      assert line[j + 1..|k| - 1] == k[j + 1..|k| - 1];
      assert line[i] == k[i] && line[j] == k[j] && line[|k| - 1] == k[|k| - 1];
    }
  }

  /** Every match the matcher reports is a match of the pattern. */
  lemma MatchHeaderSound(line: string)
    ensures MatchHeader(line).Some? ==> HeaderMatch(line, MatchHeader(line).value.0, MatchHeader(line).value.1)
  {
    if HeaderParts(line).Some? {
      var p := HeaderParts(line).value;
      HeaderPartsSound(line);
      HeaderFromParts(line, p.0, p.1, p.2);
    }
  }

  lemma HeaderFromParts(line: string, i: int, j: int, e: int)
    requires ChapterAt(line, i, j) && VerseAt(line, j, e)
    requires |line| - (e + 1) >= 2 && IsSpace(line[e + 1])
    ensures HeaderMatch(line, HeaderAt(line, e).0, HeaderAt(line, e).1)
  {
    var key := line[..e + 1];
    KeyInLine(line, key, i, j);
    assert KeyAt(key, i, j);
    assert line[|key|..] == line[e + 1..];
  }

  /** A line matching the pattern makes the matcher report that very match. */
  lemma MatchHeaderComplete(line: string, key: string, content: string)
    requires HeaderMatch(line, key, content)
    ensures MatchHeader(line) == Some((key, content))
  {
    var i, j :| KeyAt(key, i, j);
    MatchHeaderAt(line, key, content, i, j);
  }

  lemma MatchHeaderAt(line: string, key: string, content: string, i: int, j: int)
    requires KeyAt(key, i, j)
    requires |key| < |line| - |content| && line[..|key|] == key
    requires TrailsWith(line[|key|..], content)
    ensures MatchHeader(line) == Some((key, content))
  {
    var e := |key| - 1;
    assert HeaderParts(line) == Some((i, j, e)) && HeaderAt(line, e) == (key, content) by {
      PartsFromHeader(line, key, content, i, j);
      HeaderPartsComplete(line, i, j, e);
    }
    MatchHeaderOf(line, i, j, e);
  }

  lemma MatchHeaderOf(line: string, i: int, j: int, e: int)
    requires HeaderParts(line) == Some((i, j, e))
    ensures |line| - (e + 1) >= 2 && IsSpace(line[e + 1])
    ensures MatchHeader(line) == Some(HeaderAt(line, e))
  {
    HeaderPartsSound(line);
  }

  lemma PartsFromHeader(line: string, key: string, content: string, i: int, j: int)
    requires KeyAt(key, i, j)
    requires |key| < |line| - |content| && line[..|key|] == key
    requires TrailsWith(line[|key|..], content)
    ensures ChapterAt(line, i, j) && VerseAt(line, j, |key| - 1)
    ensures |line| - |key| >= 2 && IsSpace(line[|key|])
    ensures HeaderAt(line, |key| - 1) == (key, content)
  {
    KeyInLine(line, key, i, j);
    var rest := line[|key|..];
    assert rest[..|rest| - |content|][0] == rest[0];
    ContentComplete(rest, content);
  }

  lemma MatchHeaderExact(line: string)
    ensures forall k, c :: HeaderMatch(line, k, c) ==> MatchHeader(line) == Some((k, c))
  {
    forall k, c | HeaderMatch(line, k, c)
      ensures MatchHeader(line) == Some((k, c))
    {
      MatchHeaderComplete(line, k, c);
    }
  }

  /** `VERSION_LINE_RE_CHIRHO.match(s)`: a parenthesised module name such as
      `(KJV)`. */
  predicate IsVersionLabel(s: string) {
    |s| >= 3 && s[0] == '(' && s[|s| - 1] == ')' && forall i :: 1 <= i < |s| - 1 ==> IsWordChar(s[i])
  }

  /** What one line of a module's text is to the segmenter. */
  datatype LineKind =
    | Skip
    | Header(key: string, content: string)
    | Continuation(text: string)

  /** The branches of the loop body: blank and version lines are skipped; a
      line matching the verse pattern is a header; anything else continues
      the current verse with its stripped text. */
  function Classify(line: string): (r: LineKind)
    ensures r.Skip? <==> AllSpace(line) || IsVersionLabel(Strip(line))
    ensures r.Header? ==> !IsVersionLabel(Strip(line)) && HeaderMatch(line, r.key, r.content)
    ensures r.Continuation? ==> r.text == Strip(line) && r.text != []
  {
    var s := Strip(line);
    if s == [] || IsVersionLabel(s) then Skip
    else
      MatchHeaderSound(line);
      match MatchHeader(line)
      case Some(kc) => Header(kc.0, kc.1)
      case None => Continuation(s)
  }

  /** A line is a continuation only when it is neither blank, nor a version
      label, nor matched by the verse pattern in any way. */
  lemma ClassifyContinuation(line: string)
    ensures Classify(line).Continuation? <==>
              && !AllSpace(line) && !IsVersionLabel(Strip(line))
              && forall k, c :: !HeaderMatch(line, k, c)
  {
    MatchHeaderSound(line);
    MatchHeaderExact(line);
  }

  /** The state of the loop: the verses collected so far and the most recent
      key. */
  datatype Loop = Loop(verses: seq<(string, string)>, last: string)

  /** One iteration of the loop of `_parse_bible_str_chirho`. */
  function Step(st: Loop, line: string): (r: Loop)
    requires DistinctKeys(st.verses)
    ensures DistinctKeys(r.verses)
  {
    Act(st, Classify(line))
  }

  /** The branch of the loop body taken for a line of the given kind. */
  function Act(st: Loop, kind: LineKind): (r: Loop)
    requires DistinctKeys(st.verses)
    ensures DistinctKeys(r.verses)
  {
    match kind
    case Skip => st
    case Header(k, c) => Loop(Append(st.verses, k, c), k)
    case Continuation(t) => Loop(Append(st.verses, st.last, t), st.last)
  }

  /** The loop over the lines, starting from an empty `defaultdict` and the
      empty key. */
  function Run(lines: seq<string>): (r: Loop)
    ensures DistinctKeys(r.verses)
  {
    if |lines| == 0 then Loop([], "")
    else Step(Run(lines[..|lines| - 1]), lines[|lines| - 1])
  }

  /** `_parse_bible_str_chirho`: pad the markers, split into lines and run the
      loop. The result maps each verse key to its text in first-seen order. */
  function Segment(raw: string): (r: seq<(string, string)>)
    ensures DistinctKeys(r)
  {
    Run(SplitLines(Pad(raw))).verses
  }

  // ----- The declarative reading: what each line contributes -----

  /** The classification of every line. */
  function Kinds(lines: seq<string>): (ks: seq<LineKind>)
    ensures |ks| == |lines|
    ensures forall i :: 0 <= i < |lines| ==> ks[i] == Classify(lines[i])
  {
    seq(|lines|, i requires 0 <= i < |lines| => Classify(lines[i]))
  }

  /** The key in force after the first `i` lines: that of the last header
      among them, or the empty key when there is none. */
  function KeyBefore(ks: seq<LineKind>, i: nat): string
    requires i <= |ks|
  {
    if i == 0 then ""
    else if ks[i - 1].Header? then ks[i - 1].key
    else KeyBefore(ks, i - 1)
  }

  /** The (key, text) pieces one line adds, given the key in force. */
  function Contribution(kind: LineKind, key: string): seq<(string, string)> {
    match kind
    case Skip => []
    case Header(k, c) => [(k, c)]
    case Continuation(t) => [(key, t)]
  }

  /** The pieces of every line in order, each line read on its own with the
      key of the last header before it. */
  function PiecesOf(ks: seq<LineKind>): seq<(string, string)> {
    if |ks| == 0 then []
    else PiecesOf(ks[..|ks| - 1]) + Contribution(ks[|ks| - 1], KeyBefore(ks, |ks| - 1))
  }

  function Pieces(lines: seq<string>): seq<(string, string)> {
    PiecesOf(Kinds(lines))
  }

  /** The text the pieces give key `k`: their contents, concatenated. */
  function ContentsFor(ps: seq<(string, string)>, k: string): string {
    if |ps| == 0 then ""
    else ContentsFor(ps[..|ps| - 1], k) + (if ps[|ps| - 1].0 == k then ps[|ps| - 1].1 else "")
  }

  /** Position of the first occurrence of `x` in `s`, or `|s|` when absent. */
  function FirstIndex(s: seq<string>, x: string): (n: nat)
    ensures n <= |s|
    ensures n < |s| <==> x in s
    ensures n < |s| ==> s[n] == x && x !in s[..n]
  {
    if |s| == 0 then 0
    else if s[0] == x then 0
    else
      var n := 1 + FirstIndex(s[1..], x);
      assert n < |s| ==> s[..n] == [s[0]] + s[1..][..n - 1];
      n
  }

  /** Grouping pieces by key: each key once, in order of first appearance. */
  function Collect(ps: seq<(string, string)>): (r: seq<(string, string)>)
    ensures DistinctKeys(r)
  {
    if |ps| == 0 then []
    else Append(Collect(ps[..|ps| - 1]), ps[|ps| - 1].0, ps[|ps| - 1].1)
  }

  lemma KeysSnoc<V>(d: seq<(string, V)>, x: (string, V))
    ensures Keys(d + [x]) == Keys(d) + [x.0]
  {
  }

  lemma FirstIndexSnoc(s: seq<string>, x: string, y: string)
    ensures FirstIndex(s + [x], y) == if y in s then FirstIndex(s, y) else if y == x then |s| else |s| + 1
  {
    var n := FirstIndex(s, y);
    assert forall p :: 0 <= p < |s| ==> (s + [x])[p] == s[p];
    if y in s {
      assert (s + [x])[..n] == s[..n];
      FirstIndexUnique(s + [x], y, n);
    } else if y == x {
      assert (s + [x])[..|s|] == s;
      FirstIndexUnique(s + [x], y, |s|);
    }
  }

  lemma FirstIndexUnique(s: seq<string>, x: string, n: nat)
    requires n < |s| && s[n] == x && x !in s[..n]
    ensures FirstIndex(s, x) == n
  {
    var m := FirstIndex(s, x);
    assert forall p :: 0 <= p < n ==> s[..n][p] == s[p];
    assert forall p :: 0 <= p < m ==> s[..m][p] == s[p];
  }

  /** Grouping keeps each key's text as the concatenation of its pieces,
      has exactly the keys of the pieces, and orders them by first
      appearance. */
  lemma CollectSpec(ps: seq<(string, string)>)
    ensures forall k :: Value(Collect(ps), k) == ContentsFor(ps, k)
    ensures forall k :: k in Keys(Collect(ps)) <==> k in Keys(ps)
    ensures forall i, j :: 0 <= i < j < |Collect(ps)| ==>
              FirstIndex(Keys(ps), Collect(ps)[i].0) < FirstIndex(Keys(ps), Collect(ps)[j].0)
  {
    forall k ensures Value(Collect(ps), k) == ContentsFor(ps, k) {
      CollectValue(ps, k);
    }
    CollectKeys(ps);
    CollectOrder(ps);
  }

  lemma {:induction false} CollectValue(ps: seq<(string, string)>, k: string)
    ensures Value(Collect(ps), k) == ContentsFor(ps, k)
  {
    if |ps| > 0 {
      var prev := ps[..|ps| - 1];
      var x := ps[|ps| - 1];
      CollectValue(prev, k);
      AppendGet(Collect(prev), x.0, x.1, k);
    }
  }

  lemma {:induction false} CollectKeys(ps: seq<(string, string)>)
    ensures forall k :: k in Keys(Collect(ps)) <==> k in Keys(ps)
  {
    if |ps| > 0 {
      var prev := ps[..|ps| - 1];
      var x := ps[|ps| - 1];
      CollectKeys(prev);
      assert ps == prev + [x];
      CollectKeysStep(prev, x);
    }
  }

  lemma CollectSnoc(prev: seq<(string, string)>, x: (string, string))
    ensures Collect(prev + [x]) == Append(Collect(prev), x.0, x.1)
  {
    assert (prev + [x])[..|prev|] == prev;
  }

  lemma CollectKeysStep(prev: seq<(string, string)>, x: (string, string))
    requires forall k :: k in Keys(Collect(prev)) <==> k in Keys(prev)
    ensures forall k :: k in Keys(Collect(prev + [x])) <==> k in Keys(prev + [x])
  {
    var d := Collect(prev);
    CollectSnoc(prev, x);
    KeysSnoc(prev, x);
    assert Keys(Collect(prev + [x])) == Keys(d) + (if x.0 in Keys(d) then [] else [x.0]);
  }

  lemma {:induction false} CollectOrder(ps: seq<(string, string)>)
    ensures forall i, j :: 0 <= i < j < |Collect(ps)| ==>
              FirstIndex(Keys(ps), Collect(ps)[i].0) < FirstIndex(Keys(ps), Collect(ps)[j].0)
  {
    if |ps| > 0 {
      var prev := ps[..|ps| - 1];
      var x := ps[|ps| - 1];
      CollectKeys(prev);
      CollectOrder(prev);
      assert ps == prev + [x];
      forall i, j | 0 <= i < j < |Collect(ps)|
        ensures FirstIndex(Keys(ps), Collect(ps)[i].0) < FirstIndex(Keys(ps), Collect(ps)[j].0)
      {
        CollectOrderStep(prev, x, i, j);
      }
    }
  }

  lemma CollectOrderStep(prev: seq<(string, string)>, x: (string, string), i: nat, j: nat)
    requires forall k :: k in Keys(Collect(prev)) <==> k in Keys(prev)
    requires forall i, j :: 0 <= i < j < |Collect(prev)| ==>
               FirstIndex(Keys(prev), Collect(prev)[i].0) < FirstIndex(Keys(prev), Collect(prev)[j].0)
    requires i < j < |Collect(prev + [x])|
    ensures FirstIndex(Keys(prev + [x]), Collect(prev + [x])[i].0) < FirstIndex(Keys(prev + [x]), Collect(prev + [x])[j].0)
  {
    var d := Collect(prev);
    var r := Collect(prev + [x]);
    assert (prev + [x])[..|prev|] == prev;
    assert r == Append(d, x.0, x.1);
    KeysSnoc(prev, x);
    var ks := Keys(d);
    assert Keys(r) == ks + (if x.0 in ks then [] else [x.0]);
    assert r[i].0 == Keys(r)[i] && r[j].0 == Keys(r)[j];
    assert r[i].0 == ks[i] && ks[i] == d[i].0;
    assert r[i].0 in Keys(prev);
    FirstIndexSnoc(Keys(prev), x.0, r[i].0);
    FirstIndexSnoc(Keys(prev), x.0, r[j].0);
    if j < |d| {
      assert r[j].0 == ks[j] && ks[j] == d[j].0;
      assert r[j].0 in Keys(prev);
    } else {
      assert r[j].0 == x.0 && x.0 !in ks;
      assert FirstIndex(Keys(prev), r[i].0) < |Keys(prev)|;
    }
  }

  /** One iteration adds the line's pieces, read with the loop's current
      key, and moves the key to the line's header if it has one. */
  lemma ActIsCollect(st: Loop, ps: seq<(string, string)>, kind: LineKind)
    requires st.verses == Collect(ps)
    ensures Act(st, kind).verses == Collect(ps + Contribution(kind, st.last))
    ensures Act(st, kind).last == if kind.Header? then kind.key else st.last
  {
    var c := Contribution(kind, st.last);
    if c == [] {
      assert ps + c == ps;
    } else {
      assert (ps + c)[..|ps|] == ps;
    }
  }

  /** The loop run over the kinds of the lines rather than the lines. */
  function RunOf(ks: seq<LineKind>): (r: Loop)
    ensures DistinctKeys(r.verses)
  {
    if |ks| == 0 then Loop([], "")
    else Act(RunOf(ks[..|ks| - 1]), ks[|ks| - 1])
  }

  lemma {:induction false} RunKinds(lines: seq<string>)
    ensures Run(lines) == RunOf(Kinds(lines))
  {
    if |lines| > 0 {
      var prev := lines[..|lines| - 1];
      RunKinds(prev);
      assert Kinds(lines)[..|lines| - 1] == Kinds(prev);
    }
  }

  lemma {:induction false} RunOfIsCollect(ks: seq<LineKind>)
    ensures RunOf(ks).verses == Collect(PiecesOf(ks))
    ensures RunOf(ks).last == KeyBefore(ks, |ks|)
  {
    if |ks| > 0 {
      RunOfIsCollect(ks[..|ks| - 1]);
      RunOfVersesStep(ks);
      RunOfLastStep(ks);
    }
  }

  lemma RunOfVersesStep(ks: seq<LineKind>)
    requires |ks| > 0
    requires RunOf(ks[..|ks| - 1]).verses == Collect(PiecesOf(ks[..|ks| - 1]))
    requires RunOf(ks[..|ks| - 1]).last == KeyBefore(ks[..|ks| - 1], |ks| - 1)
    ensures RunOf(ks).verses == Collect(PiecesOf(ks))
  {
    var prev, k := ks[..|ks| - 1], ks[|ks| - 1];
    KeyBeforeInit(ks);
    PiecesOfLast(ks);
    RunOfLast(ks);
    ActIsCollect(RunOf(prev), PiecesOf(prev), k);
  }

  lemma RunOfLastStep(ks: seq<LineKind>)
    requires |ks| > 0
    requires RunOf(ks[..|ks| - 1]).last == KeyBefore(ks[..|ks| - 1], |ks| - 1)
    ensures RunOf(ks).last == KeyBefore(ks, |ks|)
  {
    KeyBeforeInit(ks);
    RunOfLast(ks);
  }

  lemma RunOfLast(ks: seq<LineKind>)
    requires |ks| > 0
    ensures RunOf(ks) == Act(RunOf(ks[..|ks| - 1]), ks[|ks| - 1])
    ensures RunOf(ks).last == (if ks[|ks| - 1].Header? then ks[|ks| - 1].key else RunOf(ks[..|ks| - 1]).last)
  {
  }

  lemma PiecesOfLast(ks: seq<LineKind>)
    requires |ks| > 0
    ensures PiecesOf(ks) == PiecesOf(ks[..|ks| - 1]) + Contribution(ks[|ks| - 1], KeyBefore(ks, |ks| - 1))
  {
  }

  lemma KeyBeforeInit(ks: seq<LineKind>)
    requires |ks| > 0
    ensures KeyBefore(ks[..|ks| - 1], |ks| - 1) == KeyBefore(ks, |ks| - 1)
  {
    KeyBeforePrefix(ks, |ks| - 1, |ks| - 1);
  }

  /** The loop of `_parse_bible_str_chirho` computes the grouping of the
      per-line pieces, and afterwards holds the key of the last header. */
  lemma RunIsCollect(lines: seq<string>)
    ensures Run(lines).verses == Collect(Pieces(lines))
    ensures Run(lines).last == KeyBefore(Kinds(lines), |lines|)
  {
    RunKinds(lines);
    RunOfIsCollect(Kinds(lines));
  }

  /** What `_parse_bible_str_chirho` returns: every key's text is the
      concatenation, in line order, of the pieces for that key; its keys are
      exactly the keys of the pieces; and they appear in the order in which
      they are first seen. */
  lemma SegmentSpec(raw: string)
    ensures var ps := Pieces(SplitLines(Pad(raw)));
      && (forall k :: Value(Segment(raw), k) == ContentsFor(ps, k))
      && (forall k :: k in Keys(Segment(raw)) <==> k in Keys(ps))
      && (forall i, j :: 0 <= i < j < |Segment(raw)| ==>
            FirstIndex(Keys(ps), Segment(raw)[i].0) < FirstIndex(Keys(ps), Segment(raw)[j].0))
  {
    var lines := SplitLines(Pad(raw));
    RunIsCollect(lines);
    CollectSpec(Pieces(lines));
  }

  /** Every header among the kinds carries a verse key. */
  ghost predicate HeaderKeys(ks: seq<LineKind>) {
    forall p :: 0 <= p < |ks| && ks[p].Header? ==> IsVerseKey(ks[p].key)
  }

  lemma KindsHeaderKeys(lines: seq<string>)
    ensures HeaderKeys(Kinds(lines))
  {
    var ks := Kinds(lines);
    forall p | 0 <= p < |ks| && ks[p].Header? ensures IsVerseKey(ks[p].key) {
      HeaderKey(lines[p]);
    }
  }

  lemma HeaderKey(line: string)
    ensures Classify(line).Header? ==> IsVerseKey(Classify(line).key)
  {
  }

  /** Every key in force is either the empty key of text before the first
      header or a verse key. */
  lemma {:induction false} KeyBeforeOf(ks: seq<LineKind>, i: nat)
    requires i <= |ks|
    requires HeaderKeys(ks)
    ensures KeyBefore(ks, i) == "" || IsVerseKey(KeyBefore(ks, i))
    decreases i
  {
    if i > 0 && !ks[i - 1].Header? {
      KeyBeforeOf(ks, i - 1);
    }
  }

  /** The pieces carry only verse keys and the empty key. */
  lemma {:induction false} PiecesOfKeys(ks: seq<LineKind>)
    requires HeaderKeys(ks)
    ensures forall k :: k in Keys(PiecesOf(ks)) ==> k == "" || IsVerseKey(k)
  {
    if |ks| > 0 {
      var prev := ks[..|ks| - 1];
      assert HeaderKeys(prev) by {
        assert forall p :: 0 <= p < |prev| ==> prev[p] == ks[p];
      }
      PiecesOfKeys(prev);
      KeyBeforeOf(ks, |ks| - 1);
      PiecesOfLast(ks);
      KeysAppend(PiecesOf(prev), Contribution(ks[|ks| - 1], KeyBefore(ks, |ks| - 1)));
    }
  }

  lemma {:induction false} KeyBeforePrefix(ks: seq<LineKind>, n: nat, i: nat)
    requires i <= n <= |ks|
    ensures KeyBefore(ks[..n], i) == KeyBefore(ks, i)
    decreases i
  {
    if i > 0 {
      assert ks[..n][i - 1] == ks[i - 1];
      KeyBeforePrefix(ks, n, i - 1);
    }
  }

  lemma KeysAppend<V>(a: seq<(string, V)>, b: seq<(string, V)>)
    ensures Keys(a + b) == Keys(a) + Keys(b)
  {
  }

  /** So every key of the result is a verse key, or the empty key that
      collects text before the first header. */
  lemma SegmentKeys(raw: string)
    ensures forall k :: k in Keys(Segment(raw)) ==> k == "" || IsVerseKey(k)
  {
    var lines := SplitLines(Pad(raw));
    KindsHeaderKeys(lines);
    PiecesOfKeys(Kinds(lines));
    SegmentSpec(raw);
  }

  lemma KeyExample()
    ensures KeyAt("Genesis 1:1:", 7, 9)
  {
    var key := "Genesis 1:1:";
    assert key[..7] == "Genesis";
    assert AllWordOrSpace("Genesis");
    assert key[8..9] == "1" && key[10..11] == "1";
  }

  lemma HeaderExampleMatch()
    ensures HeaderMatch("Genesis 1:1: In the beginning", "Genesis 1:1:", "In the beginning")
  {
    var line := "Genesis 1:1: In the beginning";
    var key := "Genesis 1:1:";
    var content := "In the beginning";
    KeyExample();
    assert line[..|key|] == key;
    var rest := line[|key|..];
    assert rest == " " + content;
    assert rest[|rest| - |content|..] == content;
    assert rest[..|rest| - |content|] == " ";
  }

  /** A header line: its key keeps the trailing colon and its content
      drops the whitespace after it. */
  lemma HeaderExample()
    ensures Classify("Genesis 1:1: In the beginning") == Header("Genesis 1:1:", "In the beginning")
  {
    var line := "Genesis 1:1: In the beginning";
    LStripAfterSpaces([], line);
    assert [] + line == line;
    HeaderExampleMatch();
    MatchHeaderComplete(line, "Genesis 1:1:", "In the beginning");
  }

  /** A version label is skipped, whatever whitespace surrounds it. */
  lemma VersionExample()
    ensures Classify(" (KJV) ") == Skip
  {
    StripAround(" ", "(KJV)", " ");
    assert " " + "(KJV)" + " " == " (KJV) ";
    LabelExample();
  }

  lemma LabelExample()
    ensures IsVersionLabel("(KJV)")
  {
    assert "(KJV)"[1] == 'K' && "(KJV)"[2] == 'J' && "(KJV)"[3] == 'V';
  }

  /** Any other non-blank line continues the current verse. */
  lemma ContinuationExample()
    ensures Classify(" " + "God created" + " ") == Continuation("God created")
  {
    var line := " " + "God created" + " ";
    StripAround(" ", "God created", " ");
    NoColonExample(line);
    assert HeaderParts(line) == None;
    assert !IsVersionLabel("God created");
  }

  lemma NoColonExample(line: string)
    requires line == " " + "God created" + " "
    ensures Find(line, ':') == None
  {
    assert ':' !in line;
  }
}
