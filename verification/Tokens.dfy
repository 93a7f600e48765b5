/** Token extraction (`_parse_bible_str_tokens_chirho`): a verse's text is
    split on whitespace and folded left to right into word groups, each
    carrying the Strong's ids of the markers that follow it. */
module Tokens {
  import opened Results
  import opened Text
  import opened Strongs

  /** One word group with the concordance ids attached to it. */
  datatype Token = Token(ids: seq<string>, words: seq<string>)

  /** A whitespace-separated token after marker recognition. */
  datatype Piece = Word(text: string) | Mark(id: string)

  /** Reads one whitespace-separated token. A token that starts with a
      marker becomes that marker's normalised id; a digit-less marker is an
      error; anything else is a word. */
  function ScanOne(t: string): (r: Result<Piece>)
    ensures MatchMarker(t).None? ==> r == Ok(Word(t))
    ensures MatchMarker(t).Some? ==>
      && (r.Err? <==> |MatchMarker(t).value| == 1)
      && (r.Err? ==> r.error == MalformedMarker(MatchMarker(t).value))
      && (r.Ok? ==> r.value.Mark? && Normalise(MatchMarker(t).value) == Ok(r.value.id))
  {
    match MatchMarker(t)
    case None => Ok(Word(t))
    case Some(b) =>
      match Normalise(b)
      case Ok(id) => Ok(Mark(id))
      case Err(e) => Err(e)
  }

  /** Reads every token in order; the first token that fails stops the scan,
      as the exception in the loop does. */
  function Scan(raw: seq<string>): (r: Result<seq<Piece>>)
    ensures r.Ok? ==> |r.value| == |raw|
    ensures r.Ok? ==> forall i :: 0 <= i < |raw| ==> ScanOne(raw[i]) == Ok(r.value[i])
    ensures r.Err? ==> exists i :: && 0 <= i < |raw|
                                   && ScanOne(raw[i]) == Err(r.error)
                                   && forall j :: 0 <= j < i ==> ScanOne(raw[j]).Ok?
  {
    if |raw| == 0 then Ok([])
    else
      match ScanOne(raw[0])
      case Err(e) => Err(e)
      case Ok(p) =>
        match Scan(raw[1..])
        case Err(e) =>
          ScanTailErr(raw, raw[1..], e);
          Err(e)
        case Ok(ps) =>
          ScanTailOk(raw, raw[1..], p, ps);
          Ok([p] + ps)
  }

  /** A failure in the tail is a failure of the whole scan, after a first
      token that reads. */
  lemma ScanTailErr(raw: seq<string>, tail: seq<string>, e: Error)
    requires |raw| > 0 && tail == raw[1..] && ScanOne(raw[0]).Ok?
    requires exists i :: && 0 <= i < |tail|
                         && ScanOne(tail[i]) == Err(e)
                         && forall j :: 0 <= j < i ==> ScanOne(tail[j]).Ok?
    ensures exists i :: && 0 <= i < |raw|
                        && ScanOne(raw[i]) == Err(e)
                        && forall j :: 0 <= j < i ==> ScanOne(raw[j]).Ok?
  {
    var i :| && 0 <= i < |tail|
             && ScanOne(tail[i]) == Err(e)
             && forall j :: 0 <= j < i ==> ScanOne(tail[j]).Ok?;
    assert ScanOne(raw[i + 1]) == Err(e);
    forall j | 0 <= j < i + 1
      ensures ScanOne(raw[j]).Ok?
    {
      if j > 0 {
        assert raw[j] == tail[j - 1];
      }
    }
  }

  /** Putting the first token's piece before the tail's pieces keeps every
      piece at its token's position. */
  lemma ScanTailOk(raw: seq<string>, tail: seq<string>, p: Piece, ps: seq<Piece>)
    requires |raw| > 0 && tail == raw[1..] && ScanOne(raw[0]) == Ok(p)
    requires |ps| == |tail|
    requires forall i :: 0 <= i < |tail| ==> ScanOne(tail[i]) == Ok(ps[i])
    ensures forall i :: 0 <= i < |raw| ==> ScanOne(raw[i]) == Ok(([p] + ps)[i])
  {
    forall i | 0 <= i < |raw|
      ensures ScanOne(raw[i]) == Ok(([p] + ps)[i])
    {
      if i > 0 {
        assert raw[i] == tail[i - 1];
      }
    }
  }

  /** The plain words among the pieces, in order. */
  function WordsIn(ps: seq<Piece>): seq<string> {
    if |ps| == 0 then []
    else WordsIn(ps[..|ps| - 1]) + (if ps[|ps| - 1].Word? then [ps[|ps| - 1].text] else [])
  }

  /** The marker ids among the pieces, in order. */
  function IdsIn(ps: seq<Piece>): seq<string> {
    if |ps| == 0 then []
    else IdsIn(ps[..|ps| - 1]) + (if ps[|ps| - 1].Mark? then [ps[|ps| - 1].id] else [])
  }

  /** All the words of a token list, in order. */
  function AllWords(ts: seq<Token>): seq<string> {
    if |ts| == 0 then [] else AllWords(ts[..|ts| - 1]) + ts[|ts| - 1].words
  }

  /** All the ids of a token list, in order. */
  function AllIds(ts: seq<Token>): seq<string> {
    if |ts| == 0 then [] else AllIds(ts[..|ts| - 1]) + ts[|ts| - 1].ids
  }

  lemma AllOfSnoc(ts: seq<Token>, t: Token)
    ensures AllWords(ts + [t]) == AllWords(ts) + t.words
    ensures AllIds(ts + [t]) == AllIds(ts) + t.ids
  {
    assert (ts + [t])[..|ts|] == ts;
  }

  /** The loop state: the tokens built so far and the pending word group. */
  datatype State = State(tokens: seq<Token>, pending: seq<string>)

  /** One iteration of the extraction loop. */
  function Step(st: State, p: Piece): State {
    match p
    case Word(w) => State(st.tokens, st.pending + [w])
    case Mark(id) =>
      if st.pending == [] then
        if st.tokens == [] then
          // a marker before any word opens a token with no words
          State([Token([id], [])], [])
        else
          // further markers describe the group just closed
          var n := |st.tokens|;
          var last := st.tokens[n - 1];
          State(st.tokens[..n - 1] + [Token(last.ids + [id], last.words)], [])
      else
        State(st.tokens + [Token([id], st.pending)], [])
  }

  /** The loop state after the given pieces. No word is lost or repeated:
      the tokens' words followed by the pending words are the plain words
      read so far; the tokens' ids are the marker ids read so far; every
      token built inside the loop carries an id, and only the first can be
      without words. */
  function Fold(ps: seq<Piece>): (st: State)
    ensures AllWords(st.tokens) + st.pending == WordsIn(ps)
    ensures AllIds(st.tokens) == IdsIn(ps)
    ensures forall i :: 0 <= i < |st.tokens| ==> st.tokens[i].ids != []
    ensures forall i :: 0 < i < |st.tokens| ==> st.tokens[i].words != []
    decreases |ps|
  {
    if |ps| == 0 then State([], [])
    else
      var prev := Fold(ps[..|ps| - 1]);
      StepKeeps(prev, ps[|ps| - 1]);
      Step(prev, ps[|ps| - 1])
  }

  /** What one iteration adds: the word it reads (if any) to the words, the
      id it reads (if any) to the ids; it keeps every built token's id and
      all but the first token's words. */
  lemma StepKeeps(st: State, p: Piece)
    ensures var st' := Step(st, p);
      AllWords(st'.tokens) + st'.pending
        == AllWords(st.tokens) + st.pending + (if p.Word? then [p.text] else [])
    ensures AllIds(Step(st, p).tokens) == AllIds(st.tokens) + (if p.Mark? then [p.id] else [])
    ensures (forall i :: 0 <= i < |st.tokens| ==> st.tokens[i].ids != []) ==>
            (forall i :: 0 <= i < |Step(st, p).tokens| ==> Step(st, p).tokens[i].ids != [])
    ensures (forall i :: 0 < i < |st.tokens| ==> st.tokens[i].words != []) ==>
            (forall i :: 0 < i < |Step(st, p).tokens| ==> Step(st, p).tokens[i].words != [])
  {
    if p.Mark? && st.pending == [] && st.tokens != [] {
      ExtendKeeps(st, p.id);
    } else if p.Mark? && st.pending != [] {
      CloseKeeps(st, p.id);
    } else if p.Mark? {
      AllOfSnoc([], Token([p.id], []));
    } else {
      assert AllWords(st.tokens) + (st.pending + [p.text]) == AllWords(st.tokens) + st.pending + [p.text];
    }
  }

  /** A further marker adds its id to the group just closed. */
  lemma ExtendKeeps(st: State, id: string)
    requires st.pending == [] && st.tokens != []
    ensures AllWords(Step(st, Mark(id)).tokens) == AllWords(st.tokens)
    ensures AllIds(Step(st, Mark(id)).tokens) == AllIds(st.tokens) + [id]
    ensures |Step(st, Mark(id)).tokens| == |st.tokens|
    ensures forall i :: 0 <= i < |st.tokens| ==>
      && Step(st, Mark(id)).tokens[i].words == st.tokens[i].words
      && (Step(st, Mark(id)).tokens[i].ids == [] ==> st.tokens[i].ids == [])
  {
    var n := |st.tokens|;
    var last := st.tokens[n - 1];
    var init := st.tokens[..n - 1];
    var ts := init + [Token(last.ids + [id], last.words)];
    assert Step(st, Mark(id)).tokens == ts;
    assert st.tokens == init + [last];
    AllOfSnoc(init, last);
    AllOfSnoc(init, Token(last.ids + [id], last.words));
    assert forall i :: 0 <= i < n - 1 ==> ts[i] == st.tokens[i];
  }

  /** A marker after pending words closes them into a new token. */
  lemma CloseKeeps(st: State, id: string)
    requires st.pending != []
    ensures Step(st, Mark(id)).tokens == st.tokens + [Token([id], st.pending)]
    ensures AllWords(Step(st, Mark(id)).tokens) == AllWords(st.tokens) + st.pending
    ensures AllIds(Step(st, Mark(id)).tokens) == AllIds(st.tokens) + [id]
  {
    AllOfSnoc(st.tokens, Token([id], st.pending));
  }

  /** The pieces standing for some words. */
  function WordPieces(ws: seq<string>): seq<Piece> {
    seq(|ws|, i requires 0 <= i < |ws| => Word(ws[i]))
  }

  /** The pieces standing for some ids. */
  function MarkPieces(ids: seq<string>): seq<Piece> {
    seq(|ids|, i requires 0 <= i < |ids| => Mark(ids[i]))
  }

  /** The pieces a token was read from: its words, then the markers that
      followed them. */
  function TokenPieces(t: Token): seq<Piece> {
    WordPieces(t.words) + MarkPieces(t.ids)
  }

  /** The pieces a token list was read from, token after token. */
  function Unscan(ts: seq<Token>): seq<Piece> {
    if |ts| == 0 then [] else TokenPieces(ts[0]) + Unscan(ts[1..])
  }

  /** The shape of the tokens the loop builds: every token but the last has
      ids, every token but the first has words, and no token is empty. */
  predicate Shaped(ts: seq<Token>) {
    && (forall i :: 0 <= i < |ts| - 1 ==> ts[i].ids != [])
    && (forall i :: 0 < i < |ts| ==> ts[i].words != [])
    && (forall i :: 0 <= i < |ts| ==> ts[i] != Token([], []))
  }

  lemma {:induction false} UnscanSnoc(ts: seq<Token>, t: Token)
    ensures Unscan(ts + [t]) == Unscan(ts) + TokenPieces(t)
    decreases |ts|
  {
    if |ts| == 0 {
      assert ts + [t] == [t] && [t][1..] == [];
    } else {
      assert (ts + [t])[1..] == ts[1..] + [t];
      UnscanSnoc(ts[1..], t);
    }
  }

  /** One iteration appends the piece it reads to the pieces the tokens and
      the pending words stand for. */
  lemma StepUnscan(st: State, p: Piece)
    ensures Unscan(Step(st, p).tokens) + WordPieces(Step(st, p).pending)
         == Unscan(st.tokens) + WordPieces(st.pending) + [p]
  {
    match p
    case Word(w) =>
      assert WordPieces(st.pending + [w]) == WordPieces(st.pending) + [Word(w)];
    case Mark(id) =>
      var t := Token([id], st.pending);
      assert MarkPieces([id]) == [Mark(id)];
      if st.pending == [] && st.tokens == [] {
        UnscanSnoc([], t);
        assert WordPieces([]) == [];
      } else if st.pending == [] {
        var n := |st.tokens|;
        var last := st.tokens[n - 1];
        var init := st.tokens[..n - 1];
        assert st.tokens == init + [last];
        UnscanSnoc(init, last);
        UnscanSnoc(init, Token(last.ids + [id], last.words));
        assert MarkPieces(last.ids + [id]) == MarkPieces(last.ids) + [Mark(id)];
        assert WordPieces([]) == [];
      } else {
        UnscanSnoc(st.tokens, t);
        assert WordPieces([]) == [];
      }
  }

  /** The tokens built so far followed by the pending words stand for
      exactly the pieces read, in order. */
  lemma {:induction false} FoldUnscan(ps: seq<Piece>)
    ensures Unscan(Fold(ps).tokens) + WordPieces(Fold(ps).pending) == ps
    decreases |ps|
  {
    if |ps| > 0 {
      var n := |ps| - 1;
      var prev := ps[..n];
      FoldUnscan(prev);
      assert Fold(ps) == Step(Fold(prev), ps[n]);
      assert ps == prev + [ps[n]];
      StepUnscanSnoc(Fold(prev), ps[n], prev, ps);
    } else {
      assert WordPieces([]) == [];
    }
  }

  /** `StepUnscan` for a state that stands for `prev`: the next state stands
      for `prev` followed by the piece read. */
  lemma StepUnscanSnoc(st: State, p: Piece, prev: seq<Piece>, ps: seq<Piece>)
    requires Unscan(st.tokens) + WordPieces(st.pending) == prev
    requires ps == prev + [p]
    ensures Unscan(Step(st, p).tokens) + WordPieces(Step(st, p).pending) == ps
  {
    StepUnscan(st, p);
  }

  /** The loop followed by the flush of trailing words: words after the last
      marker form a final token with no ids. Each token holds a run of words
      and the markers that follow them, so reading the tokens back gives the
      pieces. */
  function Group(ps: seq<Piece>): (ts: seq<Token>)
    ensures AllWords(ts) == WordsIn(ps)
    ensures AllIds(ts) == IdsIn(ps)
    ensures Shaped(ts)
    ensures Unscan(ts) == ps
    ensures ps == [] ==> ts == []
  {
    var st := Fold(ps);
    FoldUnscan(ps);
    if st.pending == [] then
      assert WordPieces([]) == [];
      st.tokens
    else
      AllOfSnoc(st.tokens, Token([], st.pending));
      UnscanSnoc(st.tokens, Token([], st.pending));
      assert MarkPieces([]) == [];
      st.tokens + [Token([], st.pending)]
  }

  /** The number of word pieces at the front. */
  function LeadWords(ps: seq<Piece>): nat {
    if |ps| > 0 && ps[0].Word? then 1 + LeadWords(ps[1..]) else 0
  }

  /** The number of marker pieces at the front. */
  function LeadMarks(ps: seq<Piece>): nat {
    if |ps| > 0 && ps[0].Mark? then 1 + LeadMarks(ps[1..]) else 0
  }

  lemma {:induction false} LeadWordsOf(ws: seq<string>, rest: seq<Piece>)
    requires rest == [] || rest[0].Mark?
    ensures LeadWords(WordPieces(ws) + rest) == |ws|
    decreases |ws|
  {
    if |ws| == 0 {
      assert WordPieces(ws) + rest == rest;
    } else {
      assert (WordPieces(ws) + rest)[1..] == WordPieces(ws[1..]) + rest;
      LeadWordsOf(ws[1..], rest);
    }
  }

  lemma {:induction false} LeadMarksOf(ids: seq<string>, rest: seq<Piece>)
    requires rest == [] || rest[0].Word?
    ensures LeadMarks(MarkPieces(ids) + rest) == |ids|
    decreases |ids|
  {
    if |ids| == 0 {
      assert MarkPieces(ids) + rest == rest;
    } else {
      assert (MarkPieces(ids) + rest)[1..] == MarkPieces(ids[1..]) + rest;
      LeadMarksOf(ids[1..], rest);
    }
  }

  /** How the pieces of a well-shaped token list start: the first token's
      words are the leading word pieces, and its ids the marker pieces right
      after them. */
  lemma UnscanFirst(ts: seq<Token>)
    requires Shaped(ts) && ts != []
    ensures var ps := Unscan(ts);
      var x := ts[0];
      && LeadWords(ps) == |x.words|
      && ps[..|x.words|] == WordPieces(x.words)
      && LeadMarks(ps[|x.words|..]) == |x.ids|
      && ps[|x.words|..][..|x.ids|] == MarkPieces(x.ids)
      && ps[|x.words| + |x.ids|..] == Unscan(ts[1..])
      && Shaped(ts[1..])
  {
    var x := ts[0];
    assert Unscan(ts) == WordPieces(x.words) + (MarkPieces(x.ids) + Unscan(ts[1..]));
    UnscanTail(ts);
    FirstParts(x.words, x.ids, Unscan(ts[1..]));
  }

  /** The pieces of a token, followed by what comes after it, split back
      into its words and its ids. */
  lemma FirstParts(words: seq<string>, ids: seq<string>, u: seq<Piece>)
    requires u == [] || (u[0].Word? && ids != [])
    ensures var ps := WordPieces(words) + (MarkPieces(ids) + u);
      && LeadWords(ps) == |words|
      && ps[..|words|] == WordPieces(words)
      && LeadMarks(ps[|words|..]) == |ids|
      && ps[|words|..][..|ids|] == MarkPieces(ids)
      && ps[|words| + |ids|..] == u
  {
    var ws, ms := WordPieces(words), MarkPieces(ids);
    if ids != [] {
      assert (ms + u)[0] == ms[0];
    } else {
      assert ms + u == u;
    }
    LeadWordsOf(words, ms + u);
    LeadMarksOf(ids, u);
    SliceThree(ws, ms, u);
  }

  lemma SliceThree<T>(a: seq<T>, b: seq<T>, c: seq<T>)
    ensures (a + (b + c))[..|a|] == a && (a + (b + c))[|a|..] == b + c
    ensures (b + c)[..|b|] == b && (a + (b + c))[|a| + |b|..] == c
  {
  }

  /** What follows the first token of a well-shaped list: another
      well-shaped list, which starts with a word, and only after ids. */
  lemma UnscanTail(ts: seq<Token>)
    requires Shaped(ts) && ts != []
    ensures Shaped(ts[1..])
    ensures Unscan(ts[1..]) == [] || (Unscan(ts[1..])[0].Word? && ts[0].ids != [])
  {
    if |ts| > 1 {
      assert ts[1..][0] == ts[1];
      assert Unscan(ts[1..]) == TokenPieces(ts[1]) + Unscan(ts[2..]) by {
        assert ts[1..][1..] == ts[2..];
      }
      assert Unscan(ts[1..])[0] == Word(ts[1].words[0]);
      assert forall i :: 0 <= i < |ts| - 1 ==> ts[1..][i] == ts[i + 1];
    } else {
      assert Unscan(ts[1..]) == [];
    }
  }

  lemma WordPiecesInjective(ws: seq<string>, ws': seq<string>)
    requires WordPieces(ws) == WordPieces(ws')
    ensures ws == ws'
  {
    assert forall i :: 0 <= i < |ws| ==> WordPieces(ws)[i].text == ws[i] && WordPieces(ws')[i].text == ws'[i];
  }

  lemma MarkPiecesInjective(ids: seq<string>, ids': seq<string>)
    requires MarkPieces(ids) == MarkPieces(ids')
    ensures ids == ids'
  {
    assert forall i :: 0 <= i < |ids| ==> MarkPieces(ids)[i].id == ids[i] && MarkPieces(ids')[i].id == ids'[i];
  }

  /** Two well-shaped token lists reading back to the same pieces agree on
      their first token and on the pieces of the rest. */
  lemma FirstAgree(a: seq<Token>, b: seq<Token>)
    requires Shaped(a) && Shaped(b) && Unscan(a) == Unscan(b) && a != [] && b != []
    ensures a[0] == b[0] && Unscan(a[1..]) == Unscan(b[1..])
    ensures Shaped(a[1..]) && Shaped(b[1..])
  {
    var ps := Unscan(a);
    UnscanFirst(a);
    UnscanFirst(b);
    var x, y := a[0], b[0];
    var n := |x.words|;
    assert |y.words| == n;
    WordPiecesInjective(x.words, y.words);
    assert |y.ids| == |x.ids|;
    MarkPiecesInjective(x.ids, y.ids);
  }

  /** Well-shaped token lists that read back to the same pieces are equal. */
  lemma {:induction false} UnscanInjective(a: seq<Token>, b: seq<Token>)
    requires Shaped(a) && Shaped(b) && Unscan(a) == Unscan(b)
    ensures a == b
    decreases |a|
  {
    if |a| > 0 && |b| > 0 {
      FirstAgree(a, b);
      UnscanInjective(a[1..], b[1..]);
      assert a == [a[0]] + a[1..] && b == [b[0]] + b[1..];
    }
  }

  /** The grouping is the only well-shaped token list that reads back to
      the pieces: the tokens hold each run of words together with the
      markers that follow it. */
  lemma GroupIsOnly(ps: seq<Piece>, ts: seq<Token>)
    ensures Shaped(ts) && Unscan(ts) == ps <==> ts == Group(ps)
  {
    if Shaped(ts) && Unscan(ts) == ps {
      UnscanInjective(ts, Group(ps));
    }
  }

  /** `_parse_bible_str_tokens_chirho`. */
  function Extract(text: string): Result<seq<Token>> {
    match Scan(Split(text))
    case Err(e) => Err(e)
    case Ok(ps) => Ok(Group(ps))
  }

  /** The whitespace tokens that are not markers, in order. */
  function PlainWords(raw: seq<string>): seq<string> {
    if |raw| == 0 then []
    else PlainWords(raw[..|raw| - 1])
         + (if MatchMarker(raw[|raw| - 1]).None? then [raw[|raw| - 1]] else [])
  }

  /** The captured groups of the whitespace tokens that are markers, in order. */
  function MarkerBodies(raw: seq<string>): (bs: seq<string>)
    ensures forall k :: 0 <= k < |bs| ==> IsMarkerBody(bs[k])
  {
    if |raw| == 0 then []
    else
      var m := MatchMarker(raw[|raw| - 1]);
      MarkerBodies(raw[..|raw| - 1]) + (if m.Some? then [m.value] else [])
  }

  lemma {:induction false} ScannedWords(raw: seq<string>, ps: seq<Piece>)
    requires |ps| == |raw|
    requires forall i :: 0 <= i < |raw| ==> ScanOne(raw[i]) == Ok(ps[i])
    ensures WordsIn(ps) == PlainWords(raw)
    decreases |raw|
  {
    if |raw| > 0 {
      var n := |raw| - 1;
      assert forall i :: 0 <= i < n ==> raw[..n][i] == raw[i] && ps[..n][i] == ps[i];
      ScannedWords(raw[..n], ps[..n]);
      assert ScanOne(raw[n]) == Ok(ps[n]);
      assert ps[n].Word? <==> MatchMarker(raw[n]).None?;
    }
  }

  lemma {:induction false} ScannedIds(raw: seq<string>, ps: seq<Piece>)
    requires |ps| == |raw|
    requires forall i :: 0 <= i < |raw| ==> ScanOne(raw[i]) == Ok(ps[i])
    ensures |IdsIn(ps)| == |MarkerBodies(raw)|
    ensures forall k :: 0 <= k < |IdsIn(ps)| ==> Normalise(MarkerBodies(raw)[k]) == Ok(IdsIn(ps)[k])
    decreases |raw|
  {
    if |raw| > 0 {
      var n := |raw| - 1;
      assert forall i :: 0 <= i < n ==> raw[..n][i] == raw[i] && ps[..n][i] == ps[i];
      ScannedIds(raw[..n], ps[..n]);
      ScannedIdsStep(raw, ps, raw[..n], ps[..n]);
    }
  }

  lemma ScannedIdsStep(raw: seq<string>, ps: seq<Piece>, prevRaw: seq<string>, prevPs: seq<Piece>)
    requires |ps| == |raw| > 0
    requires prevRaw == raw[..|raw| - 1] && prevPs == ps[..|ps| - 1]
    requires ScanOne(raw[|raw| - 1]) == Ok(ps[|ps| - 1])
    requires |IdsIn(prevPs)| == |MarkerBodies(prevRaw)|
    requires forall k :: 0 <= k < |IdsIn(prevPs)| ==> Normalise(MarkerBodies(prevRaw)[k]) == Ok(IdsIn(prevPs)[k])
    ensures |IdsIn(ps)| == |MarkerBodies(raw)|
    ensures forall k :: 0 <= k < |IdsIn(ps)| ==> Normalise(MarkerBodies(raw)[k]) == Ok(IdsIn(ps)[k])
  {
    var n := |raw| - 1;
    var m := MatchMarker(raw[n]);
    assert IdsIn(ps) == IdsIn(prevPs) + (if ps[n].Mark? then [ps[n].id] else []);
    assert MarkerBodies(raw) == MarkerBodies(prevRaw) + (if m.Some? then [m.value] else []);
    if m.Some? {
      assert ps[n].Mark? && Normalise(m.value) == Ok(ps[n].id);
      NormalisedSnoc(MarkerBodies(prevRaw), IdsIn(prevPs), m.value, ps[n].id);
    } else {
      assert !ps[n].Mark?;
      assert IdsIn(ps) == IdsIn(prevPs) && MarkerBodies(raw) == MarkerBodies(prevRaw);
    }
  }

  lemma NormalisedSnoc(bs: seq<string>, ids: seq<string>, b: string, id: string)
    requires forall k :: 0 <= k < |bs| ==> IsMarkerBody(bs[k])
    requires IsMarkerBody(b)
    requires |bs| == |ids| && forall k :: 0 <= k < |ids| ==> Normalise(bs[k]) == Ok(ids[k])
    requires Normalise(b) == Ok(id)
    ensures forall k :: 0 <= k < |ids + [id]| ==> Normalise((bs + [b])[k]) == Ok((ids + [id])[k])
  {
    assert forall k :: 0 <= k < |ids| ==> (bs + [b])[k] == bs[k] && (ids + [id])[k] == ids[k];
  }

  /** Word conservation and id accounting for a whole verse: the tokens'
      words are exactly the non-marker whitespace tokens of the text, in
      order; there is one id per marker token, each the normalisation of
      that marker, in order; reading the tokens back, each token's words
      followed by its ids, gives the whitespace tokens of the text one for
      one; only the last token can lack ids, only the first can lack words,
      and a text with no tokens gives no tokens. */
  lemma ExtractSpec(text: string)
    requires Extract(text).Ok?
    ensures var ts := Extract(text).value;
      && AllWords(ts) == PlainWords(Split(text))
      && |AllIds(ts)| == |MarkerBodies(Split(text))|
      && (forall k :: 0 <= k < |AllIds(ts)| ==>
            Normalise(MarkerBodies(Split(text))[k]) == Ok(AllIds(ts)[k]))
      && |Unscan(ts)| == |Split(text)|
      && (forall i :: 0 <= i < |Split(text)| ==> ScanOne(Split(text)[i]) == Ok(Unscan(ts)[i]))
      && Shaped(ts)
      && (Split(text) == [] ==> ts == [])
  {
    var raw := Split(text);
    var ps := Scan(raw).value;
    ScannedWords(raw, ps);
    ScannedIds(raw, ps);
  }

  /** The tokens of a verse are determined by its whitespace tokens: a token
      list is the extraction exactly when it is well shaped and reads back,
      piece by piece, to the reading of each whitespace token. */
  lemma ExtractIsOnly(text: string, ts: seq<Token>)
    ensures Extract(text) == Ok(ts) <==>
      && Shaped(ts)
      && |Unscan(ts)| == |Split(text)|
      && (forall i :: 0 <= i < |Split(text)| ==> ScanOne(Split(text)[i]) == Ok(Unscan(ts)[i]))
  {
    var raw := Split(text);
    if Extract(text) == Ok(ts) {
      ExtractSpec(text);
    }
    if && Shaped(ts) && |Unscan(ts)| == |raw|
       && (forall i :: 0 <= i < |raw| ==> ScanOne(raw[i]) == Ok(Unscan(ts)[i])) {
      ExtractFromReading(raw, ts);
    }
  }

  lemma ExtractFromReading(raw: seq<string>, ts: seq<Token>)
    requires Shaped(ts) && |Unscan(ts)| == |raw|
    requires forall i :: 0 <= i < |raw| ==> ScanOne(raw[i]) == Ok(Unscan(ts)[i])
    ensures Scan(raw) == Ok(Unscan(ts)) && Group(Unscan(ts)) == ts
  {
    var ps := Unscan(ts);
    assert Scan(raw).Ok?;
    assert Scan(raw).value == ps;
    GroupIsOnly(ps, ts);
  }

  /** Extraction fails exactly when some whitespace token is a marker with
      no digits, and the error names the first such marker. */
  lemma ExtractFails(text: string)
    ensures Extract(text).Err? <==>
      exists i :: 0 <= i < |Split(text)| && ScanOne(Split(text)[i]).Err?
    ensures Extract(text).Err? ==>
      exists i :: && 0 <= i < |Split(text)|
                  && MatchMarker(Split(text)[i]).Some?
                  && Extract(text).error == MalformedMarker(MatchMarker(Split(text)[i]).value)
                  && |MatchMarker(Split(text)[i]).value| == 1
                  && forall j :: 0 <= j < i ==> ScanOne(Split(text)[j]).Ok?
  {
    var raw := Split(text);
    if Scan(raw).Err? {
      var e := Scan(raw).error;
      assert Extract(text) == Err(e);
      var i :| 0 <= i < |raw| && ScanOne(raw[i]) == Err(e) && forall j :: 0 <= j < i ==> ScanOne(raw[j]).Ok?;
      assert ScanOne(Split(text)[i]).Err?;
      assert MatchMarker(raw[i]).Some?;
      assert e == MalformedMarker(MatchMarker(raw[i]).value) && |MatchMarker(raw[i]).value| == 1;
    } else {
      assert forall i :: 0 <= i < |raw| ==> ScanOne(raw[i]) == Ok(Scan(raw).value[i]);
    }
  }

  lemma {:induction false} NoMarksFold(ps: seq<Piece>)
    requires forall i :: 0 <= i < |ps| ==> ps[i].Word?
    ensures Fold(ps).tokens == []
    decreases |ps|
  {
    if |ps| > 0 {
      NoMarksFold(ps[..|ps| - 1]);
    }
  }

  lemma {:induction false} PlainWordsAll(raw: seq<string>)
    requires forall i :: 0 <= i < |raw| ==> MatchMarker(raw[i]).None?
    ensures PlainWords(raw) == raw
    decreases |raw|
  {
    if |raw| > 0 {
      PlainWordsAll(raw[..|raw| - 1]);
      assert raw == raw[..|raw| - 1] + [raw[|raw| - 1]];
    }
  }

  lemma FoldSnoc(ps: seq<Piece>, p: Piece)
    ensures Fold(ps + [p]) == Step(Fold(ps), p)
  {
    assert (ps + [p])[..|ps|] == ps;
  }

  /** Words with no marker at all form one token with no ids. */
  lemma GroupPlain(raw: seq<string>, ps: seq<Piece>)
    requires raw != [] && |ps| == |raw|
    requires forall i :: 0 <= i < |raw| ==> MatchMarker(raw[i]).None? && ScanOne(raw[i]) == Ok(ps[i])
    ensures Group(ps) == [Token([], raw)]
  {
    assert forall i :: 0 <= i < |ps| ==> ps[i].Word?;
    NoMarksFold(ps);
    ScannedWords(raw, ps);
    PlainWordsAll(raw);
    assert AllWords([]) == [];
    assert Fold(ps).pending == raw;
  }

  /** A text without markers gives one token holding all its words and no ids. */
  lemma ExtractPlainText(text: string)
    requires forall i :: 0 <= i < |Split(text)| ==> MatchMarker(Split(text)[i]).None?
    requires Split(text) != []
    ensures Extract(text) == Ok([Token([], Split(text))])
  {
    var raw := Split(text);
    assert Scan(raw).Ok?;
    GroupPlain(raw, Scan(raw).value);
  }

  /** A leading marker opens a word-less token, and the words after it
      start a group of their own rather than joining that token. */
  lemma GroupLeadingMarker()
    ensures Group([Mark("H7225"), Word("a"), Mark("H1254")])
         == [Token(["H7225"], []), Token(["H1254"], ["a"])]
  {
    var e: seq<Piece> := [];
    FoldSnoc(e, Mark("H7225"));
    FoldSnoc([Mark("H7225")], Word("a"));
    FoldSnoc([Mark("H7225"), Word("a")], Mark("H1254"));
    assert [Mark("H7225")] + [Word("a")] == [Mark("H7225"), Word("a")];
    assert [Mark("H7225"), Word("a")] + [Mark("H1254")] == [Mark("H7225"), Word("a"), Mark("H1254")];
    assert Fold([Mark("H7225")]) == State([Token(["H7225"], [])], []);
    assert Fold([Mark("H7225"), Word("a")]) == State([Token(["H7225"], [])], ["a"]);
    assert Fold([Mark("H7225"), Word("a"), Mark("H1254")])
        == State([Token(["H7225"], []), Token(["H1254"], ["a"])], []);
  }

  /** Consecutive markers attach to the same group; trailing words form a
      token without ids. */
  lemma GroupMarkerRun()
    ensures Group([Word("In"), Word("the"), Mark("G1722"), Mark("G3588"), Word("end")])
         == [Token(["G1722", "G3588"], ["In", "the"]), Token([], ["end"])]
  {
    MarkerRunTail();
  }

  lemma MarkerRunHead()
    ensures Fold([Word("In"), Word("the"), Mark("G1722")]) == State([Token(["G1722"], ["In", "the"])], [])
  {
    var e: seq<Piece> := [];
    var b1 := e + [Word("In")];
    var b2 := b1 + [Word("the")];
    var b3 := b2 + [Mark("G1722")];
    FoldSnoc(e, Word("In"));
    assert Fold(b1) == State([], ["In"]);
    FoldSnoc(b1, Word("the"));
    assert Fold(b2) == State([], ["In", "the"]);
    FoldSnoc(b2, Mark("G1722"));
    assert Fold(b3) == State([Token(["G1722"], ["In", "the"])], []);
    assert b3 == [Word("In"), Word("the"), Mark("G1722")];
  }

  lemma MarkerRunTail()
    ensures Fold([Word("In"), Word("the"), Mark("G1722"), Mark("G3588"), Word("end")])
         == State([Token(["G1722", "G3588"], ["In", "the"])], ["end"])
  {
    var b3: seq<Piece> := [Word("In"), Word("the"), Mark("G1722")];
    var b4 := b3 + [Mark("G3588")];
    MarkerRunHead();
    FoldSnoc(b3, Mark("G3588"));
    FoldSnoc(b4, Word("end"));
    var t3 := [Token(["G1722"], ["In", "the"])];
    var ids: seq<string> := ["G1722"];
    assert ids + ["G3588"] == ["G1722", "G3588"];
    assert t3[..0] == [];
    assert t3[..0] + [Token(t3[0].ids + ["G3588"], t3[0].words)]
        == [Token(["G1722", "G3588"], ["In", "the"])];
    assert b4 + [Word("end")] == [Word("In"), Word("the"), Mark("G1722"), Mark("G3588"), Word("end")];
  }
}
