/** Aligning the tokens of a verse in the original language with the tokens
    of the same verse in a translation (`_separate_chirho`). Each original
    token, in order, takes the first remaining translated token that shares
    a concordance id with it; original tokens that find none are carried
    over into the text of the next entry. */
module Aligner {
  import opened Results
  import opened Text
  import opened Tokens

  /** One aligned entry: the original words it covers, joined, and the words
      of the translated token matched to the last of them (none for a final
      unmatched run). */
  datatype Entry = Entry(original: string, translated: seq<string>)

  /** `len(set(a) & set(b)) > 0`. */
  predicate Intersects(a: seq<string>, b: seq<string>) {
    exists x :: x in a && x in b
  }

  predicate Increasing(s: seq<nat>) {
    forall i, j :: 0 <= i < j < |s| ==> s[i] < s[j]
  }

  /** The pool of not yet matched translated tokens, kept as their positions
      in the translated list. */
  predicate ValidPool(n: nat, pool: seq<nat>) {
    Increasing(pool) && forall k :: 0 <= k < |pool| ==> pool[k] < n
  }

  /** `0, 1, ..., n - 1`: the pool before any match, a copy of the whole
      translated list. */
  function Range(n: nat): (r: seq<nat>)
    ensures ValidPool(n, r)
    ensures forall j: nat :: j in r <==> j < n
  {
    if n == 0 then []
    else
      var r := Range(n - 1);
      assert forall j :: j in r + [n - 1] <==> j in r || j == n - 1;
      r + [n - 1]
  }

  /** The inner loop: the position in the pool of the first token sharing an
      id with `ids`. */
  function FirstMatch(tr: seq<Token>, pool: seq<nat>, ids: seq<string>): (r: Option<nat>)
    requires ValidPool(|tr|, pool)
    ensures r.Some? ==> r.value < |pool| && Intersects(tr[pool[r.value]].ids, ids)
    ensures forall k :: 0 <= k < |pool| && (r.None? || k < r.value) ==> !Intersects(tr[pool[k]].ids, ids)
  {
    if |pool| == 0 then None
    else if Intersects(tr[pool[0]].ids, ids) then Some(0)
    else
      assert forall k :: 0 <= k < |pool| - 1 ==> pool[1..][k] == pool[k + 1];
      match FirstMatch(tr, pool[1..], ids)
      case None => None
      case Some(k) => Some(k + 1)
  }

  /** The state of the outer loop: the pool, the texts of the original tokens
      not yet emitted, the entries emitted, and (to state what happened) the
      translated token each original token took. */
  datatype Aligning = Aligning(pool: seq<nat>, acc: seq<string>, out: seq<Entry>, picks: seq<Option<nat>>)

  /** One iteration of the outer loop, for original token `t`. */
  function Consider(tr: seq<Token>, st: Aligning, t: Token): (r: Aligning)
    requires ValidPool(|tr|, st.pool)
    ensures ValidPool(|tr|, r.pool)
    ensures |r.picks| == |st.picks| + 1
  {
    var acc := st.acc + [Join(t.words, " ")];
    match FirstMatch(tr, st.pool, t.ids)
    case None => Aligning(st.pool, acc, st.out, st.picks + [None])
    case Some(k) =>
      var j := st.pool[k];
      Aligning(st.pool[..k] + st.pool[k + 1..], [], st.out + [Entry(Join(acc, " "), tr[j].words)], st.picks + [Some(j)])
  }

  /** The outer loop over the original tokens. */
  function Align(orig: seq<Token>, tr: seq<Token>): (st: Aligning)
    ensures ValidPool(|tr|, st.pool)
    ensures |st.picks| == |orig|
  {
    if |orig| == 0 then Aligning(Range(|tr|), [], [], [])
    else Consider(tr, Align(orig[..|orig| - 1], tr), orig[|orig| - 1])
  }

  /** `_separate_chirho`: the loop, then an entry without translation for
      the original tokens left over. */
  function Separate(orig: seq<Token>, tr: seq<Token>): seq<Entry> {
    var st := Align(orig, tr);
    if st.acc != [] then st.out + [Entry(Join(st.acc, " "), [])] else st.out
  }

  // ----- The reference reading -----

  /** The translated positions taken by the choices made so far. */
  function Taken(picks: seq<Option<nat>>): set<nat> {
    set i | 0 <= i < |picks| && picks[i].Some? :: picks[i].value
  }

  /** The greedy choice for an original token with ids `ids`: the
      lowest-numbered translated token not yet taken that shares an id with
      it, or none when no untaken token does. */
  predicate GreedyChoice(tr: seq<Token>, taken: set<nat>, ids: seq<string>, p: Option<nat>) {
    match p
    case None => forall j :: 0 <= j < |tr| && j !in taken ==> !Intersects(tr[j].ids, ids)
    case Some(j) =>
      && j < |tr| && j !in taken && Intersects(tr[j].ids, ids)
      && forall j' :: 0 <= j' < j && j' !in taken ==> !Intersects(tr[j'].ids, ids)
  }

  /** Every original token made the greedy choice given the choices before
      it. */
  predicate Greedy(orig: seq<Token>, tr: seq<Token>, picks: seq<Option<nat>>) {
    && |picks| == |orig|
    && forall i {:trigger GreedyChoice(tr, Taken(picks[..i]), orig[i].ids, picks[i])} ::
         0 <= i < |orig| ==> GreedyChoice(tr, Taken(picks[..i]), orig[i].ids, picks[i])
  }

  /** The positions of the original tokens that found a match. */
  function Matched(picks: seq<Option<nat>>): (m: seq<nat>)
    ensures Increasing(m)
    ensures forall k :: 0 <= k < |m| ==> m[k] < |picks| && picks[m[k]].Some?
    ensures forall i :: 0 <= i < |picks| && picks[i].Some? ==> i in m
  {
    if |picks| == 0 then []
    else
      var prev := picks[..|picks| - 1];
      var m := Matched(prev);
      assert forall k :: 0 <= k < |m| ==> prev[m[k]] == picks[m[k]];
      assert forall i :: 0 <= i < |prev| ==> prev[i] == picks[i];
      if picks[|picks| - 1].Some? then m + [|picks| - 1] else m
  }

  /** Where the `k`-th run of original tokens starts: just after the
      previous matched token. */
  function Start(m: seq<nat>, k: nat): nat
    requires k <= |m|
  {
    if k == 0 then 0 else m[k - 1] + 1
  }

  /** The texts `" ".join(words)` of a run of original tokens. */
  function Texts(ts: seq<Token>): (r: seq<string>)
    ensures |r| == |ts|
    ensures forall i :: 0 <= i < |ts| ==> r[i] == Join(ts[i].words, " ")
  {
    seq(|ts|, i requires 0 <= i < |ts| => Join(ts[i].words, " "))
  }

  /** The `k`-th entry: the run of original tokens ending with the `k`-th
      matched one, with the words of the translated token it took. */
  function RunEntry(orig: seq<Token>, tr: seq<Token>, picks: seq<Option<nat>>, k: nat): Entry
    requires |picks| == |orig| && k < |Matched(picks)|
    requires PicksInRange(tr, picks)
  {
    var m := Matched(picks);
    StartBound(m, k);
    Entry(RunText(orig, Start(m, k), m[k] + 1), tr[picks[m[k]].value].words)
  }

  /** The original text of the tokens `lo` to `hi - 1`: each token's words
      joined, and the results joined again. */
  function RunText(orig: seq<Token>, lo: nat, hi: nat): string
    requires lo <= hi <= |orig|
  {
    Join(Texts(orig[lo..hi]), " ")
  }

  lemma RunTextExtend(orig: seq<Token>, t: Token, lo: nat, hi: nat)
    requires lo <= hi <= |orig|
    ensures RunText(orig + [t], lo, hi) == RunText(orig, lo, hi)
  {
    assert (orig + [t])[lo..hi] == orig[lo..hi];
  }

  /** The pool holds exactly the translated positions not yet taken, in
      increasing order: taken tokens are gone and the rest keep their
      order. */
  ghost predicate PoolIsRest(n: nat, pool: seq<nat>, picks: seq<Option<nat>>) {
    ValidPool(n, pool) && forall j: nat :: j in pool <==> j < n && j !in Taken(picks)
  }

  /** The state of the loop after the original tokens `orig`: the choices
      were greedy, the pool is what they left, one entry was emitted per
      match, and the texts of the tokens after the last match are pending. */
  ghost predicate Inv(orig: seq<Token>, tr: seq<Token>, st: Aligning) {
    && |st.picks| == |orig|
    && Greedy(orig, tr, st.picks)
    && PoolIsRest(|tr|, st.pool, st.picks)
    && PicksInRange(tr, st.picks)
    && |st.out| == |Matched(st.picks)|
    && (forall k :: 0 <= k < |st.out| ==> st.out[k] == RunEntry(orig, tr, st.picks, k))
    && st.acc == Texts(orig[Start(Matched(st.picks), |Matched(st.picks)|)..])
  }

  lemma TakenSnoc(picks: seq<Option<nat>>, p: Option<nat>)
    ensures Taken(picks + [p]) == Taken(picks) + (if p.Some? then {p.value} else {})
  {
    var q := picks + [p];
    assert forall i :: 0 <= i < |picks| ==> q[i] == picks[i];
    assert q[|picks|] == p;
  }

  lemma MatchedSnoc(picks: seq<Option<nat>>, p: Option<nat>)
    ensures Matched(picks + [p]) == Matched(picks) + (if p.Some? then [|picks|] else [])
  {
    assert (picks + [p])[..|picks|] == picks;
  }

  lemma GreedyStep(orig: seq<Token>, tr: seq<Token>, picks: seq<Option<nat>>, t: Token, p: Option<nat>)
    requires Greedy(orig, tr, picks)
    requires GreedyChoice(tr, Taken(picks), t.ids, p)
    ensures Greedy(orig + [t], tr, picks + [p])
  {
    var q := picks + [p];
    forall i | 0 <= i <= |picks|
      ensures q[..i] == picks[..i]
    {
    }
    assert (orig + [t])[|orig|] == t;
    assert forall i :: 0 <= i < |orig| ==> (orig + [t])[i] == orig[i] && q[i] == picks[i];
  }

  /** The first pool token sharing an id is the greedy choice, because the
      pool is the untaken positions in increasing order. */
  lemma FirstMatchIsGreedy(tr: seq<Token>, pool: seq<nat>, picks: seq<Option<nat>>, ids: seq<string>)
    requires PoolIsRest(|tr|, pool, picks)
    ensures var r := FirstMatch(tr, pool, ids);
      GreedyChoice(tr, Taken(picks), ids, if r.Some? then Some(pool[r.value]) else None)
  {
    var r := FirstMatch(tr, pool, ids);
    forall j: nat | j < |tr| && j !in Taken(picks) && (r.None? || j < pool[r.value])
      ensures !Intersects(tr[j].ids, ids)
    {
      assert j in pool;
      var k :| 0 <= k < |pool| && pool[k] == j;
      if r.Some? {
        IncreasingIndex(pool, k, r.value);
      }
    }
    if r.Some? {
      assert pool[r.value] in pool;
    }
  }

  lemma IncreasingIndex(s: seq<nat>, a: nat, b: nat)
    requires Increasing(s) && a < |s| && b < |s|
    ensures s[a] < s[b] <==> a < b
  {
  }

  /** Removing the matched position from the pool leaves exactly the
      positions still untaken, still in order. */
  lemma PoolStep(n: nat, pool: seq<nat>, picks: seq<Option<nat>>, k: nat)
    requires PoolIsRest(n, pool, picks) && k < |pool|
    ensures PoolIsRest(n, pool[..k] + pool[k + 1..], picks + [Some(pool[k])])
  {
    TakenSnoc(picks, Some(pool[k]));
    RemoveAt(n, pool, k);
  }

  /** Dropping the `k`-th position of a valid pool leaves a valid pool
      holding every other position. */
  lemma RemoveAt(n: nat, pool: seq<nat>, k: nat)
    requires ValidPool(n, pool) && k < |pool|
    ensures ValidPool(n, pool[..k] + pool[k + 1..])
    ensures forall j: nat :: j in pool[..k] + pool[k + 1..] <==> j in pool && j != pool[k]
  {
    var rest := pool[..k] + pool[k + 1..];
    assert forall i :: 0 <= i < |rest| ==> rest[i] == if i < k then pool[i] else pool[i + 1];
    forall j: nat
      ensures j in rest <==> j in pool && j != pool[k]
    {
      if j in pool && j != pool[k] {
        var i :| 0 <= i < |pool| && pool[i] == j;
        assert rest[if i < k then i else i - 1] == j;
      }
      if j in rest {
        var i :| 0 <= i < |rest| && rest[i] == j;
        IncreasingIndex(pool, k, if i < k then i else i + 1);
      }
    }
  }

  lemma PoolKeep(n: nat, pool: seq<nat>, picks: seq<Option<nat>>)
    requires PoolIsRest(n, pool, picks)
    ensures PoolIsRest(n, pool, picks + [None])
  {
    TakenSnoc(picks, None);
  }

  /** Entries already emitted read the same after one more token. */
  lemma RunEntryExtend(orig: seq<Token>, tr: seq<Token>, picks: seq<Option<nat>>, t: Token, p: Option<nat>, k: nat)
    requires |picks| == |orig| && k < |Matched(picks)|
    requires PicksInRange(tr, picks)
    requires p.Some? ==> p.value < |tr|
    ensures PicksInRange(tr, picks + [p]) && k < |Matched(picks + [p])|
    ensures RunEntry(orig + [t], tr, picks + [p], k) == RunEntry(orig, tr, picks, k)
  {
    var m := Matched(picks);
    var q := picks + [p];
    PicksSnoc(tr, picks, p);
    MatchedPrefix(picks, p, k);
    StartBound(m, k);
    var lo, hi := Start(m, k), m[k] + 1;
    var w := tr[picks[m[k]].value].words;
    RunTextExtend(orig, t, lo, hi);
    RunEntryParts(orig, tr, picks, k, lo, hi, w);
    RunEntryParts(orig + [t], tr, q, k, lo, hi, w);
  }

  lemma RunEntryParts(orig: seq<Token>, tr: seq<Token>, picks: seq<Option<nat>>, k: nat,
                      lo: nat, hi: nat, w: seq<string>)
    requires |picks| == |orig| && k < |Matched(picks)|
    requires PicksInRange(tr, picks)
    requires lo == Start(Matched(picks), k) && hi == Matched(picks)[k] + 1
    requires w == tr[picks[Matched(picks)[k]].value].words
    ensures lo <= hi <= |orig| && RunEntry(orig, tr, picks, k) == Entry(RunText(orig, lo, hi), w)
  {
    StartBound(Matched(picks), k);
  }

  lemma PicksSnoc(tr: seq<Token>, picks: seq<Option<nat>>, p: Option<nat>)
    requires PicksInRange(tr, picks) && (p.Some? ==> p.value < |tr|)
    ensures PicksInRange(tr, picks + [p])
  {
    assert forall i :: 0 <= i < |picks| ==> (picks + [p])[i] == picks[i];
  }

  /** A further choice leaves the earlier matched positions and runs alone. */
  lemma MatchedPrefix(picks: seq<Option<nat>>, p: Option<nat>, k: nat)
    requires k < |Matched(picks)|
    ensures var m := Matched(picks); var q := picks + [p];
      && k < |Matched(q)| && Matched(q)[k] == m[k]
      && Start(Matched(q), k) == Start(m, k) && q[m[k]] == picks[m[k]]
  {
    MatchedSnoc(picks, p);
  }

  predicate PicksInRange(tr: seq<Token>, picks: seq<Option<nat>>) {
    forall i :: 0 <= i < |picks| && picks[i].Some? ==> picks[i].value < |tr|
  }

  lemma StartBound(m: seq<nat>, k: nat)
    requires Increasing(m) && k < |m|
    ensures Start(m, k) <= m[k]
  {
    if k > 0 {
      assert m[k - 1] < m[k];
    }
  }

  lemma StartLast(picks: seq<Option<nat>>)
    ensures Start(Matched(picks), |Matched(picks)|) <= |picks|
  {
  }

  lemma TextsSnoc(orig: seq<Token>, t: Token, lo: nat)
    requires lo <= |orig|
    ensures Texts((orig + [t])[lo..]) == Texts(orig[lo..]) + [Join(t.words, " ")]
  {
    assert (orig + [t])[lo..] == orig[lo..] + [t];
  }

  /** A match closes the run of pending tokens with the matched one. */
  lemma NewEntry(orig: seq<Token>, tr: seq<Token>, picks: seq<Option<nat>>, t: Token, j: nat)
    requires |picks| == |orig| && PicksInRange(tr, picks) && j < |tr|
    ensures PicksInRange(tr, picks + [Some(j)])
    ensures var m := Matched(picks);
      && |Matched(picks + [Some(j)])| == |m| + 1
      && RunEntry(orig + [t], tr, picks + [Some(j)], |m|)
         == Entry(Join(Texts(orig[Start(m, |m|)..]) + [Join(t.words, " ")], " "), tr[j].words)
  {
    var m := Matched(picks);
    var q := picks + [Some(j)];
    MatchedSnoc(picks, Some(j));
    StartLast(picks);
    var lo := Start(m, |m|);
    assert Start(Matched(q), |m|) == lo;
    assert q[|orig|] == Some(j);
    assert (orig + [t])[lo..|orig| + 1] == (orig + [t])[lo..];
    TextsSnoc(orig, t, lo);
  }

  /** An original token without a match keeps the state's meaning. */
  lemma ConsiderUnmatched(orig: seq<Token>, tr: seq<Token>, st: Aligning, t: Token)
    requires Inv(orig, tr, st)
    requires FirstMatch(tr, st.pool, t.ids).None?
    ensures Inv(orig + [t], tr, Consider(tr, st, t))
  {
    FirstMatchIsGreedy(tr, st.pool, st.picks, t.ids);
    var acc := st.acc + [Join(t.words, " ")];
    assert Consider(tr, st, t) == Aligning(st.pool, acc, st.out, st.picks + [None]);
    UnmatchedInv(orig, tr, st, t);
  }

  lemma UnmatchedInv(orig: seq<Token>, tr: seq<Token>, st: Aligning, t: Token)
    requires Inv(orig, tr, st)
    requires GreedyChoice(tr, Taken(st.picks), t.ids, None)
    ensures Inv(orig + [t], tr, Aligning(st.pool, st.acc + [Join(t.words, " ")], st.out, st.picks + [None]))
  {
    var r := Aligning(st.pool, st.acc + [Join(t.words, " ")], st.out, st.picks + [None]);
    GreedyStep(orig, tr, st.picks, t, None);
    MatchedSnoc(st.picks, None);
    PoolKeep(|tr|, st.pool, st.picks);
    forall k | 0 <= k < |st.out|
      ensures r.out[k] == RunEntry(orig + [t], tr, r.picks, k)
    {
      RunEntryExtend(orig, tr, st.picks, t, None, k);
    }
    StartLast(st.picks);
    TextsSnoc(orig, t, Start(Matched(st.picks), |Matched(st.picks)|));
  }

  /** An original token with a match emits the entry for its run. */
  lemma ConsiderMatched(orig: seq<Token>, tr: seq<Token>, st: Aligning, t: Token)
    requires Inv(orig, tr, st)
    requires FirstMatch(tr, st.pool, t.ids).Some?
    ensures Inv(orig + [t], tr, Consider(tr, st, t))
  {
    var k0 := FirstMatch(tr, st.pool, t.ids).value;
    var j := st.pool[k0];
    FirstMatchIsGreedy(tr, st.pool, st.picks, t.ids);
    var e := Entry(Join(st.acc + [Join(t.words, " ")], " "), tr[j].words);
    assert Consider(tr, st, t) == Aligning(st.pool[..k0] + st.pool[k0 + 1..], [], st.out + [e], st.picks + [Some(j)]);
    MatchedInv(orig, tr, st, t, k0);
  }

  lemma MatchedInv(orig: seq<Token>, tr: seq<Token>, st: Aligning, t: Token, k0: nat)
    requires Inv(orig, tr, st)
    requires k0 < |st.pool| && GreedyChoice(tr, Taken(st.picks), t.ids, Some(st.pool[k0]))
    ensures var j := st.pool[k0];
      var e := Entry(Join(st.acc + [Join(t.words, " ")], " "), tr[j].words);
      Inv(orig + [t], tr, Aligning(st.pool[..k0] + st.pool[k0 + 1..], [], st.out + [e], st.picks + [Some(j)]))
  {
    var j := st.pool[k0];
    var q := st.picks + [Some(j)];
    GreedyStep(orig, tr, st.picks, t, Some(j));
    PoolStep(|tr|, st.pool, st.picks, k0);
    MatchedOut(orig, tr, st, t, j);
    MatchedSnoc(st.picks, Some(j));
    assert Start(Matched(q), |Matched(q)|) == |orig| + 1;
    assert (orig + [t])[|orig| + 1..] == [];
  }

  lemma MatchedOut(orig: seq<Token>, tr: seq<Token>, st: Aligning, t: Token, j: nat)
    requires Inv(orig, tr, st) && j < |tr|
    ensures var q := st.picks + [Some(j)];
      var e := Entry(Join(st.acc + [Join(t.words, " ")], " "), tr[j].words);
      && PicksInRange(tr, q) && |Matched(q)| == |st.out| + 1
      && forall k :: 0 <= k < |st.out| + 1 ==> (st.out + [e])[k] == RunEntry(orig + [t], tr, q, k)
  {
    var q := st.picks + [Some(j)];
    var e := Entry(Join(st.acc + [Join(t.words, " ")], " "), tr[j].words);
    NewEntry(orig, tr, st.picks, t, j);
    forall k | 0 <= k < |st.out| + 1
      ensures (st.out + [e])[k] == RunEntry(orig + [t], tr, q, k)
    {
      if k < |st.out| {
        RunEntryExtend(orig, tr, st.picks, t, Some(j), k);
      }
    }
  }

  /** What the loop computes, as `Inv` states it. */
  lemma {:induction false} AlignInv(orig: seq<Token>, tr: seq<Token>)
    ensures Inv(orig, tr, Align(orig, tr))
  {
    if |orig| == 0 {
      assert Taken([]) == {};
    } else {
      AlignInv(orig[..|orig| - 1], tr);
      AlignStep(orig, tr);
    }
  }

  /** One more original token keeps `Inv`. */
  lemma AlignStep(orig: seq<Token>, tr: seq<Token>)
    requires |orig| > 0
    requires Inv(orig[..|orig| - 1], tr, Align(orig[..|orig| - 1], tr))
    ensures Inv(orig, tr, Align(orig, tr))
  {
    ConsiderAny(orig, tr, Align(orig[..|orig| - 1], tr));
  }

  lemma ConsiderAny(orig: seq<Token>, tr: seq<Token>, st: Aligning)
    requires |orig| > 0
    requires Inv(orig[..|orig| - 1], tr, st)
    ensures Inv(orig, tr, Consider(tr, st, orig[|orig| - 1]))
  {
    var prev := orig[..|orig| - 1];
    var t := orig[|orig| - 1];
    assert prev + [t] == orig;
    if FirstMatch(tr, st.pool, t.ids).None? {
      ConsiderUnmatched(prev, tr, st, t);
    } else {
      ConsiderMatched(prev, tr, st, t);
    }
  }

  /** The choices the loop makes are the greedy ones, and name translated
      tokens that exist. */
  lemma SeparateChoices(orig: seq<Token>, tr: seq<Token>)
    ensures Greedy(orig, tr, Align(orig, tr).picks)
    ensures PicksInRange(tr, Align(orig, tr).picks)
  {
    AlignInv(orig, tr);
  }

  /** Popping a match from the pool copy means no translated token is taken
      twice; the tokens never taken stay in the pool in their original
      relative order. */
  lemma TakenOnce(orig: seq<Token>, tr: seq<Token>)
    ensures var picks := Align(orig, tr).picks;
      forall i, j :: 0 <= i < j < |picks| && picks[i].Some? && picks[j].Some? ==>
        picks[i].value != picks[j].value
    ensures var st := Align(orig, tr);
      && Increasing(st.pool)
      && forall j: nat :: j in st.pool <==> j < |tr| && j !in Taken(st.picks)
  {
    AlignInv(orig, tr);
    var picks := Align(orig, tr).picks;
    forall i, j | 0 <= i < j < |picks| && picks[i].Some? && picks[j].Some?
      ensures picks[i].value != picks[j].value
    {
      assert GreedyChoice(tr, Taken(picks[..j]), orig[j].ids, picks[j]);
      assert picks[..j][i] == picks[i];
      assert picks[i].value in Taken(picks[..j]);
    }
  }

  /** What `_separate_chirho` returns: one entry per matched original token,
      covering the run of tokens since the previous match and carrying the
      words of the translated token it took; then, if tokens are left after
      the last match, one entry for them without translation. */
  lemma SeparateSpec(orig: seq<Token>, tr: seq<Token>)
    ensures PicksInRange(tr, Align(orig, tr).picks)
    ensures var picks := Align(orig, tr).picks;
      var m := Matched(picks);
      var out := Separate(orig, tr);
      && Start(m, |m|) <= |orig|
      && |out| == |m| + (if Start(m, |m|) < |orig| then 1 else 0)
      && (forall k :: 0 <= k < |m| ==> out[k] == RunEntry(orig, tr, picks, k))
      && (Start(m, |m|) < |orig| ==> out[|m|] == Entry(RunText(orig, Start(m, |m|), |orig|), []))
  {
    var st := Align(orig, tr);
    AlignInv(orig, tr);
    StartLast(st.picks);
    SeparateFromState(orig, tr, st);
  }

  lemma SeparateFromState(orig: seq<Token>, tr: seq<Token>, st: Aligning)
    requires st == Align(orig, tr) && |st.picks| == |orig|
    requires |st.out| == |Matched(st.picks)|
    requires st.acc == Texts(orig[Start(Matched(st.picks), |Matched(st.picks)|)..])
    ensures var m := Matched(st.picks);
      var out := Separate(orig, tr);
      && Start(m, |m|) <= |orig|
      && |out| == |m| + (if Start(m, |m|) < |orig| then 1 else 0)
      && (forall k :: 0 <= k < |m| ==> out[k] == st.out[k])
      && (Start(m, |m|) < |orig| ==> out[|m|] == Entry(RunText(orig, Start(m, |m|), |orig|), []))
  {
    var m := Matched(st.picks);
    StartLast(st.picks);
    var lo := Start(m, |m|);
    assert st.acc != [] <==> lo < |orig|;
    assert Join(st.acc, " ") == RunText(orig, lo, |orig|) by {
      assert orig[lo..|orig|] == orig[lo..];
    }
    FinalEntry(st.out, st.acc, Separate(orig, tr));
  }

  /** The entries after the loop: those emitted, then one for the texts
      left over, if any. */
  lemma FinalEntry(out: seq<Entry>, acc: seq<string>, r: seq<Entry>)
    requires r == if acc != [] then out + [Entry(Join(acc, " "), [])] else out
    ensures |r| == |out| + (if acc != [] then 1 else 0)
    ensures forall k :: 0 <= k < |out| ==> r[k] == out[k]
    ensures acc != [] ==> r[|out|] == Entry(Join(acc, " "), [])
  {
  }

  lemma GreedyChoiceUnique(tr: seq<Token>, taken: set<nat>, ids: seq<string>, p: Option<nat>, p': Option<nat>)
    requires GreedyChoice(tr, taken, ids, p) && GreedyChoice(tr, taken, ids, p')
    ensures p == p'
  {
    if p.Some? && p'.Some? {
      assert !(p.value < p'.value) && !(p'.value < p.value);
    }
  }

  lemma {:induction false} GreedyAgree(orig: seq<Token>, tr: seq<Token>, a: seq<Option<nat>>, b: seq<Option<nat>>, n: nat)
    requires Greedy(orig, tr, a) && Greedy(orig, tr, b) && n <= |orig|
    ensures a[..n] == b[..n]
  {
    if n > 0 {
      GreedyAgree(orig, tr, a, b, n - 1);
      assert a[..n - 1] == b[..n - 1];
      GreedyChoiceUnique(tr, Taken(a[..n - 1]), orig[n - 1].ids, a[n - 1], b[n - 1]);
      assert a[..n] == a[..n - 1] + [a[n - 1]];
      assert b[..n] == b[..n - 1] + [b[n - 1]];
    }
  }

  /** The greedy reading fixes the choices: the loop's choices are the only
      sequence in which every original token chooses greedily. */
  lemma GreedyIsAlign(orig: seq<Token>, tr: seq<Token>, picks: seq<Option<nat>>)
    ensures Greedy(orig, tr, picks) <==> picks == Align(orig, tr).picks
  {
    AlignInv(orig, tr);
    if Greedy(orig, tr, picks) {
      GreedyAgree(orig, tr, picks, Align(orig, tr).picks, |orig|);
      assert picks[..|orig|] == picks;
      assert Align(orig, tr).picks[..|orig|] == Align(orig, tr).picks;
    }
  }

  lemma {:induction false} IncreasingAtLeast(m: seq<nat>, k: nat)
    requires Increasing(m) && k < |m|
    ensures m[k] >= k
  {
    if k > 0 {
      IncreasingAtLeast(m, k - 1);
    }
  }

  /** There are at most as many entries as original tokens, and there are
      none exactly when there are no original tokens. */
  lemma SeparateSize(orig: seq<Token>, tr: seq<Token>)
    ensures |Separate(orig, tr)| <= |orig|
    ensures Separate(orig, tr) == [] <==> orig == []
  {
    SeparateCount(orig, tr);
    var n := |Separate(orig, tr)|;
    assert n <= |orig| && (n == 0 <==> |orig| == 0);
  }

  lemma SeparateCount(orig: seq<Token>, tr: seq<Token>)
    ensures var m := Matched(Align(orig, tr).picks);
      && |m| <= |orig| && (|m| == 0 ==> Start(m, |m|) == 0)
      && |Separate(orig, tr)| == |m| + (if Start(m, |m|) < |orig| then 1 else 0)
      && (|m| > 0 ==> Start(m, |m|) == m[|m| - 1] + 1 && m[|m| - 1] >= |m| - 1)
  {
    var picks := Align(orig, tr).picks;
    var m := Matched(picks);
    assert |Separate(orig, tr)| == |m| + (if Start(m, |m|) < |orig| then 1 else 0) by {
      SeparateSpec(orig, tr);
    }
    assert |m| <= |orig| && (|m| == 0 ==> Start(m, |m|) == 0)
      && (|m| > 0 ==> Start(m, |m|) == m[|m| - 1] + 1 && m[|m| - 1] >= |m| - 1) by {
      MatchedBounds(m, |picks|);
    }
  }

  /** An increasing sequence of positions below `n` has at most `n`
      members, and its last member is at least its last index. */
  lemma MatchedBounds(m: seq<nat>, n: nat)
    requires Increasing(m)
    requires forall k :: 0 <= k < |m| ==> m[k] < n
    ensures |m| <= n
    ensures |m| == 0 ==> Start(m, |m|) == 0
    ensures |m| > 0 ==> Start(m, |m|) == m[|m| - 1] + 1 && m[|m| - 1] >= |m| - 1
  {
    if |m| > 0 {
      IncreasingAtLeast(m, |m| - 1);
    }
  }

  /** An original token without ids never takes a translated token. */
  lemma NoIdsNoMatch(orig: seq<Token>, tr: seq<Token>, i: nat)
    requires i < |orig| && orig[i].ids == []
    ensures Align(orig, tr).picks[i] == None
  {
    SeparateChoices(orig, tr);
    var picks := Align(orig, tr).picks;
    assert GreedyChoice(tr, Taken(picks[..i]), orig[i].ids, picks[i]);
  }

  /** Without translated tokens nothing matches, and the whole verse is one
      entry without translation. */
  lemma EmptyTranslation(orig: seq<Token>)
    requires orig != []
    ensures Separate(orig, []) == [Entry(RunText(orig, 0, |orig|), [])]
  {
    SeparateChoices(orig, []);
    SeparateSpec(orig, []);
    var picks := Align(orig, []).picks;
    assert forall i :: 0 <= i < |picks| ==> picks[i] == None;
    MatchedNone(picks);
  }

  lemma {:induction false} MatchedNone(picks: seq<Option<nat>>)
    requires forall i :: 0 <= i < |picks| ==> picks[i] == None
    ensures Matched(picks) == []
  {
    if |picks| > 0 {
      MatchedNone(picks[..|picks| - 1]);
    }
  }

  /** The runs of original tokens the entries cover: the `k`-th ends with
      the `k`-th matched token. */
  function Runs(orig: seq<Token>, m: seq<nat>): (rs: seq<seq<Token>>)
    requires Increasing(m) && forall k :: 0 <= k < |m| ==> m[k] < |orig|
    ensures |rs| == |m|
  {
    if |m| == 0 then []
    else
      var k := |m| - 1;
      assert k > 0 ==> m[k - 1] < m[k];
      Runs(orig, m[..k]) + [orig[Start(m, k)..m[k] + 1]]
  }

  /** The runs, followed by the tokens after the last match, are the
      original tokens: every original token is in exactly one entry, in
      order. */
  lemma {:induction false} RunsCover(orig: seq<Token>, m: seq<nat>)
    requires Increasing(m) && forall k :: 0 <= k < |m| ==> m[k] < |orig|
    ensures Flatten(Runs(orig, m)) + orig[Start(m, |m|)..] == orig
  {
    if |m| > 0 {
      var k := |m| - 1;
      var p := m[..k];
      RunsPrefix(orig, m);
      RunsCover(orig, p);
      StartBound(m, k);
      var a := Flatten(Runs(orig, p));
      var r := orig[Start(m, k)..m[k] + 1];
      var rest := orig[m[k] + 1..];
      FlattenSnoc(Runs(orig, p), r);
      SliceSplit(orig, Start(m, k), m[k] + 1);
      ConcatStep(a, r, rest, orig, orig[Start(m, k)..]);
    }
  }

  lemma SliceSplit<T>(s: seq<T>, lo: nat, mid: nat)
    requires lo <= mid <= |s|
    ensures s[lo..] == s[lo..mid] + s[mid..]
  {
  }

  lemma ConcatStep<T>(a: seq<T>, r: seq<T>, rest: seq<T>, whole: seq<T>, tail: seq<T>)
    requires a + tail == whole && tail == r + rest
    ensures (a + r) + rest == whole
  {
  }

  lemma RunsPrefix(orig: seq<Token>, m: seq<nat>)
    requires Increasing(m) && forall k :: 0 <= k < |m| ==> m[k] < |orig|
    requires |m| > 0
    ensures var p := m[..|m| - 1];
      && Increasing(p) && (forall k :: 0 <= k < |p| ==> p[k] < |orig|)
      && Start(p, |p|) == Start(m, |m| - 1)
      && Start(m, |m| - 1) <= m[|m| - 1]
      && Runs(orig, m) == Runs(orig, p) + [orig[Start(m, |m| - 1)..m[|m| - 1] + 1]]
  {
    StartBound(m, |m| - 1);
  }

  /** The `k`-th entry's original text is that of the `k`-th run. */
  lemma RunEntryIsRun(orig: seq<Token>, tr: seq<Token>, picks: seq<Option<nat>>, k: nat)
    requires |picks| == |orig| && PicksInRange(tr, picks) && k < |Matched(picks)|
    ensures RunEntry(orig, tr, picks, k).original == Join(Texts(Runs(orig, Matched(picks))[k]), " ")
  {
    var m := Matched(picks);
    RunsAt(orig, m, k);
    RunEntryText(orig, tr, picks, k);
  }

  lemma {:induction false} RunsAt(orig: seq<Token>, m: seq<nat>, k: nat)
    requires Increasing(m) && forall i :: 0 <= i < |m| ==> m[i] < |orig|
    requires k < |m|
    ensures Start(m, k) <= m[k] && Runs(orig, m)[k] == orig[Start(m, k)..m[k] + 1]
  {
    StartBound(m, k);
    var n := |m| - 1;
    if k < n {
      var p := m[..n];
      assert forall i :: 0 <= i < n ==> p[i] == m[i];
      RunsAt(orig, p, k);
      assert Start(p, k) == Start(m, k);
    }
  }

  /** What each entry of `_separate_chirho`'s result holds: the `k`-th
      entry's original text is the texts of the `k`-th run of original
      tokens joined by spaces, and its translation is the words of the
      translated token the run's last token took; the entry after them, when
      tokens are left over, holds their texts and no translation. With
      `RunsCover`, every original token's text is in exactly one entry, in
      order. */
  lemma SeparateRuns(orig: seq<Token>, tr: seq<Token>)
    ensures var picks := Align(orig, tr).picks;
      var m := Matched(picks);
      var out := Separate(orig, tr);
      && PicksInRange(tr, picks)
      && (forall k :: 0 <= k < |m| ==> m[k] < |orig|)
      && Start(m, |m|) <= |orig|
      && |out| == |m| + (if Start(m, |m|) < |orig| then 1 else 0)
      && (forall k :: 0 <= k < |m| ==>
            && out[k].original == Join(Texts(Runs(orig, m)[k]), " ")
            && out[k].translated == tr[picks[m[k]].value].words)
      && (Start(m, |m|) < |orig| ==>
            out[|m|] == Entry(Join(Texts(orig[Start(m, |m|)..]), " "), []))
  {
    var picks := Align(orig, tr).picks;
    var m := Matched(picks);
    SeparateSpec(orig, tr);
    forall k | 0 <= k < |m|
      ensures && Separate(orig, tr)[k].original == Join(Texts(Runs(orig, m)[k]), " ")
              && Separate(orig, tr)[k].translated == tr[picks[m[k]].value].words
    {
      SeparateRunAt(orig, tr, k);
    }
    LeftoverText(orig, Start(m, |m|));
  }

  lemma SeparateRunAt(orig: seq<Token>, tr: seq<Token>, k: nat)
    requires k < |Matched(Align(orig, tr).picks)|
    ensures var picks := Align(orig, tr).picks;
      var m := Matched(picks);
      && PicksInRange(tr, picks)
      && k < |Separate(orig, tr)|
      && Separate(orig, tr)[k].original == Join(Texts(Runs(orig, m)[k]), " ")
      && Separate(orig, tr)[k].translated == tr[picks[m[k]].value].words
  {
    var picks := Align(orig, tr).picks;
    SeparateSpec(orig, tr);
    assert Separate(orig, tr)[k] == RunEntry(orig, tr, picks, k);
    RunEntryIsRun(orig, tr, picks, k);
  }

  lemma LeftoverText(orig: seq<Token>, lo: nat)
    requires lo <= |orig|
    ensures RunText(orig, lo, |orig|) == Join(Texts(orig[lo..]), " ")
  {
    assert orig[lo..|orig|] == orig[lo..];
  }

  lemma RunEntryText(orig: seq<Token>, tr: seq<Token>, picks: seq<Option<nat>>, k: nat)
    requires |picks| == |orig| && PicksInRange(tr, picks) && k < |Matched(picks)|
    ensures Start(Matched(picks), k) <= Matched(picks)[k]
    ensures RunEntry(orig, tr, picks, k).original == RunText(orig, Start(Matched(picks), k), Matched(picks)[k] + 1)
  {
    StartBound(Matched(picks), k);
  }

  /** Original tokens without concordance ids all accumulate into one entry
      without translation. */
  lemma Untagged(orig: seq<Token>, tr: seq<Token>)
    requires orig != [] && forall i :: 0 <= i < |orig| ==> orig[i].ids == []
    ensures Separate(orig, tr) == [Entry(RunText(orig, 0, |orig|), [])]
  {
    var picks := Align(orig, tr).picks;
    forall i | 0 <= i < |orig|
      ensures picks[i] == None
    {
      NoIdsNoMatch(orig, tr, i);
    }
    MatchedNone(picks);
    SeparateSpec(orig, tr);
  }

  /** Three untagged words become the single entry "In the beginning". */
  lemma UntaggedExample(tr: seq<Token>)
    ensures Separate([Token([], ["In"]), Token([], ["the"]), Token([], ["beginning"])], tr)
         == [Entry("In the beginning", [])]
  {
    var orig := [Token([], ["In"]), Token([], ["the"]), Token([], ["beginning"])];
    Untagged(orig, tr);
    UntaggedText();
  }

  lemma UntaggedText()
    ensures RunText([Token([], ["In"]), Token([], ["the"]), Token([], ["beginning"])], 0, 3) == "In the beginning"
  {
    var orig := [Token([], ["In"]), Token([], ["the"]), Token([], ["beginning"])];
    assert orig[0..3] == orig;
    assert Texts(orig) == ["In", "the", "beginning"];
    JoinUntagged();
  }

  lemma JoinUntagged()
    ensures Join(["In", "the", "beginning"], " ") == "In the beginning"
  {
    assert ["In", "the", "beginning"][1..] == ["the", "beginning"];
    assert ["the", "beginning"][1..] == ["beginning"];
  }

  /** One tagged word and its translation with the same id pair up. */
  lemma PairExample()
    ensures Separate([Token(["H1254"], ["created"])], [Token(["H1254"], ["creó"])])
         == [Entry("created", ["creó"])]
  {
    var orig := [Token(["H1254"], ["created"])];
    var tr := [Token(["H1254"], ["creó"])];
    assert Range(1) == [0];
    assert Intersects(["H1254"], ["H1254"]) by {
      assert "H1254" in ["H1254"];
    }
    assert FirstMatch(tr, [0], ["H1254"]) == Some(0);
    assert orig[..0] == [];
    assert Align(orig, tr) == Aligning([], [], [Entry("created", ["creó"])], [Some(0)]);
  }

  /** Two original tokens with the same id and one translated token: the
      first takes it and the second is left without translation. */
  lemma ConsumedExample()
    ensures Separate([Token(["H430"], ["God"]), Token(["H430"], ["gods"])], [Token(["H430"], ["Dios"])])
         == [Entry("God", ["Dios"]), Entry("gods", [])]
  {
    ConsumedAlign();
    assert Join(["gods"], " ") == "gods";
  }

  /** After both original tokens, "gods" is pending with the pool empty. */
  lemma ConsumedAlign()
    ensures Align([Token(["H430"], ["God"]), Token(["H430"], ["gods"])], [Token(["H430"], ["Dios"])])
         == Aligning([], ["gods"], [Entry("God", ["Dios"])], [Some(0), None])
  {
    var orig := [Token(["H430"], ["God"]), Token(["H430"], ["gods"])];
    var tr := [Token(["H430"], ["Dios"])];
    ConsumedFirst();
    ConsumedSecond();
    assert orig[..1] == [Token(["H430"], ["God"])];
    assert Align(orig, tr) == Consider(tr, Align(orig[..1], tr), orig[1]);
  }

  /** The second original token finds the pool empty. */
  lemma ConsumedSecond()
    ensures Consider([Token(["H430"], ["Dios"])], Aligning([], [], [Entry("God", ["Dios"])], [Some(0)]), Token(["H430"], ["gods"]))
         == Aligning([], ["gods"], [Entry("God", ["Dios"])], [Some(0), None])
  {
    assert FirstMatch([Token(["H430"], ["Dios"])], [], ["H430"]) == None;
  }

  /** The first of the two original tokens takes the translated token. */
  lemma ConsumedFirst()
    ensures Align([Token(["H430"], ["God"])], [Token(["H430"], ["Dios"])])
         == Aligning([], [], [Entry("God", ["Dios"])], [Some(0)])
  {
    var orig := [Token(["H430"], ["God"])];
    var tr := [Token(["H430"], ["Dios"])];
    assert Range(1) == [0];
    assert Intersects(["H430"], ["H430"]) by {
      assert "H430" in ["H430"];
    }
    assert FirstMatch(tr, [0], ["H430"]) == Some(0);
    assert orig[..0] == [];
  }
}
