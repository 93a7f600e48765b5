/** Insertion-ordered string-keyed dictionaries, as Python's `dict` and
    `defaultdict` keep them: an association list without repeated keys. */
module Dicts {
  import opened Results

  /** The keys in insertion order. */
  function Keys<V>(d: seq<(string, V)>): (ks: seq<string>)
    ensures |ks| == |d|
    ensures forall i :: 0 <= i < |d| ==> ks[i] == d[i].0
  {
    if |d| == 0 then [] else [d[0].0] + Keys(d[1..])
  }

  predicate DistinctKeys<V>(d: seq<(string, V)>) {
    forall i, j :: 0 <= i < j < |d| ==> d[i].0 != d[j].0
  }

  /** `d.get(k)`. */
  function Get<V>(d: seq<(string, V)>, k: string): (r: Option<V>)
    ensures r.Some? <==> k in Keys(d)
    ensures r.Some? ==> exists i :: 0 <= i < |d| && d[i] == (k, r.value)
  {
    if |d| == 0 then None
    else if d[0].0 == k then Some(d[0].1)
    else
      var r := Get(d[1..], k);
      assert Keys(d) == [d[0].0] + Keys(d[1..]);
      assert r.Some? ==> exists i :: 0 <= i < |d| && d[i] == (k, r.value) by {
        if r.Some? {
          var i :| 0 <= i < |d| - 1 && d[1..][i] == (k, r.value);
          assert d[i + 1] == (k, r.value);
        }
      }
      r
  }

  /** The value of `k` in a `defaultdict(str)`: the empty string when absent. */
  function Value(d: seq<(string, string)>, k: string): string {
    match Get(d, k)
    case None => ""
    case Some(v) => v
  }

  /** `d[k] += v` on a `defaultdict(str)`: a new key goes to the end, and
      keys stay distinct. */
  function Append(d: seq<(string, string)>, k: string, v: string): (r: seq<(string, string)>)
    requires DistinctKeys(d)
    ensures DistinctKeys(r)
    ensures Keys(r) == Keys(d) + (if k in Keys(d) then [] else [k])
  {
    if |d| == 0 then
      [(k, v)]
    else
      var tail := d[1..];
      assert forall i :: 0 <= i < |tail| ==> tail[i] == d[i + 1];
      assert Keys(d) == [d[0].0] + Keys(tail);
      assert d[0].0 !in Keys(tail);
      if d[0].0 == k then
        var r := [(k, d[0].1 + v)] + tail;
        assert Keys(r) == [k] + Keys(tail);
        assert forall i :: 0 < i < |r| ==> r[i] == tail[i - 1];
        r
      else
        var rest := Append(tail, k, v);
        var r := [d[0]] + rest;
        assert Keys(r) == [d[0].0] + Keys(rest);
        assert d[0].0 !in Keys(rest);
        assert DistinctKeys(r) by {
          forall i, j | 0 <= i < j < |r| ensures r[i].0 != r[j].0 {
            assert r[j] == rest[j - 1] && Keys(rest)[j - 1] == rest[j - 1].0;
            if i > 0 {
              assert r[i] == rest[i - 1];
            }
          }
        }
        r
  }

  /** After `d[k] += v` the value under `k` is its old value (or the empty
      string) followed by `v`, and every other key keeps its value. */
  lemma {:induction false} AppendGet(d: seq<(string, string)>, k: string, v: string, k': string)
    requires DistinctKeys(d)
    ensures Get(Append(d, k, v), k') == if k' == k then Some(Value(d, k) + v) else Get(d, k')
    decreases |d|
  {
    if |d| == 0 {
      assert "" + v == v;
    } else if d[0].0 != k {
      AppendGet(d[1..], k, v, k');
    } else {
      var r := [(k, d[0].1 + v)] + d[1..];
      assert Append(d, k, v) == r;
      assert r[1..] == d[1..];
      assert Value(d, k) == d[0].1;
      if k' == k {
        assert Get(r, k') == Some(d[0].1 + v);
      } else {
        assert Get(r, k') == Get(r[1..], k');
        assert Get(d, k') == Get(d[1..], k');
      }
    }
  }

  /** In a dictionary without repeated keys, looking up the key stored at
      position `i` finds the value stored there. */
  lemma {:induction false} GetAt<V>(d: seq<(string, V)>, i: int)
    requires DistinctKeys(d) && 0 <= i < |d|
    ensures Get(d, d[i].0) == Some(d[i].1)
    decreases |d|
  {
    if i > 0 {
      assert d[1..][i - 1] == d[i];
      GetAt(d[1..], i - 1);
    }
  }

  /** Two dictionaries with the same key sequence agree on whether keys
      repeat. */
  lemma SameKeysDistinct<V, W>(a: seq<(string, V)>, b: seq<(string, W)>)
    requires Keys(a) == Keys(b) && DistinctKeys(a)
    ensures DistinctKeys(b)
  {
    forall i, j | 0 <= i < j < |b|
      ensures b[i].0 != b[j].0
    {
      assert Keys(a)[i] == Keys(b)[i] && Keys(a)[j] == Keys(b)[j];
    }
  }
}
