/** Building the interlinear: tokenising every verse of both texts
    (`_parse_bible_str_dict_tokens_chirho`) and pairing the verses of the
    original with those of the translation (`_zip_bible_dict_tokens_chirho`). */
module Zipper {
  import opened Results
  import opened Text
  import opened Tokens
  import opened Dicts
  import opened Segmenter
  import opened Aligner

  /** Tokenises the text of every verse, keeping the keys and their order;
      a malformed marker in any verse aborts the whole conversion. */
  function ExtractAll(d: seq<(string, string)>): (r: Result<seq<(string, seq<Token>)>>)
    ensures r.Ok? ==> Keys(r.value) == Keys(d)
    ensures r.Ok? ==> forall i :: 0 <= i < |d| ==> Extract(d[i].1) == Ok(r.value[i].1)
    ensures r.Err? ==> r.error.MalformedMarker?
  {
    match AllOk(Extracted(d))
    case Err(e) =>
      ExtractedErr(d, e);
      Err(e)
    case Ok(ts) =>
      Ok(Rekey(d, ts))
  }

  /** The values `vs` under the keys of `d`, in order. */
  function Rekey<V, W>(d: seq<(string, V)>, vs: seq<W>): (r: seq<(string, W)>)
    requires |vs| == |d|
    ensures Keys(r) == Keys(d)
    ensures |r| == |d| && forall i :: 0 <= i < |d| ==> r[i].1 == vs[i]
  {
    var r := seq(|d|, i requires 0 <= i < |d| => (d[i].0, vs[i]));
    assert forall i :: 0 <= i < |d| ==> Keys(r)[i] == Keys(d)[i];
    r
  }

  lemma ExtractedErr(d: seq<(string, string)>, e: Error)
    requires AllOk(Extracted(d)) == Err(e)
    ensures e.MalformedMarker?
  {
    var i :| 0 <= i < |d| && Extracted(d)[i] == Err(e);
    ExtractFails(d[i].1);
  }

  /** The tokenisation of each verse's text, in key order. */
  function Extracted(d: seq<(string, string)>): (rs: seq<Result<seq<Token>>>)
    ensures |rs| == |d| && forall i :: 0 <= i < |d| ==> rs[i] == Extract(d[i].1)
  {
    seq(|d|, i requires 0 <= i < |d| => Extract(d[i].1))
  }

  /** The conversion fails exactly when some verse's text fails, and it
      reports the error of the first such verse in key order, as the
      dictionary comprehension raises on the first failing item. */
  lemma ExtractAllFails(d: seq<(string, string)>)
    ensures ExtractAll(d).Err? <==> exists i :: 0 <= i < |d| && Extract(d[i].1).Err?
    ensures ExtractAll(d).Err? ==> exists i :: && 0 <= i < |d|
                                             && Extract(d[i].1) == Err(ExtractAll(d).error)
                                             && forall j :: 0 <= j < i ==> Extract(d[j].1).Ok?
  {
    var rs := Extracted(d);
    if ExtractAll(d).Err? {
      var e := ExtractAll(d).error;
      assert AllOk(rs) == Err(e);
      var i :| && 0 <= i < |rs|
               && rs[i] == Err(e)
               && forall j :: 0 <= j < i ==> rs[j].Ok?;
      assert Extract(d[i].1) == Err(e);
      assert forall j :: 0 <= j < i ==> Extract(d[j].1).Ok? by {
        forall j | 0 <= j < i ensures Extract(d[j].1).Ok? {
          assert rs[j] == Extract(d[j].1);
        }
      }
    } else {
      assert AllOk(rs).Ok?;
      forall i | 0 <= i < |d| ensures Extract(d[i].1).Ok? {
        assert rs[i] == Extract(d[i].1);
      }
    }
  }

  /** The keys of a dictionary as a set, `set(d.keys())`. */
  function KeySet<V>(d: seq<(string, V)>): (ks: set<string>)
    ensures forall k :: k in ks <==> k in Keys(d)
  {
    set i | 0 <= i < |d| :: d[i].0
  }

  /** One verse of the interlinear: the original tokens, the translation as
      one line of text, and the alignment of the two. */
  datatype Verse = Verse(original: seq<Token>, translation: string, separated: seq<Entry>)

  /** The whole interlinear: the names of the two texts and the verses in the
      order of the original. */
  datatype Interlinear = Interlinear(originalName: string, translatedName: string,
                                     verses: seq<(string, Verse)>)

  /** The translation as one line: the words of each token joined by single
      spaces, and the tokens joined by single spaces. */
  function TranslationText(ts: seq<Token>): string {
    Join(Texts(ts), " ")
  }

  /** The entry for one verse, given its tokens in both texts. */
  function Interlined(orig: seq<Token>, tr: seq<Token>): Verse {
    Verse(orig, TranslationText(tr), Separate(orig, tr))
  }

  /** The verses of the original in their order, each paired with the
      translation's verse under the same key. */
  function ZipVerses(ol: seq<(string, seq<Token>)>, nl: seq<(string, seq<Token>)>):
    (vs: seq<(string, Verse)>)
    requires forall i :: 0 <= i < |ol| ==> ol[i].0 in Keys(nl)
    ensures Keys(vs) == Keys(ol)
    ensures forall i :: 0 <= i < |ol| ==> vs[i].1 == Interlined(ol[i].1, Get(nl, ol[i].0).value)
  {
    var vs := seq(|ol|, i requires 0 <= i < |ol| => (ol[i].0, Interlined(ol[i].1, Get(nl, ol[i].0).value)));
    assert forall i :: 0 <= i < |ol| ==> vs[i].0 == ol[i].0;
    vs
  }

  /** Pairs the two tokenised texts verse by verse. When the two texts do not
      cover the same verses the program stops; here that is `KeyMismatch`. */
  function Zip(olName: string, ol: seq<(string, seq<Token>)>,
               nlName: string, nl: seq<(string, seq<Token>)>): (r: Result<Interlinear>)
    requires DistinctKeys(ol) && DistinctKeys(nl)
    ensures r.Err? <==> KeySet(ol) != KeySet(nl)
    ensures r.Err? ==> r.error == KeyMismatch
    ensures r.Ok? ==> && r.value.originalName == olName
                      && r.value.translatedName == nlName
                      && Keys(r.value.verses) == Keys(ol)
                      && DistinctKeys(r.value.verses)
    ensures r.Ok? ==> forall i :: 0 <= i < |ol| ==>
      Get(nl, ol[i].0).Some? && r.value.verses[i].1 == Interlined(ol[i].1, Get(nl, ol[i].0).value)
  {
    if KeySet(ol) != KeySet(nl) then Err(KeyMismatch)
    else
      assert forall i :: 0 <= i < |ol| ==> ol[i].0 in Keys(nl) by {
        forall i | 0 <= i < |ol| ensures ol[i].0 in Keys(nl) {
          assert Keys(ol)[i] == ol[i].0;
          assert ol[i].0 in KeySet(ol);
        }
      }
      var vs := ZipVerses(ol, nl);
      SameKeysDistinct(ol, vs);
      Ok(Interlinear(olName, nlName, vs))
  }

  /** Looking a verse up in the interlinear: it is there exactly when the
      original has it, and it pairs the original's tokens for that key with
      the translation's tokens for the same key. */
  lemma ZipGet(olName: string, ol: seq<(string, seq<Token>)>,
               nlName: string, nl: seq<(string, seq<Token>)>, k: string)
    requires DistinctKeys(ol) && DistinctKeys(nl)
    requires Zip(olName, ol, nlName, nl).Ok?
    ensures Get(Zip(olName, ol, nlName, nl).value.verses, k) ==
      if k in Keys(ol) then Some(Interlined(Get(ol, k).value, Get(nl, k).value)) else None
  {
    var vs := Zip(olName, ol, nlName, nl).value.verses;
    if k in Keys(ol) {
      var i :| 0 <= i < |ol| && Keys(ol)[i] == k;
      assert Keys(vs)[i] == k;
      GetAt(vs, i);
      GetAt(ol, i);
    }
  }

  /** The whole conversion of two segmented texts: segment, tokenise the
      original, tokenise the translation, pair them. It succeeds exactly when
      both editions tokenise and cover the same verses; a bad marker in the
      original is reported before one in the translation, and both before a
      difference in the verses covered. */
  function Interlinearize(olName: string, olRaw: string, nlName: string, nlRaw: string):
    (r: Result<Interlinear>)
    ensures r.Ok? <==>
      && ExtractAll(Segment(olRaw)).Ok? && ExtractAll(Segment(nlRaw)).Ok?
      && KeySet(Segment(olRaw)) == KeySet(Segment(nlRaw))
    ensures r.Ok? ==> && Keys(r.value.verses) == Keys(Segment(olRaw))
                      && r.value.originalName == olName && r.value.translatedName == nlName
    ensures ExtractAll(Segment(olRaw)).Err? ==> r == Err(ExtractAll(Segment(olRaw)).error)
    ensures ExtractAll(Segment(olRaw)).Ok? && ExtractAll(Segment(nlRaw)).Err? ==>
      r == Err(ExtractAll(Segment(nlRaw)).error)
    ensures r == Err(KeyMismatch) <==>
      && ExtractAll(Segment(olRaw)).Ok? && ExtractAll(Segment(nlRaw)).Ok?
      && KeySet(Segment(olRaw)) != KeySet(Segment(nlRaw))
  {
    var olD := Segment(olRaw);
    var nlD := Segment(nlRaw);
    var ol :- ExtractAll(olD);
    var nl :- ExtractAll(nlD);
    SameKeysDistinct(olD, ol);
    SameKeysDistinct(nlD, nl);
    SameKeySet(olD, ol);
    SameKeySet(nlD, nl);
    Zip(olName, ol, nlName, nl)
  }

  /** What the pipeline produces for each verse: under the key of the
      original's `i`-th verse, the tokens of that verse's text paired with
      the tokens of the translation's text under the same key. */
  lemma InterlinearizeVerses(olName: string, olRaw: string, nlName: string, nlRaw: string, i: nat)
    requires Interlinearize(olName, olRaw, nlName, nlRaw).Ok?
    requires i < |Segment(olRaw)|
    ensures var olD, nlD := Segment(olRaw), Segment(nlRaw);
      var k := olD[i].0;
      && Get(nlD, k).Some?
      && Extract(olD[i].1).Ok? && Extract(Get(nlD, k).value).Ok?
      && i < |Interlinearize(olName, olRaw, nlName, nlRaw).value.verses|
      && Interlinearize(olName, olRaw, nlName, nlRaw).value.verses[i]
         == (k, Interlined(Extract(olD[i].1).value, Extract(Get(nlD, k).value).value))
  {
    var olD, nlD := Segment(olRaw), Segment(nlRaw);
    var ol, nl := ExtractAll(olD).value, ExtractAll(nlD).value;
    SameKeysDistinct(olD, ol);
    SameKeysDistinct(nlD, nl);
    SameKeySet(olD, ol);
    SameKeySet(nlD, nl);
    var vs := Zip(olName, ol, nlName, nl).value.verses;
    assert Interlinearize(olName, olRaw, nlName, nlRaw).value.verses == vs;
    var k := olD[i].0;
    assert Keys(ol)[i] == k && Keys(olD)[i] == k && Keys(vs)[i] == k;
    assert k in KeySet(nlD);
    ExtractedGet(nlD, nl, k);
    assert Extract(olD[i].1) == Ok(ol[i].1);
    ZippedVerse(ol, nl, vs, i, Extract(Get(nlD, k).value).value);
  }

  /** The tokens stored under a key after tokenising every verse are the
      tokens of the text stored under that key. */
  lemma ExtractedGet(d: seq<(string, string)>, ts: seq<(string, seq<Token>)>, k: string)
    requires DistinctKeys(d) && DistinctKeys(ts) && Keys(ts) == Keys(d)
    requires forall i :: 0 <= i < |d| ==> Extract(d[i].1) == Ok(ts[i].1)
    requires k in KeySet(d)
    ensures Get(d, k).Some? && Get(ts, k).Some? && Extract(Get(d, k).value) == Ok(Get(ts, k).value)
  {
    var j :| 0 <= j < |d| && Keys(d)[j] == k;
    assert Keys(ts)[j] == k;
    GetAt(d, j);
    GetAt(ts, j);
  }

  lemma ZippedVerse(ol: seq<(string, seq<Token>)>, nl: seq<(string, seq<Token>)>,
                    vs: seq<(string, Verse)>, i: nat, b: seq<Token>)
    requires i < |ol| && Keys(vs) == Keys(ol)
    requires Get(nl, ol[i].0).Some? && Get(nl, ol[i].0).value == b
    requires vs[i].1 == Interlined(ol[i].1, Get(nl, ol[i].0).value)
    ensures vs[i] == (ol[i].0, Interlined(ol[i].1, b))
  {
    assert Keys(vs)[i] == vs[i].0;
  }

  lemma SameKeySet<V, W>(a: seq<(string, V)>, b: seq<(string, W)>)
    requires Keys(a) == Keys(b)
    ensures KeySet(a) == KeySet(b)
  {
    assert forall k :: k in KeySet(a) <==> k in KeySet(b);
  }

  /** Two editions that do not cover the same verses: the original has
      Genesis 1:1 and 1:2, the translation only Genesis 1:1. No interlinear
      is produced. */
  lemma MismatchExample()
    ensures Zip("WLC", [("Genesis 1:1:", []), ("Genesis 1:2:", [])],
                "KJV", [("Genesis 1:1:", [])]) == Err(KeyMismatch)
  {
    var ol: seq<(string, seq<Token>)> := [("Genesis 1:1:", []), ("Genesis 1:2:", [])];
    var nl: seq<(string, seq<Token>)> := [("Genesis 1:1:", [])];
    assert Keys(ol)[1] == "Genesis 1:2:";
    assert Keys(nl) == ["Genesis 1:1:"];
    assert "Genesis 1:2:" in KeySet(ol) && "Genesis 1:2:" !in KeySet(nl);
  }

  /** The same verses in a different order: the interlinear follows the
      original's order and looks each verse up in the translation by key. */
  lemma ReorderedExample(a: seq<Token>, b: seq<Token>, a': seq<Token>, b': seq<Token>)
    ensures var r := Zip("WLC", [("Genesis 1:1:", a), ("Genesis 1:2:", b)],
                         "KJV", [("Genesis 1:2:", b'), ("Genesis 1:1:", a')]);
      r == Ok(Interlinear("WLC", "KJV", [("Genesis 1:1:", Interlined(a, a')),
                                         ("Genesis 1:2:", Interlined(b, b'))]))
  {
    var ol: seq<(string, seq<Token>)> := [("Genesis 1:1:", a), ("Genesis 1:2:", b)];
    var nl: seq<(string, seq<Token>)> := [("Genesis 1:2:", b'), ("Genesis 1:1:", a')];
    assert "Genesis 1:1:"[10] != "Genesis 1:2:"[10];
    assert Keys(ol) == ["Genesis 1:1:", "Genesis 1:2:"];
    assert Keys(nl) == ["Genesis 1:2:", "Genesis 1:1:"];
    assert KeySet(ol) == KeySet(nl);
    GetAt(nl, 0);
    GetAt(nl, 1);
    var vs := ZipVerses(ol, nl);
    assert |vs| == 2;
    assert vs[0] == ("Genesis 1:1:", Interlined(a, a'));
    assert vs[1] == ("Genesis 1:2:", Interlined(b, b'));
    PairSeq(vs);
  }

  lemma PairSeq<T>(s: seq<T>)
    requires |s| == 2
    ensures s == [s[0], s[1]]
  {
  }
}
