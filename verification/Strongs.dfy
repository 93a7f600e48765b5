/** Strong's concordance markers: recognising `<G123>`-style markers in a
    word token and normalising their ids to one canonical spelling
    (`STRONGS_RE_CHIRHO` and `_parse_strongs_to_common_chirho`). */
module Strongs {
  import opened Results
  import opened Text

  /** What the group `([GgHh](\d+)?)` of the marker pattern captures: a
      namespace letter followed by possibly no digits. */
  predicate IsMarkerBody(b: string) {
    |b| >= 1 && b[0] in "GgHh" && AllDigits(b[1..])
  }

  /** `t` starts with a complete marker whose closing `>` is at position `n`. */
  predicate IsMarkerAt(t: string, n: int) {
    2 <= n < |t| && t[0] == '<' && IsMarkerBody(t[1..n]) && t[n] == '>'
  }

  /** `STRONGS_RE_CHIRHO.match(t)`: an anchored, prefix-only match of
      `<([GgHh](\d+)?)>`, returning the captured group. Text after the closing
      `>` is allowed. The capture is the only one possible: the digits must
      run up to the `>`. */
  function MatchMarker(t: string): (r: Option<string>)
    ensures r.Some? ==> IsMarkerAt(t, |r.value| + 1) && r.value == t[1..|r.value| + 1]
    ensures forall n :: IsMarkerAt(t, n) ==> r == Some(t[1..n])
  {
    if |t| >= 3 && t[0] == '<' && t[1] in "GgHh" then
      var e := 2 + DigitRun(t[2..]);
      assert t[1..e][1..] == t[2..e] == t[2..][..e - 2];
      assert t[1..e][0] == t[1];
      assert forall n :: IsMarkerAt(t, n) ==> n == e by {
        forall n | IsMarkerAt(t, n)
          ensures n == e
        {
          assert forall k :: 2 <= k < n ==> t[k] == t[1..n][k - 1];
          assert forall k :: 2 <= k < e ==> t[k] == t[2..][..e - 2][k - 2];
        }
      }
      if e < |t| && t[e] == '>' then Some(t[1..e]) else None
    else
      MarkerStart(t);
      None
  }

  lemma MarkerStart(t: string)
    ensures forall n :: IsMarkerAt(t, n) ==> |t| >= 3 && t[0] == '<' && t[1] in "GgHh"
  {
    forall n | IsMarkerAt(t, n)
      ensures t[1] in "GgHh"
    {
      assert t[1] == t[1..n][0];
    }
  }

  function DigitValue(c: char): nat
    requires IsDigit(c)
  {
    (c as int - '0' as int) as nat
  }

  function DigitChar(d: nat): char
    requires d < 10
  {
    (d + '0' as int) as char
  }

  /** Python's `int(ds)` on a string of ASCII digits. The empty string,
      which `int` rejects, gives 0 here; `Normalise` reports a marker without
      digits as an error before it reads any value. */
  function DigitsValue(ds: string): nat
    requires AllDigits(ds)
  {
    if |ds| == 0 then 0
    else 10 * DigitsValue(ds[..|ds| - 1]) + DigitValue(ds[|ds| - 1])
  }

  /** A decimal numeral without leading zeros, the form `str(int(...))` gives. */
  predicate IsCanonical(ds: string) {
    |ds| >= 1 && AllDigits(ds) && (ds[0] == '0' ==> |ds| == 1)
  }

  /** Python's `str(n)` for a natural number: a canonical numeral denoting `n`. */
  function Decimal(n: nat): (r: string)
    ensures IsCanonical(r) && DigitsValue(r) == n
  {
    if n < 10 then [DigitChar(n)]
    else
      var p := Decimal(n / 10);
      var d := n % 10;
      var r := p + [DigitChar(d)];
      assert r[..|r| - 1] == p;
      assert forall i :: 0 <= i < |p| ==> r[i] == p[i];
      assert DigitValue(DigitChar(d)) == d;
      assert DigitsValue(r) == 10 * (n / 10) + d;
      CanonicalZero(p);
      r
  }

  lemma CanonicalZero(ds: string)
    requires IsCanonical(ds)
    ensures ds[0] == '0' ==> DigitsValue(ds) == 0
  {
  }

  lemma {:induction false} LeadingNonZero(ds: string)
    requires |ds| >= 1 && AllDigits(ds) && ds[0] != '0'
    ensures DigitsValue(ds) >= 1
    decreases |ds|
  {
    if |ds| > 1 {
      LeadingNonZero(ds[..|ds| - 1]);
    }
  }

  /** Every canonical numeral is the decimal rendering of its value, so
      canonical numerals and natural numbers correspond one to one. */
  lemma {:induction false} DecimalOfCanonical(ds: string)
    requires IsCanonical(ds)
    ensures Decimal(DigitsValue(ds)) == ds
    decreases |ds|
  {
    var v := DigitsValue(ds);
    var last := ds[|ds| - 1];
    if |ds| == 1 {
      assert DigitChar(DigitValue(last)) == last;
      assert ds == [last];
    } else {
      var p := ds[..|ds| - 1];
      assert p[0] == ds[0];
      LeadingNonZero(p);
      DecimalOfCanonical(p);
      assert v / 10 == DigitsValue(p) && v % 10 == DigitValue(last);
      assert DigitChar(DigitValue(last)) == last;
      assert ds == p + [last];
    }
  }

  /** Python's `c.upper()` on ASCII. */
  function Upper(c: char): char {
    if 'a' <= c <= 'z' then (c as int - 32) as char else c
  }

  /** The canonical spelling of a concordance id: `G` or `H` and a canonical
      numeral. */
  predicate IsCanonicalId(x: string) {
    |x| >= 2 && x[0] in "GH" && IsCanonical(x[1..])
  }

  /** `_parse_strongs_to_common_chirho`: upper-cases the namespace letter and
      re-renders the digits through `int`. A marker without digits makes
      `int("")` raise; that is the error result. A normalised id is canonical,
      keeps the (upper-cased) letter, and denotes the same number. */
  function Normalise(body: string): (r: Result<string>)
    requires IsMarkerBody(body)
    ensures r.Err? <==> |body| == 1
    ensures r.Err? ==> r.error == MalformedMarker(body)
    ensures r.Ok? ==> && IsCanonicalId(r.value)
                      && r.value[0] == Upper(body[0])
                      && DigitsValue(r.value[1..]) == DigitsValue(body[1..])
  {
    if |body| == 1 then Err(MalformedMarker(body))
    else
      var r := [Upper(body[0])] + Decimal(DigitsValue(body[1..]));
      assert r[1..] == Decimal(DigitsValue(body[1..]));
      Ok(r)
  }

  /** A canonical id is left unchanged by normalisation. */
  lemma CanonicalIsFixed(x: string)
    requires IsCanonicalId(x)
    ensures IsMarkerBody(x) && Normalise(x) == Ok(x)
  {
    DecimalOfCanonical(x[1..]);
    assert x == [x[0]] + x[1..];
  }

  /** Normalising twice is the same as normalising once. */
  lemma NormaliseIdempotent(body: string)
    requires IsMarkerBody(body) && Normalise(body).Ok?
    ensures IsMarkerBody(Normalise(body).value)
    ensures Normalise(Normalise(body).value) == Normalise(body)
  {
    CanonicalIsFixed(Normalise(body).value);
  }

  /** Two well-formed markers normalise to the same id exactly when their
      letters agree up to case and their digits denote the same number. */
  lemma NormaliseAgrees(a: string, b: string)
    requires IsMarkerBody(a) && IsMarkerBody(b)
    requires Normalise(a).Ok? && Normalise(b).Ok?
    ensures Normalise(a) == Normalise(b)
       <==> Upper(a[0]) == Upper(b[0]) && DigitsValue(a[1..]) == DigitsValue(b[1..])
  {
    var x := Normalise(a).value;
    var y := Normalise(b).value;
    assert x == y ==> x[1..] == y[1..];
  }

  /** `g7`, `G07` and `g007` all normalise to `G7`; `G` alone is rejected. */
  lemma NormaliseExamples()
    ensures Normalise("g7") == Ok("G7")
    ensures Normalise("G07") == Ok("G7")
    ensures Normalise("g007") == Ok("G7")
    ensures Normalise("G") == Err(MalformedMarker("G"))
  {
    assert IsCanonicalId("G7");
    CanonicalIsFixed("G7");
    assert DigitsValue("07") == 7 by {
      assert "07"[..1] == "0";
    }
    assert DigitsValue("007") == 7 by {
      assert "007"[..2] == "00";
      assert "00"[..1] == "0";
    }
    NormaliseAgrees("g7", "G7");
    NormaliseAgrees("G07", "G7");
    NormaliseAgrees("g007", "G7");
  }
}
