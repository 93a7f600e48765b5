/** Optional values, results and the error cases of the interlinear pipeline. */
module Results {

  datatype Option<+T> = None | Some(value: T)

  /** The two ways the pipeline can stop: a Strong's marker without digits
      (Python's `int("")` raising), and verse-key sets that differ between the
      two editions (the program's `sys.exit(1)`). */
  datatype Error =
    | MalformedMarker(marker: string)
    | KeyMismatch

  datatype Result<+T> = Ok(value: T) | Err(error: Error) {

    predicate IsFailure() {
      Err?
    }

    function PropagateFailure<U>(): Result<U>
      requires Err?
    {
      Err(error)
    }

    function Extract(): T
      requires Ok?
    {
      value
    }
  }

  /** Runs a sequence of fallible steps in order: all their values, or the
      error of the first step that failed. */
  function AllOk<T>(rs: seq<Result<T>>): (r: Result<seq<T>>)
    ensures r.Ok? <==> forall i :: 0 <= i < |rs| ==> rs[i].Ok?
    ensures r.Ok? ==> |r.value| == |rs| && forall i :: 0 <= i < |rs| ==> rs[i] == Ok(r.value[i])
    ensures r.Err? ==> exists i :: && 0 <= i < |rs|
                                   && rs[i] == Err(r.error)
                                   && forall j :: 0 <= j < i ==> rs[j].Ok?
  {
    if |rs| == 0 then Ok([])
    else
      match rs[0]
      case Err(e) => Err(e)
      case Ok(v) =>
        match AllOk(rs[1..])
        case Err(e) =>
          AllOkTailErr(rs, e);
          Err(e)
        case Ok(vs) =>
          AllOkTailOk(rs, v, vs);
          Ok([v] + vs)
  }

  lemma AllOkTailErr<T>(rs: seq<Result<T>>, e: Error)
    requires |rs| > 0 && rs[0].Ok?
    requires exists i :: && 0 <= i < |rs| - 1
                         && rs[1..][i] == Err(e)
                         && forall j :: 0 <= j < i ==> rs[1..][j].Ok?
    ensures exists i :: && 0 <= i < |rs|
                        && rs[i] == Err(e)
                        && forall j :: 0 <= j < i ==> rs[j].Ok?
  {
    var i :| && 0 <= i < |rs| - 1
             && rs[1..][i] == Err(e)
             && forall j :: 0 <= j < i ==> rs[1..][j].Ok?;
    assert rs[i + 1] == Err(e);
    assert forall j :: 0 < j < i + 1 ==> rs[j] == rs[1..][j - 1];
  }

  lemma AllOkTailOk<T>(rs: seq<Result<T>>, v: T, vs: seq<T>)
    requires |rs| > 0 && rs[0] == Ok(v)
    requires |vs| == |rs| - 1 && forall i :: 0 <= i < |rs| - 1 ==> rs[1..][i] == Ok(vs[i])
    ensures forall i :: 0 <= i < |rs| ==> rs[i] == Ok(([v] + vs)[i])
  {
    assert forall i :: 0 < i < |rs| ==> rs[i] == rs[1..][i - 1];
  }
}
