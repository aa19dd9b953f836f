/** Failure-compatible wrappers used across the model: an absent value
    (Python's None) and a result that is either a value or an error. */
module Wrappers {

  datatype Option<T> = None | Some(value: T)

  datatype Result<T, E> = Ok(value: T) | Err(error: E)

  /** All the values, or the index of the first absent one: a scan that
      raises at the first element it cannot use. */
  function Collect<T>(opts: seq<Option<T>>): (r: Result<seq<T>, nat>)
    ensures r.Ok? ==> |r.value| == |opts| && forall i :: 0 <= i < |opts| ==> opts[i] == Some(r.value[i])
    ensures r.Err? ==> r.error < |opts| && opts[r.error].None?
                       && forall i :: 0 <= i < r.error ==> opts[i].Some?
  {
    if opts == [] then Ok([])
    else
      match Collect(opts[..|opts| - 1])
      case Err(i) => Err(i)
      case Ok(vs) =>
        match opts[|opts| - 1]
        case None => Err(|opts| - 1)
        case Some(v) => Ok(vs + [v])
  }

  /** The scan stops at the first absent value. */
  lemma CollectFirstNone<T>(opts: seq<Option<T>>, i: nat)
    requires i < |opts| && Collect(opts[..i]).Ok? && opts[i].None?
    ensures Collect(opts) == Err(i)
  {
    forall j | 0 <= j < i
      ensures opts[j].Some?
    {
      assert opts[..i][j] == opts[j];
    }
  }

  /** One more present value extends the collected list. */
  lemma CollectNext<T>(opts: seq<Option<T>>, i: nat, vs: seq<T>, v: T)
    requires i < |opts| && Collect(opts[..i]) == Ok(vs) && opts[i] == Some(v)
    ensures Collect(opts[..i + 1]) == Ok(vs + [v])
  {
    assert opts[..i + 1][..i] == opts[..i];
  }
}
