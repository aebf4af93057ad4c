/** Nullable values and statement outcomes shared by every module of the model. */
module Common {

  /** A nullable column or an optional argument: `None` is SQL NULL / JavaScript `null`. */
  datatype Option<+T> = None | Some(value: T)

  /** The outcome of a database statement or an action: a value, or the error it raised. */
  datatype Result<+T, +E> = Ok(value: T) | Err(error: E)

  /**
   * The first element of `s` that satisfies `p`: the row a `WHERE ... LIMIT 1`
   * query returns from a table in storage order.
   */
  function First<T>(s: seq<T>, p: T -> bool): (r: Option<T>)
    ensures r.Some? ==> r.value in s && p(r.value)
    ensures r.None? <==> forall i :: 0 <= i < |s| ==> !p(s[i])
    ensures forall k :: 0 <= k < |s| && p(s[k]) && (forall j :: 0 <= j < k ==> !p(s[j])) ==> r == Some(s[k])
  {
    if s == [] then None
    else if p(s[0]) then Some(s[0])
    else First(s[1..], p)
  }

  /** JavaScript `s || null` on a string: the empty string becomes null. */
  function NullIfEmpty(s: string): (r: Option<string>)
    ensures r.None? <==> s == ""
    ensures r.Some? ==> r.value == s
  {
    if s == "" then None else Some(s)
  }

  /** JavaScript `x || ""` on a nullable string: null becomes the empty string. */
  function EmptyIfNull(o: Option<string>): (r: string)
    ensures o.None? ==> r == ""
    ensures o.Some? ==> r == o.value
  {
    if o.Some? then o.value else ""
  }

  /** Saving what was loaded gives the stored value back, unless it was a stored empty string. */
  lemma NullIfEmptyUndoesEmptyIfNull(o: Option<string>)
    requires o != Some("")
    ensures NullIfEmpty(EmptyIfNull(o)) == o
  {
  }

  /** Loading what was saved gives the typed text back. */
  lemma EmptyIfNullUndoesNullIfEmpty(s: string)
    ensures EmptyIfNull(NullIfEmpty(s)) == s
  {
  }
}
