/**
 * The "Saved data" summary the script prints after writing the storage state:
 * how many cookies and how many origins with local storage the saved document
 * holds. A field missing from the document counts as zero.
 */
module Summary {
  import opened Wrappers

  datatype Cookie = Cookie(name: string, value: string, domain: string, path: string)

  /** One origin's local-storage snapshot: its name/value entries. */
  datatype Origin = Origin(origin: string, localStorage: seq<(string, string)>)

  /** The saved document as read back; either array may be missing. */
  datatype StorageState = StorageState(cookies: Option<seq<Cookie>>, origins: Option<seq<Origin>>)

  datatype Counts = Counts(cookieCount: nat, originCount: nat)

  /**
   * `field ? field.length : 0`. An array, even an empty one, is truthy, so a
   * present field reports its length; only a missing one falls back to zero.
   */
  function CountOf<T>(field: Option<seq<T>>): (n: nat)
    ensures n == |field.GetOr([])|
    ensures n == 0 <==> field.None? || field.value == []
  {
    match field
    case None => 0
    case Some(items) => |items|
  }

  /** The two counts the summary prints. */
  function Summarize(state: StorageState): (c: Counts)
    ensures c.cookieCount == |state.cookies.GetOr([])|
    ensures c.originCount == |state.origins.GetOr([])|
  {
    Counts(CountOf(state.cookies), CountOf(state.origins))
  }

  /** A missing array and an empty one give the same summary. */
  lemma MissingLikeEmpty(state: StorageState)
    ensures Summarize(state) ==
      Summarize(StorageState(Some(state.cookies.GetOr([])), Some(state.origins.GetOr([]))))
  {
  }
}
