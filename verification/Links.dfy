/** What the linked structures share: links between records, and the sequences they form. */
module Links {

  datatype Link = Nil | To(a: nat)

  /** The link to place k of a list, Nil behind its end. */
  function LinkAt(list: seq<nat>, k: nat): Link {
    if k < |list| then To(list[k]) else Nil
  }

  ghost predicate Distinct(list: seq<nat>) {
    forall j, k :: 0 <= j < k < |list| ==> list[j] != list[k]
  }

  function Insert<T>(s: seq<T>, k: nat, x: T): seq<T>
    requires k <= |s|
  {
    s[..k] + [x] + s[k..]
  }

  function Remove<T>(s: seq<T>, k: nat): seq<T>
    requires k < |s|
  {
    s[..k] + s[k + 1..]
  }
}
