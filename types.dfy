/**
 * The `Bookmark` record of src/types/database.types.ts and the identifiers
 * the list component gives to provisional entries.
 */
module Types {
  import opened Text

  datatype Option<T> = None | Some(value: T)

  /**
   * One row of the `bookmarks` table. `description` and `tags` are the
   * record's optional members; `createdAt` is the store's creation time,
   * taken here as a number of milliseconds.
   */
  datatype Bookmark = Bookmark(
    id: string,
    userId: string,
    title: string,
    url: string,
    description: Option<string>,
    tags: Option<seq<string>>,
    createdAt: int)

  const TempPrefix: string := "temp-"

  /** A provisional entry: one whose id starts with `temp-`. */
  predicate IsTemp(id: string) {
    TempPrefix <= id
  }

  /** The id `temp-<n>` given to the n-th optimistic add. */
  function TempId(n: nat): (id: string)
    ensures IsTemp(id)
  {
    TempPrefix + NatToString(n)
  }

  /** Two optimistic adds with different counters never share an id. */
  lemma TempIdInjective(a: nat, b: nat)
    requires TempId(a) == TempId(b)
    ensures a == b
  {
    assert NatToString(a) == TempId(a)[|TempPrefix|..];
    assert NatToString(b) == TempId(b)[|TempPrefix|..];
    NatToStringInjective(a, b);
  }
}
