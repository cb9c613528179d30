/** A row of the `bookmarks` table as the page holds it, and facts about lists of rows. */
module Bookmarks {

  /** The table's primary key. Only `0` among ids is falsy in JavaScript. */
  type Id = int

  /** The authenticated user's id, compared by the backend's row filter only. */
  type UserId = string

  datatype Bookmark = Bookmark(id: Id, userId: UserId, title: string, url: string, createdAt: string)

  /** The ids present in a list. */
  function Ids(s: seq<Bookmark>): set<Id> {
    set i | 0 <= i < |s| :: s[i].id
  }

  /** No two entries of the list share an id. */
  predicate DistinctIds(s: seq<Bookmark>) {
    forall i, j :: 0 <= i < j < |s| ==> s[i].id != s[j].id
  }
}
