/** The search box's derived view of the bookmark list. */
module Search {

  import opened Text
  import opened Bookmarks
  import Seqs

  /** The lower-cased title or url includes `loweredTerm`. */
  predicate Matches(b: Bookmark, loweredTerm: string) {
    Contains(Lower(b.title), loweredTerm) || Contains(Lower(b.url), loweredTerm)
  }

  function MatchesTerm(loweredTerm: string): Bookmark -> bool {
    (b: Bookmark) => Matches(b, loweredTerm)
  }

  /**
   * The filter effect: a term that trims to nothing shows the list as it is;
   * any other term is lower-cased, but not trimmed, and matched against each entry.
   */
  function Filtered(bookmarks: seq<Bookmark>, searchTerm: string): (r: seq<Bookmark>)
    ensures |r| <= |bookmarks|
    ensures !AllWhitespace(searchTerm) ==> forall k :: 0 <= k < |r| ==> Matches(r[k], Lower(searchTerm))
  {
    if Trim(searchTerm) == "" then bookmarks
    else Seqs.Filter(bookmarks, MatchesTerm(Lower(searchTerm)))
  }

  /** A blank term shows every bookmark, in the same order. */
  lemma BlankTermShowsAll(bookmarks: seq<Bookmark>, searchTerm: string)
    requires AllWhitespace(searchTerm)
    ensures Filtered(bookmarks, searchTerm) == bookmarks
  {
  }

  /**
   * Any other term shows the subsequence of the list made of exactly the
   * entries whose lower-cased title or url includes the lower-cased term.
   */
  lemma FilteredSelectsMatches(bookmarks: seq<Bookmark>, searchTerm: string) returns (idx: seq<int>)
    requires !AllWhitespace(searchTerm)
    ensures |idx| == |Filtered(bookmarks, searchTerm)|
    ensures forall k :: 0 <= k < |idx| ==> 0 <= idx[k] < |bookmarks| && Filtered(bookmarks, searchTerm)[k] == bookmarks[idx[k]]
    ensures forall k, l :: 0 <= k < l < |idx| ==> idx[k] < idx[l]
    ensures forall j :: 0 <= j < |bookmarks| ==> (Matches(bookmarks[j], Lower(searchTerm)) <==> j in idx)
  {
    idx := Seqs.FilterSelects(bookmarks, MatchesTerm(Lower(searchTerm)));
  }

  /** An entry is shown exactly when it is in the list and the term is blank or matches it. */
  lemma FilteredMembers(bookmarks: seq<Bookmark>, searchTerm: string)
    ensures forall b :: b in Filtered(bookmarks, searchTerm) <==>
      b in bookmarks && (AllWhitespace(searchTerm) || Matches(b, Lower(searchTerm)))
  {
    if !AllWhitespace(searchTerm) {
      var keep := MatchesTerm(Lower(searchTerm));
      var idx := Seqs.FilterSelects(bookmarks, keep);
      Seqs.SelectionMembers(Seqs.Filter(bookmarks, keep), bookmarks, keep, idx);
    }
  }

  /** Lower-casing keeps every whitespace character and makes none. */
  lemma LowerKeepsBlankness(s: string)
    ensures AllWhitespace(Lower(s)) <==> AllWhitespace(s)
  {
  }

  /** The search is case-insensitive in the term: typing it in any case gives the same view. */
  lemma FilteredIgnoresTermCase(bookmarks: seq<Bookmark>, searchTerm: string)
    ensures Filtered(bookmarks, Lower(searchTerm)) == Filtered(bookmarks, searchTerm)
  {
    LowerKeepsBlankness(searchTerm);
    LowerIdempotent(searchTerm);
  }
}
