/** A client that pages through a listing while the tree changes under it. */
module TreePaging {
  import opened Base
  import opened Keyset
  import opened Paths
  import opened Store
  import opened Listing

  ghost function FullListing(s: State, root: Path, depth: int): seq<Row> { RowsOf(s, Wanted(s, root, depth)) }

  /** The listing each request cuts its page from: request k meets the tree `states[k]`. */
  ghost function Listings(states: seq<State>, root: Path, depth: int): (r: seq<seq<Row>>)
    ensures |r| == |states| && forall k :: 0 <= k < |r| ==> r[k] == FullListing(states[k], root, depth)
  {
    seq(|states|, k requires 0 <= k < |states| => FullListing(states[k], root, depth))
  }

  /** Every row sent to the client who follows the cursors. */
  ghost function Sent(states: seq<State>, root: Path, depth: int): seq<Row> {
    Fetch(Listings(states, root, depth), None, PAGE_SIZE)
  }

  ghost predicate Proper(states: seq<State>, root: Path) {
    (root != [] ==> Canonical(root)) && forall k :: 0 <= k < |states| ==> CanonicalTree(states[k])
  }

  lemma ListingIsSound(s: State, root: Path, depth: int)
    requires CanonicalTree(s) && (root != [] ==> Canonical(root))
    ensures Sound(FullListing(s, root, depth))
  {
    WantedIsCanonical(s, root, depth);
    RowsAreSound(s, Wanted(s, root, depth));
  }

  lemma ListingsAreSound(states: seq<State>, root: Path, depth: int)
    requires Proper(states, root)
    ensures SoundAll(Listings(states, root, depth))
  {
    forall k | 0 <= k < |states| ensures Sound(FullListing(states[k], root, depth)) {
      ListingIsSound(states[k], root, depth);
    }
  }

  /**
   * A path that is wanted in every tree the requests meet is sent exactly once; cursors and rows ascend,
   * and every row sent is the entry of a path wanted in one of the trees.
   */
  lemma LastingPathsAreSentOnce(states: seq<State>, root: Path, depth: int, p: Path)
    requires Proper(states, root) && Finished(Listings(states, root, depth), None, PAGE_SIZE)
    requires forall k :: 0 <= k < |states| ==> p in Wanted(states[k], root, depth)
    ensures OccursOnce(Sent(states, root, depth), Render(p))
    ensures Increasing(Cursors(Listings(states, root, depth), None, PAGE_SIZE), None)
  {
    hide Sound, Fetch, Finished, Wanted, Increasing, OccursOnce;
    ListingsAreSound(states, root, depth);
    var all := Listings(states, root, depth);
    forall k | 0 <= k < |all| ensures HasKey(all[k], Render(p)) {
      RowsOfHas(states[k], Wanted(states[k], root, depth), EntryFor(states[k], p));
      var i :| 0 <= i < |all[k]| && all[k][i] == EntryFor(states[k], p);
    }
    PagingFindsEveryLastingKeyOnce(all, PAGE_SIZE, Render(p));
    CursorsIncrease(all, None, PAGE_SIZE);
  }

  lemma SentRowsWereWanted(states: seq<State>, root: Path, depth: int, r: Row)
    requires r in Sent(states, root, depth)
    ensures exists k, p :: 0 <= k < |states| && p in Wanted(states[k], root, depth) && r == EntryFor(states[k], p)
  {
    hide Fetch, Wanted, EntryFor;
    FetchedRowsWereSeen(Listings(states, root, depth), None, PAGE_SIZE, r);
    var k :| 0 <= k < |states| && r in Listings(states, root, depth)[k];
    RowsOfHas(states[k], Wanted(states[k], root, depth), r);
    var p :| p in Wanted(states[k], root, depth) && r == EntryFor(states[k], p);
  }

  /** Nothing changes between the requests: the pages are the listing, in ceil(n / 200) requests. */
  lemma AStillTreeIsSentWhole(states: seq<State>, s: State, root: Path, depth: int)
    requires Proper(states, root) && Finished(Listings(states, root, depth), None, PAGE_SIZE)
    requires forall k :: 0 <= k < |states| ==> states[k] == s
    ensures Sent(states, root, depth) == FullListing(s, root, depth)
    ensures IsRequestCount(|states|, |FullListing(s, root, depth)|, PAGE_SIZE)
  {
    hide Sound, Fetch, Wanted, FullListing;
    assert states != [] && states[0] == s;
    ListingIsSound(s, root, depth);
    PagingAFixedListReturnsIt(FullListing(s, root, depth), PAGE_SIZE, Listings(states, root, depth));
  }

  /** Filtering each page is filtering what the unfiltered client would have been sent. */
  lemma FilteredPagesAreTheFilteredListing(states: seq<State>, root: Path, depth: int, visible: Row -> bool)
    ensures FetchVisible(Listings(states, root, depth), None, PAGE_SIZE, visible)
            == Filter(Sent(states, root, depth), visible)
  {
    VisibleFetchIsFilteredFetch(Listings(states, root, depth), None, PAGE_SIZE, visible);
  }
}
