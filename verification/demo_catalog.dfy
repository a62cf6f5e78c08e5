/** The demo-data catalog of `js/service.js`: the bundled listings filtered
    with the catalog's three-way filter, looked up by id, the first three as
    the featured strip, and the first three others as "more services". */
module DemoCatalog {
  import opened Wrappers
  import opened Seqs
  import opened Catalog

  /** `loadServices(filters)` over the demo listings: the matching listings'
      cards in order, or the "no services" message when none matches. */
  function LoadServices(demo: seq<Listing>, f: Filter): (v: CatalogView<Card>)
    ensures var shown := FilterListings(demo, f);
      && (v.EmptyState? <==> |shown| == 0)
      && (v.EmptyState? ==> v.message == NoServicesFound)
      && (v.Cards? ==> v.cards == Map(shown, CardOf))
  {
    var shown := FilterListings(demo, f);
    if |shown| == 0 then EmptyState(NoServicesFound) else Cards(Map(shown, CardOf))
  }

  /** The neutral selection shows a card for every demo listing, in order. */
  lemma NeutralFilterShowsAll(demo: seq<Listing>, f: Filter)
    requires f.search == "" && IsNeutral(f.university) && IsNeutral(f.category)
    requires |demo| > 0
    ensures LoadServices(demo, f) == Cards(Map(demo, CardOf))
  {
    NeutralFilterKeepsAll(demo, f);
  }

  /** `getServiceById(id)`: the first listing carrying `id`, or nothing when
      no listing does. */
  method GetServiceById(demo: seq<Listing>, id: string) returns (found: Option<Listing>)
    ensures found.None? <==> forall i | 0 <= i < |demo| :: demo[i].id != id
    ensures found.Some? ==> exists i | 0 <= i < |demo| ::
      && demo[i] == found.value
      && demo[i].id == id
      && forall j | 0 <= j < i :: demo[j].id != id
  {
    var i := 0;
    while i < |demo|
      invariant 0 <= i <= |demo|
      invariant forall j | 0 <= j < i :: demo[j].id != id
    {
      if demo[i].id == id {
        return Some(demo[i]);
      }
      i := i + 1;
    }
    return None;
  }

  /** `loadFeaturedServices()`: the first three demo listings (all of them
      when there are fewer), in order. */
  function Featured(demo: seq<Listing>): (r: seq<Listing>)
    ensures |r| == if |demo| < 3 then |demo| else 3
    ensures forall i | 0 <= i < |r| :: r[i] == demo[i]
  {
    Take(demo, 3)
  }

  function NotExcluded(excludeId: string): Listing -> bool {
    (l: Listing) => l.id != excludeId
  }

  /** The listings other than `excludeId`, in order. */
  function Others(demo: seq<Listing>, excludeId: string): seq<Listing> {
    Seqs.Filter(demo, NotExcluded(excludeId))
  }

  /** `loadMoreServices(excludeId)`: at most three listings, none of them the
      excluded one, taken from the front of the other listings. */
  function MoreServices(demo: seq<Listing>, excludeId: string): (r: seq<Listing>)
    ensures |r| <= 3
    ensures forall i | 0 <= i < |r| :: r[i].id != excludeId
    ensures |r| == if |Others(demo, excludeId)| < 3 then |Others(demo, excludeId)| else 3
    ensures r == Others(demo, excludeId)[..|r|]
    ensures IsSubsequence(r, demo)
  {
    var others := Others(demo, excludeId);
    var r := Take(others, 3);
    FilterIsSubsequence(demo, NotExcluded(excludeId));
    SubsequencePrefix(others, demo, |r|);
    r
  }
}
