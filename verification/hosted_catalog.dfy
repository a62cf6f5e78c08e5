/** The hosted-store catalog of `services-supabase.js`: the filter selection
    becomes a list of query predicates, the returned rows become cards (the
    seller read from the joined profile first, the row's own seller column
    second), the results line counts them, and a service picture is checked
    and given its storage path. */
module HostedCatalog {
  import opened Wrappers
  import opened Text
  import opened Seqs
  import opened Catalog
  import opened Upload
  import opened Forms
  import Utils

  // ---------------------------------------------------------------------
  // Query construction
  // ---------------------------------------------------------------------

  /** One predicate of the catalog query, as added to the query builder. */
  datatype Predicate =
    | ActiveOnly                              // is_active = true
    | NewestFirst                             // order by created_at descending
    | TitleOrDescriptionLike(pattern: string) // title ilike pattern or description ilike pattern
    | UniversityIs(university: string)        // university = value
    | CategoryIs(category: string)            // category = value

  /** A university or category choice that adds an equality predicate. */
  predicate Selective(v: string) {
    v != "" && v != "all"
  }

  /** The predicates `loadServices(filters)` puts on the catalog query: always
      the active-only test and the newest-first order; a text search when the
      search is not blank (its `trim()` is non-empty, see `Text.Trim`),
      matching the untrimmed search anywhere; an equality test for each
      university or category choice that is neither empty nor "all". */
  function BuildQuery(f: Filter): (q: seq<Predicate>)
    ensures |q| == 2 + (if AllWhitespace(f.search) then 0 else 1)
      + (if Selective(f.university) then 1 else 0) + (if Selective(f.category) then 1 else 0)
    ensures q[0] == ActiveOnly && q[1] == NewestFirst
    ensures TitleOrDescriptionLike("%" + f.search + "%") in q <==> !AllWhitespace(f.search)
    ensures forall p | p in q && p.TitleOrDescriptionLike? :: p.pattern == "%" + f.search + "%"
    ensures UniversityIs(f.university) in q <==> Selective(f.university)
    ensures forall p | p in q && p.UniversityIs? :: p.university == f.university
    ensures CategoryIs(f.category) in q <==> Selective(f.category)
    ensures forall p | p in q && p.CategoryIs? :: p.category == f.category
  {
    var search := if !AllWhitespace(f.search) then [TitleOrDescriptionLike("%" + f.search + "%")] else [];
    var university := if Selective(f.university) then [UniversityIs(f.university)] else [];
    var category := if Selective(f.category) then [CategoryIs(f.category)] else [];
    [ActiveOnly, NewestFirst] + search + university + category
  }

  /** A neutral selection queries every active listing, newest first, and
      nothing more. */
  lemma NeutralFilterQueriesAllActive(f: Filter)
    requires AllWhitespace(f.search) && IsNeutral(f.university) && IsNeutral(f.category)
    ensures BuildQuery(f) == [ActiveOnly, NewestFirst]
  {
  }

  /** The store and the client filter agree on the university and category
      choices: the query carries an equality test for a choice exactly when
      the client-side filter tests that choice, and a choice the query leaves
      out lets every listing through on the client too. */
  lemma ChoicesAgreeWithClientFilter(f: Filter, l: Listing)
    ensures UniversityIs(f.university) in BuildQuery(f) ==>
      (MatchesUniversity(l, f.university) <==> l.location == f.university)
    ensures UniversityIs(f.university) !in BuildQuery(f) ==> MatchesUniversity(l, f.university)
    ensures CategoryIs(f.category) in BuildQuery(f) ==>
      (MatchesCategory(l, f.category) <==> l.category == f.category)
    ensures CategoryIs(f.category) !in BuildQuery(f) ==> MatchesCategory(l, f.category)
  {
  }

  /** Where the two implementations part: a blank search adds no store
      predicate, while the client-side filter looks for the blank itself and
      so drops a listing whose title and description have none. */
  lemma BlankSearchDiverges(l: Listing)
    requires ' ' !in l.title && ' ' !in l.description
    ensures |BuildQuery(Filter(" ", "", "")) | == 2
    ensures !MatchesSearch(l, " ")
  {
    assert AllWhitespace(" ") by {
      assert IsWhitespace(" "[0]);
    }
    assert Lower(" ") == " ";
    forall i | 0 <= i <= |Lower(l.title)| - 1
      ensures !OccursAt(" ", Lower(l.title), i)
    {
      assert Lower(l.title)[i] == ToLowerChar(l.title[i]);
      assert l.title[i] in l.title;
    }
    forall i | 0 <= i <= |Lower(l.description)| - 1
      ensures !OccursAt(" ", Lower(l.description), i)
    {
      assert Lower(l.description)[i] == ToLowerChar(l.description[i]);
      assert l.description[i] in l.description;
    }
  }

  // ---------------------------------------------------------------------
  // Results line
  // ---------------------------------------------------------------------

  /** The results line: the count, then "service" in the singular for
      exactly one and "services" for every other count, zero included. */
  function ResultsCountText(n: nat): (text: string)
    ensures var k := |NatToString(n)|;
      && k < |text|
      && ParseInt(text[..k]) == Some(n)
      && (n == 1 <==> text[k..] == " service found")
      && (n != 1 <==> text[k..] == " services found")
  {
    var digits := NatToString(n);
    var tail := if n == 1 then " service found" else " services found";
    var text := digits + tail;
    IntRoundTrip(n);
    assert text[..|digits|] == digits && text[|digits|..] == tail;
    text
  }

  // ---------------------------------------------------------------------
  // Cards
  // ---------------------------------------------------------------------

  const UnknownSeller := "Unknown"
  const BrandAvatarParams := "&background=667eea&color=fff"
  const StockImage := "https://images.unsplash.com/photo-1516321318423-f06f85e504b3?w=600&h=400&fit=crop"

  /** The seller name of a hosted card: the joined profile's full name, else
      the row's own seller column, else "Unknown". */
  function SellerName(row: ServiceRow): (name: string)
    ensures name != ""
    ensures Truthy(ProfileName(row.profile)) ==> name == ProfileName(row.profile).value
    ensures !Truthy(ProfileName(row.profile)) && Truthy(row.sellerName) ==> name == row.sellerName.value
    ensures !Truthy(ProfileName(row.profile)) && !Truthy(row.sellerName) ==> name == UnknownSeller
  {
    OrElse(ProfileName(row.profile), OrElse(row.sellerName, UnknownSeller))
  }

  /** The seller picture of a hosted card: the profile photo, else a picture
      generated from the seller name just chosen. */
  function SellerPicture(row: ServiceRow): (a: Avatar)
    ensures Truthy(ProfilePhoto(row.profile)) <==> a.Photo?
    ensures a.Photo? ==> a.url == ProfilePhoto(row.profile).value
    ensures a.Generated? ==> a.name == SellerName(row) && a.params == BrandAvatarParams
  {
    if Truthy(ProfilePhoto(row.profile)) then Photo(ProfilePhoto(row.profile).value)
    else Generated(SellerName(row), BrandAvatarParams)
  }

  /** The view model of a hosted card. Title, description and location are
      shown as stored, so a missing one is `None` here. */
  datatype HostedCard = HostedCard(
    id: string,
    imageUrl: string,
    title: Option<string>,
    description: Option<string>,
    location: Option<string>,
    badgeClass: string,
    categoryLabel: string,
    sellerAvatar: Avatar,
    sellerName: string,
    verified: bool,
    payments: seq<PaymentBadge>,
    price: string)

  /** What a hosted card shows for its row: the row's key, title,
      description and location as stored; the row's image or the stock
      image; the badge and capitalised label of the category (empty when
      missing); the chosen seller name and picture; the profile's verified
      mark; one icon and name per payment method, in order; and "R" followed
      by the rounded price, a missing price counting as 0. */
  predicate Shows(card: HostedCard, row: ServiceRow) {
    && row.paymentMethods.Some?
    && card.id == row.id
    && card.sellerName == SellerName(row)
    && card.sellerAvatar == SellerPicture(row)
    && (card.verified <==> ProfileVerified(row.profile))
    && |card.payments| == |row.paymentMethods.value|
    && (forall i | 0 <= i < |card.payments| :: card.payments[i].name == row.paymentMethods.value[i])
    && card.title == row.title && card.description == row.description
    && card.location == row.location
    && (Truthy(row.imageUrl) ==> card.imageUrl == row.imageUrl.value)
    && (!Truthy(row.imageUrl) ==> card.imageUrl == StockImage)
    && card.badgeClass == Utils.CategoryBadgeClass(OrElse(row.category, ""))
    && card.categoryLabel == Utils.Capitalize(OrElse(row.category, ""))
    && (forall i | 0 <= i < |card.payments| ::
          card.payments[i].icon == Utils.PaymentIcon(row.paymentMethods.value[i]))
    && card.price == Utils.FormatPrice(row.price.GetOr(0.0))
    && |card.price| >= 2 && card.price[0] == 'R'
    && ParseInt(card.price[1..]) == Some(Utils.JsRound(row.price.GetOr(0.0)))
  }

  /** `createServiceCard(service)` of the hosted version. The payment-method
      array is mapped without a fallback, so a row without one makes card
      creation throw: that is the `None` case. A missing category shows the
      neutral badge and an empty label; a missing price shows as R0. */
  function HostedCardOf(row: ServiceRow): (c: Option<HostedCard>)
    ensures c.Some? <==> row.paymentMethods.Some?
    ensures c.Some? ==> Shows(c.value, row)
  {
    if row.paymentMethods.None? then None
    else
      var category := OrElse(row.category, "");
      Some(HostedCard(
        row.id,
        OrElse(row.imageUrl, StockImage),
        row.title, row.description, row.location,
        Utils.CategoryBadgeClass(category), Utils.Capitalize(category),
        SellerPicture(row), SellerName(row), ProfileVerified(row.profile),
        Map(row.paymentMethods.value, Badge),
        Utils.FormatPrice(row.price.GetOr(0.0))))
  }

  predicate ProfileVerified(profile: Option<Profile>) {
    profile.Some? && profile.value.isVerified == Some(true)
  }

  /** Builds every card, as `Promise.all` does: all cards in row order, or
      nothing as soon as one card cannot be built. */
  function AllCards(rows: seq<ServiceRow>): (cards: Option<seq<HostedCard>>)
    ensures cards.Some? <==> forall i | 0 <= i < |rows| :: rows[i].paymentMethods.Some?
    ensures cards.Some? ==> |cards.value| == |rows|
    ensures cards.Some? ==> forall i | 0 <= i < |rows| :: HostedCardOf(rows[i]) == Some(cards.value[i])
  {
    if forall i | 0 <= i < |rows| :: rows[i].paymentMethods.Some? then
      Some(seq(|rows|, i requires 0 <= i < |rows| => HostedCardOf(rows[i]).value))
    else None
  }

  // ---------------------------------------------------------------------
  // Catalog load
  // ---------------------------------------------------------------------

  /** What the store answered the catalog query with. */
  datatype QueryResult = QueryFailed(message: string) | QueryRows(rows: seq<ServiceRow>)

  /** What one catalog load leaves on the page: the container's content, the
      results line (unchanged when `None`) and a notification, if any. */
  datatype HostedLoad = HostedLoad(view: CatalogView<HostedCard>, resultsCount: Option<string>, toast: Option<Toast>)

  const NoMatchingServices := "No services found matching your criteria. Try adjusting your filters."
  const LoadError := "Error loading services. Please try again."
  const LoadErrorToast := Toast("Error loading services", DangerToast)

  /** The failed load: the error empty-state and a danger notification; the
      results line is left as it was. */
  const FailedLoad := HostedLoad(EmptyState(LoadError), None, Some(LoadErrorToast))

  /** `loadServices(filters)` once the query has settled. */
  function LoadServices(result: QueryResult): (r: HostedLoad)
    ensures result.QueryFailed? ==> r == FailedLoad
    ensures result.QueryRows? && |result.rows| == 0 ==>
      r == HostedLoad(EmptyState(NoMatchingServices), Some(ResultsCountText(0)), None)
    ensures result.QueryRows? && |result.rows| > 0 ==>
      if forall i | 0 <= i < |result.rows| :: result.rows[i].paymentMethods.Some?
      then r.view == Cards(AllCards(result.rows).value) && |r.view.cards| == |result.rows|
        && r.resultsCount == Some(ResultsCountText(|result.rows|)) && r.toast.None?
      else r == FailedLoad
  {
    match result
    case QueryFailed(_) => FailedLoad
    case QueryRows(rows) =>
      if |rows| == 0 then HostedLoad(EmptyState(NoMatchingServices), Some(ResultsCountText(0)), None)
      else
        var cards := AllCards(rows);
        if cards.None? then FailedLoad
        else HostedLoad(Cards(cards.value), Some(ResultsCountText(|rows|)), None)
  }

  /** "Nothing matched" and "the load failed" read differently. */
  lemma EmptyStatesDiffer()
    ensures NoMatchingServices != LoadError
  {
    assert |NoMatchingServices| != |LoadError|;
  }

  // ---------------------------------------------------------------------
  // Service picture upload
  // ---------------------------------------------------------------------

  const MaxServiceImageBytes: nat := 10 * 1024 * 1024
  const NotAuthenticated := "User not authenticated"
  const ServiceImageTooLarge := "Image must be less than 10MB"

  /** `path` reads as `folder`, then the decimal time stamp `now` as
      JavaScript prints it, then a dot and `ext`, which is also the extension of `path` as a whole. */
  predicate IsStoragePath(path: string, folder: string, now: int, ext: string) {
    && StartsWith(path, folder)
    && |folder| + |ext| + 1 < |path|
    && ParseInt(path[|folder|..|path| - |ext| - 1]) == Some(now)
    && Canonical(path[|folder|..|path| - |ext| - 1])
    && path[|path| - |ext| - 1] == '.'
    && Extension(path) == ext
  }

  /** The parts of a storage path `folder + stamp + "." + ext` can be read
      back from it. */
  lemma StoragePathParts(folder: string, now: int, ext: string)
    requires '.' !in ext
    ensures IsStoragePath(folder + IntToString(now) + "." + ext, folder, now, ext)
  {
    var stamp := IntToString(now);
    var path := folder + stamp + "." + ext;
    assert path[|folder|..|path| - |ext| - 1] == stamp;
    assert path[..|folder|] == folder;
    IntRoundTrip(now);
    ExtensionAfterDot(folder + stamp, ext);
  }

  /** A storage path is fixed by its parts: nothing but
      `folder + ${now} + "." + ext` reads back as them. */
  lemma StoragePathUnique(path: string, folder: string, now: int, ext: string)
    requires IsStoragePath(path, folder, now, ext)
    ensures path == folder + IntToString(now) + "." + ext
  {
    var stamp := path[|folder|..|path| - |ext| - 1];
    assert stamp == IntToString(now) by {
      CanonicalIsIntToString(stamp, now);
    }
    assert path[|path| - |ext|..] == ext by {
      assert Extension(path) == ext;
    }
    Glue(path, folder, stamp, ext);
  }

  /** A string that starts with `a`, ends with `e`, holds `b` in between and
      a dot before `e` is `a + b + "." + e`. */
  lemma Glue(s: string, a: string, b: string, e: string)
    requires |a| + |e| + 1 <= |s| && s[..|a|] == a && s[|s| - |e|..] == e
    requires s[|a|..|s| - |e| - 1] == b && s[|s| - |e| - 1] == '.'
    ensures s == a + b + "." + e
  {
    assert s == s[..|a|] + s[|a|..|s| - |e| - 1] + [s[|s| - |e| - 1]] + s[|s| - |e|..];
  }

  /** The checks and storage path of `uploadServiceImage(file)`: a signed-in
      user, an image type, at most 10 MiB; the path is the user's folder, the
      upload time in milliseconds, and the file's own extension. */
  function ServiceImagePath(userId: Option<string>, file: File, now: int): (r: Result<string, string>)
    ensures r.Success? <==> userId.Some? && StartsWith(file.mimeType, "image/") && file.size <= MaxServiceImageBytes
    ensures userId.None? ==> r == Failure(NotAuthenticated)
    ensures userId.Some? && !StartsWith(file.mimeType, "image/") ==> r == Failure(NotAnImage)
    ensures userId.Some? && StartsWith(file.mimeType, "image/") && file.size > MaxServiceImageBytes ==>
      r == Failure(ServiceImageTooLarge)
    ensures r.Success? ==> IsStoragePath(r.value, userId.value + "/", now, Extension(file.name))
  {
    if userId.None? then Failure(NotAuthenticated)
    else
      var error := CheckImage(file, MaxServiceImageBytes, ServiceImageTooLarge);
      if error.Some? then Failure(error.value)
      else
        var folder := userId.value + "/";
        var ext := Extension(file.name);
        StoragePathParts(folder, now, ext);
        Success(folder + IntToString(now) + "." + ext)
  }
}
