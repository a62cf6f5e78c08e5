/** The service catalog of `js/services.js`: raw `services` rows (joined with
    the seller's `profiles` row) are normalised into listings with a fallback
    for every field, put in front of the bundled demo listings, filtered by
    the search / university / category selection and turned into card view
    models, or into an empty-state message. */
module Catalog {
  import opened Wrappers
  import opened Text
  import opened Seqs
  import Utils

  // ---------------------------------------------------------------------
  // Data model
  // ---------------------------------------------------------------------

  /** The seller's `profiles` row joined onto a service row; every column may
      be `null`. */
  datatype Profile = Profile(fullName: Option<string>, avatarUrl: Option<string>, isVerified: Option<bool>)

  /** A `services` row as the store returns it. `id` is the primary key; every
      other column may be `null` (`None`). `university` and `location` are the
      two place columns the listing's location is read from, `sellerName` is
      the flat seller column, `profile` the joined seller row. */
  datatype ServiceRow = ServiceRow(
    id: string,
    title: Option<string>,
    description: Option<string>,
    category: Option<string>,
    price: Option<real>,
    university: Option<string>,
    location: Option<string>,
    imageUrl: Option<string>,
    verified: Option<bool>,
    paymentMethods: Option<seq<string>>,
    sellerName: Option<string>,
    profile: Option<Profile>)

  /** A seller picture: an uploaded photo, or the avatar service's generated
      picture for `name`, with the fixed query parameters `params` that
      follow the name in its URL. */
  datatype Avatar = Photo(url: string) | Generated(name: string, params: string)

  /** The canonical listing every card is drawn from; the bundled demo
      services already have this shape. */
  datatype Listing = Listing(
    id: string,
    title: string,
    description: string,
    category: string,
    price: real,
    location: string,
    imageUrl: string,
    sellerAvatar: Avatar,
    sellerName: string,
    verified: bool,
    paymentMethods: seq<string>)

  const UntitledService := "Untitled Service"
  const NoDescription := "No description provided"
  const GeneralCategory := "General"
  const AnyUniversity := "Any University"
  const DefaultImage := "images/default-service.jpg"
  const AnonymousSeller := "Anonymous"
  const DefaultPayments: seq<string> := ["Cash"]
  const RandomBackground := "&background=random"

  // ---------------------------------------------------------------------
  // Normalisation
  // ---------------------------------------------------------------------

  /** The first character of every non-empty piece (an empty piece, from two
      blanks in a row, contributes nothing, as `undefined` joins as ""). */
  function FirstChars(parts: seq<string>): (r: string)
    ensures |r| <= |parts|
    ensures (forall k | 0 <= k < |parts| :: ' ' !in parts[k]) ==> ' ' !in r
  {
    if |parts| == 0 then ""
    else
      var head := if |parts[0]| > 0 then [parts[0][0]] else "";
      head + FirstChars(parts[1..])
  }

  /** The seller's initials: the upper-cased first character of every
      blank-separated word of the full name. */
  function Initials(fullName: string): (r: string)
    ensures ' ' !in r
    ensures |r| <= |Split(fullName, ' ')|
  {
    SplitPieces(fullName, ' ');
    var firsts := FirstChars(Split(fullName, ' '));
    var r := Upper(firsts);
    assert forall i | 0 <= i < |r| :: r[i] != ' ' by {
      forall i | 0 <= i < |r|
        ensures r[i] != ' '
      {
        assert firsts[i] in firsts;
      }
    }
    r
  }

  /** The initial one blank-separated piece contributes: its upper-cased
      first character, or nothing for an empty piece. */
  function InitialOf(word: string): string {
    if word == "" then "" else [ToUpperChar(word[0])]
  }

  /** A one-word name has that word's initial only. */
  lemma InitialsOfWord(word: string)
    requires ' ' !in word
    ensures Initials(word) == InitialOf(word)
  {
    SplitPieces(word, ' ');
  }

  /** The initials of a name are the initial of its first word followed by
      the initials of the rest, so they are read word by word, left to
      right, an empty word between two blanks adding nothing. */
  lemma InitialsOfWords(word: string, rest: string)
    requires ' ' !in word
    ensures Initials(word + " " + rest) == InitialOf(word) + Initials(rest)
  {
    var parts := Split(rest, ' ');
    SplitAfterWord(word, rest);
    var head := if |word| > 0 then [word[0]] else "";
    assert FirstChars([word] + parts) == head + FirstChars(parts) by {
      assert ([word] + parts)[1..] == parts;
    }
    UpperAppend(head, FirstChars(parts));
    assert Upper(head) == InitialOf(word);
  }

  /** A blank after a blank-free word splits off exactly that word. */
  lemma SplitAfterWord(word: string, rest: string)
    requires ' ' !in word
    ensures Split(word + " " + rest, ' ') == [word] + Split(rest, ' ')
  {
    assert word + " " + rest == word + [' '] + rest;
    SplitAround(word, ' ', rest);
    SplitPieces(word, ' ');
  }

  function ProfileName(profile: Option<Profile>): Option<string> {
    if profile.Some? then profile.value.fullName else None
  }

  function ProfilePhoto(profile: Option<Profile>): Option<string> {
    if profile.Some? then profile.value.avatarUrl else None
  }

  /** The seller picture of a normalised row: the profile's photo when it has
      one; otherwise a generated picture. The generated picture is asked for
      the full name when there is one and for the empty name when there is
      not: the initials are only computed when a full name exists, so the
      fallback to them never takes effect. */
  function SellerAvatar(profile: Option<Profile>): (a: Avatar)
    ensures Truthy(ProfilePhoto(profile)) <==> a.Photo?
    ensures a.Photo? ==> a.url == ProfilePhoto(profile).value
    ensures a.Generated? ==> a.params == RandomBackground
    ensures a.Generated? && Truthy(ProfileName(profile)) ==> a.name == ProfileName(profile).value
    ensures a.Generated? && !Truthy(ProfileName(profile)) ==> a.name == ""
  {
    var fullName := ProfileName(profile);
    var initials := if Truthy(fullName) then Initials(fullName.value) else "";
    var photo := ProfilePhoto(profile);
    if Truthy(photo) then Photo(photo.value)
    else Generated(OrElse(fullName, initials), RandomBackground)
  }

  /** The row-to-listing mapping of the catalog load: every field independently
      takes the row's value when it is truthy and its fallback otherwise; an
      empty payment-method array is truthy and is kept. */
  function Normalize(row: ServiceRow): (l: Listing)
    ensures l.id == row.id
    ensures l.title != "" && l.description != "" && l.category != ""
    ensures l.location != "" && l.imageUrl != "" && l.sellerName != ""
    ensures l.title == OrElse(row.title, UntitledService)
    ensures l.description == OrElse(row.description, NoDescription)
    ensures l.category == OrElse(row.category, GeneralCategory)
    ensures l.imageUrl == OrElse(row.imageUrl, DefaultImage)
    ensures l.sellerName == OrElse(ProfileName(row.profile), AnonymousSeller)
    ensures l.price == row.price.GetOr(0.0)
    ensures l.verified <==> row.verified == Some(true)
    ensures l.paymentMethods == row.paymentMethods.GetOr(DefaultPayments)
    ensures l.location == OrElse(row.university, OrElse(row.location, AnyUniversity))
    ensures l.sellerAvatar == SellerAvatar(row.profile)
  {
    Listing(
      row.id,
      OrElse(row.title, UntitledService),
      OrElse(row.description, NoDescription),
      OrElse(row.category, GeneralCategory),
      row.price.GetOr(0.0),
      OrElse(row.university, OrElse(row.location, AnyUniversity)),
      OrElse(row.imageUrl, DefaultImage),
      SellerAvatar(row.profile),
      OrElse(ProfileName(row.profile), AnonymousSeller),
      row.verified.GetOr(false),
      row.paymentMethods.GetOr(DefaultPayments))
  }

  /** A row holding nothing but its key. */
  function BareRow(id: string): ServiceRow {
    ServiceRow(id, None, None, None, None, None, None, None, None, None, None, None)
  }

  /** Fallback totality: a row with nothing but its key normalises to a
      listing whose every field is its documented default. */
  lemma NormalizeBareRow(id: string)
    ensures Normalize(BareRow(id)) == Listing(
      id, UntitledService, NoDescription, GeneralCategory, 0.0, AnyUniversity,
      DefaultImage, Generated("", RandomBackground), AnonymousSeller, false, ["Cash"])
  {
  }

  /** Empty strings are falsy, so a row whose text columns are all "" falls
      back exactly like a row whose columns are all `null`. */
  lemma EmptyStringsFallBack(id: string)
    ensures Normalize(ServiceRow(id, Some(""), Some(""), Some(""), Some(0.0), Some(""), Some(""), Some(""),
                                 Some(false), None, None, Some(Profile(Some(""), Some(""), None))))
         == Normalize(BareRow(id))
  {
  }

  /** An empty payment-method array is present (arrays are truthy) and is kept
      rather than replaced by the cash default. */
  lemma EmptyPaymentMethodsKept(row: ServiceRow)
    requires row.paymentMethods == Some([])
    ensures Normalize(row).paymentMethods == []
  {
  }

  /** The location is read from `university` first, then `location`, then the
      placeholder. */
  lemma LocationLookupOrder(row: ServiceRow)
    ensures Truthy(row.university) ==> Normalize(row).location == row.university.value
    ensures !Truthy(row.university) && Truthy(row.location) ==> Normalize(row).location == row.location.value
    ensures !Truthy(row.university) && !Truthy(row.location) ==> Normalize(row).location == AnyUniversity
  {
  }

  /** The initials of a two-word name, with the empty piece between two blanks
      contributing nothing; computing them has no influence on the picture. */
  lemma InitialsDoNotReachAvatar(fullName: string)
    requires fullName != ""
    ensures SellerAvatar(Some(Profile(Some(fullName), None, None))) == Generated(fullName, RandomBackground)
    ensures SellerAvatar(Some(Profile(None, None, None))) == Generated("", RandomBackground)
  {
  }

  // ---------------------------------------------------------------------
  // Filter
  // ---------------------------------------------------------------------

  /** The filter selection; a key the caller left out is the empty string,
      which every test of the filter treats the same as a missing key. */
  datatype Filter = Filter(search: string, university: string, category: string)

  /** A university or category selection that selects everything. */
  predicate IsNeutral(v: string) {
    v == "" || v == "all"
  }

  /** Case-insensitive substring search on the title or the description; the
      empty search matches everything; no trimming takes place. */
  predicate MatchesSearch(l: Listing, search: string) {
    || search == ""
    || Contains(Lower(l.title), Lower(search))
    || Contains(Lower(l.description), Lower(search))
  }

  predicate MatchesUniversity(l: Listing, university: string) {
    IsNeutral(university) || l.location == university
  }

  predicate MatchesCategory(l: Listing, category: string) {
    IsNeutral(category) || l.category == category
  }

  /** The three tests of the filter, all of which must pass. */
  predicate Matches(l: Listing, f: Filter) {
    MatchesSearch(l, f.search) && MatchesUniversity(l, f.university) && MatchesCategory(l, f.category)
  }

  /** `Matches` as the callback handed to `filter`. */
  function MatchesFilter(f: Filter): Listing -> bool {
    l => Matches(l, f)
  }

  /** The filtered catalog: exactly the matching listings, in their original
      order. */
  function FilterListings(s: seq<Listing>, f: Filter): (r: seq<Listing>)
    ensures IsSubsequence(r, s)
    ensures forall i | 0 <= i < |r| :: Matches(r[i], f)
    ensures forall i | 0 <= i < |s| :: Matches(s[i], f) ==> s[i] in r
  {
    FilterIsSubsequence(s, MatchesFilter(f));
    Seqs.Filter(s, MatchesFilter(f))
  }

  /** No listing is lost or duplicated: every copy of a matching listing is
      kept, and no copy of any other. */
  lemma FilterListingsKeepsCopies(s: seq<Listing>, f: Filter)
    ensures forall l :: multiset(FilterListings(s, f))[l] == if Matches(l, f) then multiset(s)[l] else 0
  {
    FilterMultiset(s, MatchesFilter(f));
  }

  /** The neutral selection (`{}`, or "" / "all" for the choices) shows the
      whole catalog. */
  lemma NeutralFilterKeepsAll(s: seq<Listing>, f: Filter)
    requires f.search == "" && IsNeutral(f.university) && IsNeutral(f.category)
    ensures FilterListings(s, f) == s
  {
    FilterAll(s, MatchesFilter(f));
  }

  /** Two searches that differ only in ASCII letter case select the same
      listings. */
  lemma SearchIgnoresCase(s: seq<Listing>, f: Filter, other: string)
    requires Lower(other) == Lower(f.search)
    ensures FilterListings(s, f) == FilterListings(s, f.(search := other))
  {
    assert |other| == |f.search|;
    FilterCongruent(s, MatchesFilter(f), MatchesFilter(f.(search := other)));
  }

  function SampleListing(id: string, title: string, category: string, location: string): Listing {
    Listing(id, title, "", category, 0.0, location, DefaultImage, Generated("", RandomBackground),
            AnonymousSeller, false, DefaultPayments)
  }

  lemma MathTutoringMatches(l: Listing)
    requires l.title == "Math tutoring" && l.category == "tutoring"
    ensures Matches(l, Filter("tutoring", "", "tutoring"))
  {
    var t := Lower("Math tutoring");
    assert t[5..13] == "tutoring" by {
      forall i | 5 <= i < 13
        ensures t[i] == "Math tutoring"[i]
      {
      }
    }
    assert Lower("tutoring") == "tutoring";
    assert OccursAt("tutoring", t, 5);
  }

  lemma WebDesignMisses(l: Listing)
    requires l.title == "Web design" && l.description == ""
    ensures !MatchesSearch(l, "tutoring")
  {
    var t := Lower("Web design");
    assert |t| == 10 && Lower("") == "";
    assert Lower("tutoring") == "tutoring";
    assert "Web design"[0] == 'W' && "Web design"[1] == 'e' && "Web design"[2] == 'b';
    assert t[0] != 't' && t[1] != 't' && t[2] != 't';
    forall i | 0 <= i <= 2
      ensures !OccursAt("tutoring", t, i)
    {
      assert t[i..i + 8][0] == t[i];
    }
  }

  /** The three tests are combined with "and": of a tutoring and a tech
      listing at one university, a search for "tutoring" in the tutoring
      category keeps exactly the first, and in the tech category keeps
      nothing. */
  lemma FilterConjunctionExample()
    ensures var maths := SampleListing("1", "Math tutoring", "tutoring", "UCT");
            var web := SampleListing("2", "Web design", "tech", "UCT");
            && FilterListings([maths, web], Filter("tutoring", "", "tutoring")) == [maths]
            && FilterListings([maths, web], Filter("tutoring", "", "tech")) == []
  {
    var maths := SampleListing("1", "Math tutoring", "tutoring", "UCT");
    var web := SampleListing("2", "Web design", "tech", "UCT");
    MathTutoringMatches(maths);
    WebDesignMisses(web);
    var s := [maths, web];
    assert s[1..] == [web];
    assert [web][1..] == [];
  }

  // ---------------------------------------------------------------------
  // Cards and the catalog load
  // ---------------------------------------------------------------------

  /** One payment badge: the method's icon and its name. */
  datatype PaymentBadge = PaymentBadge(icon: string, name: string)

  /** The view model of one service card. */
  datatype Card = Card(
    id: string,
    imageUrl: string,
    title: string,
    description: string,
    location: string,
    badgeClass: string,
    categoryLabel: string,
    sellerAvatar: Avatar,
    sellerName: string,
    verified: bool,
    payments: seq<PaymentBadge>,
    price: string)

  function Badge(payment: string): PaymentBadge {
    PaymentBadge(Utils.PaymentIcon(payment), payment)
  }

  /** `createServiceCard(service)`: the card shows the rounded price, the
      capitalised category, the verified mark and one badge per payment
      method, in the listing's order and with duplicates kept. */
  function CardOf(l: Listing): (c: Card)
    ensures c.id == l.id && c.title == l.title && c.description == l.description
    ensures c.imageUrl == l.imageUrl && c.location == l.location
    ensures c.sellerName == l.sellerName && c.sellerAvatar == l.sellerAvatar && c.verified == l.verified
    ensures c.price == Utils.FormatPrice(l.price)
    ensures |c.price| >= 2 && c.price[0] == 'R' && ParseInt(c.price[1..]) == Some(Utils.JsRound(l.price))
    ensures c.badgeClass == Utils.CategoryBadgeClass(l.category)
    ensures c.categoryLabel == Utils.Capitalize(l.category)
    ensures |c.payments| == |l.paymentMethods|
    ensures forall i | 0 <= i < |l.paymentMethods| ::
      c.payments[i] == PaymentBadge(Utils.PaymentIcon(l.paymentMethods[i]), l.paymentMethods[i])
  {
    Card(l.id, l.imageUrl, l.title, l.description, l.location,
         Utils.CategoryBadgeClass(l.category), Utils.Capitalize(l.category),
         l.sellerAvatar, l.sellerName, l.verified,
         Map(l.paymentMethods, Badge), Utils.FormatPrice(l.price))
  }

  /** What the catalog container shows: cards, or an empty-state message. */
  datatype CatalogView<C> = Cards(cards: seq<C>) | EmptyState(message: string)

  const NoServicesFound := "No services found. Try adjusting your filters."
  const FailedToLoad := "Failed to load services."

  /** The outcome of the store request: the request threw, or it returned
      (possibly `null`) rows together with a (possibly absent) error. */
  datatype Fetch = Threw | Returned(rows: Option<seq<ServiceRow>>, error: Option<string>)

  /** The listing set before filtering: the mapped store rows in front of the
      demo listings when the store returned at least one row, the demo
      listings alone otherwise. */
  function AllServices(rows: Option<seq<ServiceRow>>, demo: seq<Listing>): (r: seq<Listing>)
    ensures rows.Some? && |rows.value| > 0 ==>
      && |r| == |rows.value| + |demo|
      && r[|rows.value|..] == demo
      && forall i | 0 <= i < |rows.value| :: r[i] == Normalize(rows.value[i])
    ensures !(rows.Some? && |rows.value| > 0) ==> r == demo
  {
    if rows.Some? && |rows.value| > 0 then Map(rows.value, Normalize) + demo else demo
  }

  /** Filtering the merged catalog lists the matching store listings before
      the matching demo listings. */
  lemma StoreMatchesComeFirst(rows: seq<ServiceRow>, demo: seq<Listing>, f: Filter)
    requires |rows| > 0
    ensures FilterListings(AllServices(Some(rows), demo), f)
         == FilterListings(Map(rows, Normalize), f) + FilterListings(demo, f)
  {
    FilterAppend(Map(rows, Normalize), demo, MatchesFilter(f));
  }

  /** `loadServices(filters)` of the catalog page. */
  function LoadServices(fetch: Fetch, demo: seq<Listing>, f: Filter): (v: CatalogView<Card>)
    ensures fetch.Threw? ==> v == EmptyState(FailedToLoad)
    ensures fetch.Returned? ==>
      var shown := FilterListings(AllServices(fetch.rows, demo), f);
      && (v.EmptyState? <==> |shown| == 0)
      && (v.EmptyState? ==> v.message == NoServicesFound)
      && (v.Cards? ==> v.cards == Map(shown, CardOf))
  {
    match fetch
    case Threw => EmptyState(FailedToLoad)
    case Returned(rows, _) =>
      var shown := FilterListings(AllServices(rows, demo), f);
      if |shown| == 0 then EmptyState(NoServicesFound) else Cards(Map(shown, CardOf))
  }

  /** A store error is only logged: the page behaves as if the returned rows
      (if any) had come back without it. */
  lemma StoreErrorOnlyLogged(rows: Option<seq<ServiceRow>>, error: string, demo: seq<Listing>, f: Filter)
    ensures LoadServices(Returned(rows, Some(error)), demo, f) == LoadServices(Returned(rows, None), demo, f)
  {
  }

  /** With no store rows the page shows the filtered demo listings alone. */
  lemma NoRowsShowsDemoOnly(demo: seq<Listing>, f: Filter)
    ensures LoadServices(Returned(None, None), demo, f) == LoadServices(Returned(Some([]), None), demo, f)
    ensures var shown := FilterListings(demo, f);
            |shown| > 0 ==> LoadServices(Returned(None, None), demo, f) == Cards(Map(shown, CardOf))
  {
  }

  /** "Nothing matched" and "the load failed" read differently. */
  lemma EmptyStatesDiffer()
    ensures NoServicesFound != FailedToLoad
  {
    assert |NoServicesFound| == 46 && |FailedToLoad| == 24;
  }
}
