# Student Sphere marketplace core, modelled in Dafny

Student Sphere is a student services marketplace. Students list services
(tutoring, tech help, beauty, food, transport), browse and filter the
catalog, and sign up or log in. The site exists in two versions:

- a demo version, whose listings are bundled with the page and whose
  "session" is a value in the browser's key-value store;
- a hosted version, backed by a hosted database and authentication
  service.

This project models the logic both versions run in the browser:

- **Display helpers** (`js/utils.js`), in module `Utils`:
  - price formatting with JavaScript rounding;
  - the payment-icon and category-badge tables;
  - the five-star rating strip;
  - truncation and capitalisation;
  - the e-mail pattern, as a matcher proved equal to its direct reading;
  - relative-time buckets.
- **Demo catalog** (`js/services.js`, `js/service.js`), in modules
  `Catalog` and `DemoCatalog`:
  - mapping a stored row to a listing, with a fallback for every field;
  - the three-way search/university/category filter;
  - service cards;
  - the catalog load, with its empty and failure states;
  - lookup by id, the featured strip and "more services".
- **Hosted catalog** (`services-supabase.js`), in module `HostedCatalog`:
  - the predicate list the catalog query is built from;
  - the results-count line;
  - seller-name, picture and image fallbacks, and hosted cards;
  - the load outcome;
  - checks and storage path of a service picture.
- **Hosted forms** (`auth-supabase.js`), in module `HostedAuth`:
  - the signup and login validation chains;
  - the rewrite of store error messages;
  - checks and storage path of an avatar upload.
- **Demo forms** (`js/auth.js`), in module `DemoAuth`:
  - the demo validation chains;
  - login, signup, logout and current-user over the session store.

Supporting modules:

- `Wrappers`: `Option`, for JavaScript values that may be `null` or
  `undefined`, and `Result`.
- `Text`: the JavaScript string behaviour the code relies on:
  - `trim` and the `\s` whitespace class;
  - ASCII case mapping;
  - `includes`, `startsWith`;
  - `split` on one character and `pop`;
  - decimal rendering and parsing of integers;
  - the falsy `||` fallback.
- `Seqs`: `filter`, `slice(0, n)` and `map` over sequences, with
  order-preservation lemmas.
- `Forms`: notifications, and the first-failure-wins validation chain both
  auth versions share.
- `Upload`: the image checks shared by the two upload paths.

Two behaviours of the code are kept on purpose:

- A hosted row without a payment-method array makes card creation throw in
  `services-supabase.js`. The model keeps that as an explicit failed load.
- JavaScript's `.length` counts UTF-16 code units, so a character outside
  the Basic Multilingual Plane (most emoji) counts twice. Every length rule
  of the forms, and the cut of `truncateText`, is stated in those units
  (`Text.JsLength`).

## Model

| member | source | states |
|---|---|---|
| Utils.JsRound | js/utils.js:9 | `Math.round` gives the integer within one half of the amount, halves going up |
| Utils.FormatPrice | js/utils.js:8-10 | the price text is "R" followed by the decimal text of the rounded amount as JavaScript prints it: it reads back as that integer and has no leading zero and no "-0" |
| Utils.PriceTextUnique | js/utils.js:8-10 | those properties fix the price text: any text having them is the price text |
| Utils.FormatPriceOfInteger | js/utils.js:8-10 | an integral amount is shown as exactly its digits after "R" |
| Utils.FormatPriceExamples | js/utils.js:8-10 | 49.6 shows as R50, 0 as R0, 2.5 as R3 and -2.5 as R-2 |
| Utils.PaymentIcon | js/utils.js:53-60 | an icon is shown exactly for Cash, EFT and Card; anything else gets the empty string |
| Utils.PaymentIconsDistinct | js/utils.js:54-58 | the three payment methods have three different icons |
| Utils.CategoryBadgeClass | js/utils.js:67-76 | each of the five known categories gets `badge-<category>`; every other value gets `bg-secondary` |
| Utils.FilledCount | js/utils.js:85-86 | the number of filled stars is the largest k of 0..5 with k at most the rating |
| Utils.RenderStarRating | js/utils.js:83-93 | always five stars; star i is filled iff i is at most the rating, so filled stars precede hollow ones |
| Utils.TruncateText | js/utils.js:101-104 | text of at most maxLength UTF-16 units is unchanged; longer text keeps the longest prefix of at most maxLength units (none for a negative limit) plus "...", and the next character would not have fitted |
| Utils.TruncateBasicPlane | js/utils.js:102-103 | on text without surrogate pairs a limit of n keeps exactly the first n characters |
| Utils.Capitalize | js/utils.js:182-185 | same length; only the first character changes, to upper case; empty stays empty |
| Utils.CapitalizeIdempotent | js/utils.js:182-185 | capitalising twice is capitalising once |
| Utils.IsValidEmailShape | js/utils.js:121-124 | the matcher accepts exactly a non-empty local part, one "@", and a domain with an inner dot, with no whitespace or second "@" anywhere |
| Utils.ValidEmailHasOneAt | js/utils.js:122 | an accepted address contains exactly one "@" |
| Utils.DotlessRejected | js/utils.js:122 | an address with no dot anywhere is refused |
| Utils.DotlessDomainExample | js/utils.js:122 | "thabo@uct" is refused because its domain has no dot |
| Utils.Bucket | js/utils.js:164-175 | each bucket covers exactly its documented range of seconds, and its count is the elapsed time in that unit, rounded down |
| Utils.BucketMonotone | js/utils.js:169-174 | a longer elapsed time never lands in a more recent bucket |
| Utils.RelativeTimeText | js/utils.js:169 | the text is "just now" exactly when under a minute has passed |
| Text.JsLength | js/auth.js:19 | `.length` is between the number of characters and twice that, and equals the number of characters exactly when no character lies outside the Basic Multilingual Plane |
| Text.JsLengthAppend | js/auth.js:19 | the length of a concatenation is the sum of the lengths |
| Text.ThreeEmojiLength | js/auth.js:19 | three emoji have length six |
| Text.UnitsPrefix | js/utils.js:103 | `substring(0, n)` cut at whole characters: a prefix of at most n UTF-16 units such that the next character would not fit |
| Text.UnitsPrefixBasicPlane | js/utils.js:103 | on text without surrogate pairs the prefix is exactly the first n characters |
| Text.Trim | auth-supabase.js:9-11 | trimming is empty iff the input is blank; otherwise it neither starts nor ends with whitespace |
| Text.TrimIsSlice | auth-supabase.js:9-11 | the trimmed value is a slice of the input with only whitespace cut off on either side |
| Text.TrimPadded | auth-supabase.js:9-11 | whitespace padding on either side does not change the trimmed value |
| Text.TrimIdempotent | auth-supabase.js:9-11 | trimming twice is trimming once |
| Text.Split | js/services.js:90 | split gives at least one piece |
| Text.SplitPieces | js/services.js:90 | no piece contains the separator; a separator-free string is its own single piece, and a string with a separator splits into at least two |
| Text.SplitAround | js/services.js:90 | splitting around one separator occurrence splits each side and concatenates the pieces |
| Text.SplitJoin | js/services.js:90 | splitting the join of separator-free pieces gives back the pieces |
| Text.JoinSplit | js/services.js:90 | joining the pieces of a split with the separator gives back the original string |
| Text.LastIndexOf | services-supabase.js:365 | the index found holds the character, and no later position does |
| Text.SuffixAfterLastSeparator | services-supabase.js:365 | the last piece of a split is a suffix of the string, preceded by the separator when the string has one |
| Text.LastSegment | services-supabase.js:365 | `split('.').pop()` is the separator-free suffix after the last separator, or the whole name when there is none |
| Text.LastSegmentAfter | auth-supabase.js:400-401 | the last segment of `x + "." + e` is `e` for a dot-free `e` |
| Text.IntRoundTrip | js/utils.js:9 | the decimal rendering of an integer parses back to that integer |
| Text.IntToString | js/utils.js:9 | the decimal rendering is non-empty, starts with a minus sign iff the integer is negative, and has no leading zero |
| Text.CanonicalDigits | js/utils.js:9 | digits without a leading zero are the rendering of their value |
| Text.CanonicalIsIntToString | js/utils.js:9 | text without leading zeros that reads as an integer is that integer's rendering |
| Text.UpperAppend | js/services.js:91 | upper-casing distributes over concatenation |
| Seqs.Filter | js/services.js:115-129 | filter keeps only elements satisfying the test, and keeps every element that does |
| Seqs.FilterIsSubsequence | js/services.js:115 | filter preserves the input order |
| Seqs.FilterAppend | js/services.js:111-115 | filtering a concatenation filters each part, in order |
| Seqs.FilterLength | auth-supabase.js:29 | the filtered sequence is as long as the number of elements passing the test |
| Seqs.FilterMultiset | js/services.js:115-129 | every element passing the test is kept as often as it occurs; every other element is dropped |
| Catalog.Initials | js/services.js:88-92 | the initials hold no blank and at most one character per blank-separated word |
| Catalog.InitialsOfWord | js/services.js:90-91 | a one-word name has the upper-cased first character of that word, or nothing when it is empty |
| Catalog.InitialsOfWords | js/services.js:90-91 | the initials of "word rest" are the word's upper-cased first character followed by the initials of rest, an empty word adding nothing |
| Catalog.SellerAvatar | js/services.js:102-104 | the profile photo is used iff it is non-empty; otherwise a picture is generated for the full name, or for the empty name when there is none |
| Catalog.InitialsDoNotReachAvatar | js/services.js:88-104 | the initials never reach the generated picture: a named seller's picture uses the full name, an unnamed one's the empty name |
| Catalog.Normalize | js/services.js:94-108 | the id is kept; title, description, category, image and seller name are the row's value when truthy and the documented default otherwise; the location reads university, then location, then the placeholder; verified only when truthy |
| Catalog.NormalizeBareRow | js/services.js:94-108 | a row holding only its id maps to a listing made entirely of the documented defaults |
| Catalog.EmptyStringsFallBack | js/services.js:96-107 | empty strings, zero and false fall back exactly like missing values |
| Catalog.EmptyPaymentMethodsKept | js/services.js:107 | an empty payment-method list is kept, not replaced by the cash default |
| Catalog.LocationLookupOrder | js/services.js:100 | the location comes from university first, then location, then "Any University" |
| Catalog.FilterListings | js/services.js:115-129 | the filtered catalog is an order-preserving subsequence holding exactly the listings that pass all three tests |
| Catalog.FilterListingsKeepsCopies | js/services.js:115-129 | a passing listing appears as often as in the catalog; a failing one not at all |
| Catalog.NeutralFilterKeepsAll | js/services.js:116-126 | an empty search with "" or "all" choices keeps the whole catalog |
| Catalog.SearchIgnoresCase | js/services.js:117-118 | searches differing only in letter case select the same listings |
| Catalog.FilterConjunctionExample | js/services.js:128 | the three tests combine with "and": a matching search in the wrong category keeps nothing |
| Catalog.CardOf | js/services.js:8-53 | a card keeps the listing's id, title, description, image, location, seller name and picture and verified mark; its price is the `formatPrice` text of its price; badge class and label come from the category; one icon and name per payment method, in order |
| Catalog.AllServices | js/services.js:73-112 | store rows, when there are any, are mapped and placed before the demo listings; otherwise the demo listings alone |
| Catalog.StoreMatchesComeFirst | js/services.js:111-129 | matching store listings are shown before matching demo listings |
| Catalog.LoadServices | js/services.js:68-141 | a thrown load shows the failure message; otherwise the empty state appears iff nothing matches, else the card of each match, in order |
| Catalog.StoreErrorOnlyLogged | js/services.js:83 | a returned store error changes nothing on the page |
| Catalog.NoRowsShowsDemoOnly | js/services.js:85-112 | a missing or empty row list both show the filtered demo listings alone |
| Catalog.EmptyStatesDiffer | js/services.js:132-139 | "nothing matched" and "failed to load" are different messages |
| DemoCatalog.LoadServices | js/service.js:60-92 | the demo page shows the empty state iff no demo listing matches, else the card of each match, in order |
| DemoCatalog.NeutralFilterShowsAll | js/service.js:66-80 | with no filter, every demo listing gets a card, in order |
| DemoCatalog.GetServiceById | js/service.js:99-101 | the result is the first listing carrying the id, and nothing iff no listing carries it |
| DemoCatalog.Featured | js/service.js:106-116 | the featured strip is the first three listings, or all of them when there are fewer |
| DemoCatalog.MoreServices | js/service.js:122-135 | at most three listings, none with the excluded id, taken in order from the front of the others |
| HostedCatalog.BuildQuery | services-supabase.js:80-108 | the query starts with active-only and newest-first; it has a text search iff the search is not blank, with the untrimmed search as the pattern; it has a university or category test iff that choice is neither "" nor "all"; nothing else and nothing twice |
| HostedCatalog.NeutralFilterQueriesAllActive | services-supabase.js:92-108 | a blank search with neutral choices queries only the base predicates |
| HostedCatalog.ChoicesAgreeWithClientFilter | services-supabase.js:101-107 | when the query carries a university or category test, the client-side filter tests the same value; when it does not, the client-side filter lets every listing through |
| HostedCatalog.BlankSearchDiverges | services-supabase.js:96 | a blank search adds no store predicate, while the client-side filter looks for the blank itself |
| HostedCatalog.ResultsCountText | services-supabase.js:130 | the results line starts with a number that reads back as the count, followed by "service" for exactly one and "services" otherwise, zero included |
| HostedCatalog.SellerName | services-supabase.js:14 | the seller name is the profile name, else the row's seller column, else "Unknown"; never empty |
| HostedCatalog.SellerPicture | services-supabase.js:15-16 | the profile photo is used iff non-empty; otherwise a picture is generated for the chosen seller name |
| HostedCatalog.HostedCardOf | services-supabase.js:8-63 | a card exists iff the row has a payment-method list; it shows the row's id, title, description and location, the image or the stock image, the category's badge and label, the chosen seller name and picture, the verified mark, one icon and name per method, and the `formatPrice` text of the price (0 when missing) |
| HostedCatalog.AllCards | services-supabase.js:120 | all cards are built, in row order, iff every row can be carded; one bad row fails them all |
| HostedCatalog.LoadServices | services-supabase.js:110-137 | a query error or an uncardable row shows the error state and a danger notification and leaves the count alone; no rows shows "no match" with a zero count; otherwise the cards of the rows, in row order, and the count |
| HostedCatalog.EmptyStatesDiffer | services-supabase.js:117-135 | "no match" and "error loading" are different messages |
| HostedCatalog.StoragePathParts | services-supabase.js:365-366 | a storage path reads back as its folder, its time stamp and its extension |
| HostedCatalog.StoragePathUnique | services-supabase.js:365-366 | a path that reads back as folder, stamp and extension is exactly the folder, the printed stamp, a dot and the extension |
| HostedCatalog.ServiceImagePath | services-supabase.js:353-366 | a path is produced iff signed in, image type and at most 10 MiB; errors follow that order; the path is the user's folder, the upload time printed without leading zeros, a dot and the file's extension |
| Upload.Extension | services-supabase.js:365 | the extension is dot-free and is what follows the last dot, or the whole name when there is none |
| Upload.ExtensionAfterDot | services-supabase.js:365-366 | a name ending in a dot and an extension has that extension |
| Upload.CheckImage | services-supabase.js:357-363 | a file passes iff its type starts with "image/" and it fits the limit; the type is checked first |
| Forms.FirstFailure | auth-supabase.js:18-53 | no message iff every check passes; otherwise the message of a failing check all of whose predecessors pass |
| Forms.FirstFailureAt | auth-supabase.js:18-53 | a failing check preceded only by passing checks decides the message |
| HostedAuth.PhoneDigits | auth-supabase.js:29 | the stripped phone holds only digits, and every digit of the phone occurs in it |
| HostedAuth.PhoneDigitsCount | auth-supabase.js:29-30 | the stripped phone is a subsequence of the phone holding as many characters as the phone has digits |
| HostedAuth.SignupChecksPass | auth-supabase.js:18-53 | all seven checks pass exactly when every verdict (name, email, phone, university, password length, match, terms) is favourable |
| HostedAuth.ValidateSignup | auth-supabase.js:9-53 | no message iff trimmed name, email and phone and raw university, password, confirmation and terms are all acceptable, lengths counted in UTF-16 units; a short name is reported first |
| HostedAuth.SignupReportsFirstFailure | auth-supabase.js:18-53 | each check's message is shown exactly when it fails after all earlier checks passed |
| HostedAuth.PaddingIgnored | auth-supabase.js:9-11 | whitespace around the name, email or phone does not change the validation outcome |
| HostedAuth.PasswordNotTrimmed | auth-supabase.js:13-14 | a blank typed before an accepted password makes it mismatch its confirmation |
| HostedAuth.PhoneSeparatorsIgnored | auth-supabase.js:29-30 | a separator inside a phone number does not change its digits |
| HostedAuth.SignupErrorText | auth-supabase.js:129-140 | the first of the four known fragments the message contains picks its fixed text; otherwise the message itself, or the default when empty or missing |
| HostedAuth.SignupErrorTextRange | auth-supabase.js:129-140 | the rewritten text is one of the fixed texts or the original message |
| HostedAuth.AlreadyRegisteredWherever | auth-supabase.js:132-133 | any message mentioning an already-registered user gets the already-registered text |
| HostedAuth.ValidateLogin | auth-supabase.js:154-166 | no message iff the trimmed email is valid and the password non-empty; the email is checked first |
| HostedAuth.LoginHasNoLengthRule | auth-supabase.js:163-166 | with a valid email, a one-character password passes login validation |
| HostedAuth.AvatarPath | auth-supabase.js:388-401 | a path is produced iff signed in, image type and at most 5 MiB; errors follow that order; the path is the user's folder, "avatar." and the file's extension |
| HostedAuth.AvatarPathPerExtension | auth-supabase.js:400-401 | two accepted avatars of one user with the same extension get the same path |
| DemoAuth.SignupChecksPass | js/auth.js:57-85 | all six demo checks pass exactly for an acceptable form |
| DemoAuth.ValidateSignup | js/auth.js:57-85 | no message iff untrimmed name, email, raw phone length, university, password and confirmation are all acceptable, lengths counted in UTF-16 units; a short name is reported first |
| DemoAuth.SignupReportsFirstFailure | js/auth.js:57-85 | each demo check's message is shown exactly when it fails after all earlier checks passed |
| DemoAuth.TermsIgnored | js/auth.js:57-85 | the demo signup does not look at a terms box |
| DemoAuth.PhoneRulesDiffer | js/auth.js:67 | "123-456-78" passes the demo's ten-character rule but fails the hosted nine-digit rule |
| DemoAuth.ValidateLogin | js/auth.js:14-22 | no message iff the email is valid and the password has at least six UTF-16 units; the email is checked first |
| DemoAuth.ThreeEmojiPasswordAccepted | js/auth.js:19 | a password of three emoji is long enough for the demo login |
| DemoAuth.CurrentUser | js/auth.js:122-130 | a value is returned iff the session key holds text that parses, and it is what the text parses to, session or not; a missing key gives none |
| DemoAuth.ForeignValueSignsIn | js/auth.js:122-137 | a stored truthy value that is not a session is returned as the current user and counts as signed in |
| DemoAuth.Login | js/auth.js:14-38 | a rejected login leaves the store unchanged; an accepted one stores the email with the demo name, logged in; no other key changes |
| DemoAuth.Signup | js/auth.js:57-103 | a rejected signup leaves the store unchanged; an accepted one stores exactly the validated name, email, phone and university; no other key changes |
| DemoAuth.Logout | js/auth.js:110-112 | logout removes the session key and changes no other key |
| DemoAuth.LogoutSignsOut | js/auth.js:111-124 | after logout there is no current user and nobody is signed in |
| DemoAuth.SignupThenLogout | js/auth.js:91-111 | signup followed by logout leaves the store as before, minus the session key |
| DemoAuth.LatestLoginWins | js/auth.js:28-32 | of two logins the second one's session is the current user |

## Left out

- DOM work is not modelled: HTML strings, `innerHTML`, loading spinners,
  dropdown population, navbar toggling and event wiring. Cards are
  structured values, not markup.
- The hosted client is not modelled. Query execution, auth sign-up, sign-in
  and sign-out, profile insertion, storage upload, public URLs and view
  counters are left out.
  - Only the predicate list of the catalog query is modelled.
  - Query results are inputs: rows, an error, or a throw.
  - The steps of hosted signup after validation (account creation, auto
    sign-in, profile insert) are left out. Only the message shown when one
    of them fails is modelled.
- The hosted `getServiceById` and `incrementServiceViews` are left out. They
  are single store queries with no client-side logic.
- The `js/services.js` version of `loadMoreServices` is left out. It does
  not use the card rules modelled here: it shows the raw title and
  description, `R` followed by the raw price (no rounding, and "Rnull" for
  a missing price), and "Anonymous" for a seller without a name.
- The hosted `loadFeaturedServices` and `loadMoreServices` are left out.
  Both map rows through the asynchronous `createServiceCard` and join the
  results without awaiting them (services-supabase.js:204 and :241), so
  every card renders as the text "[object Promise]". There is no card
  content to model.
- Timers, redirects and toast auto-dismiss are left out.
  - `Date.now()` is a parameter of the service-picture path.
  - The elapsed seconds are a parameter of the relative-time text.
- Floating point is not modelled. Prices and ratings are `real`, so `NaN`
  and infinities do not arise.
- `encodeURIComponent` is not modelled. A generated seller picture is kept
  as the name and parameters it is asked for, not as a URL.
- JSON encoding is not modelled. The session store maps keys to entries:
  text that parses (`Readable`) or text that does not (`Unreadable`). Of a
  parsed value that is not a session only its truthiness is kept, which is
  all the pages look at.
- Letter case is ASCII-only. Non-ASCII letters keep their case.
- The lookup tables are not JavaScript objects. A category or payment
  method named like an object built-in (for example "constructor") finds
  nothing here, but finds an inherited value in the code.
- HostedCatalog.BuildQuery: the `ilike` pattern is recorded as the text
  handed to the store. How the store matches it is not modelled, including
  `%` or `_` inside the search acting as wildcards.
- Utils.RelativeTimeText: states the "just now" case only. The other texts
  are the bucket count followed by the unit, as `Utils.Bucket` states.
- Catalog.Initials: `p[0]` takes the first UTF-16 unit, so for a word that
  starts outside the Basic Multilingual Plane JavaScript keeps a lone high
  surrogate. Here the whole character is kept. The initials never reach the
  page (`Catalog.InitialsDoNotReachAvatar`).
- Utils.TruncateText: a cut that falls inside a surrogate pair keeps a lone
  high surrogate in JavaScript. Here the whole character is dropped, because
  a Dafny string holds only whole characters.
