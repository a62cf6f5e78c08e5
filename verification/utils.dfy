/** The shared display and validation helpers of `js/utils.js`: price
    formatting, capitalisation, truncation, the payment-icon and category-badge
    tables, the five-star rating strip, the e-mail shape test and the
    relative-time buckets. */
module Utils {
  import opened Wrappers
  import opened Text

  // ---------------------------------------------------------------------
  // formatPrice
  // ---------------------------------------------------------------------

  /** `Math.round(x)`: the integer nearest to `x`, halves rounded toward
      positive infinity. */
  function JsRound(x: real): (n: int)
    ensures n as real - 0.5 <= x < n as real + 0.5
  {
    (x + 0.5).Floor
  }

  /** `formatPrice(amount)`: the rand sign followed by the rounded amount. */
  function FormatPrice(amount: real): (r: string)
    ensures |r| >= 2 && r[0] == 'R'
    ensures ParseInt(r[1..]) == Some(JsRound(amount))
    ensures Canonical(r[1..])
  {
    var n := JsRound(amount);
    IntRoundTrip(n);
    assert ("R" + IntToString(n))[1..] == IntToString(n);
    "R" + IntToString(n)
  }

  /** The text of `formatPrice` is fixed by its contract: any "R" followed by
      the canonical decimal text of the rounded amount is that text. */
  lemma PriceTextUnique(amount: real, r: string)
    requires |r| >= 2 && r[0] == 'R'
    requires ParseInt(r[1..]) == Some(JsRound(amount)) && Canonical(r[1..])
    ensures r == FormatPrice(amount)
  {
    CanonicalIsIntToString(r[1..], JsRound(amount));
    assert r == [r[0]] + r[1..];
  }

  /** An integral amount is shown exactly, with no fractional part. */
  lemma FormatPriceOfInteger(n: int)
    ensures FormatPrice(n as real) == "R" + IntToString(n)
  {
    assert JsRound(n as real) == n;
  }

  /** The two worked cases: 49.6 rounds up to R50 and 0 shows as R0; a half
      rounds up, also for negative amounts. */
  lemma FormatPriceExamples()
    ensures FormatPrice(49.6) == "R50"
    ensures FormatPrice(0.0) == "R0"
    ensures FormatPrice(2.5) == "R3"
    ensures FormatPrice(-2.5) == "R-2"
  {
    assert JsRound(49.6) == 50;
    assert NatToString(50) == NatToString(5) + [DigitChar(0)];
    assert JsRound(2.5) == 3;
    assert JsRound(-2.5) == -2;
  }

  // ---------------------------------------------------------------------
  // getPaymentIcon / getCategoryBadgeClass
  // ---------------------------------------------------------------------

  const PaymentIcons: map<string, string> := map[
    "Cash" := "<i class=\"bi bi-cash\"></i>",
    "EFT" := "<i class=\"bi bi-bank\"></i>",
    "Card" := "<i class=\"bi bi-credit-card\"></i>"
  ]

  /** `getPaymentIcon(method)`: the icon of one of the three accepted payment
      methods, and the empty string for anything else. */
  function PaymentIcon(payment: string): (icon: string)
    ensures icon != "" <==> payment == "Cash" || payment == "EFT" || payment == "Card"
  {
    if payment in PaymentIcons then PaymentIcons[payment] else ""
  }

  /** The three payment methods get three different icons. */
  lemma PaymentIconsDistinct()
    ensures PaymentIcon("Cash") != PaymentIcon("EFT")
    ensures PaymentIcon("Cash") != PaymentIcon("Card")
    ensures PaymentIcon("EFT") != PaymentIcon("Card")
  {
  }

  const KnownCategories: set<string> := {"tutoring", "tech", "beauty", "food", "transport"}

  const BadgeClasses: map<string, string> := map[
    "tutoring" := "badge-tutoring",
    "tech" := "badge-tech",
    "beauty" := "badge-beauty",
    "food" := "badge-food",
    "transport" := "badge-transport"
  ]

  /** `getCategoryBadgeClass(category)`: a known category's own badge class,
      `badge-<category>`, and the neutral class otherwise. */
  function CategoryBadgeClass(category: string): (cls: string)
    ensures category in KnownCategories ==> cls == "badge-" + category
    ensures category !in KnownCategories ==> cls == "bg-secondary"
  {
    if category in BadgeClasses then BadgeClasses[category] else "bg-secondary"
  }

  // ---------------------------------------------------------------------
  // renderStarRating
  // ---------------------------------------------------------------------

  datatype Star = Filled | Hollow

  /** How many of the five stars a rating fills: its integer part, clamped to
      the range 0..5. */
  function FilledCount(rating: real): (k: nat)
    ensures k <= 5
    ensures k == 0 || k as real <= rating
    ensures k == 5 || rating < (k + 1) as real
  {
    var f := rating.Floor;
    if f < 0 then 0 else if f > 5 then 5 else f
  }

  /** `renderStarRating(rating)`: always five stars, star `i` (counting from
      1) filled exactly when `i <= rating`, so filled stars come first. */
  method RenderStarRating(rating: real) returns (stars: seq<Star>)
    ensures |stars| == 5
    ensures forall i | 0 <= i < 5 :: stars[i] == Filled <==> i < FilledCount(rating)
    ensures forall i, j | 0 <= i < j < 5 :: stars[j] == Filled ==> stars[i] == Filled
  {
    stars := [];
    var i := 1;
    while i <= 5
      invariant 1 <= i <= 6
      invariant |stars| == i - 1
      invariant forall j | 0 <= j < i - 1 :: stars[j] == Filled <==> j < FilledCount(rating)
    {
      if i as real <= rating {
        stars := stars + [Filled];
      } else {
        stars := stars + [Hollow];
      }
      i := i + 1;
    }
  }

  // ---------------------------------------------------------------------
  // truncateText / capitalize
  // ---------------------------------------------------------------------

  /** `truncateText(text, maxLength)`: text that fits in `maxLength` UTF-16
      code units is returned unchanged; longer text keeps the longest prefix
      that fits (nothing when the limit is negative, as `substring` clamps)
      followed by an ellipsis. */
  function TruncateText(text: string, maxLength: int): (r: string)
    ensures JsLength(text) <= maxLength ==> r == text
    ensures JsLength(text) > maxLength ==>
      var keep := |r| - 3;
      && |r| >= 3 && r[keep..] == "..."
      && keep <= |text| && r[..keep] == text[..keep]
      && JsLength(r[..keep]) <= (if maxLength < 0 then 0 else maxLength)
      && (keep < |text| ==> JsLength(r[..keep]) + CodeUnits(text[keep]) > maxLength)
  {
    if JsLength(text) <= maxLength then text
    else
      var p := UnitsPrefix(text, maxLength);
      var r := p + "...";
      assert r[..|p|] == p && r[|p|..] == "...";
      r
  }

  /** On text without surrogate pairs, a limit of `n` keeps exactly the first
      `n` characters. */
  lemma TruncateBasicPlane(text: string, n: nat)
    requires InBasicPlane(text) && n < |text|
    ensures TruncateText(text, n) == text[..n] + "..."
  {
    UnitsPrefixBasicPlane(text, n);
  }

  /** `capitalize(str)`: the empty string stays empty; otherwise only the
      first character changes, to its upper case. */
  function Capitalize(s: string): (r: string)
    ensures |r| == |s|
    ensures |s| > 0 ==> r[0] == ToUpperChar(s[0]) && r[1..] == s[1..]
  {
    if s == "" then "" else [ToUpperChar(s[0])] + s[1..]
  }

  /** Capitalising an already capitalised string changes nothing. */
  lemma CapitalizeIdempotent(s: string)
    ensures Capitalize(Capitalize(s)) == Capitalize(s)
  {
  }

  // ---------------------------------------------------------------------
  // isValidEmail
  // ---------------------------------------------------------------------

  /** A character of the class `[^\s@]`. */
  predicate Plain(c: char) {
    !IsWhitespace(c) && c != '@'
  }

  predicate AllPlain(s: string) {
    forall i | 0 <= i < |s| :: Plain(s[i])
  }

  /** A dot with at least one character on each side. */
  predicate HasInnerDot(d: string) {
    exists k | 0 < k < |d| - 1 :: d[k] == '.'
  }

  /** The language of `/^[^\s@]+@[^\s@]+\.[^\s@]+$/` stated directly: a
      non-empty local part and a domain, split by an `@`, neither containing
      whitespace or another `@`, the domain holding a dot with text on both
      sides. */
  predicate EmailShape(s: string) {
    exists a | 0 < a < |s| :: s[a] == '@' && AllPlain(s[..a]) && AllPlain(s[a + 1..]) && HasInnerDot(s[a + 1..])
  }

  /** States of a left-to-right matcher for the e-mail pattern. */
  datatype EmailState =
    | Start       // nothing read
    | Local       // one or more local-part characters
    | At          // the `@`
    | Domain      // domain text, no dot followed by text yet
    | DomainDot   // domain text ending in a dot that has text before it
    | Accepted    // a dot with text on both sides has been seen
    | Rejected

  function Step(q: EmailState, c: char): EmailState {
    match q
    case Start => if Plain(c) then Local else Rejected
    case Local => if Plain(c) then Local else if c == '@' then At else Rejected
    case At => if Plain(c) then Domain else Rejected
    case Domain => if c == '.' then DomainDot else if Plain(c) then Domain else Rejected
    case DomainDot => if Plain(c) then Accepted else Rejected
    case Accepted => if Plain(c) then Accepted else Rejected
    case Rejected => Rejected
  }

  function Run(q: EmailState, s: string): EmailState
    decreases |s|
  {
    if |s| == 0 then q else Run(Step(q, s[0]), s[1..])
  }

  /** `isValidEmail(email)`: the pattern test, run as a matcher. */
  predicate IsValidEmail(s: string) {
    Run(Start, s) == Accepted
  }

  lemma {:induction false} RunRejected(s: string)
    ensures Run(Rejected, s) == Rejected
    decreases |s|
  {
    if |s| > 0 {
      RunRejected(s[1..]);
    }
  }

  lemma {:induction false} RunAccepted(s: string)
    ensures Run(Accepted, s) == Accepted <==> AllPlain(s)
    decreases |s|
  {
    if |s| > 0 {
      RunAccepted(s[1..]);
      RunRejected(s[1..]);
      assert AllPlain(s) <==> Plain(s[0]) && AllPlain(s[1..]) by {
        assert forall i | 1 <= i < |s| :: s[i] == s[1..][i - 1];
      }
    }
  }

  lemma RunDomainDot(s: string)
    ensures Run(DomainDot, s) == Accepted <==> |s| >= 1 && AllPlain(s)
  {
    if |s| > 0 {
      RunAccepted(s[1..]);
      RunRejected(s[1..]);
      assert AllPlain(s) <==> Plain(s[0]) && AllPlain(s[1..]) by {
        assert forall i | 1 <= i < |s| :: s[i] == s[1..][i - 1];
      }
    }
  }

  /** A dot somewhere before the last character. */
  predicate DotBeforeLast(s: string) {
    exists k | 0 <= k < |s| - 1 :: s[k] == '.'
  }

  lemma {:induction false} RunDomain(s: string)
    ensures Run(Domain, s) == Accepted <==> AllPlain(s) && DotBeforeLast(s)
    decreases |s|
  {
    if |s| > 0 {
      var t := s[1..];
      assert forall i | 1 <= i < |s| :: s[i] == t[i - 1];
      assert AllPlain(s) <==> Plain(s[0]) && AllPlain(t);
      if s[0] == '.' {
        RunDomainDot(t);
        assert |s| >= 2 ==> s[0] == '.' && 0 < |s| - 1;
      } else if Plain(s[0]) {
        RunDomain(t);
        assert DotBeforeLast(s) <==> DotBeforeLast(t) by {
          if DotBeforeLast(s) {
            var k :| 0 <= k < |s| - 1 && s[k] == '.';
            assert k > 0 && t[k - 1] == '.';
          }
          if DotBeforeLast(t) {
            var k :| 0 <= k < |t| - 1 && t[k] == '.';
            assert s[k + 1] == '.';
          }
        }
      } else {
        RunRejected(t);
      }
    }
  }

  lemma RunAt(s: string)
    ensures Run(At, s) == Accepted <==> AllPlain(s) && HasInnerDot(s)
  {
    if |s| > 0 {
      var t := s[1..];
      assert forall i | 1 <= i < |s| :: s[i] == t[i - 1];
      assert AllPlain(s) <==> Plain(s[0]) && AllPlain(t);
      if Plain(s[0]) {
        RunDomain(t);
        assert HasInnerDot(s) <==> DotBeforeLast(t) by {
          if HasInnerDot(s) {
            var k :| 0 < k < |s| - 1 && s[k] == '.';
            assert t[k - 1] == '.';
          }
          if DotBeforeLast(t) {
            var k :| 0 <= k < |t| - 1 && t[k] == '.';
            assert s[k + 1] == '.';
          }
        }
      } else {
        RunRejected(t);
      }
    }
  }

  /** An `@` at index `a` of `s` with plain text before it and a valid
      domain after it. */
  predicate SplitsAt(s: string, a: int) {
    0 <= a < |s| && s[a] == '@' && AllPlain(s[..a]) && AllPlain(s[a + 1..]) && HasInnerDot(s[a + 1..])
  }

  lemma AllPlainCons(s: string, a: int)
    requires 1 <= a <= |s|
    ensures AllPlain(s[..a]) <==> Plain(s[0]) && AllPlain(s[1..a])
  {
    if Plain(s[0]) && AllPlain(s[1..a]) {
      forall i | 0 <= i < a
        ensures Plain(s[..a][i])
      {
        if i > 0 {
          assert s[..a][i] == s[1..a][i - 1];
        }
      }
    }
    if AllPlain(s[..a]) {
      forall i | 0 <= i < a - 1
        ensures Plain(s[1..a][i])
      {
        assert s[1..a][i] == s[..a][i + 1];
      }
    }
  }

  /** Shifting a split point over a plain first character. */
  lemma SplitsAtCons(s: string, a: int)
    requires |s| > 0 && Plain(s[0]) && 0 <= a < |s| - 1
    ensures SplitsAt(s, a + 1) <==> SplitsAt(s[1..], a)
  {
    var t := s[1..];
    AllPlainCons(s, a + 1);
    assert s[1..a + 1] == t[..a];
    assert s[a + 1 + 1..] == t[a + 1..];
  }

  lemma {:induction false} RunLocal(s: string)
    ensures Run(Local, s) == Accepted <==> exists a :: SplitsAt(s, a)
    decreases |s|
  {
    if |s| > 0 {
      var t := s[1..];
      if Plain(s[0]) {
        RunLocal(t);
        assert !SplitsAt(s, 0);
        assert (exists a :: SplitsAt(s, a)) <==> (exists a :: SplitsAt(t, a)) by {
          if a :| SplitsAt(s, a) {
            SplitsAtCons(s, a - 1);
          }
          if a :| SplitsAt(t, a) {
            SplitsAtCons(s, a);
          }
        }
      } else if s[0] == '@' {
        RunAt(t);
        assert s[..0] == "" && s[0 + 1..] == t;
        assert SplitsAt(s, 0) <==> AllPlain(t) && HasInnerDot(t);
        if Run(Local, s) == Accepted {
          assert SplitsAt(s, 0);
        }
        forall a | 0 < a < |s|
          ensures !SplitsAt(s, a)
        {
          assert s[..a][0] == '@';
        }
      } else {
        RunRejected(t);
        forall a | 0 <= a < |s|
          ensures !SplitsAt(s, a)
        {
          if a > 0 {
            assert s[..a][0] == s[0];
          }
        }
      }
    }
  }

  /** The matcher accepts exactly the strings of the e-mail shape. */
  lemma IsValidEmailShape(s: string)
    ensures IsValidEmail(s) <==> EmailShape(s)
  {
    if |s| > 0 {
      if Plain(s[0]) {
        ShapeAfterPlain(s);
      } else {
        ShapeAfterOther(s);
      }
    }
  }

  /** After a plain first character the matcher is in the local part. */
  lemma ShapeAfterPlain(s: string)
    requires |s| > 0 && Plain(s[0])
    ensures IsValidEmail(s) <==> EmailShape(s)
  {
    var t := s[1..];
    assert IsValidEmail(s) <==> Run(Local, t) == Accepted;
    RunLocal(t);
    assert (exists a :: SplitsAt(t, a)) <==> EmailShape(s) by {
      if a :| SplitsAt(t, a) {
        SplitsAtCons(s, a);
      }
      if EmailShape(s) {
        var a :| 0 < a < |s| && s[a] == '@' && AllPlain(s[..a]) && AllPlain(s[a + 1..]) && HasInnerDot(s[a + 1..]);
        SplitsAtCons(s, a - 1);
      }
    }
  }

  /** A first character that is whitespace or `@` rules the address out. */
  lemma ShapeAfterOther(s: string)
    requires |s| > 0 && !Plain(s[0])
    ensures !IsValidEmail(s) && !EmailShape(s)
  {
    assert Run(Start, s) == Run(Rejected, s[1..]);
    RunRejected(s[1..]);
    forall a | 0 < a < |s|
      ensures !AllPlain(s[..a])
    {
      assert s[..a][0] == s[0];
    }
  }

  /** An accepted address holds exactly one `@`. */
  lemma ValidEmailHasOneAt(s: string)
    requires IsValidEmail(s)
    ensures exists a | 0 < a < |s| :: s[a] == '@'
    ensures forall i, j | 0 <= i < |s| && 0 <= j < |s| && s[i] == '@' && s[j] == '@' :: i == j
  {
    IsValidEmailShape(s);
    var a :| 0 < a < |s| && s[a] == '@' && AllPlain(s[..a]) && AllPlain(s[a + 1..]) && HasInnerDot(s[a + 1..]);
    forall i | 0 <= i < |s| && i != a
      ensures s[i] != '@'
    {
      if i < a {
        assert s[i] == s[..a][i];
      } else {
        assert s[i] == s[a + 1..][i - a - 1];
      }
    }
  }

  /** A domain without a dot is refused. */
  lemma DotlessDomainExample()
    ensures !IsValidEmail("thabo@uct")
  {
    var s := "thabo@uct";
    assert forall i | 0 <= i < |s| :: s[i] != '.';
    DotlessRejected(s);
  }

  /** An address with no dot anywhere is refused. */
  lemma DotlessRejected(s: string)
    requires '.' !in s
    ensures !IsValidEmail(s)
  {
    IsValidEmailShape(s);
  }

  // ---------------------------------------------------------------------
  // formatRelativeTime
  // ---------------------------------------------------------------------

  /** The bucket `formatRelativeTime` reports, with its unit count. */
  datatype RelativeTime =
    | JustNow
    | MinutesAgo(n: int)
    | HoursAgo(n: int)
    | DaysAgo(n: int)
    | WeeksAgo(n: int)
    | MonthsAgo(n: int)

  /** The position of a bucket from the most recent to the oldest. */
  function Rank(r: RelativeTime): nat {
    match r
    case JustNow => 0
    case MinutesAgo(_) => 1
    case HoursAgo(_) => 2
    case DaysAgo(_) => 3
    case WeeksAgo(_) => 4
    case MonthsAgo(_) => 5
  }

  /** The bucketing of an elapsed time of `diff` whole seconds: the first
      bucket whose bound `diff` is below, counted in that bucket's unit
      (rounded down). A negative difference (a date in the future) is
      "just now". */
  function Bucket(diff: int): (r: RelativeTime)
    ensures r.JustNow? <==> diff < 60
    ensures r.MinutesAgo? <==> 60 <= diff < 3600
    ensures r.HoursAgo? <==> 3600 <= diff < 86400
    ensures r.DaysAgo? <==> 86400 <= diff < 604800
    ensures r.WeeksAgo? <==> 604800 <= diff < 2592000
    ensures r.MonthsAgo? <==> 2592000 <= diff
    ensures r.MinutesAgo? ==> 1 <= r.n < 60 && r.n * 60 <= diff < (r.n + 1) * 60
    ensures r.HoursAgo? ==> 1 <= r.n < 24 && r.n * 3600 <= diff < (r.n + 1) * 3600
    ensures r.DaysAgo? ==> 1 <= r.n < 7 && r.n * 86400 <= diff < (r.n + 1) * 86400
    ensures r.WeeksAgo? ==> 1 <= r.n <= 4 && r.n * 604800 <= diff < (r.n + 1) * 604800
    ensures r.MonthsAgo? ==> 1 <= r.n && r.n * 2592000 <= diff < (r.n + 1) * 2592000
  {
    if diff < 60 then JustNow
    else if diff < 3600 then MinutesAgo(diff / 60)
    else if diff < 86400 then HoursAgo(diff / 3600)
    else if diff < 604800 then DaysAgo(diff / 86400)
    else if diff < 2592000 then WeeksAgo(diff / 604800)
    else MonthsAgo(diff / 2592000)
  }

  /** An older timestamp never lands in a more recent bucket. */
  lemma BucketMonotone(d1: int, d2: int)
    requires d1 <= d2
    ensures Rank(Bucket(d1)) <= Rank(Bucket(d2))
  {
  }

  /** `formatRelativeTime(date)` for an elapsed time of `diff` seconds. */
  function RelativeTimeText(diff: int): (text: string)
    ensures diff < 60 <==> text == "just now"
  {
    match Bucket(diff)
    case JustNow => "just now"
    case MinutesAgo(n) => IntToString(n) + " minutes ago"
    case HoursAgo(n) => IntToString(n) + " hours ago"
    case DaysAgo(n) => IntToString(n) + " days ago"
    case WeeksAgo(n) => IntToString(n) + " weeks ago"
    case MonthsAgo(n) => IntToString(n) + " months ago"
  }
}
