/** The JavaScript string operations the application relies on, over
    `string` (= `seq<char>`): the `\s` character class and `trim`, ASCII case
    mapping (`toLowerCase`/`toUpperCase` restricted to ASCII), `includes`,
    `startsWith`, `split` on a one-character separator, JS-falsy fallbacks
    (`value || fallback`) and the decimal text of integers. */
module Text {
  import opened Wrappers

  // ---------------------------------------------------------------------
  // Character classes
  // ---------------------------------------------------------------------

  /** The code points matched by the regular-expression class `\s`; they are
      also exactly the code points `String.prototype.trim` strips (the
      ECMAScript WhiteSpace and LineTerminator productions). */
  predicate IsWhitespace(c: char) {
    || c == '\t' || c == '\n' || c == '\U{B}' || c == '\U{C}' || c == '\r' || c == ' '
    || c == '\U{A0}' || c == '\U{1680}' || ('\U{2000}' <= c <= '\U{200A}')
    || c == '\U{2028}' || c == '\U{2029}' || c == '\U{202F}' || c == '\U{205F}'
    || c == '\U{3000}' || c == '\U{FEFF}'
  }

  /** The class `\d`: ASCII digits only. */
  predicate IsDigit(c: char) {
    '0' <= c <= '9'
  }

  predicate AllDigits(s: string) {
    forall i | 0 <= i < |s| :: IsDigit(s[i])
  }

  predicate AllWhitespace(s: string) {
    forall i | 0 <= i < |s| :: IsWhitespace(s[i])
  }

  // ---------------------------------------------------------------------
  // ASCII case mapping
  // ---------------------------------------------------------------------

  function ToUpperChar(c: char): (u: char)
    ensures 'a' <= c <= 'z' ==> 'A' <= u <= 'Z' && u as int == c as int - 32
    ensures !('a' <= c <= 'z') ==> u == c
  {
    if 'a' <= c <= 'z' then (c as int - 32) as char else c
  }

  function ToLowerChar(c: char): (l: char)
    ensures 'A' <= c <= 'Z' ==> 'a' <= l <= 'z' && l as int == c as int + 32
    ensures !('A' <= c <= 'Z') ==> l == c
  {
    if 'A' <= c <= 'Z' then (c as int + 32) as char else c
  }

  /** `s.toUpperCase()` on the ASCII letters. */
  function Upper(s: string): (r: string)
    ensures |r| == |s|
    ensures forall i | 0 <= i < |s| :: r[i] == ToUpperChar(s[i])
  {
    seq(|s|, i requires 0 <= i < |s| => ToUpperChar(s[i]))
  }

  /** `s.toLowerCase()` on the ASCII letters. */
  function Lower(s: string): (r: string)
    ensures |r| == |s|
    ensures forall i | 0 <= i < |s| :: r[i] == ToLowerChar(s[i])
  {
    seq(|s|, i requires 0 <= i < |s| => ToLowerChar(s[i]))
  }

  /** Upper-casing works character by character, so it distributes over
      concatenation. */
  lemma UpperAppend(a: string, b: string)
    ensures Upper(a + b) == Upper(a) + Upper(b)
  {
    assert forall i | 0 <= i < |a + b| :: Upper(a + b)[i] == (Upper(a) + Upper(b))[i];
  }

  // ---------------------------------------------------------------------
  // Prefixes and substrings
  // ---------------------------------------------------------------------

  /** `s.startsWith(prefix)`. */
  predicate StartsWith(s: string, prefix: string) {
    |prefix| <= |s| && s[..|prefix|] == prefix
  }

  predicate OccursAt(needle: string, hay: string, i: int) {
    0 <= i && i + |needle| <= |hay| && hay[i..i + |needle|] == needle
  }

  /** `hay.includes(needle)`. */
  predicate Contains(hay: string, needle: string) {
    exists i | 0 <= i <= |hay| - |needle| :: OccursAt(needle, hay, i)
  }

  // ---------------------------------------------------------------------
  // Length in UTF-16 code units
  // ---------------------------------------------------------------------

  /** The UTF-16 code units of one character: a character outside the Basic
      Multilingual Plane is a surrogate pair. */
  function CodeUnits(c: char): nat {
    if c as int > 0xFFFF then 2 else 1
  }

  /** Every character of `s` lies in the Basic Multilingual Plane. */
  predicate InBasicPlane(s: string) {
    forall i | 0 <= i < |s| :: s[i] as int <= 0xFFFF
  }

  /** `s.length`: JavaScript counts UTF-16 code units, so a character outside
      the Basic Multilingual Plane (most emoji) counts twice; the count equals
      the number of characters exactly when there is none. */
  function JsLength(s: string): (n: nat)
    ensures |s| <= n <= 2 * |s|
    ensures n == |s| <==> InBasicPlane(s)
  {
    if s == "" then 0
    else
      assert forall i | 1 <= i < |s| :: s[1..][i - 1] == s[i];
      CodeUnits(s[0]) + JsLength(s[1..])
  }

  /** Lengths add up over a concatenation. */
  lemma {:induction false} JsLengthAppend(a: string, b: string)
    ensures JsLength(a + b) == JsLength(a) + JsLength(b)
    decreases |a|
  {
    if |a| == 0 {
      assert a + b == b;
    } else {
      assert (a + b)[0] == a[0];
      assert (a + b)[1..] == a[1..] + b;
      JsLengthAppend(a[1..], b);
    }
  }

  /** `s.substring(0, n)` as far as whole characters allow: the longest
      prefix of `s` of at most `n` UTF-16 code units. */
  function UnitsPrefix(s: string, n: int): (p: string)
    ensures |p| <= |s| && p == s[..|p|]
    ensures JsLength(p) <= if n < 0 then 0 else n
    ensures |p| < |s| ==> JsLength(p) + CodeUnits(s[|p|]) > n
    decreases |s|
  {
    if |s| == 0 || CodeUnits(s[0]) > n then ""
    else
      var rest := UnitsPrefix(s[1..], n - CodeUnits(s[0]));
      var p := [s[0]] + rest;
      assert p[1..] == rest && p[0] == s[0];
      assert p == s[..|p|] by {
        assert rest == s[1..][..|rest|];
      }
      p
  }

  /** On text without surrogate pairs the prefix is exactly `n` characters
      long, as `substring(0, n)` would cut it. */
  lemma {:induction false} UnitsPrefixBasicPlane(s: string, n: nat)
    requires InBasicPlane(s) && n <= |s|
    ensures UnitsPrefix(s, n) == s[..n]
    decreases n
  {
    if n > 0 {
      BasicPlaneTail(s);
      UnitsPrefixBasicPlane(s[1..], n - 1);
      UnitsPrefixStep(s, n);
    } else {
      assert JsLength(UnitsPrefix(s, 0)) <= 0;
    }
  }

  /** The inductive step of `UnitsPrefixBasicPlane`. */
  lemma UnitsPrefixStep(s: string, n: nat)
    requires 0 < n <= |s| && s[0] as int <= 0xFFFF
    requires UnitsPrefix(s[1..], n - 1) == s[1..][..n - 1]
    ensures UnitsPrefix(s, n) == s[..n]
  {
    UnitsPrefixCons(s, n);
    assert s[..n] == [s[0]] + s[1..][..n - 1];
  }

  /** Text without surrogate pairs starts with a one-unit character and stays so after it. */
  lemma BasicPlaneTail(s: string)
    requires |s| > 0 && InBasicPlane(s)
    ensures s[0] as int <= 0xFFFF && InBasicPlane(s[1..])
  {
    assert forall i | 0 <= i < |s| - 1 :: s[1..][i] == s[i + 1];
  }

  /** One step of `UnitsPrefix`: a first character that fits is kept. */
  lemma UnitsPrefixCons(s: string, n: int)
    requires |s| > 0 && CodeUnits(s[0]) <= n
    ensures UnitsPrefix(s, n) == [s[0]] + UnitsPrefix(s[1..], n - CodeUnits(s[0]))
  {
  }

  /** Three emoji make a string of length six. */
  lemma ThreeEmojiLength()
    ensures JsLength("\U{1F600}\U{1F600}\U{1F600}") == 6
  {
    var e := "\U{1F600}";
    assert JsLength(e) == 2 by {
      assert e[1..] == "";
    }
    JsLengthAppend(e, e);
    JsLengthAppend(e + e, e);
    assert e + e + e == "\U{1F600}\U{1F600}\U{1F600}";
  }

  // ---------------------------------------------------------------------
  // JS-falsy fallback on strings
  // ---------------------------------------------------------------------

  /** A string value is truthy when it is present and not empty. */
  predicate Truthy(o: Option<string>) {
    o.Some? && o.value != ""
  }

  /** `o || fallback` for a possibly absent string `o`. */
  function OrElse(o: Option<string>, fallback: string): (r: string)
    ensures Truthy(o) ==> r == o.value
    ensures !Truthy(o) ==> r == fallback
  {
    if Truthy(o) then o.value else fallback
  }

  // ---------------------------------------------------------------------
  // trim
  // ---------------------------------------------------------------------

  /** Drops the leading whitespace of `s`. */
  function TrimStart(s: string): (r: string)
    ensures |r| <= |s| && r == s[|s| - |r|..]
    ensures AllWhitespace(s[..|s| - |r|])
    ensures |r| > 0 ==> !IsWhitespace(r[0])
  {
    if |s| > 0 && IsWhitespace(s[0]) then TrimStart(s[1..]) else s
  }

  /** Drops the trailing whitespace of `s`. */
  function TrimEnd(s: string): (r: string)
    ensures |r| <= |s| && r == s[..|r|]
    ensures AllWhitespace(s[|r|..])
    ensures |r| > 0 ==> !IsWhitespace(r[|r| - 1])
  {
    if |s| > 0 && IsWhitespace(s[|s| - 1]) then TrimEnd(s[..|s| - 1]) else s
  }

  /** `s.trim()`: `s` without its leading and trailing whitespace. It is
      empty exactly for a blank `s`; otherwise it neither starts nor ends with
      whitespace (`TrimIsSlice` says what was cut off). */
  function Trim(s: string): (r: string)
    ensures |r| <= |s|
    ensures r == "" <==> AllWhitespace(s)
    ensures |r| > 0 ==> !IsWhitespace(r[0]) && !IsWhitespace(r[|r| - 1])
  {
    var t := TrimStart(s);
    var r := TrimEnd(t);
    assert s[..|s|] == s;
    assert AllWhitespace(t) ==> AllWhitespace(s) by {
      if AllWhitespace(t) {
        assert |t| == 0;
      }
    }
    assert r == "" ==> AllWhitespace(t) by {
      if r == "" {
        assert t[|r|..] == t;
      }
    }
    assert AllWhitespace(s) ==> t == "";
    r
  }

  /** The trimmed string is a slice of the original with only whitespace cut
      off on either side. */
  lemma TrimIsSlice(s: string)
    ensures var r := Trim(s);
      exists k | 0 <= k <= |s| - |r| :: r == s[k..k + |r|] && AllWhitespace(s[..k]) && AllWhitespace(s[k + |r|..])
  {
    var t := TrimStart(s);
    TrimThenTrim(s);
    TrimCuts(s, t, Trim(s));
  }

  /** `trim` cuts the front first, then the back. */
  lemma TrimThenTrim(s: string)
    ensures Trim(s) == TrimEnd(TrimStart(s))
  {
  }

  /** Cutting whitespace from the front and then from the back leaves a
      slice with whitespace on either side. */
  lemma TrimCuts(s: string, t: string, r: string)
    requires |t| <= |s| && t == s[|s| - |t|..] && AllWhitespace(s[..|s| - |t|])
    requires |r| <= |t| && r == t[..|r|] && AllWhitespace(t[|r|..])
    ensures exists k | 0 <= k <= |s| - |r| :: r == s[k..k + |r|] && AllWhitespace(s[..k]) && AllWhitespace(s[k + |r|..])
  {
    var k := |s| - |t|;
    SliceOfSuffix(s, k, |r|);
    assert r == s[k..k + |r|] && AllWhitespace(s[k + |r|..]);
  }

  /** Slicing a suffix is slicing the whole string further along. */
  lemma SliceOfSuffix(s: string, k: nat, a: nat)
    requires k <= |s| && a <= |s| - k
    ensures s[k..][..a] == s[k..k + a] && s[k..][a..] == s[k + a..]
  {
  }

  lemma {:induction false} TrimStartPadded(p: string, s: string)
    requires AllWhitespace(p)
    ensures TrimStart(p + s) == TrimStart(s)
    decreases |p|
  {
    if |p| > 0 {
      assert (p + s)[1..] == p[1..] + s;
      TrimStartPadded(p[1..], s);
    } else {
      assert p + s == s;
    }
  }

  lemma {:induction false} TrimEndPadded(s: string, q: string)
    requires AllWhitespace(q)
    ensures TrimEnd(s + q) == TrimEnd(s)
    decreases |q|
  {
    if |q| > 0 {
      assert (s + q)[..|s + q| - 1] == s + q[..|q| - 1];
      TrimEndPadded(s, q[..|q| - 1]);
    } else {
      assert s + q == s;
    }
  }

  /** Whitespace appended after a string that has a non-blank character
      survives `TrimStart` untouched. */
  lemma {:induction false} TrimStartAppend(s: string, q: string)
    requires !AllWhitespace(s)
    ensures TrimStart(s + q) == TrimStart(s) + q
    decreases |s|
  {
    if IsWhitespace(s[0]) {
      assert (s + q)[1..] == s[1..] + q;
      assert !AllWhitespace(s[1..]) by {
        var i :| 0 <= i < |s| && !IsWhitespace(s[i]);
        assert s[1..][i - 1] == s[i];
      }
      TrimStartAppend(s[1..], q);
    }
  }

  /** `trim` ignores whitespace padding on either side: this is why trimming
      a form field before validating it makes the outcome insensitive to
      stray blanks around the value. */
  lemma TrimPadded(p: string, s: string, q: string)
    requires AllWhitespace(p) && AllWhitespace(q)
    ensures Trim(p + s + q) == Trim(s)
  {
    var w := p + s + q;
    if AllWhitespace(s) {
      assert AllWhitespace(w) by {
        forall i | 0 <= i < |w| ensures IsWhitespace(w[i]) {
          if i < |p| {
            assert w[i] == p[i];
          } else if i < |p| + |s| {
            assert w[i] == s[i - |p|];
          } else {
            assert w[i] == q[i - |p| - |s|];
          }
        }
      }
    } else {
      assert TrimStart(w) == TrimStart(s) + q by {
        assert w == p + (s + q);
        TrimStartPadded(p, s + q);
        TrimStartAppend(s, q);
      }
      TrimEndPadded(TrimStart(s), q);
      assert Trim(w) == TrimEnd(TrimStart(w));
      assert Trim(s) == TrimEnd(TrimStart(s));
    }
  }

  /** Trimming twice is trimming once. */
  lemma TrimIdempotent(s: string)
    ensures Trim(Trim(s)) == Trim(s)
  {
    var r := Trim(s);
    assert TrimStart(r) == r;
    assert TrimEnd(r) == r;
  }

  // ---------------------------------------------------------------------
  // split / join on one separator character
  // ---------------------------------------------------------------------

  /** `s.split(sep)` for a one-character separator: the maximal
      separator-free pieces between separators, empty pieces included. */
  function Split(s: string, sep: char): (parts: seq<string>)
    ensures |parts| >= 1
    decreases |s|
  {
    if |s| == 0 then [""]
    else
      var rest := Split(s[1..], sep);
      if s[0] == sep then [""] + rest
      else [[s[0]] + rest[0]] + rest[1..]
  }

  /** The pieces of a split hold no separator; a string without one is its
      own single piece, and a string with one splits into several. */
  lemma {:induction false} SplitPieces(s: string, sep: char)
    ensures var parts := Split(s, sep);
      && (forall k | 0 <= k < |parts| :: sep !in parts[k])
      && (sep !in s ==> parts == [s])
      && (sep in s ==> |parts| >= 2)
    decreases |s|
  {
    if |s| > 0 {
      SplitPieces(s[1..], sep);
      var rest := Split(s[1..], sep);
      assert s == [s[0]] + s[1..];
      if s[0] == sep {
        var parts := [""] + rest;
        assert forall k | 1 <= k < |parts| :: parts[k] == rest[k - 1];
      } else {
        var parts := [[s[0]] + rest[0]] + rest[1..];
        assert sep !in [s[0]] + rest[0];
        assert forall k | 1 <= k < |parts| :: parts[k] == rest[k];
        assert sep in s ==> sep in s[1..];
      }
    }
  }

  /** `parts.join(sep)`. */
  function Join(parts: seq<string>, sep: char): string
  {
    if |parts| == 0 then ""
    else if |parts| == 1 then parts[0]
    else parts[0] + [sep] + Join(parts[1..], sep)
  }

  /** Joining the pieces of a split gives back the original string. */
  lemma {:induction false} JoinSplit(s: string, sep: char)
    ensures Join(Split(s, sep), sep) == s
    decreases |s|
  {
    if |s| > 0 {
      var rest := Split(s[1..], sep);
      JoinSplit(s[1..], sep);
      if s[0] == sep {
        assert ([""] + rest)[1..] == rest;
        assert s == [sep] + s[1..];
      } else {
        var parts := [[s[0]] + rest[0]] + rest[1..];
        if |rest| == 1 {
          assert Join(parts, sep) == [s[0]] + rest[0];
        } else {
          assert parts[1..] == rest[1..];
          assert Join(rest, sep) == rest[0] + [sep] + Join(rest[1..], sep);
        }
        assert s == [s[0]] + s[1..];
      }
    }
  }

  /** Splitting distributes over a separator occurrence. */
  lemma {:induction false} SplitAround(x: string, sep: char, y: string)
    ensures Split(x + [sep] + y, sep) == Split(x, sep) + Split(y, sep)
    decreases |x|
  {
    if |x| == 0 {
      assert x + [sep] + y == [sep] + y;
      SplitCons(sep, y, sep);
    } else {
      var c, u := x[0], x[1..];
      var rx, ry := Split(u, sep), Split(y, sep);
      var r := rx + ry;
      assert Split(x + [sep] + y, sep) == if c == sep then [""] + r else [[c] + r[0]] + r[1..] by {
        SplitAround(u, sep, y);
        assert x + [sep] + y == [c] + (u + [sep] + y);
        SplitCons(c, u + [sep] + y, sep);
      }
      assert Split(x, sep) == if c == sep then [""] + rx else [[c] + rx[0]] + rx[1..] by {
        assert x == [c] + u;
        SplitCons(c, u, sep);
      }
      ConsAppend(c, sep, rx, ry);
    }
  }

  /** The sequence algebra behind `SplitAround`: gluing a character onto
      the first piece commutes with appending further pieces. */
  lemma ConsAppend(c: char, sep: char, rx: seq<string>, ry: seq<string>)
    requires |rx| >= 1
    ensures var r := rx + ry;
      (if c == sep then [""] + r else [[c] + r[0]] + r[1..])
      == (if c == sep then [""] + rx else [[c] + rx[0]] + rx[1..]) + ry
  {
    var r := rx + ry;
    if c == sep {
      assert [""] + r == ([""] + rx) + ry;
    } else {
      assert r[0] == rx[0] && r[1..] == rx[1..] + ry;
      assert [[c] + rx[0]] + (rx[1..] + ry) == ([[c] + rx[0]] + rx[1..]) + ry;
    }
  }

  /** `Split` on a string that starts with the character `c`. */
  lemma SplitCons(c: char, t: string, sep: char)
    ensures var rest := Split(t, sep);
      Split([c] + t, sep) == if c == sep then [""] + rest else [[c] + rest[0]] + rest[1..]
  {
    assert ([c] + t)[1..] == t;
  }

  /** Splitting the pieces' join gives back the pieces, when no piece contains
      the separator. */
  lemma {:induction false} SplitJoin(parts: seq<string>, sep: char)
    requires |parts| >= 1
    requires forall k | 0 <= k < |parts| :: sep !in parts[k]
    ensures Split(Join(parts, sep), sep) == parts
    decreases |parts|
  {
    SplitPieces(parts[0], sep);
    if |parts| > 1 {
      SplitJoin(parts[1..], sep);
      SplitAround(parts[0], sep, Join(parts[1..], sep));
      assert parts == [parts[0]] + parts[1..];
    }
  }

  /** `s.split(sep).pop()`: the text after the last separator, or all of `s`
      when it has none. */
  function LastSegment(s: string, sep: char): (r: string)
    ensures sep !in r
    ensures |r| <= |s| && r == s[|s| - |r|..]
    ensures sep !in s ==> r == s
    ensures sep in s ==> |r| < |s| && s[|s| - |r| - 1] == sep
  {
    var parts := Split(s, sep);
    var r := parts[|parts| - 1];
    SplitPieces(s, sep);
    SuffixAfterLastSeparator(s, sep);
    r
  }

  /** `s.lastIndexOf(c)` for a character that occurs in `s`. */
  function LastIndexOf(s: string, c: char): (i: nat)
    requires c in s
    ensures i < |s| && s[i] == c && c !in s[i + 1..]
    decreases |s|
  {
    if s[|s| - 1] == c then |s| - 1
    else
      var u := s[..|s| - 1];
      InFront(s, c);
      var i := LastIndexOf(u, c);
      NotInTail(s, c, i);
      i
  }

  /** A character of `s` other than its last one occurs in the front part. */
  lemma InFront(s: string, c: char)
    requires c in s && s[|s| - 1] != c
    ensures c in s[..|s| - 1]
  {
    var k :| 0 <= k < |s| && s[k] == c;
    assert s[..|s| - 1][k] == c;
  }

  /** Absent after `i` in the front part and not last: absent after `i`. */
  lemma NotInTail(s: string, c: char, i: nat)
    requires i < |s| - 1 && s[|s| - 1] != c && c !in s[..|s| - 1][i + 1..]
    ensures c !in s[i + 1..]
  {
    assert s[i + 1..] == s[..|s| - 1][i + 1..] + [s[|s| - 1]];
  }

  /** The last piece of a split is the text after the last separator. */
  lemma SuffixAfterLastSeparator(s: string, sep: char)
    ensures var parts := Split(s, sep); var r := parts[|parts| - 1];
      && |r| <= |s| && r == s[|s| - |r|..]
      && (sep in s ==> |r| < |s| && s[|s| - |r| - 1] == sep)
  {
    if sep !in s {
      SplitPieces(s, sep);
    } else {
      var i := LastIndexOf(s, sep);
      LastPieceAfter(s, sep, i);
      assert i == |s| - |s[i + 1..]| - 1;
    }
  }

  /** Where `i` is the last separator, the last piece starts right after it. */
  lemma LastPieceAfter(s: string, sep: char, i: nat)
    requires i < |s| && s[i] == sep && sep !in s[i + 1..]
    ensures var parts := Split(s, sep); parts[|parts| - 1] == s[i + 1..]
  {
    var x, y := s[..i], s[i + 1..];
    assert s == x + [sep] + y;
    SplitAround(x, sep, y);
    SplitPieces(y, sep);
  }

  /** A separator followed by a separator-free tail: the last segment is
      that tail. */
  lemma LastSegmentAfter(x: string, sep: char, e: string)
    requires sep !in e
    ensures LastSegment(x + [sep] + e, sep) == e
  {
    SplitAround(x, sep, e);
    SplitPieces(e, sep);
  }

  // ---------------------------------------------------------------------
  // Decimal text of integers (template-literal interpolation of an integer)
  // ---------------------------------------------------------------------

  function DigitChar(d: nat): (c: char)
    requires d < 10
    ensures IsDigit(c)
  {
    ('0' as int + d) as char
  }

  function DigitValue(c: char): (d: nat)
    requires IsDigit(c)
    ensures d < 10
  {
    c as int - '0' as int
  }

  /** The decimal digits of `n`, most significant first, without leading
      zeros. */
  function NatToString(n: nat): (s: string)
    ensures |s| >= 1 && AllDigits(s)
    ensures s[0] != '0' || n == 0
  {
    if n < 10 then [DigitChar(n)] else NatToString(n / 10) + [DigitChar(n % 10)]
  }

  /** `${i}` for an integer `i`. */
  function IntToString(i: int): (s: string)
    ensures |s| >= 1
    ensures i < 0 <==> s[0] == '-'
    ensures Canonical(s)
  {
    if i < 0 then "-" + NatToString(-i) else NatToString(i)
  }

  /** Decimal text as JavaScript prints an integer: digits without a leading
      zero (bar "0" itself), or a minus sign before such digits that do not
      start with zero. */
  predicate Canonical(s: string) {
    || (|s| >= 1 && AllDigits(s) && (s[0] != '0' || |s| == 1))
    || (|s| >= 2 && s[0] == '-' && AllDigits(s[1..]) && s[1] != '0')
  }

  /** The value of a string of decimal digits. */
  function DigitsValue(s: string): nat
    requires AllDigits(s)
  {
    if |s| == 0 then 0 else 10 * DigitsValue(s[..|s| - 1]) + DigitValue(s[|s| - 1])
  }

  /** Reads an optionally negative decimal integer; the inverse of
      `IntToString`. */
  function ParseInt(s: string): Option<int>
  {
    if |s| > 0 && AllDigits(s) then Some(DigitsValue(s))
    else if |s| > 1 && s[0] == '-' && AllDigits(s[1..]) then Some(-(DigitsValue(s[1..]) as int))
    else None
  }

  lemma {:induction false} NatRoundTrip(n: nat)
    ensures DigitsValue(NatToString(n)) == n
    decreases n
  {
    if n >= 10 {
      var s := NatToString(n);
      assert s[..|s| - 1] == NatToString(n / 10);
      NatRoundTrip(n / 10);
    }
  }

  /** Printing an integer and reading it back is the identity. */
  lemma IntRoundTrip(i: int)
    ensures ParseInt(IntToString(i)) == Some(i)
  {
    if i < 0 {
      NatRoundTrip(-i);
      ParseNegative(NatToString(-i));
    } else {
      NatRoundTrip(i);
    }
  }

  /** Digits without a leading zero are the decimal text of their value. */
  lemma {:induction false} CanonicalDigits(s: string)
    requires |s| >= 1 && AllDigits(s) && (s[0] != '0' || |s| == 1)
    ensures NatToString(DigitsValue(s)) == s
    decreases |s|
  {
    var d := DigitValue(s[|s| - 1]);
    if |s| == 1 {
      assert DigitsValue(s) == d;
      assert DigitChar(d) == s[0];
    } else {
      var p := s[..|s| - 1];
      assert p[0] == s[0];
      CanonicalDigits(p);
      var v := DigitsValue(p);
      ZeroText();
      assert v != 0;
      assert DigitsValue(s) == 10 * v + d;
      assert (10 * v + d) / 10 == v && (10 * v + d) % 10 == d;
      assert s == p + [DigitChar(d)];
    }
  }

  /** Zero is written "0". */
  lemma ZeroText()
    ensures NatToString(0) == "0"
  {
  }

  /** Canonical text that reads as `i` is the text `${i}`: the reading is
      one-to-one on canonical text. */
  lemma CanonicalIsIntToString(s: string, i: int)
    requires Canonical(s) && ParseInt(s) == Some(i)
    ensures s == IntToString(i)
  {
    if |s| >= 1 && AllDigits(s) {
      CanonicalDigits(s);
    } else {
      var t := s[1..];
      CanonicalDigits(t);
      ZeroText();
      assert DigitsValue(t) != 0;
      assert s == "-" + t;
    }
  }

  /** A minus sign before a run of digits reads as the negated value. */
  lemma ParseNegative(t: string)
    requires |t| >= 1 && AllDigits(t)
    ensures ParseInt("-" + t) == Some(-(DigitsValue(t) as int))
  {
    var s := "-" + t;
    assert s[1..] == t;
    assert !IsDigit(s[0]);
  }
}
