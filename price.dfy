/** Rupiah price helpers of the backend: reading a free-form price text into
    a number of rupiah, writing a number back as "Rp1.234.567", and choosing
    the price text a place shows. */
module PriceIdr {
  import opened Wrappers

  // ---------------------------------------------------------------------
  // Character classes
  // ---------------------------------------------------------------------

  /** The characters Python's str.isspace() accepts; str.strip() removes
      them from both ends of a string. */
  predicate IsPySpace(c: char) {
    var x := c as int;
    x == 0x20 || (0x09 <= x <= 0x0D) || (0x1C <= x <= 0x1F) || x == 0x85 || x == 0xA0
    || x == 0x1680 || (0x2000 <= x <= 0x200A) || x == 0x2028 || x == 0x2029
    || x == 0x202F || x == 0x205F || x == 0x3000
  }

  /** The class [0-9] of the digit filter. */
  predicate IsAsciiDigit(c: char) {
    '0' <= c <= '9'
  }

  /** A regular-expression word character (\w), restricted to ASCII. */
  predicate IsWordChar(c: char) {
    'a' <= c <= 'z' || 'A' <= c <= 'Z' || IsAsciiDigit(c) || c == '_'
  }

  predicate AllDigits(s: string) {
    forall i :: 0 <= i < |s| ==> IsAsciiDigit(s[i])
  }

  /** str.lower() on one character, restricted to ASCII letters. */
  function LowerChar(c: char): (r: char)
    ensures 'A' <= c <= 'Z' ==> 'a' <= r <= 'z'
    ensures !('A' <= c <= 'Z') ==> r == c
  {
    if 'A' <= c <= 'Z' then (c as int + 32) as char else c
  }

  // ---------------------------------------------------------------------
  // String operations the parser is built from
  // ---------------------------------------------------------------------

  /** The first position at or after i that is not whitespace (|s| when
      there is none). */
  function StripStart(s: string, i: nat): (k: nat)
    requires i <= |s|
    ensures i <= k <= |s|
    ensures forall m :: i <= m < k ==> IsPySpace(s[m])
    ensures k < |s| ==> !IsPySpace(s[k])
    decreases |s| - i
  {
    if i < |s| && IsPySpace(s[i]) then StripStart(s, i + 1) else i
  }

  /** The end of the part of s[lo..j] left once trailing whitespace is cut. */
  function StripEnd(s: string, lo: nat, j: nat): (k: nat)
    requires lo <= j <= |s|
    ensures lo <= k <= j
    ensures forall m :: k <= m < j ==> IsPySpace(s[m])
    ensures k > lo ==> !IsPySpace(s[k - 1])
    decreases j - lo
  {
    if j > lo && IsPySpace(s[j - 1]) then StripEnd(s, lo, j - 1) else j
  }

  /** s[i..i + |r|] is r, and everything before i and after it is whitespace. */
  ghost predicate TrimmedAt(s: string, r: string, i: nat) {
    && i + |r| <= |s| && r == s[i..i + |r|]
    && (forall m :: 0 <= m < i ==> IsPySpace(s[m]))
    && (forall m :: i + |r| <= m < |s| ==> IsPySpace(s[m]))
  }

  /** str.strip(): the longest middle part of s that neither starts nor ends
      with whitespace; everything cut off on either side is whitespace. */
  function Strip(s: string): (r: string)
    ensures r == [] || (!IsPySpace(r[0]) && !IsPySpace(r[|r| - 1]))
    ensures exists i :: TrimmedAt(s, r, i)
  {
    var lo := StripStart(s, 0);
    var hi := StripEnd(s, lo, |s|);
    StripTrims(s, lo, hi);
    s[lo..hi]
  }

  lemma StripTrims(s: string, lo: nat, hi: nat)
    requires lo <= hi <= |s|
    requires forall m :: 0 <= m < lo ==> IsPySpace(s[m])
    requires lo < |s| ==> !IsPySpace(s[lo])
    requires forall m :: hi <= m < |s| ==> IsPySpace(s[m])
    requires hi > lo ==> !IsPySpace(s[hi - 1])
    ensures s[lo..hi] == [] || (!IsPySpace(s[lo..hi][0]) && !IsPySpace(s[lo..hi][hi - lo - 1]))
    ensures exists i :: TrimmedAt(s, s[lo..hi], i)
  {
    assert TrimmedAt(s, s[lo..hi], lo);
  }

  /** str.lower(), restricted to ASCII letters: no upper-case letter is
      left, and every other character stays where it was. */
  function Lower(s: string): (r: string)
    ensures |r| == |s|
    ensures forall i :: 0 <= i < |r| ==> !('A' <= r[i] <= 'Z')
    ensures forall i :: 0 <= i < |s| ==> r[i] == LowerChar(s[i])
  {
    seq(|s|, i requires 0 <= i < |s| => LowerChar(s[i]))
  }

  /** Lower-casing twice is lower-casing once. */
  lemma LowerIdempotent(s: string)
    ensures Lower(Lower(s)) == Lower(s)
  {
  }

  /** Python's substring test `w in t`. */
  predicate Contains(t: string, w: string) {
    exists i :: 0 <= i <= |t| && OccursAt(t, w, i)
  }

  /** w is the part of t that starts at position i. */
  predicate OccursAt(t: string, w: string, i: nat) {
    i + |w| <= |t| && t[i..i + |w|] == w
  }

  /** The regular-expression assertion \b at position p of t: a word
      character on exactly one side of p (outside t counts as non-word). */
  predicate AtBoundary(t: string, p: nat) {
    var before := 0 < p <= |t| && IsWordChar(t[p - 1]);
    var after := p < |t| && IsWordChar(t[p]);
    before != after
  }

  /** w occurs in t with a word boundary on both sides, as the pattern
      \bw\b finds it. */
  predicate HasStandaloneWord(t: string, w: string) {
    exists i :: 0 <= i <= |t| && OccursAt(t, w, i) && AtBoundary(t, i) && AtBoundary(t, i + |w|)
  }

  /** A word standing between non-word characters, or at an end of the
      text, is found by \bw\b. */
  lemma StandaloneWordBetween(a: string, w: string, b: string)
    requires |w| > 0 && forall i :: 0 <= i < |w| ==> IsWordChar(w[i])
    requires |a| == 0 || !IsWordChar(a[|a| - 1])
    requires |b| == 0 || !IsWordChar(b[0])
    ensures HasStandaloneWord(a + w + b, w)
  {
    var t := a + w + b;
    assert t[|a|..|a| + |w|] == w;
    assert OccursAt(t, w, |a|);
    assert IsWordChar(t[|a|]);
    assert IsWordChar(t[|a| + |w| - 1]);
    assert |a| > 0 ==> t[|a| - 1] == a[|a| - 1];
    assert |b| > 0 ==> t[|a| + |w|] == b[0];
    assert AtBoundary(t, |a|) && AtBoundary(t, |a| + |w|);
  }

  /** At either end of a text \b holds exactly when the character at that
      end is a word character. */
  lemma BoundaryAtEnds(t: string)
    ensures AtBoundary(t, 0) <==> |t| > 0 && IsWordChar(t[0])
    ensures AtBoundary(t, |t|) <==> |t| > 0 && IsWordChar(t[|t| - 1])
  {
  }

  /** re.sub(r"[^0-9]", "", t): the ASCII digits of t, in order. */
  function KeepDigits(t: string): (r: string)
    ensures AllDigits(r) && |r| <= |t|
  {
    if |t| == 0 then []
    else (if IsAsciiDigit(t[0]) then [t[0]] else []) + KeepDigits(t[1..])
  }

  function DigitValue(c: char): (v: nat)
    requires IsAsciiDigit(c)
    ensures v < 10
  {
    c as int - '0' as int
  }

  function DigitChar(v: nat): (c: char)
    requires v < 10
    ensures IsAsciiDigit(c) && DigitValue(c) == v
  {
    ('0' as int + v) as char
  }

  /** int(d) for a string of ASCII digits (leading zeros allowed). */
  function DecimalValue(d: string): (v: nat)
    requires AllDigits(d)
    ensures v == 0 <==> forall i :: 0 <= i < |d| ==> d[i] == '0'
  {
    if |d| == 0 then 0 else DecimalValue(d[..|d| - 1]) * 10 + DigitValue(d[|d| - 1])
  }

  // ---------------------------------------------------------------------
  // parse_price_idr
  // ---------------------------------------------------------------------

  /** The texts that mean "no price". */
  predicate IsNoPriceMarker(t: string) {
    t == "" || t == "-" || t == "n/a" || t == "na"
  }

  /** The words that mean "free of charge". */
  predicate MentionsFree(t: string) {
    Contains(t, "gratis") || Contains(t, "free") || Contains(t, "donasi")
  }

  /** "k", "rb" or "ribu" standing as a word of its own (pattern
      \b(k|rb|ribu)\b); "10k" does not qualify, "10 k" does. */
  predicate MentionsThousand(t: string) {
    HasStandaloneWord(t, "k") || HasStandaloneWord(t, "rb") || HasStandaloneWord(t, "ribu")
  }

  /** The multiplier: "jt"/"juta" anywhere means millions and wins over a
      thousands word; otherwise a thousands word means thousands. */
  function Multiplier(t: string): (m: nat)
    ensures (Contains(t, "jt") || Contains(t, "juta")) <==> m == 1_000_000
    ensures m == 1_000 <==> !Contains(t, "jt") && !Contains(t, "juta") && MentionsThousand(t)
    ensures m == 1 || m == 1_000 || m == 1_000_000
  {
    if Contains(t, "jt") || Contains(t, "juta") then 1_000_000
    else if MentionsThousand(t) then 1_000
    else 1
  }

  /** The normalised text the parser inspects: stripped, then lower-cased.
      It neither starts nor ends with whitespace and holds no upper-case
      letter. */
  function Normalise(s: string): (r: string)
    ensures |r| <= |s|
    ensures r == [] || (!IsPySpace(r[0]) && !IsPySpace(r[|r| - 1]))
    ensures forall i :: 0 <= i < |r| ==> !('A' <= r[i] <= 'Z')
  {
    LowerKeepsEnds(Strip(s));
    Lower(Strip(s))
  }

  /** Lower-casing never turns a character into whitespace. */
  lemma LowerKeepsEnds(t: string)
    requires t == [] || (!IsPySpace(t[0]) && !IsPySpace(t[|t| - 1]))
    ensures Lower(t) == [] || (!IsPySpace(Lower(t)[0]) && !IsPySpace(Lower(t)[|t| - 1]))
  {
    if t != [] {
      assert Lower(t)[0] == LowerChar(t[0]);
      assert Lower(t)[|t| - 1] == LowerChar(t[|t| - 1]);
    }
  }

  /** Normalising an already normalised text changes nothing, so the parser
      reads a normalised text as it reads the raw one. */
  lemma NormaliseIdempotent(s: string)
    ensures Normalise(Normalise(s)) == Normalise(s)
    ensures ParsePriceIdr(Some(Normalise(s))) == ParsePriceIdr(Some(s))
  {
    NormaliseTwice(s);
  }

  lemma NormaliseTwice(s: string)
    ensures Normalise(Normalise(s)) == Normalise(s)
  {
    var t := Normalise(s);
    StripNormalised(t);
    LowerNoUpper(t);
  }

  lemma StripNormalised(t: string)
    requires t == [] || (!IsPySpace(t[0]) && !IsPySpace(t[|t| - 1]))
    ensures Strip(t) == t
  {
    if t != [] {
      StripNoOp(t);
    } else {
      assert StripStart(t, 0) == 0 && StripEnd(t, 0, 0) == 0;
    }
  }

  lemma LowerNoUpper(t: string)
    requires forall i :: 0 <= i < |t| ==> !('A' <= t[i] <= 'Z')
    ensures Lower(t) == t
  {
  }

  /** parse_price_idr: None, a no-price marker, a free-of-charge word or a
      text without digits give 0; otherwise all ASCII digits of the text read
      as one decimal number, times the multiplier. */
  function ParsePriceIdr(s: Option<string>): (r: nat)
    ensures s.None? ==> r == 0
    ensures s.Some? ==> r == ParseNormalised(Normalise(s.value))
  {
    match s
    case None => 0
    case Some(raw) => ParseNormalised(Normalise(raw))
  }

  /** parse_price_idr after the text has been stripped and lower-cased. */
  function ParseNormalised(t: string): (r: nat)
    ensures IsNoPriceMarker(t) || MentionsFree(t) || KeepDigits(t) == [] ==> r == 0
    ensures !IsNoPriceMarker(t) && !MentionsFree(t)
            ==> r == DecimalValue(KeepDigits(t)) * Multiplier(t)
  {
    if IsNoPriceMarker(t) || MentionsFree(t) then 0
    else
      var mult := Multiplier(t);
      var digits := KeepDigits(t);
      if digits == [] then 0 else DecimalValue(digits) * mult
  }

  // ---------------------------------------------------------------------
  // format_price_idr
  // ---------------------------------------------------------------------

  /** Decimal digits of n without leading zeros ("0" for zero). */
  function DecDigits(n: nat): (r: string)
    ensures |r| >= 1 && AllDigits(r)
    ensures DecimalValue(r) == n
    ensures |r| > 1 ==> r[0] != '0'
  {
    if n < 10 then [DigitChar(n)]
    else
      var p := DecDigits(n / 10);
      var r := p + [DigitChar(n % 10)];
      assert r[..|r| - 1] == p;
      r
  }

  /** Thousands grouping of a digit string: groups of three counted from the
      right, separated by '.'. A '.' stands exactly at the positions whose
      distance from the end is a multiple of 4, and removing the dots gives
      the digits back. */
  function Group(d: string): (r: string)
    requires AllDigits(d) && |d| >= 1
    ensures GroupedDigits(r, d)
  {
    if |d| <= 3 then
      ShortGroup(d);
      d
    else
      var g := Group(d[..|d| - 3]);
      var r := g + "." + d[|d| - 3..];
      GroupStep(d, g, r);
      r
  }

  lemma ShortGroup(d: string)
    requires AllDigits(d) && 1 <= |d| <= 3
    ensures GroupedDigits(d, d)
  {
    KeepDigitsOfDigits(d);
    ShortGroupHasNoDot(d);
  }

  lemma ShortGroupHasNoDot(d: string)
    requires AllDigits(d) && 1 <= |d| <= 3
    ensures forall i :: 0 <= i < |d| ==> (d[i] == '.' <==> (|d| - i) % 4 == 0)
  {
    forall i | 0 <= i < |d| ensures d[i] != '.' && (|d| - i) % 4 != 0 {
      assert 0 < |d| - i <= 3;
    }
  }

  /** One step of Group: the grouping of the leading digits, a dot, and the
      last three digits. */
  lemma GroupStep(d: string, g: string, r: string)
    requires AllDigits(d) && |d| > 3
    requires GroupedDigits(g, d[..|d| - 3])
    requires r == g + "." + d[|d| - 3..]
    ensures GroupedDigits(r, d)
  {
    GroupStepDigits(d, g, r);
    GroupStepDots(d[|d| - 3..], g, r);
  }

  lemma GroupStepDigits(d: string, g: string, r: string)
    requires AllDigits(d) && |d| > 3
    requires KeepDigits(g) == d[..|d| - 3]
    requires r == g + "." + d[|d| - 3..]
    ensures KeepDigits(r) == d
  {
    var q := d[|d| - 3..];
    var dq := "." + q;
    assert r == g + dq;
    KeepDigitsAppend(g, dq);
    assert dq[1..] == q;
    KeepDigitsOfDigits(q);
    assert KeepDigits(dq) == q;
    assert d == d[..|d| - 3] + q;
  }

  lemma GroupStepDots(q: string, g: string, r: string)
    requires AllDigits(q) && |q| == 3
    requires forall i :: 0 <= i < |g| ==> (g[i] == '.' <==> (|g| - i) % 4 == 0)
    requires forall i :: 0 <= i < |g| ==> g[i] == '.' || IsAsciiDigit(g[i])
    requires |g| >= 1 && IsAsciiDigit(g[0])
    requires r == g + "." + q
    ensures forall i :: 0 <= i < |r| ==> (r[i] == '.' <==> (|r| - i) % 4 == 0)
    ensures forall i :: 0 <= i < |r| ==> r[i] == '.' || IsAsciiDigit(r[i])
    ensures IsAsciiDigit(r[0]) && IsAsciiDigit(r[|r| - 1])
  {
    forall i | 0 <= i < |r|
      ensures r[i] == '.' <==> (|r| - i) % 4 == 0
      ensures r[i] == '.' || IsAsciiDigit(r[i])
    {
      if i < |g| {
        assert r[i] == g[i];
        assert |r| - i == (|g| - i) + 4;
      } else if i == |g| {
        assert r[i] == '.';
      } else {
        assert r[i] == q[i - |g| - 1];
        assert 0 < |r| - i < 4;
      }
    }
  }

  lemma {:induction false} KeepDigitsAppend(a: string, b: string)
    ensures KeepDigits(a + b) == KeepDigits(a) + KeepDigits(b)
  {
    if |a| > 0 {
      assert (a + b)[1..] == a[1..] + b;
      KeepDigitsAppend(a[1..], b);
    } else {
      assert a + b == b;
    }
  }

  lemma {:induction false} KeepDigitsOfDigits(d: string)
    requires AllDigits(d)
    ensures KeepDigits(d) == d
  {
    if |d| > 0 {
      KeepDigitsOfDigits(d[1..]);
    }
  }

  /** Python's round(): nearest integer, halves to the even neighbour. */
  function RoundHalfEven(x: real): (r: int)
    ensures x - 0.5 <= r as real <= x + 0.5
    ensures x == x.Floor as real ==> r == x.Floor
    ensures x - x.Floor as real == 0.5 ==> r % 2 == 0
  {
    var f := x.Floor;
    var frac := x - f as real;
    if frac < 0.5 then f
    else if frac > 0.5 then f + 1
    else if f % 2 == 0 then f
    else f + 1
  }

  function Abs(v: int): nat {
    if v < 0 then -v else v
  }

  /** r is "Rp", then '-' when v is negative, then the decimal digits of
      |v| grouped in threes from the right with '.' between the groups. */
  predicate RupiahText(r: string, v: int) {
    var off := if v < 0 then 3 else 2;
    && |r| > off && r[..2] == "Rp" && (v < 0 ==> r[2] == '-')
    && GroupedDigits(r[off..], DecDigits(Abs(v)))
  }

  /** g is the digit string d with a '.' before every group of three
      counted from the right. */
  predicate GroupedDigits(g: string, d: string) {
    && |g| >= 1 && KeepDigits(g) == d
    && (forall i :: 0 <= i < |g| ==> (g[i] == '.' <==> (|g| - i) % 4 == 0))
    && (forall i :: 0 <= i < |g| ==> g[i] == '.' || IsAsciiDigit(g[i]))
    && IsAsciiDigit(g[0]) && IsAsciiDigit(g[|g| - 1])
  }

  /** "Rp" + f"{val:,}" with ',' replaced by '.': the sign of a negative
      amount, then the grouped digits of its magnitude. */
  function FormatRupiah(val: int): (r: string)
    ensures RupiahText(r, val)
  {
    var sign := if val < 0 then "-" else "";
    var g := Group(DecDigits(Abs(val)));
    var r := "Rp" + sign + g;
    FormattedIsRupiahText(val, sign, g, r);
    r
  }

  lemma FormattedIsRupiahText(v: int, sign: string, g: string, r: string)
    requires sign == if v < 0 then "-" else ""
    requires GroupedDigits(g, DecDigits(Abs(v)))
    requires r == "Rp" + sign + g
    ensures RupiahText(r, v)
  {
    var off := if v < 0 then 3 else 2;
    assert |sign| == off - 2;
    assert r[off..] == g;
    assert r[..2] == "Rp";
    assert v < 0 ==> r[2] == '-';
  }

  /** format_price_idr: round to a whole number of rupiah, half to even,
      then format; the sign shows exactly when the rounded amount is
      negative. */
  function FormatPriceIdr(n: real): (r: string)
    ensures RupiahText(r, RoundHalfEven(n))
    ensures r[2] == '-' <==> RoundHalfEven(n) < 0
  {
    FormatRupiah(RoundHalfEven(n))
  }

  // ---------------------------------------------------------------------
  // display_price
  // ---------------------------------------------------------------------

  /** display_price: the stripped price text when it is not blank; else the
      formatted number when it is positive; else "-". */
  function DisplayPrice(priceStr: Option<string>, priceNum: Option<real>): (r: string)
    ensures r != []
    ensures priceStr.Some? && Strip(priceStr.value) != [] ==> r == Strip(priceStr.value)
    ensures (priceStr.None? || Strip(priceStr.value) == []) && priceNum.Some? && priceNum.value > 0.0
            ==> r == FormatPriceIdr(priceNum.value)
    ensures (priceStr.None? || Strip(priceStr.value) == []) && (priceNum.None? || priceNum.value <= 0.0)
            ==> r == "-"
  {
    if priceStr.Some? && Strip(priceStr.value) != [] then Strip(priceStr.value)
    else if priceNum.Some? && priceNum.value > 0.0 then
      var f := FormatPriceIdr(priceNum.value);
      if f != [] then f else "-"
    else "-"
  }

  // ---------------------------------------------------------------------
  // Round trip: parse_price_idr(format_price_idr(n)) == n
  // ---------------------------------------------------------------------

  /** The characters a formatted price can consist of, once lower-cased. */
  predicate InLoweredFormat(c: char) {
    c == 'r' || c == 'p' || c == '-' || c == '.' || IsAsciiDigit(c)
  }

  lemma {:induction false} KeepDigitsOfNonDigits(s: string)
    requires forall i :: 0 <= i < |s| ==> !IsAsciiDigit(s[i])
    ensures KeepDigits(s) == []
  {
    if |s| > 0 {
      KeepDigitsOfNonDigits(s[1..]);
    }
  }

  /** A word with a character that t never contains does not occur in t. */
  lemma AbsentCharNotContained(t: string, w: string, m: nat)
    requires m < |w|
    requires forall i :: 0 <= i < |t| ==> t[i] != w[m]
    ensures !Contains(t, w)
  {
    forall i | 0 <= i <= |t| ensures !OccursAt(t, w, i) {
      if i + |w| <= |t| {
        assert t[i..i + |w|][m] == t[i + m];
      }
    }
  }

  /** No keyword of the parser can occur in a lower-cased formatted price. */
  lemma FormattedHasNoKeyword(t: string)
    requires forall i :: 0 <= i < |t| ==> InLoweredFormat(t[i])
    ensures !MentionsFree(t)
    ensures !Contains(t, "jt") && !Contains(t, "juta")
    ensures !MentionsThousand(t)
  {
    AbsentCharNotContained(t, "gratis", 0);
    AbsentCharNotContained(t, "free", 0);
    AbsentCharNotContained(t, "donasi", 0);
    AbsentCharNotContained(t, "jt", 0);
    AbsentCharNotContained(t, "juta", 0);
    AbsentCharNotContained(t, "k", 0);
    AbsentCharNotContained(t, "rb", 1);
    AbsentCharNotContained(t, "ribu", 1);
  }

  /** Stripping leaves a string alone that starts and ends with a
      non-whitespace character. */
  lemma StripNoOp(s: string)
    requires |s| > 0 && !IsPySpace(s[0]) && !IsPySpace(s[|s| - 1])
    ensures Strip(s) == s
  {
    assert StripStart(s, 0) == 0;
    assert StripEnd(s, 0, |s|) == |s|;
    assert s[0..|s|] == s;
  }

  /** A text that is already stripped and lower-case is parsed as it is. */
  lemma ParsePlainText(t: string)
    requires |t| > 0 && !IsPySpace(t[0]) && !IsPySpace(t[|t| - 1])
    requires forall i :: 0 <= i < |t| ==> !('A' <= t[i] <= 'Z')
    ensures ParsePriceIdr(Some(t)) == ParseNormalised(t)
  {
    StripNoOp(t);
    assert Lower(t) == t;
  }

  /** Lower-casing a formatted amount touches only the 'R' of "Rp". */
  lemma NormaliseFormatted(sign: string, g: string)
    requires sign == "" || sign == "-"
    requires |g| >= 1 && IsAsciiDigit(g[|g| - 1])
    requires forall i :: 0 <= i < |g| ==> g[i] == '.' || IsAsciiDigit(g[i])
    ensures Normalise("Rp" + sign + g) == "rp" + sign + g
  {
    var f := "Rp" + sign + g;
    assert f[0] == 'R' && f[|f| - 1] == g[|g| - 1];
    StripNoOp(f);
    LowerFormatted("Rp" + sign, "rp" + sign, g);
  }

  lemma LowerFormatted(head: string, lowHead: string, g: string)
    requires |head| == |lowHead|
    requires forall i :: 0 <= i < |head| ==> LowerChar(head[i]) == lowHead[i]
    requires forall i :: 0 <= i < |g| ==> g[i] == '.' || IsAsciiDigit(g[i])
    ensures Lower(head + g) == lowHead + g
  {
    var f := head + g;
    var t := lowHead + g;
    forall i | 0 <= i < |f| ensures Lower(f)[i] == t[i] {
      if i >= |head| {
        assert f[i] == g[i - |head|] && t[i] == g[i - |head|];
      } else {
        assert f[i] == head[i] && t[i] == lowHead[i];
      }
    }
  }

  /** The parser reads a text made of the characters of a lower-cased
      formatted amount, starting with 'r', as the number its digits spell. */
  lemma ParseFormatAlphabet(t: string)
    requires |t| >= 3 && t[0] == 'r'
    requires forall i :: 0 <= i < |t| ==> InLoweredFormat(t[i])
    requires KeepDigits(t) != []
    ensures ParseNormalised(t) == DecimalValue(KeepDigits(t))
  {
    FormattedHasNoKeyword(t);
    assert !IsNoPriceMarker(t) by {
      assert t != "" && t != "-" && t != "n/a" && t != "na" by {
        assert t[0] != "-"[0] && t[0] != "n/a"[0] && t[0] != "na"[0];
      }
    }
    assert Multiplier(t) == 1;
  }

  /** The digits of a lower-cased formatted amount are those of its grouped
      part, and all its characters are of the format's alphabet. */
  lemma LoweredFormatShape(sign: string, g: string)
    requires sign == "" || sign == "-"
    requires forall i :: 0 <= i < |g| ==> g[i] == '.' || IsAsciiDigit(g[i])
    ensures KeepDigits("rp" + sign + g) == KeepDigits(g)
    ensures forall i :: 0 <= i < |"rp" + sign + g| ==> InLoweredFormat(("rp" + sign + g)[i])
  {
    var th := "rp" + sign;
    var t := th + g;
    forall i | 0 <= i < |t| ensures InLoweredFormat(t[i]) {
      if i >= |th| {
        assert t[i] == g[i - |th|];
      }
    }
    KeepDigitsAppend(th, g);
    KeepDigitsOfNonDigits(th);
  }

  /** Reading back a formatted amount gives its magnitude: the sign is not a
      digit and is dropped by the digit filter. */
  lemma FormatRupiahParsesToMagnitude(val: int)
    ensures ParsePriceIdr(Some(FormatRupiah(val))) == Abs(val)
  {
    var sign := if val < 0 then "-" else "";
    var digits := DecDigits(Abs(val));
    var g := Group(digits);
    assert FormatRupiah(val) == "Rp" + sign + g;
    NormaliseFormatted(sign, g);
    LoweredFormatShape(sign, g);
    ParseFormatAlphabet("rp" + sign + g);
  }

  /** The round trip the two helpers promise: a non-negative whole amount
      survives formatting and parsing unchanged. */
  lemma FormatParseRoundTrip(n: nat)
    ensures ParsePriceIdr(Some(FormatPriceIdr(n as real))) == n
  {
    assert RoundHalfEven(n as real) == n;
    FormatRupiahParsesToMagnitude(n);
  }

  /** A place without a price text shows its positive whole price as a
      "Rp" text that parses back to that price. */
  lemma DisplayPriceFromNumberRoundTrip(priceStr: Option<string>, n: nat)
    requires priceStr.None? || Strip(priceStr.value) == []
    requires n > 0
    ensures ParsePriceIdr(Some(DisplayPrice(priceStr, Some(n as real)))) == n
  {
    FormatParseRoundTrip(n);
  }

  // ---------------------------------------------------------------------
  // Worked examples, including the word-boundary rule of the multiplier
  // ---------------------------------------------------------------------

  /** "Rp25.000" is twenty-five thousand rupiah. */
  lemma ParseRpExample(s: string)
    requires s == "Rp25.000"
    ensures ParsePriceIdr(Some(s)) == 25_000
  {
    var g := "25.000";
    assert s == "Rp" + "" + g;
    NormaliseFormatted("", g);
    LoweredFormatShape("", g);
    DigitsOfExample(g);
    ParseFormatAlphabet("rp" + "" + g);
    ValueOfExample();
  }

  lemma DigitsOfExample(g: string)
    requires g == "25.000"
    ensures KeepDigits(g) == "25000"
  {
    var a, dot, b := g[..2], g[2..3], g[3..];
    assert a == "25" && dot == "." && b == "000";
    assert g == a + (dot + b);
    DigitsOfParts(a, dot, b);
    assert a + b == "25000";
  }

  lemma DigitsOfParts(a: string, dot: string, b: string)
    requires AllDigits(a) && AllDigits(b) && forall i :: 0 <= i < |dot| ==> !IsAsciiDigit(dot[i])
    ensures KeepDigits(a + (dot + b)) == a + b
  {
    var tail := dot + b;
    KeepDigitsAppend(dot, b);
    KeepDigitsOfNonDigits(dot);
    KeepDigitsOfDigits(b);
    assert KeepDigits(tail) == b;
    KeepDigitsAppend(a, tail);
    KeepDigitsOfDigits(a);
  }

  lemma ValueOfExample()
    ensures DecimalValue("25000") == 25_000
  {
    assert "25000"[..4] == "2500" && "2500"[..3] == "250" && "250"[..2] == "25" && "25"[..1] == "2";
  }

  /** "10k": there is no word boundary between '0' and 'k', so no thousands
      multiplier applies. */
  lemma TenKIsTen(t: string)
    requires t == "10k"
    ensures ParsePriceIdr(Some(t)) == 10
  {
    ParsePlainText(t);
    GluedKIsUnits(t);
    AmountWithUnitText(t, "10", "k");
    assert DecimalValue("10") == 10 by { assert "10"[..1] == "1"; }
  }

  lemma GluedKIsUnits(t: string)
    requires t == "10k"
    ensures Multiplier(t) == 1
  {
    forall i | 0 <= i <= |t| && OccursAt(t, "k", i) ensures !AtBoundary(t, i) {
      assert t[i..i + 1][0] == t[i];
    }
    AbsentCharNotContained(t, "rb", 0);
    AbsentCharNotContained(t, "ribu", 0);
    AbsentCharNotContained(t, "jt", 0);
    AbsentCharNotContained(t, "juta", 0);
  }

  /** "10 k": the 'k' stands alone, so the amount is in thousands. */
  lemma TenSpaceKIsTenThousand(t: string)
    requires t == "10 k"
    ensures ParsePriceIdr(Some(t)) == 10_000
  {
    ParsePlainText(t);
    SpacedKIsThousands(t);
    AmountWithUnitText(t, "10", " k");
    assert DecimalValue("10") == 10 by { assert "10"[..1] == "1"; }
  }

  lemma SpacedKIsThousands(t: string)
    requires t == "10 k"
    ensures Multiplier(t) == 1_000
  {
    assert OccursAt(t, "k", 3) by { assert t[3..4] == "k"; }
    assert AtBoundary(t, 3) && AtBoundary(t, 4);
    AbsentCharNotContained(t, "jt", 0);
    AbsentCharNotContained(t, "juta", 0);
  }

  /** "1 jt": millions. */
  lemma OneJtIsOneMillion(t: string)
    requires t == "1 jt"
    ensures ParsePriceIdr(Some(t)) == 1_000_000
  {
    ParsePlainText(t);
    assert OccursAt(t, "jt", 2) by { assert t[2..4] == "jt"; }
    AmountWithUnitText(t, "1", " jt");
    assert DecimalValue("1") == 1;
  }

  /** An amount written as digits followed by a unit without digits and
      without the first letters of the free-of-charge words: no marker, no
      free word, and its digits are the amount's. */
  lemma AmountWithUnitText(t: string, d: string, w: string)
    requires t == d + w && |d| > 0 && AllDigits(d)
    requires forall i :: 0 <= i < |w| ==> !IsAsciiDigit(w[i]) && w[i] != 'g' && w[i] != 'f' && w[i] != 'd'
    ensures !IsNoPriceMarker(t) && !MentionsFree(t)
    ensures KeepDigits(t) == d
  {
    assert forall i :: 0 <= i < |t| ==> t[i] != 'g' && t[i] != 'f' && t[i] != 'd' by {
      forall i | 0 <= i < |t| ensures t[i] != 'g' && t[i] != 'f' && t[i] != 'd' {
        if i < |d| { assert t[i] == d[i]; } else { assert t[i] == w[i - |d|]; }
      }
    }
    assert IsAsciiDigit(t[0]);
    AbsentCharNotContained(t, "gratis", 0);
    AbsentCharNotContained(t, "free", 0);
    AbsentCharNotContained(t, "donasi", 0);
    KeepDigitsAppend(d, w);
    KeepDigitsOfDigits(d);
    KeepDigitsOfNonDigits(w);
  }

  /** A free-of-charge text is 0 whatever digits it carries. */
  lemma FreeTextIsZero(t: string)
    requires t == "gratis 5000"
    ensures ParsePriceIdr(Some(t)) == 0
  {
    ParsePlainText(t);
    FreeTextMentionsFree(t);
  }

  lemma FreeTextMentionsFree(t: string)
    requires t == "gratis 5000"
    ensures MentionsFree(t)
  {
    assert t[0..6] == "gratis";
    assert OccursAt(t, "gratis", 0);
  }

  /** 1234567 is written "Rp1.234.567". */
  lemma FormatExample(n: real)
    requires n == 1234567 as real
    ensures FormatPriceIdr(n) == "Rp1.234.567"
  {
    var v := RoundHalfEven(n);
    assert v == 1234567;
    FormatRupiahExample(v);
  }

  lemma FormatRupiahExample(v: int)
    requires v == 1234567
    ensures FormatRupiah(v) == "Rp1.234.567"
  {
    DecDigitsExample(v);
    GroupExample("1234567");
    FormatRupiahOfNonNegative(v);
    RpPrefixExample("1.234.567");
  }

  lemma RpPrefixExample(g: string)
    requires g == "1.234.567"
    ensures "Rp" + g == "Rp1.234.567"
  {
  }

  lemma FormatRupiahOfNonNegative(v: nat)
    ensures FormatRupiah(v) == "Rp" + Group(DecDigits(v))
  {
    assert Abs(v) == v;
    assert "Rp" + "" == "Rp";
  }

  lemma DecDigitsExample(v: nat)
    requires v == 1234567
    ensures DecDigits(v) == "1234567"
  {
    assert DecDigits(1) == "1";
    assert DecDigits(12) == "12";
    assert DecDigits(123) == "123";
    assert DecDigits(1234) == "1234";
    assert DecDigits(12345) == "12345";
    assert DecDigits(123456) == "123456";
  }

  lemma GroupExample(d: string)
    requires d == "1234567"
    ensures Group(d) == "1.234.567"
  {
    GroupOf4("1234");
    assert d[..4] == "1234" && d[4..] == "567";
  }

  lemma GroupOf4(d: string)
    requires d == "1234"
    ensures Group(d) == "1.234"
  {
    assert d[..1] == "1" && d[1..] == "234";
  }
}
