/**
 * Severity classification and percent labels (index.js:19-40).
 * A percentage is an exact real number here; the label is
 * "<emoji> <floor(n)>%", with the emoji chosen from the unfloored value.
 */
module Percent {
  import opened Wrappers
  import opened JsText

  /** The four emoji bands, worst first. */
  datatype Severity = Critical | Warning | Acceptable | Celebrate

  /** The emoji text of each band: 😱, ⚠️ (two code points), ✅ and 🎉. */
  function Glyph(sev: Severity): string
  {
    match sev
    case Critical => "\U{1F631}"
    case Warning => "\U{26A0}\U{FE0F}"
    case Acceptable => "\U{2705}"
    case Celebrate => "\U{1F389}"
  }

  /** Position of a band from worst (0) to best (3). */
  function Rank(sev: Severity): nat
  {
    match sev
    case Critical => 0
    case Warning => 1
    case Acceptable => 2
    case Celebrate => 3
  }

  /** The band a percentage belongs to, stated as ranges. */
  predicate InBand(sev: Severity, n: real)
  {
    match sev
    case Critical => n < 1.0
    case Warning => 1.0 <= n <= 60.0
    case Acceptable => 60.0 < n <= 90.0
    case Celebrate => 90.0 < n
  }

  /** getCoverageEmoji: the first of the three tests that holds picks the band. */
  function CoverageEmoji(n: real): (sev: Severity)
    ensures InBand(sev, n)
  {
    if n < 1.0 then Critical
    else if n <= 60.0 then Warning
    else if n <= 90.0 then Acceptable
    else Celebrate
  }

  /** The ranges partition the reals: a value lies in exactly one band, the one chosen. */
  lemma BandsPartition(n: real, sev: Severity)
    ensures InBand(sev, n) <==> sev == CoverageEmoji(n)
  {
  }

  /** A larger percentage never gets a worse band. */
  lemma SeverityMonotone(n: real, m: real)
    requires n <= m
    ensures Rank(CoverageEmoji(n)) <= Rank(CoverageEmoji(m))
  {
  }

  /** The boundaries: 1 and 60 are warnings, 90 is acceptable, just under 1 is critical. */
  lemma BandBoundaries()
    ensures CoverageEmoji(0.99) == Critical
    ensures CoverageEmoji(1.0) == Warning
    ensures CoverageEmoji(60.0) == Warning
    ensures CoverageEmoji(90.0) == Acceptable
    ensures CoverageEmoji(90.01) == Celebrate
  {
  }

  /** Reads a leading emoji and returns the band with the rest of the text. */
  function ParseSeverity(s: string): Option<(Severity, string)>
  {
    if Glyph(Critical) <= s then Some((Critical, s[|Glyph(Critical)|..]))
    else if Glyph(Warning) <= s then Some((Warning, s[|Glyph(Warning)|..]))
    else if Glyph(Acceptable) <= s then Some((Acceptable, s[|Glyph(Acceptable)|..]))
    else if Glyph(Celebrate) <= s then Some((Celebrate, s[|Glyph(Celebrate)|..]))
    else None
  }

  /** Reads a label "<emoji> <integer>%" back into its band and integer. */
  function ParseLabel(s: string): Option<(Severity, int)>
  {
    match ParseSeverity(s)
    case None => None
    case Some((sev, rest)) =>
      if |rest| >= 2 && rest[0] == ' ' && rest[|rest| - 1] == '%' then
        match ParseInt(rest[1..|rest| - 1])
        case None => None
        case Some(k) => Some((sev, k))
      else None
  }

  lemma ParseSeverityOfGlyph(sev: Severity, rest: string)
    ensures ParseSeverity(Glyph(sev) + rest) == Some((sev, rest))
  {
    var s := Glyph(sev) + rest;
    assert s[..|Glyph(sev)|] == Glyph(sev);
    assert s[|Glyph(sev)|..] == rest;
    assert s[0] == Glyph(sev)[0];
  }

  /** Reading a label gives back the band and the integer it was built from. */
  lemma LabelRoundTrip(sev: Severity, k: int)
    ensures ParseLabel(Glyph(sev) + " " + IntToDecimal(k) + "%") == Some((sev, k))
  {
    var digits := IntToDecimal(k);
    var rest := " " + digits + "%";
    assert Glyph(sev) + " " + digits + "%" == Glyph(sev) + rest;
    ParseSeverityOfGlyph(sev, rest);
    assert rest[1..|rest| - 1] == digits;
  }

  /** The reader accepts only labels built from a band and an integer, so a label's text is fixed by what it reads as. */
  lemma ParseLabelExact(s: string, sev: Severity, k: int)
    requires ParseLabel(s) == Some((sev, k))
    ensures s == Glyph(sev) + " " + IntToDecimal(k) + "%"
  {
    var (sev', rest) := ParseSeverity(s).value;
    assert sev' == sev;
    assert s == Glyph(sev) + rest;
    var digits := rest[1..|rest| - 1];
    ParseIntExact(digits, k);
    assert rest == " " + digits + "%";
  }

  /** A label never holds a newline, so it fits in one table cell of one line. */
  lemma LabelHasNoNewline(sev: Severity, k: int)
    ensures '\n' !in Glyph(sev) + " " + IntToDecimal(k) + "%"
  {
  }

  /** formatPercent: the emoji of the unfloored value, a space, the floor, a percent sign. */
  function FormatPercent(n: real): (text: string)
    ensures ParseLabel(text) == Some((CoverageEmoji(n), n.Floor))
    ensures '\n' !in text
  {
    LabelRoundTrip(CoverageEmoji(n), n.Floor);
    LabelHasNoNewline(CoverageEmoji(n), n.Floor);
    Glyph(CoverageEmoji(n)) + " " + IntToDecimal(n.Floor) + "%"
  }

  /** Two examples of the emoji being chosen before flooring. */
  lemma FormatPercentExamples()
    ensures FormatPercent(60.5) == "\U{2705} 60%"
    ensures FormatPercent(0.5) == "\U{1F631} 0%"
  {
  }

  /** multiplyBy100: a ratio as a percentage. */
  function MultiplyBy100(ratio: real): (pct: real)
    ensures pct / 100.0 == ratio
    ensures 0.0 <= ratio <= 1.0 ==> 0.0 <= pct <= 100.0
  {
    ratio * 100.0
  }

  /** The band of covered/all as a percentage, decided on integers alone (all > 0). */
  function BandOfCounts(covered: int, all: int): Severity
    requires all > 0
  {
    if covered * 100 < all then Critical
    else if covered * 100 <= 60 * all then Warning
    else if covered * 100 <= 90 * all then Acceptable
    else Celebrate
  }

  /** The real percentage covered/all*100, for all > 0, times all is covered*100. */
  lemma PercentTimesAll(covered: int, all: int)
    requires all > 0
    ensures MultiplyBy100(covered as real / all as real) * all as real == (covered * 100) as real
  {
  }

  /** A percentage p with p * all == x compares with k as x compares with k * all. */
  lemma CompareScaled(p: real, all: int, x: int, k: int)
    requires all > 0 && p * all as real == x as real
    ensures p < k as real <==> x < k * all
    ensures p <= k as real <==> x <= k * all
  {
  }

  /** The emoji of covered/all*100 is the band BandOfCounts decides on integers. */
  lemma RatioBand(covered: int, all: int)
    requires all > 0
    ensures CoverageEmoji(MultiplyBy100(covered as real / all as real)) == BandOfCounts(covered, all)
  {
    var p := MultiplyBy100(covered as real / all as real);
    PercentTimesAll(covered, all);
    CompareScaled(p, all, covered * 100, 1);
    CompareScaled(p, all, covered * 100, 60);
    CompareScaled(p, all, covered * 100, 90);
  }

  /** The displayed integer of covered/all*100 is the integer quotient covered*100 / all. */
  lemma RatioFloor(covered: int, all: int)
    requires all > 0
    ensures MultiplyBy100(covered as real / all as real).Floor == (covered * 100) / all
  {
    var p := MultiplyBy100(covered as real / all as real);
    var x := covered * 100;
    var q := x / all;
    assert q * all <= x < q * all + all;
    assert (q + 1) * all == q * all + all;
    PercentTimesAll(covered, all);
    CompareScaled(p, all, x, q);
    CompareScaled(p, all, x, q + 1);
    assert q as real <= p < (q + 1) as real;
  }

  /** With 0 <= covered <= all and all > 0 the displayed integer lies in 0..100. */
  lemma QuotientInRange(covered: int, all: int)
    requires all > 0 && 0 <= covered <= all
    ensures 0 <= (covered * 100) / all <= 100
  {
  }

  /** A ratio of 1 renders as a full-coverage label. */
  lemma FullCoverageLabel()
    ensures FormatPercent(MultiplyBy100(1.0)) == "\U{1F389} 100%"
  {
    assert (100.0).Floor == 100;
    assert NatToDecimal(100) == "100";
  }

  /** What the label of covered/all*100 reads as when the total is positive. */
  lemma CountsLabel(covered: int, all: int)
    requires all != 0
    ensures all > 0 ==>
      ParseLabel(FormatPercent(MultiplyBy100(covered as real / all as real))) ==
      Some((BandOfCounts(covered, all), (covered * 100) / all))
    ensures all > 0 && 0 <= covered <= all ==> 0 <= (covered * 100) / all <= 100
  {
    if all > 0 {
      RatioBand(covered, all);
      RatioFloor(covered, all);
      if 0 <= covered <= all {
        QuotientInRange(covered, all);
      }
    }
  }

  /** getCoveragePercent: a zero total reads as 100%, otherwise covered/all as a percentage. */
  function CoveragePercent(covered: int, all: int): (text: string)
    ensures all == 0 ==> text == "\U{1F389} 100%"
    ensures all > 0 ==> ParseLabel(text) == Some((BandOfCounts(covered, all), (covered * 100) / all))
    ensures all > 0 && 0 <= covered <= all ==>
      ParseLabel(text).Some? && 0 <= ParseLabel(text).value.1 <= 100
    ensures '\n' !in text
  {
    if all == 0 then
      FullCoverageLabel();
      FormatPercent(MultiplyBy100(1.0))
    else
      CountsLabel(covered, all);
      FormatPercent(MultiplyBy100(covered as real / all as real))
  }
}
