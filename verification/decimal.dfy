/** Zero-padded decimal fields and calendar dates as the source prints them
    (`date.isoformat()` gives "YYYY-MM-DD"), with the decoding that undoes the
    printing. */
module Decimal {
  import Text

  predicate IsDigit(c: char) { '0' <= c <= '9' }

  function DigitChar(d: nat): (c: char)
    requires d < 10
    ensures IsDigit(c)
  {
    ('0' as int + d) as char
  }

  function DigitValue(c: char): (d: nat)
    requires IsDigit(c)
    ensures d < 10
  {
    c as int - '0' as int
  }

  function Pow10(w: nat): (p: nat)
    ensures p >= 1
  {
    if w == 0 then 1 else 10 * Pow10(w - 1)
  }

  lemma Pow10Widths()
    ensures Pow10(2) == 100 && Pow10(4) == 10000
  {
    assert Pow10(1) == 10;
    assert Pow10(3) == 1000;
  }

  /** The value of a string of decimal digits, most significant first. */
  function Value(s: string): nat
    requires forall i :: 0 <= i < |s| ==> IsDigit(s[i])
    decreases |s|
  {
    if |s| == 0 then 0 else 10 * Value(s[..|s| - 1]) + DigitValue(s[|s| - 1])
  }

  /** `"%0*d" % (w, n)` for n below 10^w: exactly w decimal digits. */
  function Pad(n: nat, w: nat): (r: string)
    requires n < Pow10(w)
    ensures |r| == w
    ensures forall i :: 0 <= i < |r| ==> IsDigit(r[i])
    decreases w
  {
    if w == 0 then "" else Pad(n / 10, w - 1) + [DigitChar(n % 10)]
  }

  /** The padded digits read back as the number they were printed from. */
  lemma {:induction false} PadValue(n: nat, w: nat)
    requires n < Pow10(w)
    ensures Value(Pad(n, w)) == n
    decreases w
  {
    if w > 0 {
      var r := Pad(n, w);
      assert r[..w - 1] == Pad(n / 10, w - 1);
      PadValue(n / 10, w - 1);
    }
  }

  datatype Date = Date(year: nat, month: nat, day: nat)

  /** The dates a parsed timestamp can denote (month lengths are not checked). */
  predicate ValidDate(d: Date)
  {
    1 <= d.year <= 9999 && 1 <= d.month <= 12 && 1 <= d.day <= 31
  }

  /** `date.isoformat()`: "YYYY-MM-DD". */
  function IsoDate(d: Date): (r: string)
    requires ValidDate(d)
    ensures |r| == 10 && r[4] == '-' && r[7] == '-'
  {
    Pow10Widths();
    Pad(d.year, 4) + "-" + Pad(d.month, 2) + "-" + Pad(d.day, 2)
  }

  /** The ISO date with its hyphens removed: "YYYYMMDD". */
  function CompactDate(d: Date): (r: string)
    requires ValidDate(d)
    ensures |r| == 8
    ensures forall i :: 0 <= i < |r| ==> IsDigit(r[i])
  {
    Pow10Widths();
    Pad(d.year, 4) + Pad(d.month, 2) + Pad(d.day, 2)
  }

  /** Deleting the hyphens of the ISO date (and any other non-digits, which
      it does not contain) leaves the compact date. */
  lemma IsoDateWithoutHyphens(d: Date, drop: set<char>)
    requires ValidDate(d)
    requires '-' in drop && forall c :: c in drop ==> !IsDigit(c)
    ensures Text.Remove(IsoDate(d), drop) == CompactDate(d)
  {
    Pow10Widths();
    var y, m, dd := Pad(d.year, 4), Pad(d.month, 2), Pad(d.day, 2);
    Text.RemoveSeparators(y, m, dd, '-', drop);
    assert y + "-" + m + "-" + dd == y + ['-'] + m + ['-'] + dd;
  }

  /** The compact date reads back as the date it was printed from. */
  lemma {:induction false} CompactDateDecodes(d: Date)
    requires ValidDate(d)
    ensures var s := CompactDate(d);
      Value(s[..4]) == d.year && Value(s[4..6]) == d.month && Value(s[6..]) == d.day
  {
    Pow10Widths();
    var s := CompactDate(d);
    assert s[..4] == Pad(d.year, 4);
    assert s[4..6] == Pad(d.month, 2);
    assert s[6..] == Pad(d.day, 2);
    PadValue(d.year, 4);
    PadValue(d.month, 2);
    PadValue(d.day, 2);
  }
}
