/**
 * Result-file names of the main engine (compare_engine.py,
 * `build_output_filename` and `parse_result_filename`): `ECR-<stem>_<stamp>.pdf`
 * with the stamp written `%Y%m%d-%H%M%S`. A path is modelled by its final
 * component, the file name; the clock reading is a parameter.
 */
module EngineNames {
  import opened Wrappers
  import opened Text

  /** A `datetime` to the second. */
  datatype DateTime = DateTime(year: nat, month: nat, day: nat, hour: nat, minute: nat, second: nat)

  predicate IsLeap(y: int) { y % 4 == 0 && (y % 100 != 0 || y % 400 == 0) }

  function DaysIn(y: int, m: int): int {
    if m == 2 then (if IsLeap(y) then 29 else 28)
    else if m == 4 || m == 6 || m == 9 || m == 11 then 30
    else 31
  }

  /** The values `datetime` accepts, with the year written in four digits. */
  predicate Valid(t: DateTime) {
    1 <= t.year <= 9999 && 1 <= t.month <= 12 && 1 <= t.day <= DaysIn(t.year, t.month)
    && t.hour < 24 && t.minute < 60 && t.second < 60
  }

  function Pow10(w: nat): nat { if w == 0 then 1 else 10 * Pow10(w - 1) }

  /** `n` in exactly `w` decimal digits, zero-padded on the left. */
  function Padded(n: nat, w: nat): (s: string)
    ensures |s| == w && AllDigits(s)
  {
    if w == 0 then [] else Padded(n / 10, w - 1) + [DigitChar(n % 10)]
  }

  lemma {:induction false} PaddedValue(n: nat, w: nat)
    requires n < Pow10(w)
    ensures DigitsValue(Padded(n, w)) == n
  {
    if w > 0 {
      PaddedValue(n / 10, w - 1);
      var s := Padded(n, w);
      assert s[..|s| - 1] == Padded(n / 10, w - 1);
    }
  }

  lemma {:induction false} PaddedOfValue(d: string)
    requires AllDigits(d)
    ensures Padded(DigitsValue(d), |d|) == d
  {
    if d != [] {
      var init := d[..|d| - 1];
      PaddedOfValue(init);
      assert DigitsValue(d) / 10 == DigitsValue(init);
    }
  }

  /** `strftime("%Y%m%d-%H%M%S")`. */
  function Format(t: DateTime): (s: string)
    ensures |s| == 15 && s[8] == '-'
  {
    Padded(t.year, 4) + Padded(t.month, 2) + Padded(t.day, 2) + "-"
      + Padded(t.hour, 2) + Padded(t.minute, 2) + Padded(t.second, 2)
  }

  /** The digits of `s[i..j]` as a number, when they are all digits. */
  function Field(s: string, i: nat, j: nat): Option<nat> {
    if i <= j <= |s| && AllDigits(s[i..j]) then Some(DigitsValue(s[i..j])) else None
  }

  /** `datetime.strptime(s, "%Y%m%d-%H%M%S")` on the zero-padded form. */
  function ParseStamp(s: string): Option<DateTime> {
    if |s| != 15 || s[8] != '-' then None
    else
      var y, mo, d := Field(s, 0, 4), Field(s, 4, 6), Field(s, 6, 8);
      var h, mi, se := Field(s, 9, 11), Field(s, 11, 13), Field(s, 13, 15);
      if y.None? || mo.None? || d.None? || h.None? || mi.None? || se.None? then None
      else
        var t := DateTime(y.value, mo.value, d.value, h.value, mi.value, se.value);
        if Valid(t) then Some(t) else None
  }

  /** `PurePath.stem`: the name without its last suffix. */
  function Stem(name: string): string {
    var i := LastIndex(name, '.');
    if 0 < i < |name| - 1 then name[..i] else name
  }

  const Prefix: string := "ECR-"

  /** `build_output_filename` of a file named `name`, at the clock reading `now`. */
  function BuildOutputFilename(name: string, now: DateTime): string
    requires Valid(now)
  {
    var base := if Stem(name) != "" then Stem(name) else name;
    Prefix + base + "_" + Format(now) + ".pdf"
  }

  /** `parse_result_filename`: the base name and the timestamp, or None. */
  function ParseResultFilename(name: string): Option<(string, DateTime)> {
    var stem := Stem(name);
    if !StartsWith(stem, Prefix) then None
    else
      var rest := stem[4..];
      var k := LastIndex(rest, '_');
      if k < 0 then None
      else
        var t := ParseStamp(rest[k + 1..]);
        if t.None? then None else Some((rest[..k], t.value))
  }

  /** Reading a formatted stamp gives the same date and time back. */
  lemma ParseFormat(t: DateTime)
    requires Valid(t)
    ensures ParseStamp(Format(t)) == Some(t)
  {
    var s := Format(t);
    assert s[0..4] == Padded(t.year, 4);
    assert s[4..6] == Padded(t.month, 2);
    assert s[6..8] == Padded(t.day, 2);
    assert s[9..11] == Padded(t.hour, 2);
    assert s[11..13] == Padded(t.minute, 2);
    assert s[13..15] == Padded(t.second, 2);
    PaddedValue(t.year, 4);
    PaddedValue(t.month, 2);
    PaddedValue(t.day, 2);
    PaddedValue(t.hour, 2);
    PaddedValue(t.minute, 2);
    PaddedValue(t.second, 2);
  }

  /** A stamp that parses is exactly the formatted form of what it parses to. */
  lemma FormatParse(s: string)
    requires ParseStamp(s).Some?
    ensures Valid(ParseStamp(s).value) && Format(ParseStamp(s).value) == s
  {
    var t := ParseStamp(s).value;
    assert t.year == DigitsValue(s[0..4]) && t.month == DigitsValue(s[4..6]) && t.day == DigitsValue(s[6..8]);
    assert t.hour == DigitsValue(s[9..11]) && t.minute == DigitsValue(s[11..13]) && t.second == DigitsValue(s[13..15]);
    PaddedOfValue(s[0..4]);
    PaddedOfValue(s[4..6]);
    PaddedOfValue(s[6..8]);
    PaddedOfValue(s[9..11]);
    PaddedOfValue(s[11..13]);
    PaddedOfValue(s[13..15]);
    StampPieces(s);
  }

  lemma StampPieces(s: string)
    requires |s| == 15 && s[8] == '-'
    ensures s == s[0..4] + s[4..6] + s[6..8] + "-" + s[9..11] + s[11..13] + s[13..15]
  {
  }

  /** A stamp holds no `.` and no `_`. */
  lemma FormatChars(t: DateTime)
    ensures forall j :: 0 <= j < |Format(t)| ==> Format(t)[j] != '.' && Format(t)[j] != '_'
  {
    var s := Format(t);
    forall j | 0 <= j < |s|
      ensures s[j] != '.' && s[j] != '_'
    {
      if j != 8 {
        assert j < 8 ==> s[j] == s[..8][j];
        assert j > 8 ==> s[j] == s[9..][j - 9];
        assert AllDigits(s[..8]) && AllDigits(s[9..]) by { FormatDigits(t); }
      }
    }
  }

  lemma FormatDigits(t: DateTime)
    ensures AllDigits(Format(t)[..8]) && AllDigits(Format(t)[9..])
  {
    var s := Format(t);
    assert s[..8] == Padded(t.year, 4) + Padded(t.month, 2) + Padded(t.day, 2);
    assert s[9..] == Padded(t.hour, 2) + Padded(t.minute, 2) + Padded(t.second, 2);
  }

  /**
   * For a clock reading to the second, parsing the built name gives back
   * the stem of the input file and the timestamp.
   */
  lemma RoundTrip(name: string, now: DateTime)
    requires Valid(now)
    ensures var base := if Stem(name) != "" then Stem(name) else name;
            ParseResultFilename(BuildOutputFilename(name, now)) == Some((base, now))
  {
    var base := if Stem(name) != "" then Stem(name) else name;
    ParseBuilt(base, now);
  }

  lemma ParseBuilt(base: string, now: DateTime)
    requires Valid(now)
    ensures ParseResultFilename(Prefix + base + "_" + Format(now) + ".pdf") == Some((base, now))
  {
    FormatChars(now);
    ParseFormat(now);
    ParseName(base, Format(now), now);
  }

  /** The name built around a stamp `f` with no `.` and no `_` parses to the base and the stamp's value. */
  lemma ParseName(base: string, f: string, t: DateTime)
    requires forall j :: 0 <= j < |f| ==> f[j] != '.' && f[j] != '_'
    requires ParseStamp(f) == Some(t)
    ensures ParseResultFilename(Prefix + base + "_" + f + ".pdf") == Some((base, t))
  {
    var stem := Prefix + base + "_" + f;
    StemPdf(stem);
    var rest := stem[4..];
    assert rest == base + ['_'] + f;
    LastIndexAt(base, '_', f);
    assert rest[..|base|] == base && rest[|base| + 1..] == f;
  }

  /** The last `c` of `p + [c] + q` is the one after `p` when `q` holds none. */
  lemma LastIndexAt(p: string, c: char, q: string)
    requires forall j :: 0 <= j < |q| ==> q[j] != c
    ensures LastIndex(p + [c] + q, c) == |p|
  {
    var s := p + [c] + q;
    var r := LastIndex(s, c);
    assert s[|p|] == c;
  }

  /** A name ending in `.pdf` has the rest as its stem. */
  lemma StemPdf(stem: string)
    requires stem != []
    ensures Stem(stem + ".pdf") == stem
  {
    LastIndexAt(stem, '.', "pdf");
    assert stem + ".pdf" == stem + ['.'] + "pdf";
    assert (stem + ".pdf")[..|stem|] == stem;
  }

  /** Names not starting with `ECR-`, without `_` after it, or with a bad stamp give None. */
  lemma Rejects(name: string)
    ensures !StartsWith(Stem(name), Prefix) ==> ParseResultFilename(name).None?
    ensures StartsWith(Stem(name), Prefix) && LastIndex(Stem(name)[4..], '_') < 0 ==>
              ParseResultFilename(name).None?
    ensures ParseResultFilename(name).Some? ==>
              var rest := Stem(name)[4..];
              var k := LastIndex(rest, '_');
              0 <= k && ParseStamp(rest[k + 1..]) == Some(ParseResultFilename(name).value.1)
  {
  }
}
