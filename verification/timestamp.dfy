/** `_stringToUTC`: the modem's clock format "YY/MM/DD,HH:MM:SS±ZZ",
    checked separator by separator and cut into the fields of a `struct tm`,
    which `mktime` turns into a time value. `mktime` belongs to the C library
    and is not modelled: it is passed in as an arbitrary function. */
module Timestamp {
  import opened CText

  datatype Option<T> = None | Some(value: T)

  /** The fields of `struct tm` that the decoder sets; the others are left
      for `mktime` to compute. */
  datatype Tm = Tm(year: int, mon: int, mday: int, hour: int, min: int, sec: int, isdst: int)

  /** The separators of the layout: an offset and the characters allowed
      there. */
  const Separators: seq<(nat, string)> := [(2, "/"), (5, "/"), (8, ","), (11, ":"), (14, ":"), (17, "+-")]

  /** Text the decoder accepts: 20 characters or more, each separator in
      place. The two-digit fields and the zone digits are not checked. */
  predicate LaidOut(text: string)
  {
    |text| >= 20 && forall k :: 0 <= k < |Separators| ==> text[Separators[k].0] in Separators[k].1
  }

  lemma LaidOutAt(text: string)
    ensures LaidOut(text) <==> (|text| >= 20 && text[2] == '/' && text[5] == '/' && text[8] == ','
                                && text[11] == ':' && text[14] == ':' && text[17] in "+-")
  {
    if |text| >= 20 {
      assert Separators[0] == (2, "/") && Separators[1] == (5, "/") && Separators[2] == (8, ",");
      assert Separators[3] == (11, ":") && Separators[4] == (14, ":") && Separators[5] == (17, "+-");
    }
  }

  /** `atoi` of the two characters at `at`, as copied into the decoder's
      three-char scratch buffer. */
  function Pair(text: string, at: nat): int
    requires at + 2 <= |text|
  {
    Atoi(text[at..at + 2])
  }

  /** The checks and the field extraction, in the order the decoder makes
      them; the year is stored as 2000 + YY - 1870 and the month from 0. */
  function DecodeTimestamp(text: string): (r: Option<Tm>)
    ensures r.Some? <==> LaidOut(text)
  {
    LaidOutAt(text);
    if |text| < 20 then None
    else if text[2] != '/' then None
    else if text[5] != '/' then None
    else if text[8] != ',' then None
    else if text[11] != ':' then None
    else if text[14] != ':' then None
    else if text[17] != '+' && text[17] != '-' then None
    else Some(Tm((2000 + Pair(text, 0)) - 1870, Pair(text, 3) - 1, Pair(text, 6),
                 Pair(text, 9), Pair(text, 12), Pair(text, 15), -1))
  }

  /** `_stringToUTC`: -1 for text the decoder rejects, `mktime` of the
      fields otherwise. */
  function StringToUTC(text: string, mktime: Tm -> int): (r: int)
    ensures !LaidOut(text) ==> r == -1
    ensures LaidOut(text) ==> r == mktime(DecodeTimestamp(text).value)
  {
    match DecodeTimestamp(text)
    case None => -1
    case Some(t) => mktime(t)
  }

  /** Two decimal digits. */
  function Two(n: nat): (s: string)
    requires n < 100
    ensures |s| == 2
  {
    [Digit(n / 10), Digit(n % 10)]
  }

  lemma AtoiTwo(n: nat)
    requires n < 100
    ensures Atoi(Two(n)) == n
  {
    var s := Two(n);
    assert !IsSpace(s[0]) && s[0] != '-' && s[0] != '+';
    assert LeadingDigits(s, 0) == LeadingDigits(s[1..], n / 10);
    assert LeadingDigits(s[1..], n / 10) == LeadingDigits(s[1..][1..], n / 10 * 10 + n % 10);
    assert s[1..][1..] == [];
  }

  /** The text the modem sends for a date, a time and a zone offset in
      quarter hours. */
  function Layout(yy: nat, mo: nat, dd: nat, hh: nat, mi: nat, ss: nat, sign: char, zone: nat): (s: string)
    requires yy < 100 && mo < 100 && dd < 100 && hh < 100 && mi < 100 && ss < 100 && zone < 100
    ensures |s| == 20
  {
    [Digit(yy / 10), Digit(yy % 10), '/', Digit(mo / 10), Digit(mo % 10), '/', Digit(dd / 10), Digit(dd % 10), ',',
     Digit(hh / 10), Digit(hh % 10), ':', Digit(mi / 10), Digit(mi % 10), ':', Digit(ss / 10), Digit(ss % 10),
     sign, Digit(zone / 10), Digit(zone % 10)]
  }

  /** Decoding a timestamp the modem sent gives back its fields: the year
      shifted by 130 (years since 1900, plus 30), the month counted from 0,
      the rest as written; the zone is dropped. */
  lemma {:induction false} DecodeLayout(yy: nat, mo: nat, dd: nat, hh: nat, mi: nat, ss: nat, sign: char, zone: nat)
    requires yy < 100 && mo < 100 && dd < 100 && hh < 100 && mi < 100 && ss < 100 && zone < 100
    requires sign == '+' || sign == '-'
    ensures DecodeTimestamp(Layout(yy, mo, dd, hh, mi, ss, sign, zone))
         == Some(Tm(130 + yy, mo - 1, dd, hh, mi, ss, -1))
  {
    var t := Layout(yy, mo, dd, hh, mi, ss, sign, zone);
    PairAt(t, 0, yy); PairAt(t, 3, mo); PairAt(t, 6, dd);
    PairAt(t, 9, hh); PairAt(t, 12, mi); PairAt(t, 15, ss);
    DecodeFields(t, yy, mo, dd, hh, mi, ss);
  }

  /** Text with the separators in place decodes to the numbers its pairs
      spell. */
  lemma DecodeFields(t: string, yy: nat, mo: nat, dd: nat, hh: nat, mi: nat, ss: nat)
    requires |t| >= 20 && t[2] == '/' && t[5] == '/' && t[8] == ',' && t[11] == ':' && t[14] == ':'
    requires t[17] == '+' || t[17] == '-'
    requires Pair(t, 0) == yy && Pair(t, 3) == mo && Pair(t, 6) == dd
    requires Pair(t, 9) == hh && Pair(t, 12) == mi && Pair(t, 15) == ss
    ensures DecodeTimestamp(t) == Some(Tm(130 + yy, mo - 1, dd, hh, mi, ss, -1))
  {
  }

  /** Two digit characters at `at` read back as the number they spell. */
  lemma PairAt(t: string, at: nat, n: nat)
    requires n < 100 && at + 2 <= |t|
    requires t[at] == Digit(n / 10) && t[at + 1] == Digit(n % 10)
    ensures Pair(t, at) == n
  {
    assert t[at..at + 2] == Two(n);
    AtoiTwo(n);
  }

  /** The zone digits at offsets 18 and 19, and anything after them, are
      never read. */
  lemma ZoneIgnored(t1: string, t2: string)
    requires |t1| >= 20 && |t2| >= 20 && t1[..18] == t2[..18]
    ensures DecodeTimestamp(t1) == DecodeTimestamp(t2)
  {
    assert forall j :: 0 <= j < 18 ==> t1[j] == t1[..18][j] == t2[j];
    assert t1[0..2] == t2[0..2] && t1[3..5] == t2[3..5] && t1[6..8] == t2[6..8];
    assert t1[9..11] == t2[9..11] && t1[12..14] == t2[12..14] && t1[15..17] == t2[15..17];
  }
}
