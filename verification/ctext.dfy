/** C character buffers and the C library routines the driver applies to
    them: `strlen`, `atoi`, and decimal printing of a `uint8_t`. */
module CText {

  newtype uint8 = x: int | 0 <= x < 256

  /** The text a NUL-terminated buffer holds: its characters before the
      first NUL (all of them when it holds none). */
  function CStr(buf: seq<char>): (s: string)
    ensures |s| <= |buf| && s == buf[..|s|]
    ensures '\0' !in s
    ensures |s| < |buf| ==> buf[|s|] == '\0'
  {
    if buf == [] || buf[0] == '\0' then [] else [buf[0]] + CStr(buf[1..])
  }

  /** The text a buffer holds is the part before its first NUL, whatever
      follows it. */
  lemma {:induction false} CStrOfTerminated(s: string, tail: seq<char>)
    requires '\0' !in s
    ensures CStr(s + ['\0'] + tail) == s
  {
    if s != [] {
      assert (s + ['\0'] + tail)[1..] == s[1..] + ['\0'] + tail;
      CStrOfTerminated(s[1..], tail);
    }
  }

  lemma {:induction false} CStrPrefix(s: string, tail: seq<char>)
    ensures CStr(s + ['\0'] + tail) == CStr(s)
  {
    if s != [] && s[0] != '\0' {
      assert (s + ['\0'] + tail)[1..] == s[1..] + ['\0'] + tail;
      CStrPrefix(s[1..], tail);
    }
  }

  function Min(a: int, b: int): int { if a < b then a else b }

  /** Number of field characters a buffer of `size` chars keeps: one place
      is always left for the terminator, and a size of 0 or less keeps none. */
  function Room(size: int): nat { if size > 0 then size - 1 else 0 }

  /** The leading part of `field` that fits a buffer of `size` chars. */
  function Kept(field: string, size: int): (r: string)
    ensures |r| <= Room(size) && |r| <= |field| && r == field[..|r|]
    ensures |field| <= Room(size) ==> r == field
    ensures |field| > Room(size) ==> |r| == Room(size)
  {
    field[..Min(|field|, Room(size))]
  }

  /** The buffer `buf` after `field` has been copied into its first `size`
      places, truncated and NUL-terminated; `size` 0 (no buffer) writes
      nothing. */
  function Stored(buf: seq<char>, field: string, size: int): (r: seq<char>)
    requires size <= |buf|
    ensures |r| == |buf|
    ensures forall j :: Room(size) < j < |buf| ==> r[j] == buf[j]
    ensures size <= 0 ==> r == buf
    ensures size > 0 ==> r[..|Kept(field, size)|] == Kept(field, size)
                         && r[|Kept(field, size)|] == '\0'
  {
    if size <= 0 then buf
    else
      var k := |Kept(field, size)|;
      Kept(field, size) + ['\0'] + buf[k + 1..]
  }

  /** Whatever the buffer held before, its text afterwards is the kept part
      of the field (up to a NUL the field itself may carry). */
  lemma StoredText(buf: seq<char>, field: string, size: int)
    requires 0 < size <= |buf|
    ensures CStr(Stored(buf, field, size)) == CStr(Kept(field, size))
    ensures |CStr(Stored(buf, field, size))| <= size - 1
    ensures '\0' in Stored(buf, field, size)
  {
    var k := |Kept(field, size)|;
    CStrPrefix(Kept(field, size), buf[k + 1..]);
    assert Stored(buf, field, size)[k] == '\0';
  }

  /** A field of `size - 1` characters or more, with no NUL in it, is cut
      to exactly its first `size - 1` characters. */
  lemma StoredTruncates(buf: seq<char>, field: string, size: int)
    requires 0 < size <= |buf| && size - 1 <= |field| && '\0' !in field
    ensures CStr(Stored(buf, field, size)) == field[..size - 1]
  {
    StoredText(buf, field, size);
    var k := Kept(field, size);
    assert k == field[..size - 1];
    assert '\0' !in k by {
      forall j | 0 <= j < |k|
        ensures k[j] != '\0'
      {
        assert k[j] == field[j];
      }
    }
    CStrOfTerminated(k, []);
    assert k + ['\0'] + [] == k + ['\0'];
    CStrPrefix(k, []);
  }

  /** One more field character: while there is room it goes after the
      kept part and the terminator moves one place on; otherwise the buffer
      is left as it was. */
  lemma StoredGrows(buf: seq<char>, field: string, c: char, size: int)
    requires size <= |buf|
    ensures var k := |Kept(field, size)|;
      k < Room(size) ==> Stored(buf, field + [c], size) == Stored(buf, field, size)[k := c][k + 1 := '\0']
    ensures |Kept(field, size)| >= Room(size) ==> Stored(buf, field + [c], size) == Stored(buf, field, size)
  {
    var k := |Kept(field, size)|;
    if k < Room(size) {
      assert Kept(field + [c], size) == Kept(field, size) + [c];
      var a := Stored(buf, field + [c], size);
      var b := Stored(buf, field, size)[k := c][k + 1 := '\0'];
      assert |a| == |b|;
      forall j | 0 <= j < |a|
        ensures a[j] == b[j]
      {
        if j < k {
          assert a[j] == Kept(field, size)[j];
        }
      }
    } else {
      assert Kept(field + [c], size) == Kept(field, size);
    }
  }

  /** `isspace` in the C locale. */
  predicate IsSpace(c: char) { c == ' ' || '\t' <= c <= '\r' }

  predicate IsDigit(c: char) { '0' <= c <= '9' }

  function DigitValue(c: char): nat
    requires IsDigit(c)
  {
    c as int - '0' as int
  }

  function Digit(d: nat): (c: char)
    requires d < 10
    ensures IsDigit(c) && DigitValue(c) == d
  {
    ('0' as int + d) as char
  }

  /** Decimal value of the digits at the front of `s`, accumulated onto `acc`
      as `strtol` does; it stops at the first non-digit. */
  function LeadingDigits(s: string, acc: nat): nat
    decreases |s|
  {
    if s != [] && IsDigit(s[0]) then LeadingDigits(s[1..], acc * 10 + DigitValue(s[0])) else acc
  }

  /** C `atoi`: leading white space, an optional sign, then decimal digits;
      anything else ends the number, and text with no digits gives 0. */
  function Atoi(s: string): (r: int)
    ensures s == [] ==> r == 0
    ensures s != [] && !IsSpace(s[0]) && !IsDigit(s[0]) && s[0] != '-' && s[0] != '+' ==> r == 0
    decreases |s|
  {
    if s != [] && IsSpace(s[0]) then Atoi(s[1..])
    else if s != [] && s[0] == '-' then 0 - LeadingDigits(s[1..], 0)
    else if s != [] && s[0] == '+' then LeadingDigits(s[1..], 0)
    else LeadingDigits(s, 0)
  }

  function Pow10(n: nat): (p: nat)
    ensures p >= 1
  {
    if n == 0 then 1 else 10 * Pow10(n - 1)
  }

  lemma {:induction false} LeadingDigitsBound(s: string, acc: nat)
    ensures LeadingDigits(s, acc) <= (acc + 1) * Pow10(|s|) - 1
  {
    if s != [] && IsDigit(s[0]) {
      var p := Pow10(|s| - 1);
      LeadingDigitsBound(s[1..], acc * 10 + DigitValue(s[0]));
      ScaleStep(acc, DigitValue(s[0]), p);
      assert Pow10(|s|) == 10 * p;
    } else {
      MulMonotone(1, Pow10(|s|), acc + 1);
    }
  }

  /** `atoi` of at most `n` characters lies strictly between `-10^(n-1)`
      and `10^n`. */
  lemma {:induction false} AtoiBound(s: string, n: nat)
    requires 1 <= n && |s| <= n
    ensures -(Pow10(n - 1) - 1) <= Atoi(s) <= Pow10(n) - 1
    decreases |s|
  {
    if s != [] && IsSpace(s[0]) {
      AtoiBound(s[1..], n);
    } else if s != [] && (s[0] == '-' || s[0] == '+') {
      var v := LeadingDigits(s[1..], 0);
      LeadingDigitsBound(s[1..], 0);
      assert v <= Pow10(|s[1..]|) - 1;
      Pow10Monotone(|s[1..]|, n - 1);
      Pow10Monotone(n - 1, n);
      assert Atoi(s) == 0 - v || Atoi(s) == v;
    } else {
      LeadingDigitsBound(s, 0);
      assert Atoi(s) <= Pow10(|s|) - 1;
      Pow10Monotone(|s|, n);
    }
  }

  /** One more digit multiplies the bound by ten. */
  lemma ScaleStep(acc: nat, d: nat, p: nat)
    requires d < 10
    ensures (acc * 10 + d + 1) * p <= (acc + 1) * (10 * p)
  {
    MulMonotone(acc * 10 + d + 1, (acc + 1) * 10, p);
    assert (acc + 1) * 10 * p == (acc + 1) * (10 * p);
  }

  lemma MulMonotone(a: nat, b: nat, c: nat)
    requires a <= b
    ensures a * c <= b * c
  {
  }

  lemma {:induction false} Pow10Monotone(a: nat, b: nat)
    requires a <= b
    ensures Pow10(a) <= Pow10(b)
    decreases b
  {
    if a < b { Pow10Monotone(a, b - 1); }
  }

  /** What `print` writes for an unsigned number: its decimal digits, without
      leading zeros. */
  function Decimal(n: nat): (s: string)
    ensures s != [] && forall i :: 0 <= i < |s| ==> IsDigit(s[i])
    ensures n < 10 ==> |s| == 1
    ensures n >= 10 ==> |s| == |Decimal(n / 10)| + 1
  {
    if n < 10 then [Digit(n)] else Decimal(n / 10) + [Digit(n % 10)]
  }

  lemma {:induction false} DecimalLength(n: nat, k: nat)
    requires n < Pow10(k) && k >= 1
    ensures |Decimal(n)| <= k
    decreases k
  {
    if n >= 10 {
      assert n / 10 < Pow10(k - 1);
      DecimalLength(n / 10, k - 1);
    }
  }

  lemma {:induction false} LeadingDigitsAppend(p: string, q: string, acc: nat)
    requires forall i :: 0 <= i < |p| ==> IsDigit(p[i])
    ensures LeadingDigits(p + q, acc) == LeadingDigits(q, LeadingDigits(p, acc))
    decreases |p|
  {
    if p == [] {
      assert p + q == q;
    } else {
      assert (p + q)[0] == p[0] && (p + q)[1..] == p[1..] + q;
      LeadingDigitsAppend(p[1..], q, acc * 10 + DigitValue(p[0]));
    }
  }

  /** `atoi` reads back what `print` wrote for a number. */
  lemma {:induction false} AtoiDecimal(n: nat)
    ensures Atoi(Decimal(n)) == n
  {
    DigitsValue(n);
  }

  lemma {:induction false} DigitsValue(n: nat)
    ensures LeadingDigits(Decimal(n), 0) == n
  {
    if n >= 10 {
      DigitsValue(n / 10);
      LeadingDigitsAppend(Decimal(n / 10), [Digit(n % 10)], 0);
    }
  }
}
