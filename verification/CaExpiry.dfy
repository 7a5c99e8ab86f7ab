/**
 When `do_updatedb` considers a certificate expired: a string comparison of UTCTime values
 with a two-digit year, against the instants those strings denote.
 */
module CaExpiry {
  import opened CText

  /** `strncmp(s, "49", 2) <= 0` */
  predicate Y2k(s: string) { Strcmp(if |s| <= 2 then s else s[..2], "49") <= 0 }

  /** The branches of `do_updatedb` for one valid row. */
  predicate Expired(expDate: string, now: string) {
    if Y2k(expDate) == Y2k(now) then Strcmp(expDate, now) <= 0
    else !Y2k(expDate) && Y2k(now)
  }

  // ---------------------------------------------------------------- what the strings denote

  predicate Digits(s: string) { forall i :: 0 <= i < |s| ==> IsDigit(s[i]) }

  function Decimal(s: string): nat
    requires Digits(s)
  {
    if s == [] then 0 else 10 * Decimal(s[..|s| - 1]) + (s[|s| - 1] - '0') as nat
  }

  /** YYMMDDHHMMSSZ */
  predicate UtcTime(s: string) { |s| == 13 && Digits(s[..12]) && s[12] == 'Z' }

  /** YYYYMMDDHHMMSSZ */
  predicate GeneralizedTime(s: string) { |s| == 15 && Digits(s[..14]) && s[14] == 'Z' }

  /** YYMMDDHHMMZ, which the encoding rules forbid and the load check accepts. */
  predicate ShortTime(s: string) { |s| == 11 && Digits(s[..10]) && s[10] == 'Z' }

  predicate HasInstant(s: string) { UtcTime(s) || GeneralizedTime(s) || ShortTime(s) }

  /** Section 4.1.2.5.1 of RFC 5280: years 50 to 99 are 19YY, years 00 to 49 are 20YY. */
  function FullYear(yy: nat): nat { if yy >= 50 then 1900 + yy else 2000 + yy }

  const PER_YEAR: nat := 10_000_000_000

  /** The date as a number YYYYMMDDHHMMSS. */
  function Instant(s: string): nat
    requires HasInstant(s)
  {
    if |s| == 13 then FullYear(Decimal(s[..2])) * PER_YEAR + Decimal(s[2..12])
    else if |s| == 15 then Decimal(s[..14])
    else FullYear(Decimal(s[..2])) * PER_YEAR + 100 * Decimal(s[2..10])
  }

  // ---------------------------------------------------------------- digits compare like numbers

  lemma {:induction false} DecimalBound(s: string)
    requires Digits(s)
    ensures Decimal(s) < Pow10(|s|)
  {
    if s != [] { DecimalBound(s[..|s| - 1]); }
  }

  function Pow10(n: nat): nat { if n == 0 then 1 else 10 * Pow10(n - 1) }

  lemma {:induction false} DecimalConcat(a: string, b: string)
    requires Digits(a) && Digits(b)
    ensures Digits(a + b) && Decimal(a + b) == Decimal(a) * Pow10(|b|) + Decimal(b)
  {
    if b == [] {
      assert a + b == a;
    } else {
      var init := b[..|b| - 1];
      DecimalConcat(a, init);
      assert (a + b)[..|a + b| - 1] == a + init;
      assert (a + b)[|a + b| - 1] == b[|b| - 1];
      var d := (b[|b| - 1] - '0') as nat;
      assert Decimal(a + b) == 10 * (Decimal(a) * Pow10(|init|) + Decimal(init)) + d;
      MulTen(Decimal(a), Pow10(|init|));
    }
  }

  lemma MulTen(x: nat, y: nat)
    ensures 10 * (x * y) == x * (10 * y)
  {
  }

  lemma {:induction false} DecimalHead(s: string)
    requires Digits(s) && s != []
    ensures Decimal(s) == (s[0] - '0') as nat * Pow10(|s| - 1) + Decimal(s[1..])
  {
    DecimalConcat([s[0]], s[1..]);
    assert [s[0]] + s[1..] == s;
    assert [s[0]][..0] == [];
  }

  /** `strcmp` on digit strings of one length orders them as numbers. */
  lemma {:induction false} StrcmpDigits(a: string, b: string)
    requires |a| == |b| && Digits(a) && Digits(b)
    ensures Strcmp(a, b) < 0 <==> Decimal(a) < Decimal(b)
    ensures Strcmp(a, b) == 0 <==> Decimal(a) == Decimal(b)
  {
    if a != [] {
      DecimalHead(a);
      DecimalHead(b);
      if a[0] == b[0] {
        StrcmpDigits(a[1..], b[1..]);
      } else {
        DecimalBound(a[1..]);
        DecimalBound(b[1..]);
        var d, e := (a[0] - '0') as nat, (b[0] - '0') as nat;
        HeadDecides(d, e, Pow10(|a| - 1), Decimal(a[1..]), Decimal(b[1..]));
      }
    }
  }

  /** Strings whose first `n` characters differ are ordered by those. */
  lemma {:induction false} StrcmpPrefix(a: string, b: string, n: nat)
    requires n <= |a| && n <= |b|
    ensures Strcmp(a[..n], b[..n]) != 0 ==> Strcmp(a, b) == Strcmp(a[..n], b[..n])
  {
    if n > 0 && a[0] == b[0] {
      StrcmpPrefix(a[1..], b[1..], n - 1);
      assert a[..n][1..] == a[1..][..n - 1] && b[..n][1..] == b[1..][..n - 1];
    }
  }

  lemma HeadDecides(d: nat, e: nat, p: nat, x: nat, y: nat)
    requires x < p && y < p
    ensures d < e ==> d * p + x < e * p + y
    ensures d > e ==> d * p + x > e * p + y
  {
    if d < e { assert (d + 1) * p <= e * p; }
    if d > e { assert (e + 1) * p <= d * p; }
  }

  /** The year-50 pivot. */
  lemma {:induction false} Y2kIsPivot(s: string)
    requires |s| >= 2 && Digits(s[..2])
    ensures Y2k(s) <==> Decimal(s[..2]) < 50
  {
    var yy := s[..2];
    assert |s| == 2 ==> yy == s;
    TwoDigits('4', '9');
    StrcmpDigits(yy, "49");
  }

  predicate NoSeconds(s: string) { |s| > 10 && !IsDigit(s[10]) }

  /**
   All forms the load check accepts: ten digits and a zone, twelve or fourteen digits with a zone
   or without one, and fourteen digits with a fraction.
   */
  predicate AnyDate(s: string) {
    && |s| >= 11 && Digits(s[..10])
    && if NoSeconds(s) then s[10] in ['Z', '+', '-']
       else |s| >= 12 && IsDigit(s[11]) && (|s| == 12 || s[12] < 'Z' || s[12..] == "Z")
  }

  /**
   A date as the comparison reads it: the first twelve digits as a UTCTime. Without seconds, a
   date that ends in Z is put behind its minute, and one with an offset at the start of it.
   */
  function Read(s: string): (r: string)
    requires AnyDate(s)
    ensures UtcTime(r) && (UtcTime(s) ==> r == s) && (!NoSeconds(s) ==> r == s[..12] + "Z")
  {
    if !NoSeconds(s) then s[..12] + "Z" else if s[10] == 'Z' then s[..10] + "99Z" else s[..10] + "00Z"
  }

  /**
   What the branches decide on any date: it counts as expired if and only if what it is read as
   does not lie after the clock.
   */
  lemma {:induction false} ExpiredIffReadPast(expDate: string, now: string)
    requires AnyDate(expDate) && UtcTime(now) && (NoSeconds(expDate) ==> now[10] < '6')
    ensures Expired(expDate, now) <==> Instant(Read(expDate)) <= Instant(now)
  {
    var read := Read(expDate);
    assert read[..2] == expDate[..2];
    Y2kIsPivot(expDate);
    Y2kIsPivot(now);
    if NoSeconds(expDate) { StrcmpMinute(expDate, now); } else { StrcmpRead(expDate, now); }
    TwelveDigits(read);
    TwelveDigits(now);
  }

  /** `strcmp` sees the first twelve digits. */
  lemma {:induction false} StrcmpRead(expDate: string, now: string)
    requires AnyDate(expDate) && UtcTime(now) && !NoSeconds(expDate)
    ensures Strcmp(expDate, now) <= 0 <==> Decimal(Read(expDate)[..12]) <= Decimal(now[..12])
  {
    assert Read(expDate)[..12] == expDate[..12];
    StrcmpDigits(expDate[..12], now[..12]);
    StrcmpPrefix(expDate, now, 12);
    StrcmpZero(expDate[..12], now[..12]);
    if expDate[..12] == now[..12] {
      StrcmpTie(expDate, now, 12);
      assert now[12..] == "Z";
      if |expDate| > 12 { assert expDate[12..][0] == expDate[12]; }
    }
  }

  /** Without seconds it sees ten digits, and then a letter that is behind or a sign that is before all digits. */
  lemma {:induction false} StrcmpMinute(expDate: string, now: string)
    requires AnyDate(expDate) && UtcTime(now) && NoSeconds(expDate) && now[10] < '6'
    ensures Strcmp(expDate, now) <= 0 <==> Decimal(Read(expDate)[..12]) <= Decimal(now[..12])
  {
    StrcmpTen(expDate, now);
    SecondsSplit(Read(expDate));
    SecondsSplit(now);
    assert Read(expDate)[..10] == expDate[..10];
  }

  lemma {:induction false} SecondsSplit(s: string)
    requires UtcTime(s)
    ensures Digits(s[..10]) && IsDigit(s[10]) && IsDigit(s[11])
    ensures Decimal(s[..12]) == 100 * Decimal(s[..10]) + 10 * (s[10] - '0') as nat + (s[11] - '0') as nat
  {
    assert s[..12][10] == s[10] && s[..12][11] == s[11] && s[10..12] == [s[10], s[11]];
    DecimalSplit(s, 10, 12);
    Powers();
    TwoDigits(s[10], s[11]);
  }

  lemma {:induction false} StrcmpTen(expDate: string, now: string)
    requires AnyDate(expDate) && UtcTime(now) && NoSeconds(expDate)
    ensures Digits(now[..10])
    ensures Strcmp(expDate, now) <= 0 <==>
            if expDate[10] == 'Z' then Decimal(expDate[..10]) < Decimal(now[..10])
            else Decimal(expDate[..10]) <= Decimal(now[..10])
  {
    assert now[..10] == now[..12][..10];
    StrcmpDigits(expDate[..10], now[..10]);
    StrcmpPrefix(expDate, now, 10);
    StrcmpZero(expDate[..10], now[..10]);
    if expDate[..10] == now[..10] {
      StrcmpTie(expDate, now, 10);
      assert expDate[10..][0] == expDate[10] && now[10..][0] == now[..12][10];
    }
  }

  /** Behind an equal beginning the rest decides. */
  lemma {:induction false} StrcmpTie(a: string, b: string, n: nat)
    requires n <= |a| && n <= |b| && a[..n] == b[..n]
    ensures Strcmp(a, b) == Strcmp(a[n..], b[n..])
  {
    if n > 0 {
      assert a[0] == a[..n][0] == b[0];
      assert a[1..][..n - 1] == a[..n][1..] && b[1..][..n - 1] == b[..n][1..];
      StrcmpTie(a[1..], b[1..], n - 1);
      assert a[1..][n - 1..] == a[n..] && b[1..][n - 1..] == b[n..];
    }
  }

  /** On UTCTime strings the comparison is the one on instants. */
  lemma {:induction false} ExpiredIffPast(expDate: string, now: string)
    requires UtcTime(expDate) && UtcTime(now)
    ensures Expired(expDate, now) <==> Instant(expDate) <= Instant(now)
  {
    ExpiredIffReadPast(expDate, now);
  }

  lemma {:induction false} DecimalSplit(s: string, m: nat, n: nat)
    requires m <= n <= |s| && Digits(s[..n])
    ensures Digits(s[..m]) && Digits(s[m..n])
    ensures Decimal(s[..n]) == Decimal(s[..m]) * Pow10(n - m) + Decimal(s[m..n])
    ensures Decimal(s[..m]) < Pow10(m) && Decimal(s[m..n]) < Pow10(n - m)
  {
    assert s[..n] == s[..m] + s[m..n] && |s[m..n]| == n - m;
    assert forall i :: 0 <= i < m ==> s[..m][i] == s[..n][i];
    assert forall i :: 0 <= i < n - m ==> s[m..n][i] == s[..n][m + i];
    DecimalConcat(s[..m], s[m..n]);
    DecimalBound(s[..m]);
    DecimalBound(s[m..n]);
  }

  lemma {:induction false} TwelveDigits(s: string)
    requires |s| >= 12 && Digits(s[..12])
    ensures Decimal(s[..2]) < 100 && Decimal(s[2..12]) < PER_YEAR
    ensures Decimal(s[..12]) == Decimal(s[..2]) * PER_YEAR + Decimal(s[2..12])
  {
    DecimalSplit(s, 2, 12);
    Powers();
  }

  lemma {:induction false} Powers()
    ensures Pow10(2) == 100 && Pow10(8) == 100_000_000 && Pow10(10) == PER_YEAR
  {
    assert Pow10(1) == 10 && Pow10(2) == 100;
    assert Pow10(3) == 1_000 && Pow10(4) == 10_000;
    assert Pow10(5) == 100_000 && Pow10(6) == 1_000_000;
    assert Pow10(7) == 10_000_000 && Pow10(8) == 100_000_000;
    assert Pow10(9) == 1_000_000_000;
  }

  // ---------------------------------------------------------------- dates with a four-digit year

  /** The clock lies between the instant of a date and the one it is read as. */
  predicate Misjudged(expDate: string, now: string)
    requires HasInstant(expDate) && UtcTime(now)
  {
    var due, read, clock := Instant(expDate), Instant(Read(expDate)), Instant(now);
    due <= clock < read || read <= clock < due
  }

  /** The verdict on a date is wrong if and only if the clock lies between the two readings. */
  lemma {:induction false} WrongIffMisjudged(expDate: string, now: string)
    requires HasInstant(expDate) && UtcTime(now) && (NoSeconds(expDate) ==> now[10] < '6')
    ensures (Expired(expDate, now) <==> Instant(expDate) <= Instant(now)) <==> !Misjudged(expDate, now)
  {
    ExpiredIffReadPast(expDate, now);
  }

  /** A date without seconds does not count as expired when its minute begins. */
  lemma {:induction false} ShortTimeLate(d: string)
    requires |d| == 10 && Digits(d)
    ensures var expDate, now := d + "Z", d + "00Z";
            ShortTime(expDate) && UtcTime(now) && Instant(expDate) == Instant(now) && !Expired(expDate, now)
  {
    var expDate, now := d + "Z", d + "00Z";
    assert expDate[..10] == d && now[..10] == d && expDate[..2] == now[..2] && expDate[2..10] == now[2..10];
    Y2kIsPivot(expDate);
    Y2kIsPivot(now);
    StrcmpTen(expDate, now);
    DecimalConcat(now[2..10], "00");
    assert now[2..12] == now[2..10] + "00" && "00" == ['0', '0'];
    TwoDigits('0', '0');
    Powers();
  }

  /**
   A GeneralizedTime, which certificates that end in 2050 or later carry: its century is taken
   for a two-digit year, and the two digits behind it for a month.
   */
  lemma {:induction false} GeneralizedMisread(expDate: string, now: string)
    requires GeneralizedTime(expDate) && UtcTime(now)
    ensures var century, year := Decimal(expDate[..2]), Decimal(now[..2]);
            Expired(expDate, now) <==>
              if (century < 50) == (year < 50) then Decimal(expDate[..12]) <= Decimal(now[..12]) else century >= 50
  {
    var read := Read(expDate);
    assert read[..2] == expDate[..2] && read[2..12] == expDate[2..12];
    ExpiredIffReadPast(expDate, now);
    TwelveDigits(expDate);
    TwelveDigits(now);
  }

  /** A date of this century counts as expired from 2021 on. */
  lemma {:induction false} CenturyBelowYear(expDate: string, now: string)
    requires GeneralizedTime(expDate) && UtcTime(now)
    requires Decimal(expDate[..2]) < Decimal(now[..2]) < 50
    ensures Expired(expDate, now)
  {
    GeneralizedMisread(expDate, now);
    TwelveDigits(expDate);
    TwelveDigits(now);
  }

  /** A date from 2050 to 2099 always lies in the future, yet counts as expired from 2021 on. */
  lemma {:induction false} LateDates(expDate: string, now: string)
    requires GeneralizedTime(expDate) && UtcTime(now)
    requires expDate[..2] == "20" && 50 <= Decimal(expDate[2..4])
    requires Decimal(now[..2]) < 50 && 1 <= Decimal(now[2..4]) <= 12
    ensures Instant(expDate) > Instant(now)
    ensures Expired(expDate, now) <==> Decimal(now[..2]) > 20
  {
    TwoDigits('2', '0');
    FourDigits(expDate);
    LateIsFuture(expDate, now);
    LateByMonth(expDate, now);
    GeneralizedMisread(expDate, now);
  }

  lemma {:induction false} LateIsFuture(expDate: string, now: string)
    requires GeneralizedTime(expDate) && UtcTime(now)
    requires 2050 <= Decimal(expDate[..4]) && Decimal(now[..2]) < 50
    ensures Instant(expDate) > Instant(now)
  {
    GeneralizedParts(expDate);
    TwelveDigits(now);
  }

  lemma {:induction false} LateByMonth(expDate: string, now: string)
    requires |expDate| >= 12 && Digits(expDate[..12]) && |now| >= 12 && Digits(now[..12])
    requires 2050 <= Decimal(expDate[..4]) < 2100 && Decimal(now[2..4]) <= 12
    ensures Decimal(expDate[..12]) <= Decimal(now[..12]) <==> Decimal(now[..2]) > 20
  {
    MonthParts(expDate);
    MonthParts(now);
    FourDigits(now);
  }

  /** A date from 5000 on counts as expired whenever the clock shows 2000 or later. */
  lemma {:induction false} FarDates(expDate: string, now: string)
    requires GeneralizedTime(expDate) && UtcTime(now)
    requires 50 <= Decimal(expDate[..2]) && Decimal(now[..2]) < 50
    ensures Instant(expDate) > Instant(now) && Expired(expDate, now)
  {
    FourDigits(expDate);
    LateIsFuture(expDate, now);
    GeneralizedMisread(expDate, now);
  }

  lemma {:induction false} FourDigits(s: string)
    requires |s| >= 4 && Digits(s[..4])
    ensures Digits(s[..2]) && Digits(s[2..4]) && Decimal(s[2..4]) < 100
    ensures Decimal(s[..4]) == 100 * Decimal(s[..2]) + Decimal(s[2..4])
  {
    DecimalSplit(s, 2, 4);
    Powers();
  }

  lemma {:induction false} MonthParts(s: string)
    requires |s| >= 12 && Digits(s[..12])
    ensures Digits(s[..4]) && Digits(s[4..12]) && Decimal(s[4..12]) < 100_000_000
    ensures Decimal(s[..12]) == Decimal(s[..4]) * 100_000_000 + Decimal(s[4..12])
  {
    DecimalSplit(s, 4, 12);
    Powers();
  }

  lemma {:induction false} GeneralizedParts(s: string)
    requires GeneralizedTime(s)
    ensures Digits(s[..4]) && Instant(s) == Decimal(s[..4]) * PER_YEAR + Decimal(s[4..14])
  {
    DecimalSplit(s, 4, 14);
    Powers();
  }

  /** On 1 January 2024 a certificate that ends in 2050 is marked expired. */
  lemma {:induction false} Expires2050()
    ensures var expDate, now := "20500101000000Z", "240101000000Z";
            GeneralizedTime(expDate) && UtcTime(now) && Instant(now) < Instant(expDate) && Expired(expDate, now)
  {
    var expDate, now := "20500101000000Z", "240101000000Z";
    assert expDate[..2] == ['2', '0'] && now[..2] == ['2', '4'];
    assert expDate[2..4] == [expDate[2], expDate[3]] && now[2..4] == [now[2], now[3]];
    TwoDigits('5', '0');
    TwoDigits('2', '4');
    TwoDigits('0', '1');
    LateDates(expDate, now);
  }

  /** So is one whose date in 2030 was encoded as a GeneralizedTime. */
  lemma {:induction false} Expires2030()
    ensures var expDate, now := "20300101000000Z", "240101000000Z";
            GeneralizedTime(expDate) && UtcTime(now) && Instant(now) < Instant(expDate) && Expired(expDate, now)
  {
    var expDate, now := "20300101000000Z", "240101000000Z";
    assert expDate[..2] == ['2', '0'] && now[..2] == ['2', '4'];
    assert expDate[2..4] == ['3', '0'] && now[2..4] == ['0', '1'];
    TwoDigits('2', '0');
    TwoDigits('3', '0');
    TwoDigits('2', '4');
    GeneralizedParts(expDate);
    FourDigits(expDate);
    TwelveDigits(now);
    CenturyBelowYear(expDate, now);
  }

  /** And one with the date that section 4.1.2.5 of RFC 5280 gives to certificates without an end. */
  lemma {:induction false} NoExpiryExpires()
    ensures var expDate, now := "99991231235959Z", "240101000000Z";
            GeneralizedTime(expDate) && UtcTime(now) && Instant(now) < Instant(expDate) && Expired(expDate, now)
  {
    var expDate, now := "99991231235959Z", "240101000000Z";
    assert expDate[..2] == ['9', '9'] && now[..2] == ['2', '4'];
    TwoDigits('9', '9');
    TwoDigits('2', '4');
    FarDates(expDate, now);
  }

  lemma {:induction false} TwoDigits(c: char, d: char)
    requires IsDigit(c) && IsDigit(d)
    ensures Decimal([c, d]) == 10 * (c - '0') as nat + (d - '0') as nat
  {
    assert [c, d][..1] == [c] && [c][..0] == [];
    assert Decimal([c]) == (c - '0') as nat;
  }
}
