/**
 C string comparison, and the spelling of certificate serial numbers in the CA database.
 */
module CText {

  /** The sign of `strcmp` on two strings without NUL. */
  function Strcmp(a: string, b: string): int {
    if a == [] && b == [] then 0
    else if a == [] then -1
    else if b == [] then 1
    else if a[0] != b[0] then (if a[0] < b[0] then -1 else 1)
    else Strcmp(a[1..], b[1..])
  }

  lemma {:induction false} StrcmpZero(a: string, b: string)
    ensures Strcmp(a, b) == 0 <==> a == b
  {
    if a != [] && b != [] && a[0] == b[0] {
      StrcmpZero(a[1..], b[1..]);
      assert a == [a[0]] + a[1..] && b == [b[0]] + b[1..];
    }
  }

  predicate IsDigit(c: char) { '0' <= c <= '9' }

  function ToUpper(c: char): char {
    if 'a' <= c <= 'z' then c - 'a' + 'A' else c
  }

  function Upper(s: string): (r: string)
    ensures |r| == |s|
  {
    seq(|s|, i requires 0 <= i < |s| => ToUpper(s[i]))
  }

  function ToLower(c: char): char {
    if 'A' <= c <= 'Z' then c - 'A' + 'a' else c
  }

  /** `strcasecmp(a, b) == 0` */
  predicate EqualIgnoringCase(a: string, b: string) {
    |a| == |b| && forall i :: 0 <= i < |a| ==> ToLower(a[i]) == ToLower(b[i])
  }
}

module CaSerial {
  import opened CText

  predicate IsXDigit(c: char) { IsDigit(c) || 'a' <= c <= 'f' || 'A' <= c <= 'F' }

  /** Upper-case hexadecimal digits only: how the command itself writes non-negative serials. */
  predicate Plain(s: string) { forall i :: 0 <= i < |s| ==> IsDigit(s[i]) || 'A' <= s[i] <= 'F' }

  predicate Hex(s: string) { forall i :: 0 <= i < |s| ==> IsXDigit(s[i]) }

  function DigitValue(c: char): nat
    requires IsXDigit(c)
  {
    if IsDigit(c) then (c - '0') as nat
    else if 'a' <= c then 10 + (c - 'a') as nat
    else 10 + (c - 'A') as nat
  }

  /** The number a string of hexadecimal digits denotes. */
  function Value(s: string): nat
    requires Hex(s)
  {
    if s == [] then 0 else 16 * Value(s[..|s| - 1]) + DigitValue(s[|s| - 1])
  }

  /** Without leading zeros. */
  function Strip(s: string): string {
    if s != [] && s[0] == '0' then Strip(s[1..]) else s
  }

  lemma {:induction false} StripStart(s: string)
    ensures Strip(s) == [] || Strip(s)[0] != '0'
    ensures Plain(s) ==> Plain(Strip(s))
  {
    if s != [] && s[0] == '0' { StripStart(s[1..]); }
  }

  lemma {:induction false} ValueOfStrip(s: string)
    requires Hex(s)
    ensures Hex(Strip(s)) && Value(Strip(s)) == Value(s)
  {
    if s != [] && s[0] == '0' {
      ValueDropZero(s);
      ValueOfStrip(s[1..]);
    }
  }

  lemma {:induction false} ValueDropZero(s: string)
    requires Hex(s) && s != [] && s[0] == '0'
    ensures Value(s[1..]) == Value(s)
  {
    if |s| > 1 {
      var init := s[..|s| - 1];
      ValueDropZero(init);
      assert s[1..][..|s| - 2] == init[1..];
    }
  }

  /** A stripped non-empty spelling is not zero. */
  lemma {:induction false} StrippedPositive(s: string)
    requires Hex(s) && s != [] && s[0] != '0'
    ensures Value(s) > 0
  {
    if |s| > 1 {
      StrippedPositive(s[..|s| - 1]);
    }
  }

  /** Stripped upper-case spellings are unique. */
  lemma {:induction false} StrippedUnique(a: string, b: string)
    requires Plain(a) && Plain(b)
    requires (a == [] || a[0] != '0') && (b == [] || b[0] != '0')
    requires Value(a) == Value(b)
    ensures a == b
  {
    if a == [] {
      if b != [] { StrippedPositive(b); }
    } else if b == [] {
      StrippedPositive(a);
    } else {
      var x, y := a[..|a| - 1], b[..|b| - 1];
      assert Value(x) == Value(y) && DigitValue(a[|a| - 1]) == DigitValue(b[|b| - 1]);
      StrippedUnique(x, y);
      assert a == x + [a[|a| - 1]] && b == y + [b[|b| - 1]];
    }
  }

  /** Equal up to leading zeros is equal as a number. */
  lemma {:induction false} StripIffValue(a: string, b: string)
    requires Plain(a) && Plain(b)
    ensures Strip(a) == Strip(b) <==> Value(a) == Value(b)
  {
    StripStart(a);
    StripStart(b);
    ValueOfStrip(a);
    ValueOfStrip(b);
    if Value(a) == Value(b) {
      StrippedUnique(Strip(a), Strip(b));
    }
  }

  /** `index_serial_cmp`: the two skipping loops, then `strcmp`. */
  method IndexSerialCmp(a: string, b: string) returns (r: int)
    ensures r == 0 <==> Strip(a) == Strip(b)
    ensures Plain(a) && Plain(b) ==> (r == 0 <==> Value(a) == Value(b))
  {
    var aa := SkipZeros(a);
    var bb := SkipZeros(b);
    r := Strcmp(a[aa..], b[bb..]);
    StrcmpZero(a[aa..], b[bb..]);
    if Plain(a) && Plain(b) {
      StripIffValue(a, b);
    }
  }

  method SkipZeros(s: string) returns (i: nat)
    ensures i <= |s| && s[i..] == Strip(s)
  {
    i := 0;
    assert s[0..] == s;
    while i < |s| && s[i] == '0'
      invariant i <= |s| && Strip(s[i..]) == Strip(s)
    {
      assert s[i..][1..] == s[i + 1..];
      i := i + 1;
    }
  }

  /** `index_serial_hash` for any string hash: serials that compare equal hash equally. */
  function IndexSerialHash(strhash: string -> nat, s: string): nat { strhash(Strip(s)) }

  lemma SameSerialSameHash(strhash: string -> nat, a: string, b: string)
    requires Plain(a) && Plain(b) && Value(a) == Value(b)
    ensures IndexSerialHash(strhash, a) == IndexSerialHash(strhash, b)
  {
    StripIffValue(a, b);
  }

  /** A serial field with its sign taken off. */
  function SerialDigits(s: string): string { if s != [] && s[0] == '-' then s[1..] else s }

  /** What the load check demands of a serial field. */
  predicate SerialOk(s: string) {
    var digits := SerialDigits(s);
    |digits| % 2 == 0 && |digits| >= 2 && Hex(digits)
  }

  /** `BN_hex2bn` of a serial field. */
  function SerialNumber(s: string): int
    requires SerialOk(s)
  {
    if s[0] == '-' then -(Value(SerialDigits(s)) as int) else Value(SerialDigits(s))
  }

  const SMALL_DIGITS: string := "0123456789abcdef"
  const CAPITAL_DIGITS: string := "0123456789ABCDEF"

  /** The character is the hexadecimal digit of that value, in either case. */
  ghost predicate DigitOf(c: char, v: nat)
    requires v < 16
  {
    c == SMALL_DIGITS[v] || c == CAPITAL_DIGITS[v]
  }

  lemma {:induction false} DigitsByCode(v: nat)
    requires v < 16
    ensures SMALL_DIGITS[v] as int == if v < 10 then 48 + v else 87 + v
    ensures CAPITAL_DIGITS[v] as int == if v < 10 then 48 + v else 55 + v
  {
    if v == 0 {} else if v == 1 {} else if v == 2 {} else if v == 3 {} else if v == 4 {} else if v == 5 {}
    else if v == 6 {} else if v == 7 {} else if v == 8 {} else if v == 9 {} else if v == 10 {} else if v == 11 {}
    else if v == 12 {} else if v == 13 {} else if v == 14 {} else { assert v == 15; }
  }

  lemma {:induction false} DigitByName(c: char, v: nat)
    requires v < 16
    ensures DigitOf(c, v) <==> IsXDigit(c) && DigitValue(c) == v
  {
    DigitsByCode(v);
  }

  /** Appending a digit multiplies the number by sixteen and adds the digit's value. */
  lemma {:induction false} ValueSnoc(s: string, c: char, v: nat)
    requires Hex(s) && v < 16 && DigitOf(c, v)
    ensures Hex(s + [c]) && Value(s + [c]) == 16 * Value(s) + v
  {
    DigitByName(c, v);
    assert (s + [c])[..|s|] == s;
  }

  ghost predicate IsDigitChar(c: char) { exists v: nat :: v < 16 && DigitOf(c, v) }

  ghost predicate AllDigits(s: string) { forall i :: 0 <= i < |s| ==> IsDigitChar(s[i]) }

  lemma {:induction false} HexByName(s: string)
    ensures Hex(s) <==> AllDigits(s)
  {
    forall i | 0 <= i < |s| ensures IsXDigit(s[i]) <==> IsDigitChar(s[i]) {
      if IsXDigit(s[i]) { DigitByName(s[i], DigitValue(s[i])); }
      if IsDigitChar(s[i]) {
        var v: nat :| v < 16 && DigitOf(s[i], v);
        DigitByName(s[i], v);
      }
    }
  }

  /** Perhaps a sign, then an even number of digits, and at least two. */
  ghost predicate IsSerialField(s: string, sign: string, digits: string) {
    sign in {"", "-"} && s == sign + digits && |digits| >= 2 && |digits| % 2 == 0 && AllDigits(digits)
  }

  /** The serial fields that the load check accepts. */
  lemma {:induction false} SerialOkByName(s: string)
    ensures SerialOk(s) <==> exists sign, digits :: IsSerialField(s, sign, digits)
  {
    if SerialOk(s) {
      var digits := SerialDigits(s);
      HexByName(digits);
      assert IsSerialField(s, if s[0] == '-' then "-" else "", digits);
    }
    forall sign, digits | IsSerialField(s, sign, digits) ensures SerialOk(s) {
      HexByName(digits);
      assert IsXDigit(digits[0]);
      assert SerialDigits(s) == digits;
    }
  }

  // ---------------------------------------------------------------- writing serials

  function HexDigit(v: nat): char
    requires v < 16
  {
    if v < 10 then '0' + v as char else 'A' + (v - 10) as char
  }

  /** `BN_bn2hex` of a positive number: two digits per byte, no leading zero byte. */
  function Bn2Hex(n: nat): (s: string)
    requires n > 0
  {
    if n < 256 then [HexDigit(n / 16), HexDigit(n % 16)]
    else Bn2Hex(n / 256) + [HexDigit(n / 16 % 16), HexDigit(n % 16)]
  }

  /** The serial field of a new row; `BN_bn2hex` puts a minus sign before a negative number. */
  function SerialText(n: int): string {
    if n == 0 then "00" else if n < 0 then "-" + Bn2Hex(-n) else Bn2Hex(n)
  }

  /**
   Spellings the command itself gives rise to: upper case, and with a minus sign no leading zero
   byte.
   */
  predicate OwnSpelling(s: string) {
    Plain(s) || (|s| >= 3 && s[0] == '-' && Plain(s[1..]) && !(s[1] == '0' && s[2] == '0'))
  }

  lemma HexDigitValue(v: nat)
    requires v < 16
    ensures IsDigit(HexDigit(v)) || 'A' <= HexDigit(v) <= 'F'
    ensures DigitValue(HexDigit(v)) == v
  {
  }

  lemma {:induction false} ValueSnoc2(s: string, c: char, d: char)
    requires Hex(s) && IsXDigit(c) && IsXDigit(d)
    ensures Hex(s + [c, d]) && Value(s + [c, d]) == 256 * Value(s) + 16 * DigitValue(c) + DigitValue(d)
  {
    var t := s + [c, d];
    assert t[..|t| - 1] == s + [c];
    assert (s + [c])[..|s|] == s;
  }

  lemma ByteDigits(n: nat)
    ensures n == 256 * (n / 256) + 16 * (n / 16 % 16) + n % 16
    ensures n < 256 ==> n / 16 == n / 16 % 16
  {
  }

  lemma {:induction false} Bn2HexFormat(n: nat)
    requires n > 0
    ensures Plain(Bn2Hex(n)) && |Bn2Hex(n)| % 2 == 0 && |Bn2Hex(n)| >= 2
    ensures !(Bn2Hex(n)[0] == '0' && Bn2Hex(n)[1] == '0')
  {
    HexDigitValue(n / 16 % 16);
    HexDigitValue(n % 16);
    if n >= 256 {
      Bn2HexFormat(n / 256);
    }
  }

  lemma {:induction false} Bn2HexValue(n: nat)
    requires n > 0
    ensures Plain(Bn2Hex(n)) && Value(Bn2Hex(n)) == n
  {
    Bn2HexFormat(n);
    ByteDigits(n);
    var hi, lo := n / 16 % 16, n % 16;
    HexDigitValue(hi);
    HexDigitValue(lo);
    if n < 256 {
      ValueSnoc2([], HexDigit(hi), HexDigit(lo));
      assert [] + [HexDigit(hi), HexDigit(lo)] == Bn2Hex(n);
    } else {
      Bn2HexValue(n / 256);
      ValueSnoc2(Bn2Hex(n / 256), HexDigit(hi), HexDigit(lo));
    }
  }

  /** The text of a serial denotes that serial, in the format the database accepts. */
  lemma {:induction false} SerialTextValue(n: int)
    ensures SerialOk(SerialText(n)) && SerialNumber(SerialText(n)) == n
    ensures OwnSpelling(SerialText(n)) && (n >= 0 ==> Plain(SerialText(n)))
  {
    if n == 0 {
      ZeroText();
    } else if n > 0 {
      PositiveText(n);
    } else {
      PositiveText(-n);
      SpellingOk(Bn2Hex(-n));
    }
  }

  lemma {:induction false} ZeroText()
    ensures SerialOk("00") && SerialNumber("00") == 0 && OwnSpelling("00") && Plain("00")
  {
    ValueSnoc2([], '0', '0');
    assert [] + ['0', '0'] == "00";
    SpellingOk("00");
  }

  lemma {:induction false} PositiveText(n: nat)
    requires n > 0
    ensures var d := Bn2Hex(n);
            && Plain(d) && |d| % 2 == 0 && |d| >= 2 && !(d[0] == '0' && d[1] == '0') && Value(d) == n
            && SerialOk(d) && SerialNumber(d) == n && OwnSpelling(d)
  {
    Bn2HexFormat(n);
    Bn2HexValue(n);
    SpellingOk(Bn2Hex(n));
  }

  lemma {:induction false} SpellingOk(d: string)
    requires Plain(d) && |d| % 2 == 0 && |d| >= 2
    ensures SerialOk(d) && OwnSpelling(d) && SerialNumber(d) == Value(d)
    ensures SerialOk("-" + d) && SerialNumber("-" + d) == -(Value(d) as int)
    ensures !(d[0] == '0' && d[1] == '0') ==> OwnSpelling("-" + d)
  {
    var s := "-" + d;
    assert s[0] == '-' && s[1..] == d && s[1] == d[0] && s[2] == d[1];
    assert IsDigit(d[0]) || 'A' <= d[0] <= 'F';
  }

  // ---------------------------------------------------------------- spelling a query

  /** What `get_certificate_status` searches for. */
  function Query(serial: string): string {
    Upper(if |serial| % 2 == 1 then "0" + serial else serial)
  }

  /** The buffer loops of `get_certificate_status`; an uninitialised buffer of |serial| + 2 bytes is enough. */
  method NormaliseQuery(serial: string, buf: array<char>) returns (len: nat)
    requires buf.Length == |serial| + 2
    requires forall i :: 0 <= i < |serial| ==> serial[i] != '\0'
    modifies buf
    ensures len < buf.Length && buf[len] == '\0' && buf[..len] == Query(serial)
  {
    var at := 0;
    if |serial| % 2 == 1 {
      buf[0] := '0';
      at := 1;
    }
    forall i | 0 <= i < |serial| {
      buf[at + i] := serial[i];
    }
    len := at + |serial|;
    buf[len] := '\0';
    assert buf[..len] == if |serial| % 2 == 1 then "0" + serial else serial;
    UpperInPlace(buf, len);
  }

  /** `for (i = 0; s[i] != '\0'; i++) s[i] = toupper(s[i])` */
  method UpperInPlace(buf: array<char>, ghost len: nat)
    requires len < buf.Length && buf[len] == '\0' && forall k :: 0 <= k < len ==> buf[k] != '\0'
    modifies buf
    ensures buf[len] == '\0' && buf[..len] == Upper(old(buf[..len]))
  {
    var i := 0;
    while buf[i] != '\0'
      invariant 0 <= i <= len && buf[len] == '\0'
      invariant forall k :: 0 <= k < i ==> buf[k] == ToUpper(old(buf[k]))
      invariant forall k :: i <= k < len ==> buf[k] == old(buf[k])
      decreases len - i
    {
      buf[i] := ToUpper(buf[i]);
      i := i + 1;
    }
  }

  lemma {:induction false} UpperValue(s: string)
    requires Hex(s)
    ensures Plain(Upper(s)) && Value(Upper(s)) == Value(s)
  {
    if s != [] {
      UpperValue(s[..|s| - 1]);
      assert Upper(s)[..|s| - 1] == Upper(s[..|s| - 1]);
    }
  }

  /** Any spelling of a number is turned into an upper-case one of the same number. */
  lemma QueryValue(serial: string)
    requires Hex(serial)
    ensures Plain(Query(serial)) && Value(Query(serial)) == Value(serial)
  {
    var padded := if |serial| % 2 == 1 then "0" + serial else serial;
    if |serial| % 2 == 1 {
      ValueDropZero(padded);
      assert padded[1..] == serial;
    }
    UpperValue(padded);
  }

  lemma {:induction false} PlainFromStrip(s: string)
    requires Plain(Strip(s))
    ensures Plain(s)
  {
    if s != [] && s[0] == '0' { PlainFromStrip(s[1..]); }
  }

  /** A query finds a serial field if and only if that is spelled in upper case and denotes the same number. */
  lemma {:induction false} QueryFinds(field: string, serial: string)
    requires Hex(serial)
    ensures Strip(field) == Strip(Query(serial)) <==> Plain(field) && Value(field) == Value(serial)
  {
    QueryValue(serial);
    if Plain(field) {
      StripIffValue(field, Query(serial));
    } else if Strip(field) == Strip(Query(serial)) {
      StripStart(Query(serial));
      PlainFromStrip(field);
    }
  }

  /** So a row that was loaded with the serial 0a is never found, however the query is spelled. */
  lemma {:induction false} LowerCaseNeverFound(serial: string)
    requires Hex(serial)
    ensures SerialOk("0a") && SerialNumber("0a") == 10 && Strip("0a") != Strip(Query(serial))
  {
    ValueSnoc2([], '0', 'a');
    assert [] + ['0', 'a'] == "0a";
    assert !Plain("0a") by { assert "0a"[1] == 'a'; }
    QueryFinds("0a", serial);
  }
}
