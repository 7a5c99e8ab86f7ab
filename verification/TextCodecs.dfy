/** Bytes, as `unsigned char`. */
module Bytes {
  newtype Byte = x: int | 0 <= x < 256

  const COMMA: Byte := 44
  const PERCENT: Byte := 37
}

/** `next_protos_parse` of apps.c: a comma separated list becomes length-prefixed strings. */
module NextProtos {
  import opened Wrappers
  import opened Bytes

  const LIMIT: nat := 65535

  /** The segments between commas, the first of which is open since `start`. */
  function SplitFrom(s: seq<Byte>, start: nat, i: nat): seq<seq<Byte>>
    requires start <= i <= |s|
    decreases |s| - i
  {
    if i == |s| then [s[start..i]]
    else if s[i] == COMMA then [s[start..i]] + SplitFrom(s, i + 1, i + 1)
    else SplitFrom(s, start, i + 1)
  }

  function Split(s: seq<Byte>): seq<seq<Byte>> { SplitFrom(s, 0, 0) }

  /** The comma separated list of some segments. */
  function Join(segments: seq<seq<Byte>>): seq<Byte>
    requires segments != []
  {
    if |segments| == 1 then segments[0] else segments[0] + [COMMA] + Join(segments[1..])
  }

  /** The segments are comma-free and join to the input, which leaves no other choice of segments. */
  lemma {:induction false} SplitFromJoins(s: seq<Byte>, start: nat, i: nat)
    requires start <= i <= |s| && COMMA !in s[start..i]
    ensures var r := SplitFrom(s, start, i);
            r != [] && Join(r) == s[start..] && forall k :: 0 <= k < |r| ==> COMMA !in r[k]
    decreases |s| - i
  {
    if i < |s| {
      if s[i] == COMMA {
        SplitFromJoins(s, i + 1, i + 1);
        var rest := SplitFrom(s, i + 1, i + 1);
        assert SplitFrom(s, start, i)[1..] == rest;
        assert s[start..] == s[start..i] + [COMMA] + s[i + 1..];
      } else {
        assert s[start..i + 1] == s[start..i] + [s[i]];
        SplitFromJoins(s, start, i + 1);
      }
    } else {
      assert s[start..i] == s[start..];
    }
  }

  lemma {:induction false} SplitJoins(s: seq<Byte>)
    ensures Split(s) != [] && Join(Split(s)) == s && forall k :: 0 <= k < |Split(s)| ==> COMMA !in Split(s)[k]
    ensures COMMA as int == ',' as int
  {
    SplitFromJoins(s, 0, 0);
    assert s[0..] == s;
  }

  ghost predicate Short(segments: seq<seq<Byte>>) {
    forall i :: 0 <= i < |segments| ==> |segments[i]| <= 255
  }

  /** The wire format, byte by byte what a receiver reads. */
  function Decode(b: seq<Byte>): Option<seq<seq<Byte>>>
    decreases |b|
  {
    if b == [] then Some([])
    else
      var n := b[0] as nat;
      if |b| < 1 + n then None
      else
        var rest := Decode(b[1 + n..]);
        if rest.None? then None else Some([b[1..1 + n]] + rest.value)
  }

  /** The same format, written. */
  function Encode(segments: seq<seq<Byte>>): seq<Byte>
    requires forall i :: 0 <= i < |segments| ==> |segments[i]| <= 255
  {
    if segments == [] then [] else Prefixed(segments[0]) + Encode(segments[1..])
  }

  function Prefixed(segment: seq<Byte>): seq<Byte>
    requires |segment| <= 255
  {
    [|segment| as Byte] + segment
  }

  lemma {:induction false} EncodeSnoc(segments: seq<seq<Byte>>, last: seq<Byte>)
    requires Short(segments) && |last| <= 255
    ensures Short(segments + [last]) && Encode(segments + [last]) == Encode(segments) + Prefixed(last)
  {
    var all := segments + [last];
    if segments == [] {
      assert all[1..] == [];
      assert Prefixed(last) + Encode([]) == Prefixed(last);
    } else {
      EncodeSnoc(segments[1..], last);
      assert all[1..] == segments[1..] + [last];
      assert Prefixed(segments[0]) + (Encode(segments[1..]) + Prefixed(last)) ==
             Prefixed(segments[0]) + Encode(segments[1..]) + Prefixed(last);
    }
  }

  /** The format, byte by byte: the length of the first segment, the segment, and the rest in the same way. */
  lemma {:induction false} EncodeHead(segments: seq<seq<Byte>>)
    requires Short(segments) && segments != []
    ensures var b, n := Encode(segments), |segments[0]|;
            |b| >= 1 + n && b[0] as int == n && b[1..1 + n] == segments[0] && b[1 + n..] == Encode(segments[1..])
  {
    assert Encode(segments) == [|segments[0]| as Byte] + segments[0] + Encode(segments[1..]);
  }

  lemma {:induction false} DecodePrefixed(segment: seq<Byte>, rest: seq<Byte>)
    requires |segment| <= 255 && Decode(rest).Some?
    ensures Decode(Prefixed(segment) + rest) == Some([segment] + Decode(rest).value)
  {
    var b := Prefixed(segment) + rest;
    assert b[0] as nat == |segment| && b[1..1 + |segment|] == segment && b[1 + |segment|..] == rest;
  }

  /** Decoding inverts encoding. */
  lemma {:induction false} DecodeEncode(segments: seq<seq<Byte>>)
    requires Short(segments)
    ensures Decode(Encode(segments)) == Some(segments)
  {
    if segments != [] {
      DecodeEncode(segments[1..]);
      DecodePrefixed(segments[0], Encode(segments[1..]));
      assert [segments[0]] + segments[1..] == segments;
    }
  }

  /** The finished segments, and those that are still to be read. */
  ghost predicate Progress(input: seq<Byte>, done: seq<seq<Byte>>, start: nat, i: nat) {
    start <= i <= |input| && Split(input) == done + SplitFrom(input, start, i)
  }

  lemma {:induction false} SplitStep(input: seq<Byte>, done: seq<seq<Byte>>, start: nat, i: nat)
    requires Progress(input, done, start, i)
    ensures i == |input| ==> Split(input) == done + [input[start..i]]
    ensures i < |input| && input[i] == COMMA ==> Progress(input, done + [input[start..i]], i + 1, i + 1)
    ensures i < |input| && input[i] != COMMA ==> Progress(input, done, start, i + 1)
  {
    if i < |input| && input[i] == COMMA {
      var rest := SplitFrom(input, i + 1, i + 1);
      assert done + ([input[start..i]] + rest) == done + [input[start..i]] + rest;
    }
  }

  /** Before the byte `i` is looked at: finished segments are encoded, the open one is copied. */
  ghost predicate Open(input: seq<Byte>, out: seq<Byte>, done: seq<seq<Byte>>, start: nat, i: nat) {
    && start <= i <= |input| && |out| == |input| + 1
    && Short(done) && out[..start] == Encode(done) && Progress(input, done, start, i)
    && out[start + 1..i + 1] == input[start..i]
  }

  /** The output buffer, with the number of times each byte has been stored. */
  class Output {
    const data: array<Byte>
    ghost var stores: seq<nat>

    ghost predicate Valid()
      reads this
    {
      |stores| == data.Length
    }

    constructor (n: nat)
      ensures Valid() && fresh(data) && data.Length == n && forall k :: 0 <= k < n ==> stores[k] == 0
    {
      data := new Byte[n];
      stores := seq(n, _ => 0);
    }

    method Store(k: nat, b: Byte)
      requires Valid() && k < data.Length
      modifies this, data
      ensures Valid() && data[..] == old(data[..])[k := b] && stores == Bumped(old(stores), k)
    {
      data[k] := b;
      stores := stores[k := stores[k] + 1];
    }
  }

  /**
   `next_protos_parse`. It succeeds iff the input and all its segments are short enough; what it
   returns decodes to the segments, and every byte of it has been stored exactly once.
   */
  method Parse(input: seq<Byte>) returns (r: Output?)
    ensures r != null <==> |input| < 65535 && forall i :: 0 <= i < |Split(input)| ==> |Split(input)[i]| <= 255
    ensures r != null ==>
              && fresh(r) && fresh(r.data) && r.Valid() && r.data.Length == |input| + 1
              && (forall k :: 0 <= k < r.data.Length ==> r.stores[k] == 1)
              && r.data[..] == Encode(Split(input)) && Decode(r.data[..]) == Some(Split(input))
  {
    if |input| >= LIMIT {
      return null;
    }
    var out := new Output(|input| + 1);
    ghost var done: seq<seq<Byte>> := [];
    var start := 0;
    OpenStart(input, out.data[..]);
    for i := 0 to |input| + 1
      invariant out.Valid() && out.data.Length == |input| + 1 && fresh(out) && fresh(out.data)
      invariant start <= i && Written(out.stores, start, i)
      invariant i <= |input| ==> Open(input, out.data[..], done, start, i)
      invariant i > |input| ==> start == i && Short(done) && out.data[..] == Encode(done) && Split(input) == done
    {
      if i == |input| || input[i] == COMMA {
        var fits := EndSegment(out, input, start, i, done);
        if !fits {
          return null;
        }
        done, start := done + [input[start..i]], i + 1;
      } else {
        CopyByte(out, input, start, i, done);
      }
    }
    DecodeEncode(done);
    return out;
  }

  lemma {:induction false} OpenStart(input: seq<Byte>, out: seq<Byte>)
    requires |out| == |input| + 1
    ensures Open(input, out, [], 0, 0)
  {
    assert [] + Split(input) == Split(input);
  }

  /** The branch for a comma or the end of the input. */
  method EndSegment(out: Output, input: seq<Byte>, start: nat, i: nat, ghost done: seq<seq<Byte>>) returns (fits: bool)
    requires out.Valid() && Open(input, out.data[..], done, start, i) && (i == |input| || input[i] == COMMA)
    modifies out, out.data
    ensures out.Valid()
    ensures !fits ==> !Short(Split(input))
    ensures fits ==> out.stores == Bumped(old(out.stores), start)
    ensures fits && i < |input| ==> Open(input, out.data[..], done + [input[start..i]], i + 1, i + 1)
    ensures fits && i == |input| ==>
              var all := done + [input[start..i]];
              Short(all) && out.data[..] == Encode(all) && Split(input) == all
  {
    SplitStep(input, done, start, i);
    if i - start > 255 {
      LongSegment(input, done, start, i);
      return false;
    }
    ghost var was := out.data[..];
    out.Store(start, (i - start) as Byte);
    CloseSegment(was, out.data[..], input, start, i, done);
    return true;
  }

  /** `out[start] = i - start` in front of a segment that has been copied. */
  lemma {:induction false} CloseSegment(was: seq<Byte>, out: seq<Byte>, input: seq<Byte>, start: nat, i: nat,
                                        done: seq<seq<Byte>>)
    requires Open(input, was, done, start, i) && i - start <= 255 && out == was[start := (i - start) as Byte]
    ensures Short(done + [input[start..i]]) && out[..i + 1] == Encode(done + [input[start..i]])
    ensures i == |input| ==> out == out[..i + 1]
  {
    EncodeSnoc(done, input[start..i]);
    assert out[..start] == was[..start];
    assert out[start + 1..i + 1] == was[start + 1..i + 1];
    assert out[..i + 1] == out[..start] + [out[start]] + out[start + 1..i + 1];
    assert Encode(done) + Prefixed(input[start..i]) == Encode(done) + [(i - start) as Byte] + input[start..i];
  }

  /** `out[i + 1] = in[i]` */
  method CopyByte(out: Output, input: seq<Byte>, start: nat, i: nat, ghost done: seq<seq<Byte>>)
    requires out.Valid() && Open(input, out.data[..], done, start, i) && i < |input| && input[i] != COMMA
    modifies out, out.data
    ensures out.Valid() && out.stores == Bumped(old(out.stores), i + 1)
    ensures Open(input, out.data[..], done, start, i + 1)
  {
    ghost var was := out.data[..];
    out.Store(i + 1, input[i]);
    assert out.data[..][..start] == was[..start];
    assert out.data[..][start + 1..i + 2] == was[start + 1..i + 1] + [input[i]];
    assert input[start..i + 1] == input[start..i] + [input[i]];
    SplitStep(input, done, start, i);
  }

  ghost function Bumped(stores: seq<nat>, k: nat): (r: seq<nat>)
    requires k < |stores|
    ensures |r| == |stores|
    ensures forall start: nat, i: nat :: Written(stores, start, i) && start <= i ==>
              (k == start ==> Written(r, i + 1, i + 1)) && (k == i + 1 ==> Written(r, start, i + 1))
  {
    stores[k := stores[k] + 1]
  }

  /** Every byte up to `i` has been stored once, except the length of the open segment. */
  ghost predicate Written(writes: seq<nat>, start: nat, i: nat) {
    forall k :: 0 <= k < |writes| ==> writes[k] == if k < start || start < k <= i then 1 else 0
  }

  lemma {:induction false} LongSegment(input: seq<Byte>, done: seq<seq<Byte>>, start: nat, i: nat)
    requires start <= i <= |input| && i - start > 255
    requires if i < |input| then Progress(input, done + [input[start..i]], i + 1, i + 1)
             else Split(input) == done + [input[start..i]]
    ensures !Short(Split(input))
  {
    assert Split(input)[|done|] == input[start..i];
  }
}

/** `urldecode` of ocsp.c: percent-decoding in place. */
module UrlDecode {
  import opened Wrappers
  import opened Bytes

  predicate IsXDigit(b: Byte) { 48 <= b <= 57 || 65 <= b <= 70 || 97 <= b <= 102 }

  function HexValue(b: Byte): (v: Byte)
    requires IsXDigit(b)
    ensures v < 16
  {
    if b <= 57 then b - 48 else if b <= 70 then b - 55 else b - 87
  }

  function Pair(hi: Byte, lo: Byte): Byte
    requires IsXDigit(hi) && IsXDigit(lo)
  {
    16 * HexValue(hi) + HexValue(lo)
  }

  /** A '%' at position `i` that starts no triplet of section 2.1 of RFC 3986. */
  predicate Malformed(s: seq<Byte>, i: nat) {
    i < |s| && s[i] == PERCENT && !(i + 2 < |s| && IsXDigit(s[i + 1]) && IsXDigit(s[i + 2]))
  }

  /** The decoder as a function. */
  function Decode(s: seq<Byte>): Option<seq<Byte>> {
    if s == [] then Some([])
    else if s[0] != PERCENT then Prefixed([s[0]], Decode(s[1..]))
    else if Malformed(s, 0) then None
    else Prefixed([Pair(s[1], s[2])], Decode(s[3..]))
  }

  function Prefixed(acc: seq<Byte>, r: Option<seq<Byte>>): Option<seq<Byte>> {
    if r.None? then None else Some(acc + r.value)
  }

  const SMALL_DIGITS: string := "0123456789abcdef"
  const CAPITAL_DIGITS: string := "0123456789ABCDEF"

  /** The byte is the hexadecimal digit of that value, in either case. */
  ghost predicate DigitOf(b: Byte, v: nat)
    requires v < 16
  {
    b as int == SMALL_DIGITS[v] as int || b as int == CAPITAL_DIGITS[v] as int
  }

  lemma {:induction false} SmallDigit(v: nat)
    requires v < 16
    ensures SMALL_DIGITS[v] as int == if v < 10 then 48 + v else 87 + v
  {
    if v == 0 {} else if v == 1 {} else if v == 2 {} else if v == 3 {} else if v == 4 {} else if v == 5 {}
    else if v == 6 {} else if v == 7 {} else if v == 8 {} else if v == 9 {} else if v == 10 {} else if v == 11 {}
    else if v == 12 {} else if v == 13 {} else if v == 14 {} else { assert v == 15; }
  }

  lemma {:induction false} CapitalDigit(v: nat)
    requires v < 16
    ensures CAPITAL_DIGITS[v] as int == if v < 10 then 48 + v else 55 + v
  {
    if v == 0 {} else if v == 1 {} else if v == 2 {} else if v == 3 {} else if v == 4 {} else if v == 5 {}
    else if v == 6 {} else if v == 7 {} else if v == 8 {} else if v == 9 {} else if v == 10 {} else if v == 11 {}
    else if v == 12 {} else if v == 13 {} else if v == 14 {} else { assert v == 15; }
  }

  /** `OPENSSL_hexchar2int`, on both alphabets and nothing else. */
  lemma {:induction false} DigitByName(b: Byte, v: nat)
    requires v < 16
    ensures DigitOf(b, v) <==> IsXDigit(b) && HexValue(b) as nat == v
  {
    SmallDigit(v);
    CapitalDigit(v);
  }

  lemma {:induction false} XDigitByName(b: Byte)
    ensures IsXDigit(b) <==> exists v: nat :: v < 16 && DigitOf(b, v)
  {
    if IsXDigit(b) {
      DigitByName(b, HexValue(b) as nat);
    }
    forall v: nat | v < 16 && DigitOf(b, v) ensures IsXDigit(b) { DigitByName(b, v); }
  }

  /** `text` is some percent-encoding of `data`. */
  ghost predicate Encodes(text: seq<Byte>, data: seq<Byte>) {
    if text == [] then data == []
    else if text[0] as int == '%' as int then
      && |text| >= 3 && data != []
      && DigitOf(text[1], data[0] as nat / 16) && DigitOf(text[2], data[0] as nat % 16) && Encodes(text[3..], data[1..])
    else data != [] && data[0] == text[0] && Encodes(text[1..], data[1..])
  }

  lemma {:induction false} PairByName(hi: Byte, lo: Byte, b: Byte)
    ensures DigitOf(hi, b as nat / 16) && DigitOf(lo, b as nat % 16) <==>
            IsXDigit(hi) && IsXDigit(lo) && Pair(hi, lo) == b
  {
    DigitByName(hi, b as nat / 16);
    DigitByName(lo, b as nat % 16);
  }

  /** The decoder inverts every percent-encoding, and accepts nothing else. */
  lemma {:induction false} DecodeIffEncodes(text: seq<Byte>, data: seq<Byte>)
    ensures Decode(text) == Some(data) <==> Encodes(text, data)
    decreases |text|
  {
    if |text| >= 3 && data != [] { PairByName(text[1], text[2], data[0]); }
    if text != [] {
      var n := if text[0] == PERCENT then 3 else 1;
      if n <= |text| && !Malformed(text, 0) {
        var c := if n == 3 then Pair(text[1], text[2]) else text[0];
        if data != [] {
          DecodeIffEncodes(text[n..], data[1..]);
          assert data == [data[0]] + data[1..];
        }
        if Decode(text[n..]).Some? {
          assert ([c] + Decode(text[n..]).value)[1..] == Decode(text[n..]).value;
        }
      }
    }
  }

  /** It fails iff some '%' is not followed by two hexadecimal digits. */
  lemma {:induction false} FailsIffMalformed(s: seq<Byte>)
    ensures Decode(s).None? <==> exists i: nat :: Malformed(s, i)
    decreases |s|
  {
    if s != [] && !Malformed(s, 0) {
      var n := if s[0] == PERCENT then 3 else 1;
      FailsIffMalformed(s[n..]);
      if Decode(s[n..]).None? {
        var i: nat :| Malformed(s[n..], i);
        assert Malformed(s, i + n);
      } else if exists i: nat :: Malformed(s, i) {
        var i: nat :| Malformed(s, i);
        assert i >= n;
        assert Malformed(s[n..], i - n);
      }
    }
  }

  /** Every byte, written as '%' and two digits of either alphabet, is decoded to that byte. */
  lemma {:induction false} TripletDecodes(b: Byte, hi: Byte, lo: Byte, rest: seq<Byte>)
    requires DigitOf(hi, b as nat / 16) && DigitOf(lo, b as nat % 16)
    ensures Decode([37, hi, lo] + rest) == if Decode(rest) == None then None else Some([b] + Decode(rest).value)
  {
    PairByName(hi, lo, b);
    assert ([37, hi, lo] + rest)[3..] == rest;
  }

  function HexDigit(v: Byte): Byte
    requires v < 16
  {
    if v < 10 then 48 + v else 55 + v
  }

  /** An encoder that keeps the bytes it is told to, except '%' and NUL. */
  function Encode(data: seq<Byte>, keep: Byte -> bool): seq<Byte> {
    if data == [] then []
    else (if keep(data[0]) && data[0] != PERCENT && data[0] != 0 then [data[0]]
          else [PERCENT, HexDigit(data[0] / 16), HexDigit(data[0] % 16)])
         + Encode(data[1..], keep)
  }

  /** Any byte string survives encoding and decoding, and its encoding is a C string. */
  lemma {:induction false} RoundTrip(data: seq<Byte>, keep: Byte -> bool)
    ensures Decode(Encode(data, keep)) == Some(data)
    ensures 0 !in Encode(data, keep)
  {
    if data != [] {
      RoundTrip(data[1..], keep);
      var text := Encode(data, keep);
      var n := if text[0] == PERCENT then 3 else 1;
      assert text[n..] == Encode(data[1..], keep);
      assert data == [data[0]] + data[1..];
    }
  }

  /**
   `urldecode`. The buffer holds a string of `n` bytes and its terminator. The bytes are written
   where they have been read already, so the rest of the input is never damaged.
   */
  method Urldecode(buf: array<Byte>, ghost n: nat) returns (r: int)
    requires n < buf.Length && buf[n] == 0 && forall i :: 0 <= i < n ==> buf[i] != 0
    modifies buf
    ensures r == -1 <==> exists i: nat :: Malformed(old(buf[..n]), i)
    ensures r == -1 || 0 <= r <= n
    ensures r >= 0 ==> buf[r] == 0 && Decode(old(buf[..n])) == Some(buf[..r])
    ensures buf[n + 1..] == old(buf[n + 1..])
  {
    ghost var input := buf[..n];
    FailsIffMalformed(input);
    var p, out := 0, 0;
    DecodedStart(input);
    while buf[p] != 0
      invariant 0 <= out <= p <= n
      invariant Unread(buf[..], old(buf[..]), p)
      invariant Decoded(input, buf[..out], p)
      decreases n - p
    {
      assert buf[p] == input[p];
      DecodedStep(input, buf[..out], p);
      if buf[p] != PERCENT {
        PutByte(buf, out, buf[p]);
        p, out := p + 1, out + 1;
      } else if IsXDigit(buf[p + 1]) && IsXDigit(buf[p + 2]) {
        PutByte(buf, out, Pair(buf[p + 1], buf[p + 2]));
        p, out := p + 3, out + 1;
      } else {
        return -1;
      }
    }
    DecodedEnd(input, buf[..out]);
    buf[out] := 0;
    return out;
  }

  /** What is still to be read is as it was. */
  ghost predicate Unread(buf: seq<Byte>, was: seq<Byte>, p: nat) {
    |buf| == |was| && forall i :: p <= i < |buf| ==> buf[i] == was[i]
  }

  /** `*out++ = b` */
  method PutByte(buf: array<Byte>, out: nat, b: Byte)
    requires out < buf.Length
    modifies buf
    ensures buf[..out + 1] == old(buf[..out]) + [b]
    ensures forall i :: out < i < buf.Length ==> buf[i] == old(buf[i])
  {
    buf[out] := b;
  }

  /** `acc` is the decoding of what precedes position `p`. */
  ghost predicate Decoded(s: seq<Byte>, acc: seq<Byte>, p: nat) {
    p <= |s| && Decode(s) == Prefixed(acc, Decode(s[p..]))
  }

  lemma {:induction false} DecodedStart(s: seq<Byte>)
    ensures Decoded(s, [], 0)
  {
    assert s[0..] == s;
    if Decode(s).Some? { assert [] + Decode(s).value == Decode(s).value; }
  }

  lemma {:induction false} DecodedEnd(s: seq<Byte>, acc: seq<Byte>)
    requires Decoded(s, acc, |s|)
    ensures Decode(s) == Some(acc)
  {
    assert s[|s|..] == [] && acc + [] == acc;
  }

  lemma {:induction false} DecodedStep(s: seq<Byte>, acc: seq<Byte>, p: nat)
    requires Decoded(s, acc, p) && p < |s|
    ensures s[p] != PERCENT ==> Decoded(s, acc + [s[p]], p + 1)
    ensures s[p] == PERCENT && !Malformed(s, p) ==> Decoded(s, acc + [Pair(s[p + 1], s[p + 2])], p + 3)
    ensures Malformed(s, p) ==> Decode(s).None?
  {
    var n := if s[p] == PERCENT then 3 else 1;
    if !Malformed(s, p) {
      var c := if s[p] == PERCENT then Pair(s[p + 1], s[p + 2]) else s[p];
      assert s[p..][n..] == s[p + n..];
      var tail := Decode(s[p + n..]);
      assert Decode(s[p..]) == Prefixed([c], tail);
      if tail.Some? { assert acc + ([c] + tail.value) == acc + [c] + tail.value; }
    }
  }
}
