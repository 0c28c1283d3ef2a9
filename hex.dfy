/** The two hex helpers of site/src/App.tsx: `toUint8Array`, which splits a
    string into pairs and parses each pair in base 16, and `toHexString`, which
    writes every byte as two lowercase, zero-padded digits. */
module Hex {
  import opened Bytes
  import opened Results

  /** A digit `parseInt(_, 16)` accepts, in either case. */
  predicate IsHexDigit(c: char) {
    '0' <= c <= '9' || 'a' <= c <= 'f' || 'A' <= c <= 'F'
  }

  /** A digit `Number.prototype.toString(16)` can write. */
  predicate IsLowerHexDigit(c: char) {
    '0' <= c <= '9' || 'a' <= c <= 'f'
  }

  predicate IsHexString(s: string) {
    forall i :: 0 <= i < |s| ==> IsHexDigit(s[i])
  }

  predicate IsLowerHexString(s: string) {
    forall i :: 0 <= i < |s| ==> IsLowerHexDigit(s[i])
  }

  /** The value of one base-16 digit. */
  function DigitValue(c: char): (v: nat)
    requires IsHexDigit(c)
    ensures v < 16
  {
    if '0' <= c <= '9' then c as int - '0' as int
    else if 'a' <= c <= 'f' then c as int - 'a' as int + 10
    else c as int - 'A' as int + 10
  }

  /** The lowercase digit written for a digit value. */
  function DigitChar(v: nat): (c: char)
    requires v < 16
    ensures IsLowerHexDigit(c) && DigitValue(c) == v
  {
    if v < 10 then ('0' as int + v) as char else ('a' as int + v - 10) as char
  }

  /** A digit in lower case; other characters are left alone. */
  function ToLowerDigit(c: char): char {
    if 'A' <= c <= 'F' then (c as int - 'A' as int + 'a' as int) as char else c
  }

  function ToLower(s: string): (r: string)
    ensures |r| == |s|
    ensures forall i :: 0 <= i < |s| ==> r[i] == ToLowerDigit(s[i])
  {
    seq(|s|, i requires 0 <= i < |s| => ToLowerDigit(s[i]))
  }

  /** Writing the value of a digit gives back the digit, in lower case. */
  lemma DigitCharOfValue(c: char)
    requires IsHexDigit(c)
    ensures DigitChar(DigitValue(c)) == ToLowerDigit(c)
  {
  }

  /** 16 to the power `k`: the number of values `k` digits can write. */
  function Pow16(k: nat): (p: nat)
    ensures p >= 1
  {
    if k == 0 then 1 else 16 * Pow16(k - 1)
  }

  /** The value of a string of digits, most significant first. */
  function DigitsValue(s: string): nat
    requires IsHexString(s)
  {
    if s == [] then 0 else 16 * DigitsValue(s[..|s| - 1]) + DigitValue(s[|s| - 1])
  }

  /** `k` digits write a value below 16^k. */
  lemma {:induction false} DigitsValueBound(s: string)
    requires IsHexString(s)
    ensures DigitsValue(s) < Pow16(|s|)
  {
    if s != [] {
      var init := s[..|s| - 1];
      DigitsValueBound(init);
      assert DigitsValue(s) <= 16 * (Pow16(|init|) - 1) + 15;
    }
  }

  /** `n.toString(16)`: the lowercase base-16 numeral of `n`, without leading
      zeros, and "0" for zero. */
  function ToRadix16(n: nat): (s: string)
    ensures |s| >= 1 && IsLowerHexString(s)
    ensures s[0] == '0' ==> n == 0
    ensures DigitsValue(s) == n
    ensures |s| == 1 <==> n < 16
    ensures 16 <= n < 256 ==> |s| == 2
  {
    if n < 16 then [DigitChar(n)]
    else
      var hi := ToRadix16(n / 16);
      var s := hi + [DigitChar(n % 16)];
      assert s[..|s| - 1] == hi;
      s
  }

  /** `s.padStart(width, fill)` for a one-character `fill`. */
  function PadStart(s: string, width: nat, fill: char): (r: string)
    ensures |r| == if |s| >= width then |s| else width
    ensures r[|r| - |s|..] == s
    ensures forall i :: 0 <= i < |r| - |s| ==> r[i] == fill
  {
    if |s| >= width then s else seq(width - |s|, _ => fill) + s
  }

  /** `x.toString(16).padStart(2, "0")` for one byte: always the two digits of
      `x`, high digit first, with no `0x` prefix. */
  function ByteToHex(x: byte): (r: string)
    ensures r == [DigitChar(x / 16), DigitChar(x % 16)]
  {
    var digits := ToRadix16(x);
    assert x < 16 ==> digits == [DigitChar(x)];
    assert x >= 16 ==> digits == ToRadix16(x / 16) + [DigitChar(x % 16)];
    PadStart(digits, 2, '0')
  }

  /** The number of characters in all of `parts` together. */
  function TotalLength(parts: seq<string>): nat {
    if parts == [] then 0 else |parts[0]| + TotalLength(parts[1..])
  }

  /** `parts.join("")`. */
  function Join(parts: seq<string>): string {
    if parts == [] then "" else parts[0] + Join(parts[1..])
  }

  /** Joining with no separator keeps every character of every part: the
      result is as long as the parts together, and joining one more part
      appends it. */
  lemma {:induction false} JoinLength(parts: seq<string>, last: string)
    ensures |Join(parts)| == TotalLength(parts)
    ensures Join(parts + [last]) == Join(parts) + last
  {
    if parts != [] {
      JoinLength(parts[1..], last);
      assert (parts + [last])[1..] == parts[1..] + [last];
    } else {
      assert [last][1..] == [];
    }
  }

  /** Joining two-character strings puts part `i` at positions `2i` and `2i+1`. */
  lemma {:induction false} JoinPairs(parts: seq<string>)
    requires forall i :: 0 <= i < |parts| ==> |parts[i]| == 2
    ensures |Join(parts)| == 2 * |parts|
    ensures forall i :: 0 <= i < |parts| ==>
              Join(parts)[2 * i] == parts[i][0] && Join(parts)[2 * i + 1] == parts[i][1]
  {
    if parts != [] {
      JoinPairs(parts[1..]);
      var j := Join(parts);
      assert j == parts[0] + Join(parts[1..]);
      forall i | 0 < i < |parts|
        ensures j[2 * i] == parts[i][0] && j[2 * i + 1] == parts[i][1]
      {
        assert parts[1..][i - 1] == parts[i];
      }
    }
  }

  /** `toHexString` (site/src/App.tsx:22-26): every byte as two lowercase
      digits, in order, so the result is twice as long as the input. */
  function ToHexString(b: seq<byte>): (r: string)
    ensures |r| == 2 * |b|
    ensures IsLowerHexString(r)
    ensures forall i :: 0 <= i < |b| ==>
              r[2 * i] == DigitChar(b[i] / 16) && r[2 * i + 1] == DigitChar(b[i] % 16)
  {
    var parts := seq(|b|, i requires 0 <= i < |b| => ByteToHex(b[i]));
    JoinPairs(parts);
    var r := Join(parts);
    LowerHexByPairs(r, |b|);
    r
  }

  /** A string of `n` pairs of lowercase digits is a lowercase hex string. */
  lemma LowerHexByPairs(r: string, n: nat)
    requires |r| == 2 * n
    requires forall i :: 0 <= i < n ==> IsLowerHexDigit(r[2 * i]) && IsLowerHexDigit(r[2 * i + 1])
    ensures IsLowerHexString(r)
  {
    forall k | 0 <= k < |r|
      ensures IsLowerHexDigit(r[k])
    {
      var i := k / 2;
      assert k == 2 * i || k == 2 * i + 1;
    }
  }

  /** The matches of `/../g`: consecutive two-character pieces, left to right;
      a final unpaired character is not matched. (No character here is a line
      terminator, which `.` would refuse to match.) */
  function Pairs(s: string): (ps: seq<string>)
    ensures |ps| == |s| / 2
    ensures forall i :: 0 <= i < |ps| ==> ps[i] == s[2 * i..2 * i + 2]
  {
    if |s| < 2 then []
    else
      var rest := Pairs(s[2..]);
      var ps := [s[..2]] + rest;
      assert forall i :: 1 <= i < |ps| ==> ps[i] == rest[i - 1] == s[2..][2 * (i - 1)..2 * (i - 1) + 2];
      ps
  }

  /** `s.match(/../g)`: null when there is no match, else the matches. */
  function MatchPairs(s: string): (m: Option<seq<string>>)
    ensures m.None? <==> |s| < 2
    ensures m.Some? ==> m.value == Pairs(s)
  {
    var ps := Pairs(s);
    if ps == [] then None else Some(ps)
  }

  /** `parseInt(h, 16)` on one match of `/../g`: a pair of digits. */
  function ParseInt16(h: string): (v: nat)
    requires |h| == 2 && IsHexString(h)
    ensures v == 16 * DigitValue(h[0]) + DigitValue(h[1])
    ensures v < 256
  {
    var first := h[..1];
    assert first[..0] == [] && first[0] == h[0];
    assert DigitsValue(first) == DigitValue(h[0]);
    DigitsValue(h)
  }

  /** The conversion a `Uint8Array` applies to each number it is built from
      (modulo 256). */
  function ToUint8(v: nat): (b: byte)
    ensures v < 256 ==> b == v
    ensures b <= v
  {
    v % 256
  }

  /** `toUint8Array` (site/src/App.tsx:17-19). It fails when `match` returns
      null, which is exactly when the string has fewer than two characters;
      otherwise it gives one byte per pair, and a last unpaired character is
      ignored. */
  function ToUint8Array(s: string): (r: Result<seq<byte>>)
    requires IsHexString(s)
    ensures r.Err? <==> |s| < 2
    ensures r.Ok? ==> |r.value| == |s| / 2
  {
    match MatchPairs(s)
    case None => Err(NoPairs)
    case Some(ps) =>
      Ok(seq(|ps|, i requires 0 <= i < |ps| =>
        assert ps[i] == s[2 * i..2 * i + 2];
        ToUint8(ParseInt16(ps[i]))))
  }

  /** `b` holds one byte per pair of digits of `s`, byte `i` being the value
      of characters `2i` and `2i+1`; a last unpaired digit is not used. */
  predicate PairsDecodeTo(s: string, b: seq<byte>)
    requires IsHexString(s)
  {
    |b| == |s| / 2
    && forall i :: 0 <= i < |b| ==> b[i] == 16 * DigitValue(s[2 * i]) + DigitValue(s[2 * i + 1])
  }

  /** Byte `i` of the decoded string is parsed from characters `2i` and `2i+1`. */
  lemma ToUint8ArrayBytes(s: string)
    requires IsHexString(s) && |s| >= 2
    ensures forall i :: 0 <= i < |s| / 2 ==>
              ToUint8Array(s).value[i] == 16 * DigitValue(s[2 * i]) + DigitValue(s[2 * i + 1])
  {
    var ps := Pairs(s);
    forall i | 0 <= i < |s| / 2
      ensures ToUint8Array(s).value[i] == 16 * DigitValue(s[2 * i]) + DigitValue(s[2 * i + 1])
    {
      assert ps[i] == s[2 * i..2 * i + 2];
    }
  }

  /** An odd final character does not change what is decoded. */
  lemma OddLengthIgnoresLast(s: string)
    requires IsHexString(s) && |s| % 2 == 1
    ensures ToUint8Array(s) == ToUint8Array(s[..|s| - 1])
  {
    var t := s[..|s| - 1];
    assert IsHexString(t);
    if |s| >= 3 {
      var r, q := ToUint8Array(s).value, ToUint8Array(t).value;
      ToUint8ArrayBytes(s);
      ToUint8ArrayBytes(t);
      assert |r| == |q|;
      forall i | 0 <= i < |r|
        ensures r[i] == q[i]
      {
        assert t[2 * i] == s[2 * i] && t[2 * i + 1] == s[2 * i + 1];
      }
      assert r == q;
      assert ToUint8Array(s) == Ok(r) && ToUint8Array(t) == Ok(q);
    }
  }

  /** Decoding the hex of a non-empty byte sequence gives it back. */
  lemma HexRoundTrip(b: seq<byte>)
    requires |b| >= 1
    ensures ToUint8Array(ToHexString(b)) == Ok(b)
  {
    var h := ToHexString(b);
    var r := ToUint8Array(h).value;
    ToUint8ArrayBytes(h);
    forall i | 0 <= i < |b|
      ensures r[i] == b[i]
    {
      assert DigitValue(h[2 * i]) == b[i] / 16 && DigitValue(h[2 * i + 1]) == b[i] % 16;
    }
    assert r == b;
  }

  /** The empty byte sequence does not survive the round trip: its hex is
      empty and `match` finds no pair. */
  lemma HexRoundTripEmpty()
    ensures ToUint8Array(ToHexString([])) == Err(NoPairs)
  {
  }

  /** Writing what an even-length hex string decodes to gives the string back
      in lower case. */
  lemma HexNormalises(s: string)
    requires IsHexString(s) && |s| >= 2 && |s| % 2 == 0
    ensures ToUint8Array(s).Ok?
    ensures ToHexString(ToUint8Array(s).value) == ToLower(s)
  {
    var b := ToUint8Array(s).value;
    ToUint8ArrayBytes(s);
    assert PairsDecodeTo(s, b);
    HexOfPairs(s, b);
  }

  /** Bytes that hold the pairs of an even-length hex string are written as
      that string in lower case. */
  lemma HexOfPairs(s: string, b: seq<byte>)
    requires IsHexString(s) && |s| % 2 == 0 && PairsDecodeTo(s, b)
    ensures ToHexString(b) == ToLower(s)
  {
    var h, l := ToHexString(b), ToLower(s);
    forall i | 0 <= i < |b|
      ensures h[2 * i] == l[2 * i] && h[2 * i + 1] == l[2 * i + 1]
    {
      LowerPair(s[2 * i], s[2 * i + 1], b[i]);
    }
    forall k | 0 <= k < |s|
      ensures h[k] == l[k]
    {
      var i := k / 2;
      assert k == 2 * i || k == 2 * i + 1;
    }
  }

  /** The two digits written for a byte parsed from two digits are those
      digits in lower case. */
  lemma LowerPair(c: char, d: char, x: byte)
    requires IsHexDigit(c) && IsHexDigit(d)
    requires x == 16 * DigitValue(c) + DigitValue(d)
    ensures DigitChar(x / 16) == ToLowerDigit(c) && DigitChar(x % 16) == ToLowerDigit(d)
  {
    DigitCharOfValue(c);
    DigitCharOfValue(d);
  }

  /** Bytes below 16 keep their leading zero; an odd last digit is dropped;
      a single digit has no pair at all. */
  lemma HexExamples()
    ensures ToHexString([0x0a, 0xff]) == "0aff"
    ensures ToUint8Array("0aF") == Ok([0x0a])
    ensures ToUint8Array("f") == Err(NoPairs)
  {
    var b: seq<byte> := [0x0a, 0xff];
    var h := ToHexString(b);
    assert h[0] == DigitChar(b[0] / 16) && h[1] == DigitChar(b[0] % 16);
    assert h[2] == DigitChar(b[1] / 16) && h[3] == DigitChar(b[1] % 16);
    assert h == "0aff";
    var s := "0aF";
    assert IsHexString(s);
    var r := ToUint8Array(s).value;
    ToUint8ArrayBytes(s);
    assert r[0] == 16 * DigitValue(s[0]) + DigitValue(s[1]) == 10;
    assert r == [0x0a];
    assert IsHexString("f");
  }

  /** Distinct byte sequences have distinct hex. */
  lemma ToHexStringInjective(a: seq<byte>, b: seq<byte>)
    requires ToHexString(a) == ToHexString(b)
    ensures a == b
  {
    if a != [] {
      HexRoundTrip(a);
      HexRoundTrip(b);
    }
  }
}
