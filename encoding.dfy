/** Text renderings of a digest: base16 (section 8 of RFC 4648, with either letter case) and
    base64 (section 4 of RFC 4648), each with a decoder that inverts it. */
module Encoding {
  import opened Wrappers
  import Text

  /** The lookup table of `ConvertToHexFast`. */
  const LowerDigits: string := "0123456789abcdef"
  /** The digits `Convert.ToHexString` writes. */
  const UpperDigits: string := "0123456789ABCDEF"

  function HighNibble(b: bv8): (n: nat)
    ensures n < 16
  {
    (b >> 4) as nat
  }

  function LowNibble(b: bv8): (n: nat)
    ensures n < 16
  {
    (b & 0xF) as nat
  }

  /** The two nibbles put back together give the byte. */
  lemma NibblesCompose(b: bv8)
    ensures HighNibble(b) * 16 + LowNibble(b) == b as int
  {
    assert b == ((b >> 4) << 4) | (b & 0xF);
  }

  /** Two digits per byte, high nibble first, looked up in a sixteen-character table. */
  function HexWith(digits: string, bytes: seq<bv8>): (h: string)
    requires |digits| == 16
    ensures |h| == 2 * |bytes|
  {
    if bytes == [] then ""
    else [digits[HighNibble(bytes[0])], digits[LowNibble(bytes[0])]] + HexWith(digits, bytes[1..])
  }

  /** Lowercase base16, the canonical text form of a digest. */
  function LowerHex(bytes: seq<bv8>): string {
    HexWith(LowerDigits, bytes)
  }

  /** Uppercase base16, as `Convert.ToHexString` renders it. */
  function UpperHex(bytes: seq<bv8>): string {
    HexWith(UpperDigits, bytes)
  }

  /** The layout of base16 text: characters 2i and 2i+1 are the digits of the high and the low
      nibble of byte i. */
  lemma {:induction false} HexWithAt(digits: string, bytes: seq<bv8>, i: nat)
    requires |digits| == 16 && i < |bytes|
    ensures HexWith(digits, bytes)[2 * i] == digits[HighNibble(bytes[i])]
    ensures HexWith(digits, bytes)[2 * i + 1] == digits[LowNibble(bytes[i])]
  {
    if i > 0 {
      HexWithAt(digits, bytes[1..], i - 1);
    } else if |bytes| > 1 {
      HexWithAt(digits, bytes[1..], 0);
    }
  }

  /** Every character of lowercase base16 text is one of "0123456789abcdef". */
  lemma LowerHexAlphabet(bytes: seq<bv8>)
    ensures |LowerHex(bytes)| == 2 * |bytes|
    ensures forall k :: 0 <= k < |LowerHex(bytes)| ==> LowerHex(bytes)[k] in LowerDigits
  {
    forall k | 0 <= k < |LowerHex(bytes)|
      ensures LowerHex(bytes)[k] in LowerDigits
    {
      HexWithAt(LowerDigits, bytes, k / 2);
    }
  }

  /** The value of a lowercase hex digit, or None for any other character. */
  function DigitValue(c: char): (v: Option<nat>)
    ensures v.Some? ==> v.value < 16 && LowerDigits[v.value] == c
  {
    if '0' <= c <= '9' then Some(c as int - '0' as int)
    else if 'a' <= c <= 'f' then Some(c as int - 'a' as int + 10)
    else None
  }

  /** Base16 decoding: pairs of lowercase digits back to bytes; None for odd length or a
      character outside the alphabet. */
  function DecodeHex(s: string): (r: Option<seq<bv8>>)
    ensures r.Some? ==> |s| == 2 * |r.value|
  {
    if s == [] then Some([])
    else if |s| == 1 then None
    else
      match (DigitValue(s[0]), DigitValue(s[1]), DecodeHex(s[2..]))
      case (Some(hi), Some(lo), Some(rest)) => Some([(hi * 16 + lo) as bv8] + rest)
      case _ => None
  }

  lemma DigitValueOfDigit(n: nat)
    requires n < 16
    ensures DigitValue(LowerDigits[n]) == Some(n)
  {
  }

  /** Decoding the pairs of `LowerHex(bytes)` recovers `bytes`. */
  lemma {:induction false} LowerHexRoundTrip(bytes: seq<bv8>)
    ensures DecodeHex(LowerHex(bytes)) == Some(bytes)
  {
    if bytes != [] {
      var b := bytes[0];
      var s := LowerHex(bytes);
      assert s == [LowerDigits[HighNibble(b)], LowerDigits[LowNibble(b)]] + LowerHex(bytes[1..]);
      assert s[2..] == LowerHex(bytes[1..]);
      DigitValueOfDigit(HighNibble(b));
      DigitValueOfDigit(LowNibble(b));
      NibblesCompose(b);
      LowerHexRoundTrip(bytes[1..]);
      assert (HighNibble(b) * 16 + LowNibble(b)) as bv8 == b;
      assert [b] + bytes[1..] == bytes;
    }
  }

  /** Two different byte sequences never share a lowercase rendering. */
  lemma LowerHexInjective(a: seq<bv8>, b: seq<bv8>)
    requires LowerHex(a) == LowerHex(b)
    ensures a == b
  {
    LowerHexRoundTrip(a);
    LowerHexRoundTrip(b);
  }

  /** The two digit tables differ only in letter case. */
  lemma DigitsCase(n: nat)
    requires n < 16
    ensures Text.LowerChar(UpperDigits[n]) == LowerDigits[n]
    ensures Text.UpperChar(LowerDigits[n]) == UpperDigits[n]
  {
    if n < 10 {
      assert UpperDigits[n] == LowerDigits[n] == ('0' as int + n) as char;
    } else {
      assert UpperDigits[n] == ('A' as int + n - 10) as char;
      assert LowerDigits[n] == ('a' as int + n - 10) as char;
    }
  }

  /** Lowercasing `Convert.ToHexString`'s output gives the lookup-table rendering. */
  lemma UpperHexLowered(bytes: seq<bv8>)
    ensures Text.ToLower(UpperHex(bytes)) == LowerHex(bytes)
  {
    var u, l := UpperHex(bytes), LowerHex(bytes);
    forall k | 0 <= k < |l|
      ensures Text.LowerChar(u[k]) == l[k]
    {
      var i := k / 2;
      HexWithAt(LowerDigits, bytes, i);
      HexWithAt(UpperDigits, bytes, i);
      DigitsCase(HighNibble(bytes[i]));
      DigitsCase(LowNibble(bytes[i]));
      assert k == 2 * i || k == 2 * i + 1;
    }
  }

  /** Uppercasing the lookup-table rendering gives `Convert.ToHexString`'s. */
  lemma LowerHexRaised(bytes: seq<bv8>)
    ensures Text.ToUpper(LowerHex(bytes)) == UpperHex(bytes)
  {
    var u, l := UpperHex(bytes), LowerHex(bytes);
    forall k | 0 <= k < |l|
      ensures Text.UpperChar(l[k]) == u[k]
    {
      var i := k / 2;
      HexWithAt(LowerDigits, bytes, i);
      HexWithAt(UpperDigits, bytes, i);
      DigitsCase(HighNibble(bytes[i]));
      DigitsCase(LowNibble(bytes[i]));
      assert k == 2 * i || k == 2 * i + 1;
    }
  }

  // ---------------------------------------------------------------------------------------
  // Base64, section 4 of RFC 4648

  const Pad: char := '='

  /** Table 1 of RFC 4648: the character for a six-bit value. */
  function Base64Char(s: bv8): char
    requires s < 64
  {
    if s < 26 then ('A' as int + s as int) as char
    else if s < 52 then ('a' as int + s as int - 26) as char
    else if s < 62 then ('0' as int + s as int - 52) as char
    else if s == 62 then '+'
    else '/'
  }

  /** The six-bit value of a base64 character; None for padding and anything outside Table 1. */
  function SextetValue(c: char): (v: Option<bv8>)
    ensures v.Some? ==> v.value < 64
  {
    if 'A' <= c <= 'Z' then Some((c as int - 'A' as int) as bv8)
    else if 'a' <= c <= 'z' then Some((c as int - 'a' as int + 26) as bv8)
    else if '0' <= c <= '9' then Some((c as int - '0' as int + 52) as bv8)
    else if c == '+' then Some(62)
    else if c == '/' then Some(63)
    else None
  }

  lemma SextetValueOfChar(s: bv8)
    requires s < 64
    ensures SextetValue(Base64Char(s)) == Some(s)
  {
    if s < 26 {
      assert Base64Char(s) == ('A' as int + s as int) as char;
    } else if s < 52 {
      assert Base64Char(s) == ('a' as int + s as int - 26) as char;
    } else if s < 62 {
      assert Base64Char(s) == ('0' as int + s as int - 52) as char;
    }
  }

  /** The four characters for the 24-bit group `x y z`, most significant bits first. */
  function Quantum(x: bv8, y: bv8, z: bv8): string {
    [Base64Char(x >> 2), Base64Char(((x & 3) << 4) | (y >> 4)),
     Base64Char(((y & 15) << 2) | (z >> 6)), Base64Char(z & 63)]
  }

  /** A final group of two bytes: three characters and one pad. */
  function QuantumOfTwo(x: bv8, y: bv8): string {
    [Base64Char(x >> 2), Base64Char(((x & 3) << 4) | (y >> 4)), Base64Char((y & 15) << 2), Pad]
  }

  /** A final group of one byte: two characters and two pads. */
  function QuantumOfOne(x: bv8): string {
    [Base64Char(x >> 2), Base64Char((x & 3) << 4), Pad, Pad]
  }

  /** Standard base64 with padding, as `Convert.ToBase64String` produces it (section 4 of
      RFC 4648): a final group of one byte gives two characters and "==", of two bytes three
      characters and "=". */
  function Base64Encode(bytes: seq<bv8>): string
    decreases |bytes|
  {
    if bytes == [] then ""
    else if |bytes| == 1 then QuantumOfOne(bytes[0])
    else if |bytes| == 2 then QuantumOfTwo(bytes[0], bytes[1])
    else Quantum(bytes[0], bytes[1], bytes[2]) + Base64Encode(bytes[3..])
  }

  /** The bytes of one group of four characters; padding is accepted only in the last group. */
  function DecodeQuantum(q: string, last: bool): Option<seq<bv8>>
    requires |q| == 4
  {
    var a, b, c, d := SextetValue(q[0]), SextetValue(q[1]), SextetValue(q[2]), SextetValue(q[3]);
    if a.None? || b.None? then None
    else
      var x := (a.value << 2) | (b.value >> 4);
      if c.Some? && d.Some? then
        Some([x, ((b.value & 15) << 4) | (c.value >> 2), ((c.value & 3) << 6) | d.value])
      else if last && c.Some? && q[3] == Pad then
        Some([x, ((b.value & 15) << 4) | (c.value >> 2)])
      else if last && q[2] == Pad && q[3] == Pad then
        Some([x])
      else None
  }

  /** Base64 decoding; None for a length that is not a multiple of four or a malformed group. */
  function Base64Decode(s: string): Option<seq<bv8>>
    decreases |s|
  {
    if s == [] then Some([])
    else if |s| < 4 then None
    else
      var group, rest := DecodeQuantum(s[..4], |s| == 4), Base64Decode(s[4..]);
      if group.Some? && rest.Some? then Some(group.value + rest.value) else None
  }

  /** The regrouping identities on bits that decoding relies on. */
  lemma RegroupThree(x: bv8, y: bv8, z: bv8)
    ensures var a, b, c, d := x >> 2, ((x & 3) << 4) | (y >> 4), ((y & 15) << 2) | (z >> 6), z & 63;
      (a << 2) | (b >> 4) == x && ((b & 15) << 4) | (c >> 2) == y && ((c & 3) << 6) | d == z
  {
  }

  lemma RegroupTwo(x: bv8, y: bv8)
    ensures var a, b, c := x >> 2, ((x & 3) << 4) | (y >> 4), (y & 15) << 2;
      (a << 2) | (b >> 4) == x && ((b & 15) << 4) | (c >> 2) == y
  {
  }

  lemma RegroupOne(x: bv8)
    ensures var a, b := x >> 2, (x & 3) << 4;
      (a << 2) | (b >> 4) == x
  {
  }

  lemma QuantumDecodes(x: bv8, y: bv8, z: bv8, last: bool)
    ensures DecodeQuantum(Quantum(x, y, z), last) == Some([x, y, z])
  {
    SextetValueOfChar(x >> 2);
    SextetValueOfChar(((x & 3) << 4) | (y >> 4));
    SextetValueOfChar(((y & 15) << 2) | (z >> 6));
    SextetValueOfChar(z & 63);
    RegroupThree(x, y, z);
  }

  lemma TwoBytesDecode(x: bv8, y: bv8)
    ensures DecodeQuantum(QuantumOfTwo(x, y), true) == Some([x, y])
  {
    SextetValueOfChar(x >> 2);
    SextetValueOfChar(((x & 3) << 4) | (y >> 4));
    SextetValueOfChar((y & 15) << 2);
    assert SextetValue(Pad) == None;
    RegroupTwo(x, y);
  }

  lemma OneByteDecodes(x: bv8)
    ensures DecodeQuantum(QuantumOfOne(x), true) == Some([x])
  {
    SextetValueOfChar(x >> 2);
    SextetValueOfChar((x & 3) << 4);
    assert SextetValue(Pad) == None;
    RegroupOne(x);
  }

  /** Base64 text has four characters per started group of three bytes. */
  lemma {:induction false} Base64Length(bytes: seq<bv8>)
    ensures |Base64Encode(bytes)| == 4 * ((|bytes| + 2) / 3)
    decreases |bytes|
  {
    if |bytes| > 2 {
      Base64Length(bytes[3..]);
      assert (|bytes| + 2) / 3 == (|bytes[3..]| + 2) / 3 + 1;
    }
  }

  /** A single group of four characters decodes as its quantum does. */
  lemma LastGroupDecodes(q: string, g: seq<bv8>)
    requires |q| == 4 && DecodeQuantum(q, true) == Some(g)
    ensures Base64Decode(q) == Some(g)
  {
    assert q[..4] == q && q[4..] == [];
    assert g + [] == g;
  }

  /** Decoding `Base64Encode(bytes)` recovers `bytes`. */
  lemma {:induction false} Base64RoundTrip(bytes: seq<bv8>)
    ensures Base64Decode(Base64Encode(bytes)) == Some(bytes)
    decreases |bytes|
  {
    if |bytes| == 1 {
      OneByteDecodes(bytes[0]);
      LastGroupDecodes(QuantumOfOne(bytes[0]), [bytes[0]]);
      assert [bytes[0]] == bytes;
    } else if |bytes| == 2 {
      TwoBytesDecode(bytes[0], bytes[1]);
      LastGroupDecodes(QuantumOfTwo(bytes[0], bytes[1]), [bytes[0], bytes[1]]);
      assert [bytes[0], bytes[1]] == bytes;
    } else if |bytes| > 2 {
      Base64RoundTrip(bytes[3..]);
      GroupRoundTrip(bytes);
    }
  }

  /** A leading full group followed by text that decodes. */
  lemma GroupRoundTrip(bytes: seq<bv8>)
    requires |bytes| > 2
    requires Base64Decode(Base64Encode(bytes[3..])) == Some(bytes[3..])
    ensures Base64Decode(Base64Encode(bytes)) == Some(bytes)
  {
    var g, rest := [bytes[0], bytes[1], bytes[2]], bytes[3..];
    var q, t := Quantum(bytes[0], bytes[1], bytes[2]), Base64Encode(rest);
    SplitAfterThree(bytes);
    QuantumDecodes(bytes[0], bytes[1], bytes[2], t == []);
    DecodeAfterGroup(q, t, g, rest);
  }

  lemma SplitAfterThree(bytes: seq<bv8>)
    requires |bytes| > 2
    ensures [bytes[0], bytes[1], bytes[2]] + bytes[3..] == bytes
  {
  }

  lemma DecodeAfterGroup(q: string, t: string, g: seq<bv8>, rest: seq<bv8>)
    requires |q| == 4
    requires DecodeQuantum(q, t == []) == Some(g) && Base64Decode(t) == Some(rest)
    ensures Base64Decode(q + t) == Some(g + rest)
  {
    var s := q + t;
    assert s[..4] == q && s[4..] == t;
  }
}
