/** SHA256 SSH fingerprints: unpadded base64 (sections 3.2, 3.5 and 4 of RFC 4648), a decoder
    as lenient as the library's, and the canonical-form check of internal/config/config.go. The
    decoder skips line breaks and drops the bits that fill no byte, so that it reads a digest from
    many strings; the check encodes again and compares, which leaves one. */
module Fingerprint {
  import opened Basics
  import opened Text
  import opened BitGroups

  type Byte = n: nat | n < 256
  type Digit = n: nat | n < 64

  const PREFIX: string := "SHA256:"
  const DIGEST_SIZE: nat := 32

  function CharOf(d: Digit): char {
    if d < 26 then ('A' as int + d) as char
    else if d < 52 then ('a' as int + (d - 26)) as char
    else if d < 62 then ('0' as int + (d - 52)) as char
    else if d == 62 then '+'
    else '/'
  }

  function DigitOf(c: char): Option<Digit> {
    if 'A' <= c <= 'Z' then Some(c as int - 'A' as int)
    else if 'a' <= c <= 'z' then Some(c as int - 'a' as int + 26)
    else if '0' <= c <= '9' then Some(c as int - '0' as int + 52)
    else if c == '+' then Some(62)
    else if c == '/' then Some(63)
    else None
  }

  lemma AlphabetBijective(d: Digit, c: char)
    ensures DigitOf(CharOf(d)) == Some(d)
    ensures DigitOf(c).Some? ==> CharOf(DigitOf(c).value) == c
    ensures DigitOf(c).Some? ==> !IsSpace(c)
  {
  }

  /** The six-bit groups of a byte string, the last one filled up with zero bits. */
  function ToDigits(b: seq<Byte>): (d: seq<Digit>) {
    var bits := Join(b, 8);
    PowerValues();
    Split(bits + PadBits(bits), 6)
  }

  /** The eight-bit groups of a digit string; bits that fill no byte are dropped unread. */
  function FromDigits(d: seq<Digit>): (b: seq<Byte>) {
    PowerValues();
    Split(Join(d, 6), 8)
  }

  function Chars(d: seq<Digit>): (s: string)
    ensures |s| == |d| && forall i :: 0 <= i < |d| ==> s[i] == CharOf(d[i])
  {
    seq(|d|, i requires 0 <= i < |d| => CharOf(d[i]))
  }

  predicate InAlphabet(s: string) {
    forall i :: 0 <= i < |s| ==> DigitOf(s[i]).Some?
  }

  function Digits(s: string): (d: seq<Digit>)
    requires InAlphabet(s)
    ensures |d| == |s| && forall i :: 0 <= i < |s| ==> d[i] == DigitOf(s[i]).value
  {
    seq(|s|, i requires 0 <= i < |s| => DigitOf(s[i]).value)
  }

  function Encode(b: seq<Byte>): string {
    Chars(ToDigits(b))
  }

  /** The decoder skips line breaks wherever they stand. */
  function Strip(s: string): string {
    if s == "" then ""
    else (if s[0] == '\r' || s[0] == '\n' then "" else [s[0]]) + Strip(s[1..])
  }

  /** A foreign character or a lone last digit is an error. */
  function Decode(s: string): Option<seq<Byte>> {
    var t := Strip(s);
    if InAlphabet(t) && |t| % 4 != 1 then Some(FromDigits(Digits(t))) else None
  }

  /** The check as the program writes it. */
  predicate ValidFingerprint(value: string) {
    && value == TrimSpace(value)
    && PREFIX <= value
    && var encoded := value[|PREFIX|..];
       var decoded := Decode(encoded);
       decoded.Some? && |decoded.value| == DIGEST_SIZE && Encode(decoded.value) == encoded
  }

  lemma {:induction false} StripIdentity(s: string)
    requires InAlphabet(s)
    ensures Strip(s) == s
  {
    if s != "" {
      assert DigitOf(s[0]).Some?;
      assert forall i :: 0 <= i < |s| - 1 ==> s[1..][i] == s[i + 1];
      StripIdentity(s[1..]);
    }
  }

  lemma CharsRoundTrip(d: seq<Digit>)
    ensures InAlphabet(Chars(d)) && Digits(Chars(d)) == d
  {
    forall i | 0 <= i < |d| ensures DigitOf(Chars(d)[i]) == Some(d[i]) {
      AlphabetBijective(d[i], 'A');
    }
  }

  lemma DigitsRoundTrip(s: string)
    requires InAlphabet(s)
    ensures Chars(Digits(s)) == s
  {
    forall i | 0 <= i < |s| ensures Chars(Digits(s))[i] == s[i] {
      AlphabetBijective(0, s[i]);
    }
  }

  lemma DigitBits(b: seq<Byte>)
    ensures Join(ToDigits(b), 6) == Join(b, 8) + PadBits(Join(b, 8))
    ensures |ToDigits(b)| * 6 == |b| * 8 + |PadBits(Join(b, 8))|
  {
    var bits := Join(b, 8);
    PadCompletes(bits);
    JoinSplit(bits + PadBits(bits), 6);
    JoinLength(ToDigits(b), 6);
    JoinLength(b, 8);
  }

  lemma BytesRoundTrip(b: seq<Byte>)
    ensures FromDigits(ToDigits(b)) == b
    ensures |ToDigits(b)| % 4 != 1
  {
    DigitCount(b);
    DigitBits(b);
    PowerValues();
    SplitJoin(b, 8, PadBits(Join(b, 8)));
  }

  lemma DigitCount(b: seq<Byte>)
    ensures |ToDigits(b)| % 4 != 1 && |PadBits(Join(b, 8))| < 6
  {
    DigitBits(b);
    NeverOneOver(|ToDigits(b)|, |b|, |PadBits(Join(b, 8))|);
  }

  /** Decoding undoes encoding, for every byte string. */
  lemma DecodeEncode(b: seq<Byte>)
    ensures InAlphabet(Encode(b)) && Decode(Encode(b)) == Some(b)
  {
    BytesRoundTrip(b);
    CharsRoundTrip(ToDigits(b));
    StripIdentity(Chars(ToDigits(b)));
  }

  /** Zero in the bits the decoder does not read. */
  predicate Canonical(d: seq<Digit>) {
    var rest := LeftOver(Join(d, 6), 8);
    rest == Zeros(|rest|)
  }

  /** Encoding undoes decoding exactly on canonical digits. */
  lemma DigitsRoundTripCanonical(d: seq<Digit>)
    requires |d| % 4 != 1
    ensures ToDigits(FromDigits(d)) == d <==> Canonical(d)
  {
    var bits, b := Join(d, 6), FromDigits(d);
    var rest, pad := LeftOver(bits, 8), PadBits(Join(b, 8));
    JoinSplit(bits, 8);
    DigitBits(b);
    PadMatchesLeftOver(d);
    assert bits[|Join(b, 8)|..] == rest;
    assert (Join(b, 8) + pad)[|Join(b, 8)|..] == pad;
    if Canonical(d) {
      assert pad == rest;
      PowerValues();
      SplitJoin(d, 6, []);
      assert bits + [] == bits;
    }
  }

  lemma PadMatchesLeftOver(d: seq<Digit>)
    requires |d| % 4 != 1
    ensures |LeftOver(Join(d, 6), 8)| == |PadBits(Join(FromDigits(d), 8))|
  {
    var b := FromDigits(d);
    JoinSplit(Join(d, 6), 8);
    JoinLength(d, 6);
    JoinLength(b, 8);
    DigitBits(b);
    SameFill(|d|, |b|, |LeftOver(Join(d, 6), 8)|, |ToDigits(b)|, |PadBits(Join(b, 8))|);
  }

  /** The length of a fingerprint's encoding, and the two bits its last digit leaves unread. */
  lemma DigestLengths(b: seq<Byte>)
    requires |b| == DIGEST_SIZE
    ensures |ToDigits(b)| == 43
  {
    DigitBits(b);
  }

  lemma LastTwoBits(d: seq<Digit>)
    requires |d| == 43
    ensures |FromDigits(d)| == DIGEST_SIZE
    ensures Canonical(d) <==> d[42] % 4 == 0
    ensures Join(d, 6) == Join(d[..42], 6) + BitsOf(d[42] / 4, 4) + BitsOf(d[42] % 4, 2)
    ensures LeftOver(Join(d, 6), 8) == BitsOf(d[42] % 4, 2)
  {
    JoinSplit(Join(d, 6), 8);
    JoinLength(d, 6);
    JoinLength(FromDigits(d), 8);
    LastSixBits(d);
    TwoZeroBits(d[42]);
  }

  lemma LastSixBits(d: seq<Digit>)
    requires |d| == 43
    ensures |Join(d, 6)| == 258
    ensures Join(d, 6) == Join(d[..42], 6) + BitsOf(d[42] / 4, 4) + BitsOf(d[42] % 4, 2)
    ensures Join(d, 6)[256..] == BitsOf(d[42] % 4, 2)
  {
    LastDigit(d);
    LowTwoBits(d[42]);
  }

  lemma LastDigit(d: seq<Digit>)
    requires |d| == 43
    ensures |Join(d, 6)| == 258
    ensures Join(d, 6) == Join(d[..42], 6) + BitsOf(d[42], 6)
  {
    JoinLength(d, 6);
    assert d == d[..42] + [d[42]];
    JoinAppend(d[..42], [d[42]], 6);
    assert Join([d[42]], 6) == BitsOf(d[42], 6);
  }

  ghost predicate EncodesDigest(value: string, digest: seq<Byte>) {
    |digest| == DIGEST_SIZE && value == PREFIX + Encode(digest)
  }

  ghost predicate IsFingerprint(value: string) {
    exists digest :: EncodesDigest(value, digest)
  }

  /** A fingerprint is accepted exactly when it is the prefix and the encoding of a digest. */
  lemma AcceptedIsEncodedDigest(value: string)
    ensures ValidFingerprint(value) <==> IsFingerprint(value)
  {
    if ValidFingerprint(value) {
      assert value == PREFIX + value[|PREFIX|..];
      assert EncodesDigest(value, Decode(value[|PREFIX|..]).value);
    }
    if digest :| EncodesDigest(value, digest) {
      DecodeEncode(digest);
      DigestLengths(digest);
      assert value[|PREFIX|..] == Encode(digest);
      NotPadded(Encode(digest));
    }
  }

  lemma NotPadded(encoded: string)
    requires InAlphabet(encoded) && encoded != ""
    ensures TrimSpace(PREFIX + encoded) == PREFIX + encoded
  {
    var value := PREFIX + encoded;
    AlphabetBijective(0, encoded[|encoded| - 1]);
    assert value[|value| - 1] == encoded[|encoded| - 1] && value[0] == 'S';
    TrimSpaceIdentity(value);
  }

  /** So comparing accepted strings compares digests. */
  lemma StringEqualityIsDigestEquality(v: string, w: string, d: seq<Byte>, e: seq<Byte>)
    requires EncodesDigest(v, d) && EncodesDigest(w, e)
    ensures v == w <==> d == e
  {
    DecodeEncode(d);
    DecodeEncode(e);
    assert v[|PREFIX|..] == Encode(d) && w[|PREFIX|..] == Encode(e);
  }

  /** The accepted strings by their shape alone: 43 alphabet characters whose last carries two
      zero bits. */
  lemma AcceptedShape(encoded: string)
    ensures ValidFingerprint(PREFIX + encoded) <==>
            && |encoded| == 43 && InAlphabet(encoded) && DigitOf(encoded[42]).value % 4 == 0
  {
    var value := PREFIX + encoded;
    assert value[|PREFIX|..] == encoded;
    AcceptedIsEncodedDigest(value);
    if digest :| EncodesDigest(value, digest) {
      assert encoded == Encode(digest);
      DecodeEncode(digest);
      DigestLengths(digest);
      CharsRoundTrip(ToDigits(digest));
      BytesRoundTrip(digest);
      DigitsRoundTripCanonical(ToDigits(digest));
      LastTwoBits(ToDigits(digest));
    }
    if |encoded| == 43 && InAlphabet(encoded) && DigitOf(encoded[42]).value % 4 == 0 {
      DigitsRoundTripCanonical(Digits(encoded));
      LastTwoBits(Digits(encoded));
      DigitsRoundTrip(encoded);
      assert EncodesDigest(value, FromDigits(Digits(encoded)));
    }
  }

  lemma {:induction false} StripInsert(s: string, k: nat)
    requires InAlphabet(s) && k <= |s|
    ensures Strip(s[..k] + "\n" + s[k..]) == s
  {
    var t := s[..k] + "\n" + s[k..];
    if k == 0 {
      assert t[1..] == s;
      StripIdentity(s);
    } else {
      assert forall i :: 0 <= i < |s| - 1 ==> s[1..][i] == s[i + 1];
      StripInsert(s[1..], k - 1);
      assert DigitOf(s[0]).Some?;
      assert t[1..] == s[1..][..k - 1] + "\n" + s[1..][k - 1..];
    }
  }

  /** Why decoding alone is not the check: a line break anywhere decodes to the same digest,
      and only the comparison with the re-encoded digest turns it away. */
  lemma LineBreaksDecodeButAreRefused(digest: seq<Byte>, k: nat)
    requires |digest| == DIGEST_SIZE && k <= |Encode(digest)|
    ensures var alias := Encode(digest)[..k] + "\n" + Encode(digest)[k..];
            Decode(alias) == Some(digest) && !ValidFingerprint(PREFIX + alias)
  {
    var e := Encode(digest);
    DecodeEncode(digest);
    StripIdentity(e);
    StripInsert(e, k);
    AcceptedShape(e[..k] + "\n" + e[k..]);
  }

  /** The same for the two bits the decoder does not read. */
  lemma TrailingBitsDecodeButAreRefused(digest: seq<Byte>, extra: nat)
    requires |digest| == DIGEST_SIZE && 1 <= extra < 4
    ensures var d := ToDigits(digest);
            && |d| == 43 && d[42] + extra < 64
            && var alias := Chars(d[42 := d[42] + extra]);
               Decode(alias) == Some(digest) && !ValidFingerprint(PREFIX + alias)
  {
    var d := ToDigits(digest);
    EncodedLastDigit(digest);
    var alias := d[42 := d[42] + extra];
    assert alias[..42] == d[..42];
    SameBytes(d, alias);
    CharsRoundTrip(alias);
    StripIdentity(Chars(alias));
    AcceptedShape(Chars(alias));
  }

  lemma EncodedLastDigit(digest: seq<Byte>)
    requires |digest| == DIGEST_SIZE
    ensures var d := ToDigits(digest);
            |d| == 43 && d[42] % 4 == 0 && FromDigits(d) == digest
  {
    DigestLengths(digest);
    BytesRoundTrip(digest);
    DigitsRoundTripCanonical(ToDigits(digest));
    LastTwoBits(ToDigits(digest));
  }

  /** Digit strings that differ only in bits left over decode alike. */
  lemma SameBytes(d: seq<Digit>, e: seq<Digit>)
    requires |d| == |e| == 43 && d[..42] == e[..42] && d[42] / 4 == e[42] / 4
    ensures FromDigits(d) == FromDigits(e)
  {
    LastTwoBits(d);
    LastTwoBits(e);
    JoinSplit(Join(d, 6), 8);
    var head := Join(FromDigits(d), 8);
    assert Join(d, 6)[..256] == Join(d[..42], 6) + BitsOf(d[42] / 4, 4) by { JoinLength(d[..42], 6); }
    assert head == Join(d, 6)[..256] by { JoinLength(FromDigits(d), 8); }
    assert Join(e, 6) == head + BitsOf(e[42] % 4, 2);
    PowerValues();
    SplitJoin(FromDigits(d), 8, BitsOf(e[42] % 4, 2));
  }

  // ----- the encoding by groups of three bytes (section 4 of RFC 4648) -----

  /** Capitals, small letters, figures, plus and slash, each run in order. */
  lemma AlphabetIsStandard(d: Digit)
    ensures CharOf(0) == 'A' && CharOf(25) == 'Z' && CharOf(26) == 'a' && CharOf(51) == 'z'
    ensures CharOf(52) == '0' && CharOf(61) == '9' && CharOf(62) == '+' && CharOf(63) == '/'
    ensures d != 25 && d != 51 && d < 61 ==> CharOf(d + 1) as int == CharOf(d) as int + 1
  {
  }

  /** Digits whose bits are those of a byte string, filled up, are its encoding. */
  lemma EncodedBits(b: seq<Byte>, d: seq<Digit>)
    requires Join(d, 6) == Join(b, 8) + PadBits(Join(b, 8))
    ensures ToDigits(b) == d
  {
    SmallPowers();
    SplitJoin(d, 6, []);
    assert Join(d, 6) + [] == Join(d, 6);
  }

  /** Three bytes make four digits. */
  lemma TripleDigits(x: Byte, y: Byte, z: Byte)
    ensures ToDigits([x, y, z]) == [x / 4, x % 4 * 16 + y / 16, y % 16 * 4 + z / 64, z % 64]
  {
    var bytes: seq<Byte>, d: seq<Digit> := [x, y, z], [x / 4, x % 4 * 16 + y / 16, y % 16 * 4 + z / 64, z % 64];
    TripleBits(x, y, z);
    JoinLength(bytes, 8);
    WholeGroups(Join(bytes, 8));
    assert Join(bytes, 8) + [] == Join(bytes, 8);
    EncodedBits(bytes, d);
  }

  lemma TripleBits(x: Byte, y: Byte, z: Byte)
    ensures Join([x, y, z], 8) == Join([x / 4, x % 4 * 16 + y / 16, y % 16 * 4 + z / 64, z % 64], 6)
  {
    ThreeBytes(x, y, z);
    FourDigits(x / 4, x % 4 * 16 + y / 16, y % 16 * 4 + z / 64, z % 64);
    MiddleDigits(x, y, z);
    ByteCuts(x);
    ByteCuts(y);
    ByteCuts(z);
    Reassociate(
      BitsOf(x, 8), BitsOf(y, 8), BitsOf(z, 8),
      BitsOf(x % 4 * 16 + y / 16, 6), BitsOf(y % 16 * 4 + z / 64, 6),
      BitsOf(x / 4, 6), BitsOf(x % 4, 2), BitsOf(y / 16, 4), BitsOf(y % 16, 4), BitsOf(z / 64, 2), BitsOf(z % 64, 6));
  }

  /** The encoding is made of the encodings of the groups of three bytes, one after the other. */
  lemma EncodeAppend(u: seq<Byte>, v: seq<Byte>)
    requires |u| % 3 == 0
    ensures ToDigits(u + v) == ToDigits(u) + ToDigits(v)
  {
    JoinAppend(u, v, 8);
    TripleLength(u);
    SplitFilled(Join(u, 8), Join(v, 8));
  }

  /** A single byte at the end makes two digits, the second filled up with zero bits. */
  lemma LastByteDigits(x: Byte)
    ensures ToDigits([x]) == [x / 4, x % 4 * 16]
  {
    OneByte(x);
    ByteCuts(x);
    TwoAndFour(x % 4, 0);
    ZeroBits(4);
    TwoDigits(x / 4, x % 4 * 16);
    PadOne(BitsOf(x, 8), BitsOf(x % 4 * 16, 6), BitsOf(x / 4, 6), BitsOf(x % 4, 2));
    EncodedBits([x], [x / 4, x % 4 * 16]);
  }

  /** Two bytes at the end make three digits, the third filled up with zero bits. */
  lemma LastTwoBytesDigits(x: Byte, y: Byte)
    ensures ToDigits([x, y]) == [x / 4, x % 4 * 16 + y / 16, y % 16 * 4]
  {
    MiddleDigits(x, y, 0);
    TwoBytes(x, y);
    ByteCuts(x);
    ByteCuts(y);
    FourAndTwo(y % 16, 0);
    ZeroBits(2);
    ThreeDigits(x / 4, x % 4 * 16 + y / 16, y % 16 * 4);
    PadTwo(
      BitsOf(x, 8), BitsOf(y, 8), BitsOf(x % 4 * 16 + y / 16, 6), BitsOf(y % 16 * 4, 6),
      BitsOf(x / 4, 6), BitsOf(x % 4, 2), BitsOf(y / 16, 4), BitsOf(y % 16, 4));
    EncodedBits([x, y], [x / 4, x % 4 * 16 + y / 16, y % 16 * 4]);
  }

  /** Where a byte is cut after six, four or two bits. */
  lemma ByteCuts(b: Byte)
    ensures BitsOf(b, 8) == BitsOf(b / 4, 6) + BitsOf(b % 4, 2)
    ensures BitsOf(b, 8) == BitsOf(b / 16, 4) + BitsOf(b % 16, 4)
    ensures BitsOf(b, 8) == BitsOf(b / 64, 2) + BitsOf(b % 64, 6)
  {
    SmallPowers();
    BitsParts(b / 4, b % 4, 6, 2);
    BitsParts(b / 16, b % 16, 4, 4);
    BitsParts(b / 64, b % 64, 2, 6);
  }

  lemma MiddleDigits(x: Byte, y: Byte, z: Byte)
    ensures BitsOf(x % 4 * 16 + y / 16, 6) == BitsOf(x % 4, 2) + BitsOf(y / 16, 4)
    ensures BitsOf(y % 16 * 4 + z / 64, 6) == BitsOf(y % 16, 4) + BitsOf(z / 64, 2)
  {
    var a, b, c, d := x % 4, y / 16, y % 16, z / 64;
    TwoAndFour(a, b);
    FourAndTwo(c, d);
  }

  lemma ThreeBytes(x: Byte, y: Byte, z: Byte)
    ensures Join([x, y, z], 8) == BitsOf(x, 8) + BitsOf(y, 8) + BitsOf(z, 8)
  {
    TwoBytes(x, y);
    JoinPush([x, y], z, 8);
    assert [x, y] + [z] == [x, y, z];
  }

  lemma TripleLength(u: seq<Byte>)
    requires |u| % 3 == 0
    ensures |Join(u, 8)| % 6 == 0
  {
    JoinLength(u, 8);
    EightThirds(|u|);
  }

  lemma OneByte(x: Byte)
    ensures Join([x], 8) == BitsOf(x, 8)
  {
    JoinPush([], x, 8);
    assert [] + [x] == [x];
  }

  lemma TwoBytes(x: Byte, y: Byte)
    ensures Join([x, y], 8) == BitsOf(x, 8) + BitsOf(y, 8)
  {
    OneByte(x);
    JoinPush([x], y, 8);
    assert [x] + [y] == [x, y];
  }
}
