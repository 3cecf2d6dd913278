/** Strings of bits, cut into groups of equal width and joined again: what section 4 of RFC 4648
    does with bytes and digits, whatever the alphabet. A group is a number, its highest bit first;
    bits that fill no whole group are left over, and zero bits fill the last group up. The lemmas
    below serve the fingerprint encoding of internal/config/config.go, which cuts groups of
    eight bits into groups of six and back. */
module BitGroups {
  import opened Basics

  type Bits = seq<bool>

  /** The low `w` bits of a number, the highest first. */
  function BitsOf(n: nat, w: nat): (b: Bits)
    ensures |b| == w
  {
    if w == 0 then [] else BitsOf(n / 2, w - 1) + [n % 2 == 1]
  }

  function Value(b: Bits): (n: nat)
    ensures n < Pow2(|b|)
  {
    if b == [] then 0
    else 2 * Value(b[..|b| - 1]) + (if b[|b| - 1] then 1 else 0)
  }

  lemma {:induction false} ValueOfBits(n: nat, w: nat)
    requires n < Pow2(w)
    ensures Value(BitsOf(n, w)) == n
  {
    if w > 0 {
      ValueOfBits(n / 2, w - 1);
      assert BitsOf(n, w)[..w - 1] == BitsOf(n / 2, w - 1);
    }
  }

  lemma {:induction false} BitsOfValue(b: Bits)
    ensures BitsOf(Value(b), |b|) == b
  {
    if b != [] {
      BitsOfValue(b[..|b| - 1]);
      assert Value(b) / 2 == Value(b[..|b| - 1]);
      assert b == b[..|b| - 1] + [b[|b| - 1]];
    }
  }

  /** The bits of a sequence of `w`-bit words, one after the other. */
  function Join(words: seq<nat>, w: nat): Bits {
    if words == [] then [] else BitsOf(words[0], w) + Join(words[1..], w)
  }

  /** The full groups of `w` bits as words, and the bits left over. */
  function Split(b: Bits, w: nat): (words: seq<nat>)
    requires w > 0
    ensures forall i :: 0 <= i < |words| ==> words[i] < Pow2(w)
  {
    if |b| < w then [] else [Value(b[..w])] + Split(b[w..], w)
  }

  function LeftOver(b: Bits, w: nat): (rest: Bits)
    requires w > 0
    ensures |rest| < w
  {
    if |b| < w then b else LeftOver(b[w..], w)
  }

  lemma {:induction false} JoinLength(words: seq<nat>, w: nat)
    ensures |Join(words, w)| == |words| * w
  {
    if words != [] {
      JoinLength(words[1..], w);
      assert |words| * w == (|words| - 1) * w + w;
    }
  }

  lemma {:induction false} JoinSplit(b: Bits, w: nat)
    requires w > 0
    ensures b == Join(Split(b, w), w) + LeftOver(b, w)
  {
    if |b| >= w {
      JoinSplit(b[w..], w);
      BitsOfValue(b[..w]);
      assert b == b[..w] + b[w..];
      var words := [Value(b[..w])] + Split(b[w..], w);
      assert words[1..] == Split(b[w..], w);
      assert Join(words, w) == b[..w] + Join(Split(b[w..], w), w);
    }
  }

  lemma {:induction false} SplitJoin(words: seq<nat>, w: nat, rest: Bits)
    requires w > 0 && |rest| < w
    requires forall i :: 0 <= i < |words| ==> words[i] < Pow2(w)
    ensures Split(Join(words, w) + rest, w) == words
    ensures LeftOver(Join(words, w) + rest, w) == rest
  {
    var b := Join(words, w) + rest;
    if words == [] {
      assert b == rest;
    } else {
      SplitJoin(words[1..], w, rest);
      assert b == BitsOf(words[0], w) + (Join(words[1..], w) + rest);
      SplitPush(words[0], Join(words[1..], w) + rest, w);
      assert words == [words[0]] + words[1..];
    }
  }

  lemma SplitPush(word: nat, more: Bits, w: nat)
    requires w > 0 && word < Pow2(w)
    ensures Split(BitsOf(word, w) + more, w) == [word] + Split(more, w)
    ensures LeftOver(BitsOf(word, w) + more, w) == LeftOver(more, w)
  {
    var b := BitsOf(word, w) + more;
    ValueOfBits(word, w);
    assert b[..w] == BitsOf(word, w) && b[w..] == more;
  }

  function Zeros(n: nat): Bits {
    seq(n, i => false)
  }

  /** Zero bits up to the next multiple of six. */
  function PadBits(b: Bits): Bits {
    var r := |LeftOver(b, 6)|;
    if r == 0 then [] else Zeros(6 - r)
  }

  /** The pad completes the last group, so no bit is left over. */
  lemma PadCompletes(b: Bits)
    ensures LeftOver(b + PadBits(b), 6) == []
  {
    WholeGroups(b);
    WholeGroups(b + PadBits(b));
  }

  lemma {:induction false} JoinAppend(u: seq<nat>, v: seq<nat>, w: nat)
    ensures Join(u + v, w) == Join(u, w) + Join(v, w)
  {
    if u == [] {
      assert u + v == v;
    } else {
      JoinAppend(u[1..], v, w);
      assert (u + v)[1..] == u[1..] + v;
    }
  }

  lemma NeverOneOver(digits: nat, bytes: nat, pad: nat)
    requires digits * 6 == bytes * 8 + pad && pad < 6
    ensures digits % 4 != 1
  {
  }

  lemma SameFill(digits: nat, bytes: nat, rest: nat, padded: nat, pad: nat)
    requires digits % 4 != 1 && rest < 8 && pad < 6
    requires digits * 6 == bytes * 8 + rest && padded * 6 == bytes * 8 + pad
    ensures rest == pad
  {
    if rest == 6 {
      SixLeftOver(digits, bytes);
    }
  }

  lemma SixLeftOver(digits: nat, bytes: nat)
    requires digits * 6 == bytes * 8 + 6
    ensures digits % 4 == 1
  {
    assert digits == 4 * (digits - 1 - bytes) + 1;
  }

  lemma TwoZeroBits(n: nat)
    ensures BitsOf(n % 4, 2) == Zeros(2) <==> n % 4 == 0
  {
    LowTwoBits(n);
    assert Zeros(2) == [false, false];
    var b := BitsOf(n % 4, 2);
    assert n % 4 == 0 ==> n / 2 % 2 == 0 && n % 2 == 0;
    assert n % 4 != 0 ==> n / 2 % 2 == 1 || n % 2 == 1;
    assert b[0] == (n / 2 % 2 == 1) && b[1] == (n % 2 == 1);
  }

  lemma LowTwoBits(n: nat)
    ensures BitsOf(n, 6) == BitsOf(n / 4, 4) + BitsOf(n % 4, 2)
    ensures BitsOf(n % 4, 2) == [n / 2 % 2 == 1, n % 2 == 1]
  {
    assert BitsOf(n, 6) == BitsOf(n / 2, 5) + [n % 2 == 1];
    assert BitsOf(n / 2, 5) == BitsOf(n / 2 / 2, 4) + [n / 2 % 2 == 1];
    assert BitsOf(n % 4, 2) == BitsOf(n % 4 / 2, 1) + [n % 4 % 2 == 1];
    assert BitsOf(n % 4 / 2, 1) == [n % 4 / 2 % 2 == 1];
  }

  /** The bits of a number are those of its quotient and then those of its remainder. */
  lemma {:induction false} BitsParts(q: nat, r: nat, a: nat, b: nat)
    requires r < Pow2(b)
    ensures BitsOf(q * Pow2(b) + r, a + b) == BitsOf(q, a) + BitsOf(r, b)
  {
    if b == 0 {
      assert q * Pow2(0) + 0 == q;
    } else {
      HalfParts(q, r, Pow2(b - 1));
      BitsParts(q, r / 2, a, b - 1);
      assert a + b - 1 == a + (b - 1);
    }
  }

  lemma PartsOf(q: nat, r: nat, a: nat, b: nat, p: nat, w: nat)
    requires Pow2(b) == p && r < p && w == a + b
    ensures BitsOf(q * p + r, w) == BitsOf(q, a) + BitsOf(r, b)
  {
    BitsParts(q, r, a, b);
  }

  lemma HalfParts(q: nat, r: nat, p: nat)
    requires r < 2 * p
    ensures (q * (2 * p) + r) / 2 == q * p + r / 2 && (q * (2 * p) + r) % 2 == r % 2 && r / 2 < p
  {
    assert q * (2 * p) == 2 * (q * p);
  }

  lemma SmallPowers()
    ensures Pow2(2) == 4 && Pow2(4) == 16 && Pow2(6) == 64
  {
    assert Pow2(2) == 4;
    Pow2Add(2, 2);
    Pow2Add(4, 2);
  }

  /** The digits that begin with the end of one byte and end with the start of the next. */
  lemma TwoAndFour(high: nat, low: nat)
    requires high < 4 && low < 16
    ensures BitsOf(high * 16 + low, 6) == BitsOf(high, 2) + BitsOf(low, 4)
  {
    assert Pow2(4) == 16 by { SmallPowers(); }
    PartsOf(high, low, 2, 4, 16, 6);
  }

  lemma FourAndTwo(high: nat, low: nat)
    requires high < 16 && low < 4
    ensures BitsOf(high * 4 + low, 6) == BitsOf(high, 4) + BitsOf(low, 2)
  {
    assert Pow2(2) == 4 by { SmallPowers(); }
    PartsOf(high, low, 4, 2, 4, 6);
  }

  lemma JoinPush(words: seq<nat>, last: nat, w: nat)
    ensures Join(words + [last], w) == Join(words, w) + BitsOf(last, w)
  {
    JoinAppend(words, [last], w);
    assert Join([last], w) == BitsOf(last, w);
  }

  lemma Reassociate(
    x: Bits, y: Bits, z: Bits, p: Bits, q: Bits, a: Bits, b: Bits, c: Bits, d: Bits, e: Bits, f: Bits)
    requires x == a + b && y == c + d && z == e + f && p == b + c && q == d + e
    ensures x + y + z == a + p + q + f
  {
  }

  lemma FourDigits(a: nat, b: nat, c: nat, d: nat)
    ensures Join([a, b, c, d], 6) == BitsOf(a, 6) + BitsOf(b, 6) + BitsOf(c, 6) + BitsOf(d, 6)
  {
    ThreeDigits(a, b, c);
    JoinPush([a, b, c], d, 6);
    assert [a, b, c] + [d] == [a, b, c, d];
  }

  /** Nothing is filled up when the bits make whole groups of six. */
  lemma {:induction false} WholeGroups(b: Bits)
    ensures |LeftOver(b, 6)| == |b| % 6
    ensures |b| % 6 == 0 ==> PadBits(b) == []
    decreases |b|
  {
    if |b| >= 6 {
      WholeGroups(b[6..]);
    }
  }

  lemma {:induction false} SplitAppend(u: Bits, v: Bits)
    requires |u| % 6 == 0
    ensures Split(u + v, 6) == Split(u, 6) + Split(v, 6) && LeftOver(u + v, 6) == LeftOver(v, 6)
    decreases |u|
  {
    if u == [] {
      assert u + v == v;
    } else {
      assert (u + v)[..6] == u[..6] && (u + v)[6..] == u[6..] + v;
      SplitAppend(u[6..], v);
    }
  }

  lemma SplitFilled(x: Bits, y: Bits)
    requires |x| % 6 == 0
    ensures Split(x + y + PadBits(x + y), 6) == Split(x + PadBits(x), 6) + Split(y + PadBits(y), 6)
  {
    SplitAppend(x, y);
    WholeGroups(x);
    assert x + [] == x;
    FilledUp(x, y, PadBits(y));
    SplitAppend(x, y + PadBits(y));
  }

  lemma EightThirds(n: nat)
    requires n % 3 == 0
    ensures n * 8 % 6 == 0
  {
    assert n == 3 * (n / 3);
    QuotientUnique(n * 8, 6, 4 * (n / 3), 0);
  }

  lemma PadOne(x: Bits, p: Bits, a: Bits, b: Bits)
    requires x == a + b && p == b + Zeros(4) && |a| == 6 && |b| == 2
    ensures a + p == x + PadBits(x)
  {
    Tail(a, b);
    FilledUp(a, b, Zeros(4));
  }

  lemma PadTwo(x: Bits, y: Bits, p: Bits, q: Bits, a: Bits, b: Bits, c: Bits, d: Bits)
    requires x == a + b && y == c + d && p == b + c && q == d + Zeros(2)
    requires |a| == 6 && |b| == 2 && |c| == 4 && |d| == 4
    ensures a + p + q == (x + y) + PadBits(x + y)
  {
    assert x + y == (a + p) + d;
    Tail(a + p, d);
    FilledUp(a + p, d, Zeros(2));
  }

  lemma {:induction false} ZeroBits(w: nat)
    ensures BitsOf(0, w) == Zeros(w)
  {
    if w > 0 {
      ZeroBits(w - 1);
      assert Zeros(w) == Zeros(w - 1) + [false];
    }
  }

  /** After whole groups of six the rest is filled up. */
  lemma Tail(u: Bits, v: Bits)
    requires |u| % 6 == 0 && 0 < |v| < 6
    ensures PadBits(u + v) == Zeros(6 - |v|)
  {
    SplitAppend(u, v);
  }

  lemma FilledUp(u: Bits, v: Bits, w: Bits)
    ensures u + (v + w) == (u + v) + w
  {
  }

  lemma TwoDigits(a: nat, b: nat)
    ensures Join([a, b], 6) == BitsOf(a, 6) + BitsOf(b, 6)
  {
    JoinPush([], a, 6);
    JoinPush([a], b, 6);
    assert [] + [a] == [a] && [a] + [b] == [a, b];
  }

  lemma ThreeDigits(a: nat, b: nat, c: nat)
    ensures Join([a, b, c], 6) == BitsOf(a, 6) + BitsOf(b, 6) + BitsOf(c, 6)
  {
    TwoDigits(a, b);
    JoinPush([a, b], c, 6);
    assert [a, b] + [c] == [a, b, c];
  }
}
