/** The Internet checksum of jpcap's sender (jpcap-0.7/src/c/JpcapSender.c), against the
    ones'-complement sum of section 1 of RFC 1071. */
module Checksum {
  import opened Bytes

  /** Ones'-complement addition: the carry out of bit 15 is added back at once. */
  function OnesAdd(a: word, b: word): word {
    if a + b < 0x1_0000 then a + b else a + b - 0xffff
  }

  /** Section 1 of RFC 1071: the ones'-complement sum, one end-around carry for each word. */
  function OnesSum(ws: seq<word>): word {
    if ws == [] then 0 else OnesAdd(ws[0], OnesSum(ws[1..]))
  }

  /** The plain sum that the C loops accumulate. */
  function PlainSum(ws: seq<word>): nat {
    if ws == [] then 0 else ws[0] + PlainSum(ws[1..])
  }

  /** The words that a host of order `e` reads from the bytes, padded with a zero byte. */
  function Words(e: Order, s: seq<byte>): (ws: seq<word>)
    ensures |ws| == (|s| + 1) / 2
  {
    if |s| == 0 then [] else if |s| == 1 then [Load16(e, s[0], 0)] else [Load16(e, s[0], s[1])] + Words(e, s[2..])
  }

  /** The checksum of RFC 1071 over bytes in network order. */
  function Rfc1071(s: seq<byte>): word {
    0xffff - OnesSum(Words(BigEndian, s))
  }

  /** The two folds of in_cksum and in_cksum2. */
  function FoldOnce(sum: nat): nat {
    sum % 0x1_0000 + sum / 0x1_0000
  }

  function FoldTwice(sum: nat): word
    requires sum < 0x1_0000_0000
  {
    FoldOnce(FoldOnce(sum))
  }

  /** The representative of `n` modulo 0xffff that ones'-complement arithmetic uses: 0 stands
      only for the number 0, every other multiple of 0xffff is 0xffff. */
  function Canon(n: nat): word {
    if n == 0 then 0 else 1 + (n - 1) % 0xffff
  }

  // ---------------------------------------------------------------- arithmetic

  lemma CanonAdd(a: word, n: nat)
    ensures Canon(a + n) == OnesAdd(a, Canon(n))
  {
    if n != 0 {
      var q, r := (n - 1) / 0xffff, (n - 1) % 0xffff;
      assert n == 1 + q * 0xffff + r;
      if a + 1 + r < 0x1_0000 {
        DivModUnique(a + n - 1, q, a + r);
      } else {
        DivModUnique(a + n - 1, q + 1, a + r - 0xffff);
      }
    }
  }

  lemma DivModUnique(n: nat, q: nat, r: nat)
    requires n == q * 0xffff + r && r < 0xffff
    ensures n % 0xffff == r
  {
  }

  lemma CanonMod(n: nat)
    ensures Canon(n) % 0xffff == n % 0xffff
    ensures Canon(n) == 0 <==> n == 0
  {
    if n != 0 {
      var q, r := (n - 1) / 0xffff, (n - 1) % 0xffff;
      assert n == q * 0xffff + (r + 1);
      if r + 1 < 0xffff {
        DivModUnique(n, q, r + 1);
      } else {
        DivModUnique(n, q + 1, 0);
      }
    }
  }

  /** Two folds are exactly enough for any 32-bit sum, and they compute the canonical
      representative: never more than 16 bits, congruent to the sum, zero only for zero. */
  lemma TwoFoldsAreCanonical(sum: nat)
    requires sum < 0x1_0000_0000
    ensures FoldTwice(sum) == Canon(sum)
    ensures FoldTwice(sum) % 0xffff == sum % 0xffff
    ensures FoldTwice(sum) == 0 <==> sum == 0
  {
    var h, l := sum / 0x1_0000, sum % 0x1_0000;
    assert sum == h * 0xffff + (h + l);
    if sum != 0 {
      var t := h + l;
      if t - 1 < 0xffff {
        DivModUnique(sum - 1, h, t - 1);
      } else if t - 1 < 2 * 0xffff {
        DivModUnique(sum - 1, h + 1, t - 1 - 0xffff);
      }
    }
    CanonMod(sum);
  }

  /** One fold is not enough, and a second is never followed by a useful third. */
  lemma FoldCountIsSharp()
    ensures FoldOnce(0x1_ffff) > 0xffff
    ensures forall sum: nat | sum < 0x1_0000_0000 :: FoldOnce(FoldTwice(sum)) == FoldTwice(sum)
  {
    assert FoldOnce(0x1_ffff) == 0x1_0000;
  }

  /** The accumulated sum, reduced, is the ones'-complement sum of RFC 1071. */
  lemma {:induction false} PlainSumIsOnesSum(ws: seq<word>)
    ensures Canon(PlainSum(ws)) == OnesSum(ws)
  {
    if ws != [] {
      PlainSumIsOnesSum(ws[1..]);
      CanonAdd(ws[0], PlainSum(ws[1..]));
    }
  }

  /** At most 65537 words: their plain sum fits the 32-bit accumulator. */
  lemma {:induction false} PlainSumBound(ws: seq<word>)
    ensures PlainSum(ws) <= |ws| * 0xffff
  {
    if ws != [] {
      PlainSumBound(ws[1..]);
    }
  }

  // ---------------------------------------------------------------- byte order

  lemma SwapIs(h: byte, l: byte)
    ensures Swap(0x100 * h + l) == 0x100 * l + h
  {
  }

  /** In each half of the word the carry out of the other half is added, in either order. */
  lemma SwapOnesAdd(a: word, b: word)
    ensures Swap(OnesAdd(a, b)) == OnesAdd(Swap(a), Swap(b))
  {
    hide Swap;
    var ah, al, bh, bl := a / 0x100, a % 0x100, b / 0x100, b % 0x100;
    SwapIs(ah, al);
    SwapIs(bh, bl);
    var c := if al + bl >= 0x100 then 1 else 0;
    var h, l := ah + bh + c, al + bl - 0x100 * c;
    if h < 0x100 {
      SwapIs(h, l);
    } else if l < 0xff {
      SwapIs(h - 0x100, l + 1);
    } else {
      SwapIs(h - 0xff, 0);
    }
  }

  lemma SwapComplement(w: word)
    ensures Swap(0xffff - w) == 0xffff - Swap(w)
  {
    var h, l := w / 0x100, w % 0x100;
    assert 0xffff - w == 0x100 * (0xff - h) + (0xff - l);
    assert (0xffff - w) / 0x100 == 0xff - h && (0xffff - w) % 0x100 == 0xff - l;
  }

  /** Section 2(B) of RFC 1071: swapping the bytes of every word swaps the bytes of the sum. */
  lemma {:induction false} ByteOrderIndependence(s: seq<byte>)
    ensures OnesSum(Words(LittleEndian, s)) == Swap(OnesSum(Words(BigEndian, s)))
    decreases |s|
  {
    if |s| >= 1 {
      var big, little := Words(BigEndian, s), Words(LittleEndian, s);
      var rest := if |s| == 1 then [] else s[2..];
      assert big[1..] == Words(BigEndian, rest) && little[1..] == Words(LittleEndian, rest);
      ByteOrderIndependence(rest);
      LoadSwap(s[0], if |s| == 1 then 0 else s[1]);
      SwapOnesAdd(big[0], OnesSum(big[1..]));
    }
  }

  lemma LoadSwap(a: byte, b: byte)
    ensures Load16(LittleEndian, a, b) == Swap(Load16(BigEndian, a, b))
  {
  }

  /** The host sums network-order data as it reads it and stores the result as it is: the
      bytes in memory are those of the checksum of RFC 1071, on either kind of host. */
  lemma StoredUnswapped(e: Order, s: seq<byte>)
    ensures Store16(e, 0xffff - OnesSum(Words(e, s))) == Be16(Rfc1071(s))
  {
    hide Swap, Words, OnesSum;
    ByteOrderIndependence(s);
    SwapComplement(OnesSum(Words(BigEndian, s)));
    StoreHtons(e, Rfc1071(s));
  }

  // ---------------------------------------------------------------- the loops

  /** The value of `n` in an `unsigned long` of 32 bits. */
  function U32(n: nat): (r: nat)
    ensures r < 0x1_0000_0000
  {
    if n < 0x1_0000_0000 then n else U32(n - 0x1_0000_0000)
  }

  /** What in_cksum adds for an odd trailing byte: the whole word at that address, masked. */
  function MaskedTail(e: Order, last: byte, next: byte): word {
    Load16(e, last, next) / 0x100 * 0x100
  }

  lemma WordsAppend(e: Order, a: seq<byte>, b: seq<byte>)
    requires |a| % 2 == 0
    ensures PlainSum(Words(e, a + b)) == PlainSum(Words(e, a)) + PlainSum(Words(e, b))
    decreases |a|
  {
    if a == [] {
      assert a + b == b;
    } else {
      WordsAppend(e, a[2..], b);
      assert (a + b)[2..] == a[2..] + b;
      assert Words(e, a + b)[1..] == Words(e, a[2..] + b);
      assert Words(e, a)[1..] == Words(e, a[2..]);
    }
  }

  lemma WordsOfPair(e: Order, a: byte, b: byte)
    ensures PlainSum(Words(e, [a, b])) == Load16(e, a, b)
  {
    assert [a, b][2..] == [];
    assert Words(e, [a, b]) == [Load16(e, a, b)];
    assert [Load16(e, a, b)][1..] == [];
  }

  lemma WordsOfByte(e: Order, a: byte)
    ensures PlainSum(Words(e, [a])) == Load16(e, a, 0)
  {
    assert [Load16(e, a, 0)][1..] == [];
  }

  /** The loops compute the ones'-complement sum of section 1 of RFC 1071: up to 65537 words
      the plain sum cannot overflow 32 bits, and two folds turn it into the sum with end-around
      carries. */
  lemma FoldedLoopIsOnesSum(ws: seq<word>)
    requires |ws| <= 0x1_0001
    ensures PlainSum(ws) < 0x1_0000_0000
    ensures FoldTwice(PlainSum(ws)) == OnesSum(ws)
  {
    PlainSumBound(ws);
    TwoFoldsAreCanonical(PlainSum(ws));
    PlainSumIsOnesSum(ws);
  }

  /** 65537 is the sharp bound: one word more can wrap the accumulator, and then the folded
      result is not the ones'-complement sum. */
  lemma FoldedLoopBoundIsSharp(ws: seq<word>)
    requires |ws| == 0x1_0002 && forall i | 0 <= i < |ws| :: ws[i] == 0xffff
    ensures FoldTwice(U32(PlainSum(ws))) != OnesSum(ws)
  {
    PlainSumOfOnes(ws);
    PlainSumIsOnesSum(ws);
    assert PlainSum(ws) == 0x1_0000_0000 + 0xfffe;
    CanonMod(PlainSum(ws));
    TwoFoldsAreCanonical(0xfffe);
  }

  lemma {:induction false} PlainSumOfOnes(ws: seq<word>)
    requires forall i | 0 <= i < |ws| :: ws[i] == 0xffff
    ensures PlainSum(ws) == |ws| * 0xffff
  {
    if ws != [] {
      PlainSumOfOnes(ws[1..]);
    }
  }

  lemma FoldedTotal(e: Order, s: seq<byte>)
    requires |s| <= 0x2_0002
    ensures PlainSum(Words(e, s)) < 0x1_0000_0000
    ensures Store16(e, 0xffff - FoldTwice(PlainSum(Words(e, s)))) == Be16(Rfc1071(s))
  {
    FoldedLoopIsOnesSum(Words(e, s));
    StoredUnswapped(e, s);
  }

  /** Two totals with a common part fold alike only if the rest agrees, when the rests are
      each less than 0xffff. */
  lemma FoldTwiceSeparates(base: nat, x: nat, y: nat)
    requires base + x < 0x1_0000_0000 && base + y < 0x1_0000_0000 && x < 0xffff && y < 0xffff
    ensures FoldTwice(base + x) == FoldTwice(base + y) <==> x == y
  {
    if x != y {
      var fx, fy := FoldTwice(base + x), FoldTwice(base + y);
      assert fx % 0xffff == (base + x) % 0xffff && fy % 0xffff == (base + y) % 0xffff by {
        hide FoldTwice;
        TwoFoldsAreCanonical(base + x);
        TwoFoldsAreCanonical(base + y);
      }
      ModSeparates(base + x, base + y);
    }
  }

  lemma ModSeparates(a: nat, b: nat)
    requires a != b && -0xffff < a - b < 0xffff
    ensures a % 0xffff != b % 0xffff
  {
    var q, p := a / 0xffff, b / 0xffff;
    assert a == q * 0xffff + a % 0xffff && b == p * 0xffff + b % 0xffff;
  }

  /** The words of the whole span, as the words of its even part and of a trailing byte. */
  lemma TrailingByte(e: Order, s: seq<byte>)
    requires |s| % 2 == 1
    ensures PlainSum(Words(e, s)) == PlainSum(Words(e, s[..|s| - 1])) + Load16(e, s[|s| - 1], 0)
  {
    hide *;
    assert s == s[..|s| - 1] + [s[|s| - 1]];
    WordsAppend(e, s[..|s| - 1], [s[|s| - 1]]);
    WordsOfByte(e, s[|s| - 1]);
  }

  /** If the right total is `base + y`, then a loop that accumulates `base + x` stores the
      right checksum exactly if `x == y`. */
  lemma RightTotalOnly(e: Order, base: nat, x: nat, y: nat, right: word)
    requires base + x < 0x1_0000_0000 && base + y < 0x1_0000_0000 && x < 0xffff && y < 0xffff
    requires Store16(e, 0xffff - FoldTwice(base + y)) == Be16(right)
    ensures Store16(e, 0xffff - FoldTwice(base + x)) == Be16(right) <==> x == y
  {
    FoldTwiceSeparates(base, x, y);
    StoreInjective(e, 0xffff - FoldTwice(base + x), 0xffff - FoldTwice(base + y));
  }

  lemma StoreInjective(e: Order, a: word, b: word)
    ensures Store16(e, a) == Store16(e, b) <==> a == b
  {
  }

  /** What in_cksum accumulates over the bytes `s`, followed in memory by `next`. */
  function CksumTotal(e: Order, s: seq<byte>, next: byte): nat {
    if |s| % 2 == 0 then PlainSum(Words(e, s))
    else PlainSum(Words(e, s[..|s| - 1])) + MaskedTail(e, s[|s| - 1], next)
  }

  /** For as many as 65537 words the result of in_cksum, stored unswapped, is the checksum of
      RFC 1071 -- except for an odd size on a little-endian host, where the mask keeps the byte
      after the last instead of the last: then the result is right exactly if both are 0. */
  lemma CksumTotalMeaning(e: Order, s: seq<byte>, next: byte)
    requires |s| <= 0x2_0002
    ensures CksumTotal(e, s, next) < 0x1_0000_0000
    ensures Store16(e, 0xffff - FoldTwice(CksumTotal(e, s, next))) == Be16(Rfc1071(s)) <==>
            |s| % 2 == 0 || e.BigEndian? || (s[|s| - 1] == 0 && next == 0)
  {
    hide FoldTwice, MaskedTail, Rfc1071;
    FoldedTotal(e, s);
    if |s| % 2 == 1 {
      var last := s[|s| - 1];
      var base := PlainSum(Words(e, s[..|s| - 1]));
      TrailingByte(e, s);
      BaseBound(e, s);
      MaskedTailRight(e, last, next);
      RightTotalOnly(e, base, MaskedTail(e, last, next), Load16(e, last, 0), Rfc1071(s));
    }
  }

  lemma MaskedTailRight(e: Order, last: byte, next: byte)
    ensures MaskedTail(e, last, next) <= 0xff00 && Load16(e, last, 0) <= 0xff00
    ensures MaskedTail(e, last, next) == Load16(e, last, 0) <==> e.BigEndian? || (last == 0 && next == 0)
  {
  }

  lemma BaseBound(e: Order, s: seq<byte>)
    requires |s| <= 0x2_0002 && |s| % 2 == 1
    ensures PlainSum(Words(e, s[..|s| - 1])) + 0xff00 < 0x1_0000_0000
  {
    PlainSumBound(Words(e, s[..|s| - 1]));
  }

  /** The loop of in_cksum and in_cksum2: words from `off` up to the last whole one are added
      to `start` in a 32-bit accumulator. */
  method AddWords(e: Order, a: array<byte>, off: nat, size: nat, start: nat) returns (sum: nat)
    requires off + size <= a.Length && start < 0x1_0000_0000
    ensures sum == U32(start + PlainSum(Words(e, a[off..off + size / 2 * 2])))
  {
    hide Load16, U32, Words, PlainSum;
    Nothing(e, start);
    var p, left := off, size;
    sum := start;
    ghost var end := off + size / 2 * 2;
    ghost var exact: nat := start;
    while left > 1
      invariant off <= p <= end && left == size - (p - off) && (end - p) % 2 == 0
      invariant sum == U32(exact)
      invariant exact + PlainSum(Words(e, a[p..end])) == start + PlainSum(Words(e, a[off..end]))
    {
      var w := Load16(e, a[p], a[p + 1]);
      NextWord(e, a, p, end);
      U32Add(exact, w);
      sum, exact := U32(sum + w), exact + w;
      p, left := p + 2, left - 2;
    }
    assert a[p..end] == [];
  }

  lemma Nothing(e: Order, n: nat)
    ensures n < 0x1_0000_0000 ==> U32(n) == n
    ensures PlainSum(Words(e, [])) == 0
  {
  }

  lemma NextWord(e: Order, a: array<byte>, p: nat, end: nat)
    requires p + 2 <= end <= a.Length
    ensures PlainSum(Words(e, a[p..end])) == Load16(e, a[p], a[p + 1]) + PlainSum(Words(e, a[p + 2..end]))
  {
    hide Words, PlainSum, Load16;
    WordsStep(e, a[p..end]);
    assert a[p..end][2..] == a[p + 2..end];
  }

  /** Reducing at every step is reducing once. */
  lemma {:induction false} U32Add(a: nat, b: nat)
    ensures U32(U32(a) + b) == U32(a + b)
  {
    if a >= 0x1_0000_0000 {
      U32Add(a - 0x1_0000_0000, b);
    }
  }

  lemma WordsStep(e: Order, s: seq<byte>)
    requires |s| >= 2
    ensures PlainSum(Words(e, s)) == Load16(e, s[0], s[1]) + PlainSum(Words(e, s[2..]))
  {
    assert Words(e, s)[1..] == Words(e, s[2..]);
  }

  /** in_cksum over `size` bytes at `off`. */
  method InCksum(e: Order, a: array<byte>, off: nat, size: nat) returns (r: word)
    requires off + size + size % 2 <= a.Length
    ensures r == 0xffff - FoldTwice(U32(CksumTotal(e, a[off..off + size], if size % 2 == 1 then a[off + size] else 0)))
  {
    hide FoldTwice, MaskedTail, Words, PlainSum, U32;
    var sum := AddWords(e, a, off, size, 0);
    ghost var s := a[off..off + size];
    if size % 2 > 0 {
      assert s[..size - 1] == a[off..off + size / 2 * 2];
      U32Add(PlainSum(Words(e, s[..size - 1])), MaskedTail(e, a[off + size - 1], a[off + size]));
      sum := U32(sum + MaskedTail(e, a[off + size - 1], a[off + size]));
    } else {
      assert s == a[off..off + size / 2 * 2];
    }
    r := 0xffff - FoldTwice(sum);
  }

  // ---------------------------------------------------------------- the pseudo-header

  /** The pseudo-header of section 3.1 of RFC 793 and of RFC 768: addresses, a zero byte, the
      protocol and the length of the segment. */
  function Pseudo(addresses: seq<byte>, protocol: byte, length: word): (s: seq<byte>)
    requires |addresses| == 8
    ensures |s| == 12
  {
    addresses + [0, protocol] + Be16(length)
  }

  /** What in_cksum2 accumulates: four address words, protocol, length, then the segment, a
      trailing byte being added as it is. */
  function Cksum2Total(e: Order, addresses: seq<byte>, protocol: byte, len: word, s: seq<byte>): nat
    requires |addresses| == 8
  {
    PlainSum(Words(e, addresses)) + Htons(e, protocol) + len + SegmentTotal(e, s)
  }

  function SegmentTotal(e: Order, s: seq<byte>): nat {
    if |s| % 2 == 0 then PlainSum(Words(e, s)) else PlainSum(Words(e, s[..|s| - 1])) + s[|s| - 1]
  }

  lemma PseudoTotal(e: Order, addresses: seq<byte>, protocol: byte, length: word)
    requires |addresses| == 8
    ensures PlainSum(Words(e, Pseudo(addresses, protocol, length))) ==
            PlainSum(Words(e, addresses)) + Htons(e, protocol) + Htons(e, length)
  {
    hide PlainSum, Words;
    WordsAppend(e, addresses + [0, protocol], Be16(length));
    WordsAppend(e, addresses, [0, protocol]);
    WordsOfPair(e, 0, protocol);
    WordsOfPair(e, length / 0x100, length % 0x100);
  }

  /** For every segment within the bound, in_cksum2 is the checksum of RFC 1071 of the
      12-byte pseudo-header followed by the segment, zero-padded if its length is odd -- on a
      little-endian host.  On a big-endian host an odd trailing byte is added to the wrong half
      of the word, and the result is right exactly if that byte is 0. */
  lemma Cksum2TotalMeaning(e: Order, addresses: seq<byte>, protocol: byte, length: word, s: seq<byte>)
    requires |addresses| == 8 && |s| <= 0x2_0002 - 12
    ensures Cksum2Total(e, addresses, protocol, Htons(e, length), s) < 0x1_0000_0000
    ensures Store16(e, 0xffff - FoldTwice(Cksum2Total(e, addresses, protocol, Htons(e, length), s)))
            == Be16(Rfc1071(Pseudo(addresses, protocol, length) + s))
            <==> |s| % 2 == 0 || e.LittleEndian? || s[|s| - 1] == 0
  {
    hide FoldTwice, Rfc1071, Words, Pseudo, Cksum2Total;
    var pseudo := Pseudo(addresses, protocol, length);
    FoldedTotal(e, pseudo + s);
    if |s| % 2 == 0 {
      Cksum2TotalEven(e, addresses, protocol, length, s);
    } else {
      var last := s[|s| - 1];
      var base := Cksum2TotalOdd(e, addresses, protocol, length, s);
      RightTotalOnly(e, base, last, Load16(e, last, 0), Rfc1071(pseudo + s));
    }
  }

  lemma Cksum2TotalEven(e: Order, addresses: seq<byte>, protocol: byte, length: word, s: seq<byte>)
    requires |addresses| == 8 && |s| % 2 == 0
    ensures Cksum2Total(e, addresses, protocol, Htons(e, length), s)
            == PlainSum(Words(e, Pseudo(addresses, protocol, length) + s))
  {
    PseudoTotal(e, addresses, protocol, length);
    WordsAppend(e, Pseudo(addresses, protocol, length), s);
  }

  lemma Cksum2TotalOdd(e: Order, addresses: seq<byte>, protocol: byte, length: word, s: seq<byte>) returns (base: nat)
    requires |addresses| == 8 && |s| <= 0x2_0002 - 12 && |s| % 2 == 1
    ensures base + 0xff00 < 0x1_0000_0000
    ensures Cksum2Total(e, addresses, protocol, Htons(e, length), s) == base + s[|s| - 1]
    ensures PlainSum(Words(e, Pseudo(addresses, protocol, length) + s)) == base + Load16(e, s[|s| - 1], 0)
  {
    var pseudo := Pseudo(addresses, protocol, length);
    PseudoTotal(e, addresses, protocol, length);
    WordsAppend(e, pseudo, s);
    TrailingByte(e, s);
    Base2Bound(e, pseudo, s);
    base := PlainSum(Words(e, pseudo)) + PlainSum(Words(e, s[..|s| - 1]));
  }

  lemma Base2Bound(e: Order, pseudo: seq<byte>, s: seq<byte>)
    requires |pseudo| == 12 && |s| <= 0x2_0002 - 12 && |s| % 2 == 1
    ensures PlainSum(Words(e, pseudo)) + PlainSum(Words(e, s[..|s| - 1])) + 0xff00 < 0x1_0000_0000
  {
    PlainSumBound(Words(e, pseudo));
    PlainSumBound(Words(e, s[..|s| - 1]));
  }

  /** in_cksum2 over `size` bytes at `off`, with the IPv4 header at `ip`. */
  method InCksum2(e: Order, a: array<byte>, ip: nat, len: word, off: nat, size: nat) returns (r: word)
    requires ip + 20 <= a.Length && off + size <= a.Length
    ensures r == 0xffff - FoldTwice(U32(Cksum2Total(e, a[ip + 12..ip + 20], a[ip + 9], len, a[off..off + size])))
  {
    hide FoldTwice, SegmentTotal, Htons, Words, PlainSum, U32;
    var sum := AddPseudo(e, a, ip, len);
    ghost var exact := PlainSum(Words(e, a[ip + 12..ip + 20])) + Htons(e, a[ip + 9]) + len;
    sum := AddSegment(e, a, off, size, sum);
    U32Add(exact, SegmentTotal(e, a[off..off + size]));
    r := 0xffff - FoldTwice(sum);
  }

  method AddPseudo(e: Order, a: array<byte>, ip: nat, len: word) returns (sum: nat)
    requires ip + 20 <= a.Length
    ensures sum == U32(PlainSum(Words(e, a[ip + 12..ip + 20])) + Htons(e, a[ip + 9]) + len)
  {
    hide Htons, Words, PlainSum, U32;
    sum := AddWords(e, a, ip + 12, 8, 0);
    ghost var exact := PlainSum(Words(e, a[ip + 12..ip + 20]));
    U32Add(exact, Htons(e, a[ip + 9]));
    sum := U32(sum + Htons(e, a[ip + 9]));
    U32Add(exact + Htons(e, a[ip + 9]), len);
    sum := U32(sum + len);
  }

  method AddSegment(e: Order, a: array<byte>, off: nat, size: nat, start: nat) returns (sum: nat)
    requires off + size <= a.Length && start < 0x1_0000_0000
    ensures sum == U32(start + SegmentTotal(e, a[off..off + size]))
  {
    hide Words, PlainSum, U32;
    sum := AddWords(e, a, off, size, start);
    if size % 2 > 0 {
      assert a[off..off + size][..size - 1] == a[off..off + size / 2 * 2];
      U32Add(start + PlainSum(Words(e, a[off..off + size / 2 * 2])), a[off + size - 1]);
      sum := U32(sum + a[off + size - 1]);
    } else {
      assert a[off..off + size] == a[off..off + size / 2 * 2];
    }
  }

  // ---------------------------------------------------------------- verification by the receiver

  /** The bytes with a 16-bit field at `k` set. */
  function SetField(s: seq<byte>, k: nat, w: word): (r: seq<byte>)
    requires k + 2 <= |s|
    ensures |r| == |s|
  {
    s[k := w / 0x100][k + 1 := w % 0x100]
  }

  lemma FieldAdds(s: seq<byte>, k: nat, w: word)
    requires k + 2 <= |s| && k % 2 == 0
    ensures PlainSum(Words(BigEndian, SetField(s, k, w))) == PlainSum(Words(BigEndian, SetField(s, k, 0))) + w
    decreases k
  {
    hide Words, PlainSum;
    var t, z := SetField(s, k, w), SetField(s, k, 0);
    WordsStep(BigEndian, t);
    WordsStep(BigEndian, z);
    if k == 0 {
      assert t[2..] == z[2..];
    } else {
      assert t[2..] == SetField(s[2..], k - 2, w) && z[2..] == SetField(s[2..], k - 2, 0);
      FieldAdds(s[2..], k - 2, w);
    }
  }

  lemma CanonOfMultiple(n: nat)
    requires n > 0 && n % 0xffff == 0
    ensures Canon(n) == 0xffff
  {
    CanonMod(n);
  }

  /** A checksum that is inserted verifies: computed with the field at `k` zeroed and stored
      there, it makes the checksum of the whole 0. */
  lemma InsertedChecksumVerifies(s: seq<byte>, k: nat)
    requires k + 2 <= |s| && k % 2 == 0
    ensures Rfc1071(SetField(s, k, Rfc1071(SetField(s, k, 0)))) == 0
  {
    VerifiesIfCongruent(s, k, Rfc1071(SetField(s, k, 0)));
  }

  /** RFC 768: a UDP checksum that comes out 0 is sent as 0xffff.  It still verifies, and a
      checksum of 0 is never sent. */
  lemma UdpChecksumVerifies(s: seq<byte>, k: nat)
    requires k + 2 <= |s| && k % 2 == 0
    ensures var c := Rfc1071(SetField(s, k, 0));
            var sent: word := if c == 0 then 0xffff else c;
            sent != 0 && Rfc1071(SetField(s, k, sent)) == 0
  {
    var c := Rfc1071(SetField(s, k, 0));
    var sent: word := if c == 0 then 0xffff else c;
    VerifiesIfCongruent(s, k, sent);
  }

  lemma VerifiesIfCongruent(s: seq<byte>, k: nat, sent: word)
    requires k + 2 <= |s| && k % 2 == 0
    requires sent == Rfc1071(SetField(s, k, 0)) || (sent == 0xffff && Rfc1071(SetField(s, k, 0)) == 0)
    ensures Rfc1071(SetField(s, k, sent)) == 0
  {
    hide SetField, Words;
    var z := SetField(s, k, 0);
    var p := PlainSum(Words(BigEndian, z));
    PlainSumIsOnesSum(Words(BigEndian, z));
    CanonMod(p);
    FieldAdds(s, k, sent);
    PlainSumIsOnesSum(Words(BigEndian, SetField(s, k, sent)));
    assert (p + sent) % 0xffff == 0;
    CanonOfMultiple(p + sent);
  }
}
