/** The text of a byte array that keys the address table (byteToStr of
    src/r0p3/protocols/Arp.java): each byte in hexadecimal without leading zero, then a colon. */
module HexText {
  import opened Bytes
  import AddressText

  function HexDigit(n: int): (c: char)
    requires 0 <= n < 16
    ensures c != ':'
  {
    if n < 10 then '0' + n as char else 'a' + (n - 10) as char
  }

  /** `Integer.toHexString(b & 0xff)`. */
  function ToHexString(b: byte): (s: string)
    ensures 1 <= |s| <= 2 && ':' !in s
  {
    if b < 16 then [HexDigit(b)] else [HexDigit(b / 16), HexDigit(b % 16)]
  }

  function ByteToStr(bs: seq<byte>): string {
    if bs == [] then "" else ToHexString(bs[0]) + ":" + ByteToStr(bs[1..])
  }

  lemma HexDigitInjective(a: int, b: int)
    requires 0 <= a < 16 && 0 <= b < 16 && HexDigit(a) == HexDigit(b)
    ensures a == b
  {
  }

  lemma ToHexStringInjective(a: byte, b: byte)
    requires ToHexString(a) == ToHexString(b)
    ensures a == b
  {
    if a < 16 {
      assert ToHexString(a)[0] == HexDigit(a);
      HexDigitInjective(a, b);
    } else {
      assert ToHexString(a)[0] == HexDigit(a / 16) && ToHexString(a)[1] == HexDigit(a % 16);
      HexDigitInjective(a / 16, b / 16);
      HexDigitInjective(a % 16, b % 16);
    }
  }

  /** No two byte arrays, of whatever lengths, have the same text: keying the table by text is
      keying it by address. */
  lemma {:induction false} ByteToStrInjective(a: seq<byte>, b: seq<byte>)
    requires ByteToStr(a) == ByteToStr(b)
    ensures a == b
  {
    if a != [] && b != [] {
      var x, y := ToHexString(a[0]), ToHexString(b[0]);
      var s, t := ByteToStr(a), ByteToStr(b);
      assert s[..|x|] == x && s[|x|] == ':' && s[|x| + 1..] == ByteToStr(a[1..]);
      assert t[..|y|] == y && t[|y|] == ':' && t[|y| + 1..] == ByteToStr(b[1..]);
      assert forall i | 0 <= i < |x| :: s[i] == x[i] && x[i] != ':';
      assert forall i | 0 <= i < |y| :: t[i] == y[i] && y[i] != ':';
      assert |x| == |y|;
      ToHexStringInjective(a[0], b[0]);
      ByteToStrInjective(a[1..], b[1..]);
      assert a == [a[0]] + a[1..] && b == [b[0]] + b[1..];
    }
  }

  /** The hexadecimal number of a byte, in lower case and without leading zero. */
  ghost predicate NumberOf(p: string, b: byte) {
    && 1 <= |p| <= 2 && (|p| == 2 ==> p[0] != '0')
    && (forall c | c in p :: '0' <= c <= '9' || 'a' <= c <= 'f')
    && AddressText.Value(p, 16) == b
  }

  lemma HexStringIsNumber(b: byte)
    ensures NumberOf(ToHexString(b), b)
  {
    var p := ToHexString(b);
    DigitOfHex(b % 16);
    DigitOfHex(b / 16);
    if b < 16 {
      assert p == [HexDigit(b)] && p[..0] == "";
    } else {
      assert p[..1] == [HexDigit(b / 16)] && p[..1][..0] == "";
      assert AddressText.Value(p[..1], 16) == b / 16;
    }
  }

  lemma DigitOfHex(n: int)
    requires 0 <= n < 16
    ensures AddressText.DigitValue(HexDigit(n)) == n && (n > 0 ==> HexDigit(n) != '0')
  {
  }

  /** Splitting the text at the colons gives the bytes back, each as its hexadecimal number, and
      nothing after the last colon. */
  lemma {:induction false} ByteToStrParts(bs: seq<byte>)
    ensures var parts := AddressText.Split(ByteToStr(bs), {':'});
            && |parts| == |bs| + 1 && parts[|bs|] == ""
            && forall i | 0 <= i < |bs| :: NumberOf(parts[i], bs[i])
  {
    hide ToHexString, NumberOf;
    if bs != [] {
      var p, rest := ToHexString(bs[0]), ByteToStr(bs[1..]);
      ByteToStrParts(bs[1..]);
      HexStringIsNumber(bs[0]);
      assert ByteToStr(bs) == p + [':'] + rest;
      AddressText.SplitFirst(p, ':', rest, {':'});
    }
  }

  lemma TextStep(macs: string, mac: seq<byte>, i: nat)
    requires i < |mac|
    ensures macs + ByteToStr(mac[i..]) == macs + ToHexString(mac[i]) + ":" + ByteToStr(mac[i + 1..])
  {
    hide ToHexString;
    assert mac[i..][1..] == mac[i + 1..];
    var x, rest := ToHexString(mac[i]), ByteToStr(mac[i + 1..]);
    assert ByteToStr(mac[i..]) == x + ":" + rest;
    hide ByteToStr;
    assert macs + (x + ":" + rest) == macs + x + ":" + rest;
  }

  lemma Whole(mac: seq<byte>)
    ensures "" + ByteToStr(mac[0..]) == ByteToStr(mac)
    ensures forall s: string :: s + ByteToStr(mac[|mac|..]) == s
  {
    assert mac[0..] == mac && mac[|mac|..] == [];
    assert ByteToStr([]) == "";
    assert forall s: string :: s + "" == s;
  }

  /** The loop of byteToStr. */
  method ByteToStrLoop(mac: seq<byte>) returns (macs: string)
    ensures macs == ByteToStr(mac)
  {
    hide ToHexString, ByteToStr;
    Whole(mac);
    macs := "";
    for i := 0 to |mac|
      invariant macs + ByteToStr(mac[i..]) == ByteToStr(mac)
    {
      TextStep(macs, mac, i);
      macs := macs + ToHexString(mac[i]) + ":";
    }
  }
}
