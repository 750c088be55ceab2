/** Addresses as text: the MAC printer of EthernetPacket, and the validators and parsers of the
    stack's configuration and of requestIP. */
module AddressText {
  import opened Packets

  /** Java's `byte`. */
  type jbyte = x: int | -128 <= x < 128

  function ToByte(x: int): jbyte {
    (x + 128) % 256 - 128
  }

  // ---------------------------------------------------------------- printing

  function HexChar(n: int): char
    requires 0 <= n < 16
  {
    if n < 10 then '0' + n as char else 'a' + (n - 10) as char
  }

  /** hexUpperChar and hexLowerChar: the shift keeps the sign, the mask takes it away. */
  function HexUpperChar(b: jbyte): char {
    HexChar(b / 16 % 16)
  }

  function HexLowerChar(b: jbyte): char {
    HexChar(b % 16)
  }

  const HEX_DIGITS: string := "0123456789abcdef"

  /** The two characters are the hexadecimal digits of the byte, taken as unsigned. */
  lemma HexCharsAre(b: jbyte)
    ensures var u := if b < 0 then b + 256 else b as int;
            HexUpperChar(b) == HEX_DIGITS[u / 16] && HexLowerChar(b) == HEX_DIGITS[u % 16]
  {
    var u := if b < 0 then b + 256 else b as int;
    assert u / 16 == b / 16 % 16 && u % 16 == b % 16;
    DigitAt(u / 16);
    DigitAt(u % 16);
  }

  lemma DigitAt(n: int)
    requires 0 <= n < 16
    ensures HexChar(n) == HEX_DIGITS[n]
  {
  }

  function Printed(mac: seq<jbyte>): string
    requires |mac| > 0
  {
    [HexUpperChar(mac[0]), HexLowerChar(mac[0])] + if |mac| == 1 then "" else ":" + Printed(mac[1..])
  }

  lemma {:induction false} PrintedAt(mac: seq<jbyte>, i: nat)
    requires i < |mac|
    ensures |Printed(mac)| == 3 * |mac| - 1
    ensures Printed(mac)[3 * i] == HexUpperChar(mac[i]) && Printed(mac)[3 * i + 1] == HexLowerChar(mac[i])
    ensures i < |mac| - 1 ==> Printed(mac)[3 * i + 2] == ':'
    decreases |mac|
  {
    if |mac| > 1 {
      PrintedAt(mac[1..], if i == 0 then 0 else i - 1);
    }
  }

  /** getSourceAddress and getDestinationAddress. */
  method GetAddress(mac: seq<jbyte>) returns (s: string)
    requires |mac| == 6
    ensures s == Printed(mac)
  {
    hide HexUpperChar, HexLowerChar, Printed;
    var src := new char[17];
    for i := 0 to 5
      invariant forall k | 0 <= k < i :: src[3 * k] == HexUpperChar(mac[k])
                                         && src[3 * k + 1] == HexLowerChar(mac[k]) && src[3 * k + 2] == ':'
    {
      src[i * 3] := HexUpperChar(mac[i]);
      src[i * 3 + 1] := HexLowerChar(mac[i]);
      src[i * 3 + 2] := ':';
    }
    src[15] := HexUpperChar(mac[5]);
    src[16] := HexLowerChar(mac[5]);
    s := src[..];
    forall j | 0 <= j < 17 ensures |Printed(mac)| == 17 && s[j] == Printed(mac)[j] {
      PrintedAt(mac, j / 3);
      assert j == 3 * (j / 3) + j % 3;
    }
  }

  // ---------------------------------------------------------------- String.split and parseInt

  /** Splitting at every separator. */
  function Split(s: string, seps: set<char>): (parts: seq<string>)
    ensures |parts| >= 1
  {
    if s == "" then [""]
    else
      var r := Split(s[1..], seps);
      if s[0] in seps then [""] + r else [[s[0]] + r[0]] + r[1..]
  }

  /** String.split drops empty strings at the end. */
  function DropTrailingEmpty(parts: seq<string>): seq<string> {
    if parts != [] && parts[|parts| - 1] == "" then DropTrailingEmpty(parts[..|parts| - 1]) else parts
  }

  function JavaSplit(s: string, seps: set<char>): seq<string> {
    DropTrailingEmpty(Split(s, seps))
  }

  function DigitValue(c: char): (v: nat)
    ensures v < 16 || v == 99
  {
    if '0' <= c <= '9' then (c - '0') as int
    else if 'a' <= c <= 'f' then (c - 'a') as int + 10
    else if 'A' <= c <= 'F' then (c - 'A') as int + 10
    else 99
  }

  predicate AllDigits(s: string, radix: nat) {
    forall c | c in s :: DigitValue(c) < radix
  }

  function Value(s: string, radix: nat): nat {
    if s == "" then 0 else Value(s[..|s| - 1], radix) * radix + DigitValue(s[|s| - 1])
  }

  /** Integer.parseInt: a sign, digits of the radix, the range of an int; None is the
      exception. */
  function ParseInt(s: string, radix: nat): Option<int> {
    if s == "" then None
    else
      var signed := s[0] == '-' || s[0] == '+';
      var digits := if signed then s[1..] else s;
      var v: int := Value(digits, radix);
      if digits == "" || !AllDigits(digits, radix) then None
      else if s[0] == '-' then (if v <= 0x8000_0000 then Some(-v) else None)
      else if v < 0x8000_0000 then Some(v) else None
  }

  lemma {:induction false} SplitFirst(part: string, c: char, rest: string, seps: set<char>)
    requires c in seps && forall x | x in part :: x !in seps
    ensures Split(part + [c] + rest, seps) == [part] + Split(rest, seps)
  {
    var s := part + [c] + rest;
    if part == "" {
      assert s[1..] == rest;
    } else {
      assert s[1..] == part[1..] + [c] + rest;
      SplitFirst(part[1..], c, rest, seps);
      assert [part[0]] + part[1..] == part;
    }
  }

  lemma {:induction false} SplitNone(part: string, seps: set<char>)
    requires forall x | x in part :: x !in seps
    ensures Split(part, seps) == [part]
  {
    if part != "" {
      SplitNone(part[1..], seps);
      assert [part[0]] + part[1..] == part;
    }
  }

  /** The first part is what precedes the first separator. */
  lemma {:induction false} SplitShape(s: string, seps: set<char>)
    ensures var parts := Split(s, seps);
            && (|parts| == 1 ==> parts[0] == s)
            && (|parts| > 1 ==> |parts[0]| < |s| && s[..|parts[0]|] == parts[0] && s[|parts[0]|] in seps
                                && Split(s[|parts[0]| + 1..], seps) == parts[1..])
  {
    if s != "" {
      SplitShape(s[1..], seps);
      var parts, r := Split(s, seps), Split(s[1..], seps);
      if s[0] !in seps && |parts| > 1 {
        assert s[|parts[0]| + 1..] == s[1..][|r[0]| + 1..];
      }
    }
  }

  // ---------------------------------------------------------------- MAC addresses

  const MAC_SEPARATORS: set<char> := {'.', ':', '-'}

  /** `([\dA-Fa-f]{2}[.:-]){n}([\dA-Fa-f]{2})`. */
  predicate IsMac(s: string, n: nat) {
    if n == 0 then |s| == 2 && AllDigits(s, 16)
    else |s| >= 3 && AllDigits(s[..2], 16) && s[2] in MAC_SEPARATORS && IsMac(s[3..], n - 1)
  }

  /** isValidMacAddress, for a line without line terminators, as nextLine returns it. */
  predicate IsValidMacAddress(s: string) {
    IsMac(s, 5)
  }

  /** A string that the validator accepts splits into one more part than it has separators, and
      every part parses to a number from 0 to 255. */
  lemma {:induction false} MacParts(s: string, n: nat)
    requires IsMac(s, n)
    ensures |Split(s, MAC_SEPARATORS)| == n + 1
    ensures forall p | p in Split(s, MAC_SEPARATORS) :: |p| == 2 && AllDigits(p, 16)
    decreases n
  {
    if n == 0 {
      SplitNone(s, MAC_SEPARATORS);
    } else {
      SplitFirst(s[..2], s[2], s[3..], MAC_SEPARATORS);
      assert s == s[..2] + [s[2]] + s[3..];
      MacParts(s[3..], n - 1);
    }
  }

  predicate HexDigit(c: char) {
    '0' <= c <= '9' || 'a' <= c <= 'f' || 'A' <= c <= 'F'
  }

  /** Two hexadecimal digits, of either case. */
  predicate HexPair(p: string) {
    |p| == 2 && HexDigit(p[0]) && HexDigit(p[1])
  }

  lemma HexPairIff(p: string)
    ensures HexPair(p) <==> |p| == 2 && AllDigits(p, 16)
  {
    if |p| == 2 {
      assert p[0] in p && p[1] in p;
    }
  }

  lemma {:induction false} MacIff(s: string, n: nat)
    ensures var parts := Split(s, MAC_SEPARATORS);
            IsMac(s, n) <==> |parts| == n + 1 && forall p | p in parts :: HexPair(p)
    decreases n
  {
    hide HexPair, AllDigits, Split;
    var parts := Split(s, MAC_SEPARATORS);
    if IsMac(s, n) {
      MacParts(s, n);
      forall p | p in parts ensures HexPair(p) { HexPairIff(p); }
    }
    if |parts| == n + 1 && forall p | p in parts :: HexPair(p) {
      SplitShape(s, MAC_SEPARATORS);
      assert parts[0] in parts;
      HexPairIff(parts[0]);
      if n > 0 {
        assert forall p | p in parts[1..] :: p in parts;
        MacIff(s[3..], n - 1);
      }
    }
  }

  /** The validator accepts exactly the strings that split, at dots, colons and hyphens, into six
      parts of two hexadecimal digits each. */
  lemma AcceptedMacIff(s: string)
    ensures var parts := Split(s, {'.', ':', '-'});
            IsValidMacAddress(s) <==> |parts| == 6 && forall p | p in parts :: HexPair(p)
  {
    hide IsMac, Split, HexPair;
    MacIff(s, 5);
  }

  lemma TwoHexDigits(p: string)
    requires |p| == 2 && AllDigits(p, 16)
    ensures ParseInt(p, 16) == Some(16 * DigitValue(p[0]) + DigitValue(p[1])) && 0 <= ParseInt(p, 16).value <= 255
  {
    assert p[0] in p && p[1] in p;
    assert p[..1][..0] == "" && p[..1] == [p[0]];
    assert Value(p[..1], 16) == DigitValue(p[0]);
  }

  /** What configuration stores: each part parsed and cut to a byte.  None is an exception. */
  function ParseParts(parts: seq<string>, radix: nat): Option<seq<jbyte>> {
    if parts == [] then Some([])
    else
      var v, rest := ParseInt(parts[0], radix), ParseParts(parts[1..], radix);
      if v.None? || rest.None? then None else Some([ToByte(v.value)] + rest.value)
  }

  function ParseMac(s: string): Option<seq<jbyte>> {
    ParseParts(JavaSplit(s, MAC_SEPARATORS), 16)
  }

  lemma {:induction false} PartsParse(parts: seq<string>, radix: nat)
    requires forall p | p in parts :: ParseInt(p, radix).Some?
    ensures ParseParts(parts, radix).Some? && |ParseParts(parts, radix).value| == |parts|
    ensures forall i | 0 <= i < |parts| :: ParseParts(parts, radix).value[i] == ToByte(ParseInt(parts[i], radix).value)
  {
    if parts != [] {
      PartsParse(parts[1..], radix);
    }
  }

  /** Every accepted MAC address parses: six parts, none of which throws or exceeds a byte. */
  lemma AcceptedMacParses(s: string)
    requires IsValidMacAddress(s)
    ensures |JavaSplit(s, MAC_SEPARATORS)| == 6
    ensures forall p | p in JavaSplit(s, MAC_SEPARATORS) :: ParseInt(p, 16).Some? && 0 <= ParseInt(p, 16).value <= 255
    ensures ParseMac(s).Some? && |ParseMac(s).value| == 6
  {
    var parts := Split(s, MAC_SEPARATORS);
    MacParts(s, 5);
    hide ParseInt, AllDigits, Split, IsMac;
    assert parts[5] in parts;
    assert JavaSplit(s, MAC_SEPARATORS) == parts;
    forall p | p in parts ensures ParseInt(p, 16).Some? && 0 <= ParseInt(p, 16).value <= 255 {
      TwoHexDigits(p);
    }
    PartsParse(parts, 16);
  }

  lemma HexCharValue(n: int)
    requires 0 <= n < 16
    ensures DigitValue(HexChar(n)) == n
  {
  }

  lemma PrintedPair(b: jbyte)
    ensures var p := Pair(b);
            |p| == 2 && AllDigits(p, 16) && ParseInt(p, 16).Some? && ToByte(ParseInt(p, 16).value) == b
  {
    var h, l := b / 16 % 16, b % 16;
    HexCharValue(h);
    HexCharValue(l);
    Nibbles(b);
    hide HexChar, ParseInt, DigitValue, ToByte;
    var p := Pair(b);
    assert p == [HexChar(h), HexChar(l)];
    assert forall c | c in p :: c == HexChar(h) || c == HexChar(l);
    TwoHexDigits(p);
  }

  lemma Nibbles(b: jbyte)
    ensures ToByte(16 * (b / 16 % 16) + b % 16) == b
  {
    assert 16 * (b / 16 % 16) + b % 16 == if b >= 0 then b else b + 256;
  }

  function Pair(b: jbyte): string {
    [HexUpperChar(b), HexLowerChar(b)]
  }

  lemma PrintedStep(mac: seq<jbyte>)
    requires |mac| > 0
    ensures Printed(mac) == if |mac| == 1 then Pair(mac[0]) else Pair(mac[0]) + [':'] + Printed(mac[1..])
  {
    hide HexUpperChar, HexLowerChar;
    if |mac| == 1 {
      assert Printed(mac) == Pair(mac[0]) + "";
    } else {
      assert Printed(mac) == Pair(mac[0]) + (":" + Printed(mac[1..]));
    }
  }

  lemma {:induction false} PrintedIsAccepted(mac: seq<jbyte>)
    requires |mac| > 0
    ensures IsMac(Printed(mac), |mac| - 1)
  {
    PrintedPair(mac[0]);
    PrintedStep(mac);
    hide Printed, Pair, IsMac, AllDigits;
    MacOf(Pair(mac[0]), if |mac| == 1 then "" else Printed(mac[1..]), |mac| - 1);
    if |mac| > 1 {
      PrintedIsAccepted(mac[1..]);
    }
  }

  /** The string splits into parts that parse to these bytes, the last part not empty. */
  predicate SplitsTo(s: string, mac: seq<jbyte>) {
    var parts := Split(s, MAC_SEPARATORS);
    parts[|parts| - 1] != "" && ParseParts(parts, 16) == Some(mac)
  }

  lemma {:induction false} PrintedParses(mac: seq<jbyte>)
    requires |mac| > 0
    ensures SplitsTo(Printed(mac), mac)
  {
    hide *;
    PrintedStep(mac);
    if |mac| == 1 {
      PairParses(mac[0]);
      assert mac == [mac[0]];
    } else {
      PrintedParses(mac[1..]);
      PairBefore(mac[0], Printed(mac[1..]), mac[1..]);
      assert mac == [mac[0]] + mac[1..];
    }
  }

  lemma PairParses(b: jbyte)
    ensures SplitsTo(Pair(b), [b])
  {
    PrintedPair(b);
    NoSeparators(Pair(b));
    hide ParseInt, ToByte, Split, Pair;
    SplitNone(Pair(b), MAC_SEPARATORS);
    assert [Pair(b)][1..] == [] && ParseParts([], 16) == Some([]);
    assert [b] + [] == [b];
  }

  lemma PairBefore(b: jbyte, rest: string, others: seq<jbyte>)
    requires SplitsTo(rest, others)
    ensures SplitsTo(Pair(b) + [':'] + rest, [b] + others)
  {
    PrintedPair(b);
    NoSeparators(Pair(b));
    var parts := Split(rest, MAC_SEPARATORS);
    hide *;
    SplitFirst(Pair(b), ':', rest, MAC_SEPARATORS);
    PartFirst(Pair(b), b, parts, others);
    SplitsIfParts(Pair(b) + [':'] + rest, [Pair(b)] + parts, [b] + others);
  }

  lemma PartFirst(p: string, b: jbyte, parts: seq<string>, others: seq<jbyte>)
    requires ParseInt(p, 16).Some? && ToByte(ParseInt(p, 16).value) == b && ParseParts(parts, 16) == Some(others)
    ensures ParseParts([p] + parts, 16) == Some([b] + others)
  {
    hide ParseInt, ToByte;
    assert ([p] + parts)[1..] == parts;
  }

  lemma SplitsIfParts(s: string, parts: seq<string>, mac: seq<jbyte>)
    requires Split(s, MAC_SEPARATORS) == parts && |parts| > 0 && parts[|parts| - 1] != ""
        && ParseParts(parts, 16) == Some(mac)
    ensures SplitsTo(s, mac)
  {
  }

  lemma NoSeparators(p: string)
    requires AllDigits(p, 16)
    ensures forall c | c in p :: c !in MAC_SEPARATORS
  {
  }

  lemma MacOf(p: string, rest: string, n: nat)
    requires |p| == 2 && AllDigits(p, 16)
    ensures n == 0 ==> IsMac(p, n)
    ensures n > 0 && IsMac(rest, n - 1) ==> IsMac(p + [':'] + rest, n)
  {
    var s := p + [':'] + rest;
    assert s[..2] == p && s[3..] == rest;
  }

  /** Every printed MAC address is accepted and parses back to the same six bytes. */
  lemma MacRoundTrip(mac: seq<jbyte>)
    requires |mac| == 6
    ensures IsValidMacAddress(Printed(mac)) && ParseMac(Printed(mac)) == Some(mac)
  {
    PrintedIsAccepted(mac);
    PrintedParses(mac);
  }

  /** The loop that ends Logical.configuration, Network.configuration and the input of requestIP. */
  method StoreParts(parts: seq<string>, radix: nat, target: array<jbyte>)
    requires |parts| == target.Length && forall p | p in parts :: ParseInt(p, radix).Some?
    modifies target
    ensures ParseParts(parts, radix) == Some(target[..])
  {
    hide ParseInt, ToByte;
    PartsParse(parts, radix);
    for i := 0 to target.Length
      invariant target[..i] == ParseParts(parts, radix).value[..i]
    {
      target[i] := ToByte(ParseInt(parts[i], radix).value);
    }
    assert target[..] == target[..|parts|] == ParseParts(parts, radix).value;
  }

  /** A line the validator has accepted is stored without an exception. */
  method StoreMac(line: string, srcMac: array<jbyte>)
    requires IsValidMacAddress(line) && srcMac.Length == 6
    modifies srcMac
    ensures ParseMac(line) == Some(srcMac[..])
  {
    AcceptedMacParses(line);
    hide JavaSplit;
    StoreParts(JavaSplit(line, MAC_SEPARATORS), 16, srcMac);
  }

  // ---------------------------------------------------------------- IP addresses

  predicate Digit(c: char, low: char, high: char) {
    low <= c <= high
  }

  /** `25[0-5]|2[0-4][0-9]|[01]?[0-9][0-9]?`. */
  predicate IsOctet(s: string) {
    || (|s| == 3 && s[0] == '2' && s[1] == '5' && Digit(s[2], '0', '5'))
    || (|s| == 3 && s[0] == '2' && Digit(s[1], '0', '4') && Digit(s[2], '0', '9'))
    || (|s| == 3 && Digit(s[0], '0', '1') && Digit(s[1], '0', '9') && Digit(s[2], '0', '9'))
    || (|s| == 2 && Digit(s[0], '0', '1') && Digit(s[1], '0', '9'))
    || (|s| == 2 && Digit(s[0], '0', '9') && Digit(s[1], '0', '9'))
    || (|s| == 1 && Digit(s[0], '0', '9'))
  }

  lemma DecimalDigit(c: char)
    ensures DigitValue(c) < 10 <==> Digit(c, '0', '9')
  {
  }

  lemma ValueOfThree(s: string)
    requires |s| <= 3
    ensures |s| == 1 ==> Value(s, 10) == DigitValue(s[0])
    ensures |s| == 2 ==> Value(s, 10) == 10 * DigitValue(s[0]) + DigitValue(s[1])
    ensures |s| == 3 ==> Value(s, 10) == 100 * DigitValue(s[0]) + 10 * DigitValue(s[1]) + DigitValue(s[2])
  {
    if |s| > 0 {
      ValueOfThree(s[..|s| - 1]);
    }
  }

  /** The expression accepts exactly one to three decimal digits with a value of at most 255. */
  lemma OctetIff(s: string)
    ensures IsOctet(s) <==> 1 <= |s| <= 3 && AllDigits(s, 10) && Value(s, 10) <= 255
  {
    if 1 <= |s| <= 3 {
      ValueOfThree(s);
      DecimalDigit(s[0]);
      if |s| > 1 { DecimalDigit(s[1]); }
      if |s| > 2 { DecimalDigit(s[2]); }
      assert s[0] in s && (|s| > 1 ==> s[1] in s) && (|s| > 2 ==> s[2] in s);
      assert AllDigits(s, 10) <==> forall i | 0 <= i < |s| :: Digit(s[i], '0', '9') by {
        forall c | c in s ensures DigitValue(c) < 10 <==> Digit(c, '0', '9') { DecimalDigit(c); }
      }
    }
  }

  lemma OctetParses(s: string)
    requires IsOctet(s)
    ensures ParseInt(s, 10) == Some(Value(s, 10)) && 0 <= ParseInt(s, 10).value <= 255
  {
    OctetIff(s);
    hide Value;
    assert s[0] in s;
  }

  /** `n + 1` parts, each an octet. */
  ghost predicate Octets(parts: seq<string>, n: nat) {
    |parts| == n + 1 && forall p | p in parts :: IsOctet(p)
  }

  /** The parts with dots between them. */
  function Dotted(parts: seq<string>): string
    requires |parts| > 0
  {
    if |parts| == 1 then parts[0] else parts[0] + ['.'] + Dotted(parts[1..])
  }

  /** What `^(?:octet\.){3}octet$` accepts, for a line without line terminators. */
  ghost predicate IsValidIPAddress(s: string) {
    exists parts :: Octets(parts, 3) && s == Dotted(parts)
  }

  /** Splitting undoes joining, for parts without dots. */
  lemma {:induction false} SplitDotted(parts: seq<string>)
    requires |parts| > 0 && forall p | p in parts :: '.' !in p
    ensures Split(Dotted(parts), {'.'}) == parts
  {
    hide Split;
    assert parts[0] in parts;
    if |parts| == 1 {
      SplitNone(parts[0], {'.'});
    } else {
      assert forall p | p in parts[1..] :: p in parts;
      SplitDotted(parts[1..]);
      SplitFirst(parts[0], '.', Dotted(parts[1..]), {'.'});
    }
  }

  /** Joining undoes splitting. */
  lemma {:induction false} DottedSplit(s: string)
    ensures Dotted(Split(s, {'.'})) == s
    decreases |s|
  {
    hide Split;
    var parts := Split(s, {'.'});
    SplitShape(s, {'.'});
    if |parts| > 1 {
      var k := |parts[0]|;
      DottedSplit(s[k + 1..]);
      assert s == s[..k] + ['.'] + s[k + 1..];
    }
  }

  lemma OctetHasNoDot(s: string)
    requires IsOctet(s)
    ensures '.' !in s && s != ""
  {
  }

  /** The validator accepts exactly the strings that split at dots into four octets. */
  lemma AcceptedIpIff(s: string)
    ensures IsValidIPAddress(s) <==> Octets(Split(s, {'.'}), 3)
  {
    hide IsOctet, Split, Dotted;
    DottedSplit(s);
    if IsValidIPAddress(s) {
      var parts :| Octets(parts, 3) && s == Dotted(parts);
      forall p | p in parts ensures '.' !in p { OctetHasNoDot(p); }
      SplitDotted(parts);
    }
  }

  function ParseIp(s: string): Option<seq<jbyte>> {
    ParseParts(JavaSplit(s, {'.'}), 10)
  }

  /** Every accepted IP address parses: four parts, none of which throws or exceeds a byte. */
  lemma AcceptedIpParses(s: string)
    requires IsValidIPAddress(s)
    ensures |JavaSplit(s, {'.'})| == 4
    ensures forall p | p in JavaSplit(s, {'.'}) :: ParseInt(p, 10).Some? && 0 <= ParseInt(p, 10).value <= 255
    ensures ParseIp(s).Some? && |ParseIp(s).value| == 4
  {
    var parts := Split(s, {'.'});
    AcceptedIpIff(s);
    hide ParseInt, IsOctet, Split, Value;
    assert parts[3] in parts;
    OctetHasNoDot(parts[3]);
    assert JavaSplit(s, {'.'}) == parts;
    forall p | p in parts ensures ParseInt(p, 10).Some? && 0 <= ParseInt(p, 10).value <= 255 {
      OctetParses(p);
    }
    PartsParse(parts, 10);
  }

  method StoreIp(line: string, target: array<jbyte>)
    requires IsValidIPAddress(line) && target.Length == 4
    modifies target
    ensures ParseIp(line) == Some(target[..])
  {
    AcceptedIpParses(line);
    hide IsValidIPAddress, JavaSplit;
    StoreParts(JavaSplit(line, {'.'}), 10, target);
  }
}
