/** The two walks over the chain of IPv6 extension headers: the bounded one of get_packet
    (jpcap-0.7/src/c/JpcapCaptor.c), which finds the transport protocol, and the one of
    analyze_ipv6 (jpcap-0.7/src/c/packet_ipv6.c), which finds the length; against the chain that
    section 4 of RFC 2460 and section 2.2 of RFC 4302 define. */
module Ipv6 {
  import opened Bytes
  import opened Packets

  const HOPOPTS: word := 0
  const ROUTING: word := 43
  const FRAGMENT: word := 44
  const ESP: word := 50
  const AH: word := 51
  const NONE: word := 59
  const DSTOPTS: word := 60

  predicate IsExt(proto: word) {
    proto == HOPOPTS || proto == DSTOPTS || proto == ROUTING || proto == AH || proto == FRAGMENT
  }

  /** The length in bytes of an extension header with length field `len`. */
  function ExtLength(proto: word, len: byte): (n: nat)
    ensures 8 <= n <= 2048
  {
    if proto == AH then (len + 2) * 4 else if proto == FRAGMENT then 8 else (len + 1) * 8
  }

  // ---------------------------------------------------------------- the chain of the standard

  datatype Header = Header(proto: word, offset: nat)

  /** The headers of a chain, the protocol above it, and the offset where that begins. */
  datatype Chain = Chain(headers: seq<Header>, upper: word, end: nat) | Broken

  /** The chain whose first header is at `off` and of type `proto`; broken if it runs out of
      memory. */
  function ChainAt(mem: seq<byte>, off: nat, proto: word): Chain
    decreases |mem| - off
  {
    if !IsExt(proto) then Chain([], proto, off)
    else if off + 2 > |mem| then Broken
    else
      var rest := ChainAt(mem, off + ExtLength(proto, mem[off + 1]), mem[off]);
      if rest.Broken? then Broken else Chain([Header(proto, off)] + rest.headers, rest.upper, rest.end)
  }

  /** Each header occupies at least 8 bytes. */
  lemma {:induction false} ChainBounds(mem: seq<byte>, off: nat, proto: word)
    ensures ChainAt(mem, off, proto).Chain? ==>
              ChainAt(mem, off, proto).end >= off + 8 * |ChainAt(mem, off, proto).headers| &&
              !IsExt(ChainAt(mem, off, proto).upper)
    decreases |mem| - off
  {
    if IsExt(proto) && off + 2 <= |mem| {
      ChainBounds(mem, off + ExtLength(proto, mem[off + 1]), mem[off]);
    }
  }

  // ---------------------------------------------------------------- the walk of analyze_ipv6

  /** Where analyze_ipv6 has been and the header length it returns; Fault if it would read past
      the memory. */
  datatype Walk = Walk(visits: seq<Header>, hlen: nat) | Fault

  /** How far `data` runs ahead of the header length: the loop over the addresses of a routing
      header (line 133) advances `data` by 16 for each, and then by the length again. */
  function Drift(proto: word, len: byte): nat {
    if proto == ROUTING then 16 * (len / 2) else 0
  }

  function LengthWalk(mem: seq<byte>, data: nat, hlen: nat, proto: word): Walk
    decreases |mem| - data
  {
    if !IsExt(proto) then Walk([], hlen)
    else if data + 2 > |mem| then Fault
    else
      var n := ExtLength(proto, mem[data + 1]);
      var rest := LengthWalk(mem, data + n + Drift(proto, mem[data + 1]), hlen + n, mem[data]);
      if rest.Fault? then Fault else Walk([Header(proto, data)] + rest.visits, rest.hlen)
  }

  /** analyze_ipv6: the walk over the packet whose fixed header is at `start`.  A protocol of
      128 or more is a negative `jbyte`, which is no extension header either. */
  method AnalyzeIpv6(mem: seq<byte>, start: nat) returns (r: Walk)
    requires start + 40 <= |mem|
    ensures r == LengthWalk(mem, start + 40, 40, mem[start + 6])
  {
    var hlen: nat, data: nat, proto: word := 40, start + 40, mem[start + 6];
    var visits := [];
    ghost var whole := LengthWalk(mem, start + 40, 40, mem[start + 6]);
    while IsExt(proto)
      invariant whole == Prefixed(visits, LengthWalk(mem, data, hlen, proto))
      decreases |mem| - data
    {
      if data + 2 > |mem| {
        return Fault;
      }
      var next, len := mem[data], mem[data + 1];
      PrefixedStep(visits, Header(proto, data), LengthWalk(mem, data + ExtLength(proto, len) + Drift(proto, len),
          hlen + ExtLength(proto, len), next));
      visits := visits + [Header(proto, data)];
      if proto == ROUTING {
        var i: nat := 0;
        ghost var at := data;
        while i < len / 2
          invariant 0 <= i <= len / 2 && data == at + 16 * i
        {
          i, data := i + 1, data + 16;
        }
      }
      hlen, data := hlen + ExtLength(proto, len), data + ExtLength(proto, len);
      proto := next;
    }
    r := Walk(visits, hlen);
    assert whole == r;
  }

  ghost function Prefixed(visits: seq<Header>, rest: Walk): Walk {
    if rest.Fault? then Fault else Walk(visits + rest.visits, rest.hlen)
  }

  lemma PrefixedStep(visits: seq<Header>, h: Header, rest: Walk)
    ensures Prefixed(visits, if rest.Fault? then Fault else Walk([h] + rest.visits,
        rest.hlen)) == Prefixed(visits + [h], rest)
  {
    if rest.Walk? {
      assert visits + ([h] + rest.visits) == visits + [h] + rest.visits;
    }
  }

  /** No routing header with addresses is followed by another extension header. */
  predicate DriftFree(mem: seq<byte>, hs: seq<Header>) {
    |hs| <= 1 || ((hs[0].proto == ROUTING ==> At(mem, hs[0].offset + 1) < 2) && DriftFree(mem, hs[1..]))
  }

  /** The walk of analyze_ipv6 visits the headers of the chain, at their offsets, exactly if no
      routing header with addresses is followed by another extension header; and then the
      length it returns ends where the protocol above begins. */
  lemma {:induction false} LengthWalkIsChain(mem: seq<byte>, off: nat, hlen: nat, proto: word)
    requires ChainAt(mem, off, proto).Chain?
    ensures var c, w := ChainAt(mem, off, proto), LengthWalk(mem, off, hlen, proto);
            && (DriftFree(mem, c.headers) <==> w.Walk? && w.visits == c.headers)
            && (DriftFree(mem, c.headers) ==> w.hlen - hlen == c.end - off)
    decreases |mem| - off
  {
    if IsExt(proto) {
      var len, next := mem[off + 1], mem[off];
      var n := ExtLength(proto, len);
      var h := Header(proto, off);
      var rest := ChainAt(mem, off + n, next);
      var w := LengthWalk(mem, off + n + Drift(proto, len), hlen + n, next);
      if !IsExt(next) {
        assert rest.headers == [] && w == Walk([], hlen + n);
      } else if Drift(proto, len) == 0 {
        LengthWalkIsChain(mem, off + n, hlen + n, next);
        ConsVisits(h, rest.headers, w);
        assert ([h] + rest.headers)[1..] == rest.headers && |rest.headers| >= 1;
      } else {
        // the next header is read too far on
        assert rest.headers[0] == Header(next, off + n);
        if w.Walk? {
          assert w.visits[0] == Header(next, off + n + Drift(proto, len));
          ConsVisits(h, rest.headers, w);
        }
        assert ([h] + rest.headers)[0] == h;
      }
    }
  }

  lemma ConsVisits(h: Header, hs: seq<Header>, w: Walk)
    ensures w.Walk? ==> ([h] + w.visits == [h] + hs <==> w.visits == hs)
  {
    if w.Walk? && [h] + w.visits == [h] + hs {
      assert w.visits == ([h] + w.visits)[1..] == ([h] + hs)[1..] == hs;
    }
  }

  // ---------------------------------------------------------------- the walk of get_packet

  /** The protocol the bounded walk ends at, the captured length left, and where it has been. */
  datatype Found = Found(tproto: word, clen: int, visits: seq<Header>)

  const UNKNOWN_PROTO: word := 0xffff

  /** ESP and "no next header" end the walk with protocol -1. */
  function Upper(next: word): word {
    if next == ESP || next == NONE then UNKNOWN_PROTO else next
  }

  /** The loop of get_packet, from `dp` with `clen` captured bytes left. */
  function ClassWalk(mem: seq<byte>, dp: nat, clen: int, tproto: word): Found
    decreases clen
  {
    if !(IsExt(tproto) && clen > 0) then Found(tproto, clen, [])
    else
      var n := ExtLength(tproto, At(mem, dp + 1));
      var rest := ClassWalk(mem, dp + n, clen - n, Upper(At(mem, dp)));
      Found(rest.tproto, rest.clen, [Header(tproto, dp)] + rest.visits)
  }

  method Classify(mem: seq<byte>, start: nat, available: int, nxt: word) returns (tproto: word, clen: int)
    requires available <= 0x7fff
    ensures var f := ClassWalk(mem, start, available, nxt); tproto == f.tproto && clen == f.clen
    ensures available > 0 ==> clen > -2048
  {
    var dp := start;
    tproto, clen := nxt, available;
    while IsExt(tproto) && clen > 0
      invariant dp >= 0 && clen <= 0x7fff && (available > 0 ==> clen > -2048)
      invariant ClassWalk(mem, dp, clen, tproto).tproto == ClassWalk(mem, start, available, nxt).tproto
      invariant ClassWalk(mem, dp, clen, tproto).clen == ClassWalk(mem, start, available, nxt).clen
      decreases clen
    {
      var next, len := At(mem, dp), At(mem, dp + 1);
      var n := ExtLength(tproto, len);
      // a `short`: the subtraction cannot wrap
      assert S16(clen - n) == clen - n;
      dp, clen := dp + n, S16(clen - n);
      tproto := Upper(next);
    }
  }

  /** Every step consumes at least 8 bytes, so the walk takes at most clen / 8 steps, rounded up. */
  lemma {:induction false} ClassWalkSteps(mem: seq<byte>, dp: nat, clen: int, tproto: word)
    requires clen >= 0
    ensures |ClassWalk(mem, dp, clen, tproto).visits| <= (clen + 7) / 8
    decreases clen
  {
    if IsExt(tproto) && clen > 0 {
      var n := ExtLength(tproto, At(mem, dp + 1));
      if clen - n >= 0 {
        ClassWalkSteps(mem, dp + n, clen - n, Upper(At(mem, dp)));
        assert (clen - n + 7) / 8 + 1 <= (clen + 7) / 8;
      }
    }
  }

  /** Started at the first extension header, the bounded walk agrees with the chain on every
      chain that the captured bytes do not exhaust: the same headers at the same offsets, the
      protocol above (or -1 after ESP or "no next header"), and what is left of the capture. */
  lemma {:induction false} ClassWalkIsChain(mem: seq<byte>, off: nat, clen: int, proto: word)
    requires ChainAt(mem, off, proto).Chain? && ChainAt(mem, off, proto).end - off < clen
    ensures var c, f := ChainAt(mem, off, proto), ClassWalk(mem, off, clen, proto);
            && f.visits == c.headers && f.clen == clen - (c.end - off)
            && f.tproto == (if c.headers == [] then c.upper else Upper(c.upper))
    decreases |mem| - off
  {
    if IsExt(proto) {
      var n := ExtLength(proto, mem[off + 1]);
      ChainBounds(mem, off + n, mem[off]);
      if IsExt(mem[off]) {
        assert Upper(mem[off]) == mem[off];
        ClassWalkIsChain(mem, off + n, clen - n, mem[off]);
      }
    }
  }

  /** The two walks agree: on a chain that neither exhausts the capture nor makes analyze_ipv6
      drift, both visit the same headers at the same offsets, and the lengths they account for
      are the same. */
  lemma WalksAgree(mem: seq<byte>, start: nat, clen: int, proto: word)
    requires ChainAt(mem, start + 40, proto).Chain? && ChainAt(mem, start + 40, proto).end - (start + 40) < clen
    requires DriftFree(mem, ChainAt(mem, start + 40, proto).headers)
    ensures var f, w := ClassWalk(mem, start + 40, clen, proto), LengthWalk(mem, start + 40, 40, proto);
            w.Walk? && f.visits == w.visits && w.hlen + f.clen == 40 + clen
  {
    ClassWalkIsChain(mem, start + 40, clen, proto);
    LengthWalkIsChain(mem, start + 40, 40, proto);
  }

  /** As written, the walk of get_packet starts at the fixed header itself (line 740 does not
      skip its 40 bytes).  The byte it takes for the next type is the one with the version, so on
      an IPv6 packet it stops after one step, at a protocol between 96 and 111. */
  lemma WalkFromFixedHeader(mem: seq<byte>, start: nat, clen: int, proto: word)
    requires At(mem, start) / 16 == 6 && IsExt(proto) && clen > 0
    ensures var f := ClassWalk(mem, start, clen, proto);
            f.tproto == At(mem, start) && 96 <= f.tproto <= 111 && f.visits == [Header(proto, start)]
  {
    var n := ExtLength(proto, At(mem, start + 1));
    assert ClassWalk(mem, start + n, clen - n, Upper(At(mem, start))) == Found(At(mem, start), clen - n, []);
  }

  /** So get_packet finds the protocol above the chain exactly if there are no extension
      headers, or the protocol happens to be the first byte of the packet. */
  lemma TransportFoundIff(mem: seq<byte>, start: nat, clen: int, proto: word)
    requires At(mem, start) / 16 == 6
    requires ChainAt(mem, start + 40, proto).Chain? && ChainAt(mem, start + 40, proto).end - (start + 40) < clen
    ensures ClassWalk(mem, start, clen, proto).tproto == ClassWalk(mem, start + 40, clen, proto).tproto <==>
            !IsExt(proto) || ChainAt(mem, start + 40, proto).upper == At(mem, start)
  {
    ClassWalkIsChain(mem, start + 40, clen, proto);
    ChainBounds(mem, start + 40, proto);
    if IsExt(proto) {
      WalkFromFixedHeader(mem, start, clen, proto);
    }
  }

  // ---------------------------------------------------------------- the headers, in numbers

  /** Hop-by-hop and destination options, routing, fragment and authentication headers. */
  predicate Extension(proto: int) {
    proto == 0 || proto == 43 || proto == 44 || proto == 51 || proto == 60
  }

  /** `next` follows the header `h`: its type is the first byte of `h`, and it begins where `h`
      ends.  The second byte counts units of 8 bytes after the first 8; in an authentication
      header units of 4 bytes; in a fragment header it counts for nothing.  A walk may run ahead
      by 16 bytes for each address of a routing header. */
  ghost predicate Follows(mem: seq<byte>, h: Header, next: Header, ahead: bool) {
    var o, len := h.offset, At(mem, h.offset + 1);
    && Extension(h.proto) && next.proto == At(mem, o)
    && (h.proto == 0 || h.proto == 60 ==> next.offset == o + 8 + 8 * len)
    && (h.proto == 43 ==> next.offset == o + 8 + 8 * len + if ahead then 16 * (len / 2) else 0)
    && (h.proto == 44 ==> next.offset == o + 8)
    && (h.proto == 51 ==> next.offset == o + 8 + 4 * len)
  }

  /** The headers `hs` begin with `first` and follow each other, and `last` follows them. */
  ghost predicate Laid(mem: seq<byte>, hs: seq<Header>, first: Header, last: Header, ahead: bool) {
    && (hs + [last])[0] == first
    && forall i | 0 <= i < |hs| :: Follows(mem, hs[i], (hs + [last])[i + 1], ahead)
  }

  /** The walk or chain that begins with `h` and goes on with `hs`. */
  lemma LaidCons(mem: seq<byte>, h: Header, hs: seq<Header>, next: Header, last: Header, ahead: bool)
    requires Follows(mem, h, next, ahead) && Laid(mem, hs, next, last, ahead)
    ensures Laid(mem, [h] + hs, h, last, ahead)
  {
    var all := [h] + hs;
    assert all + [last] == [h] + (hs + [last]);
    forall i | 0 <= i < |all| ensures Follows(mem, all[i], (all + [last])[i + 1], ahead) {
      if i > 0 {
        assert all[i] == hs[i - 1] && (all + [last])[i + 1] == (hs + [last])[i];
      }
    }
  }

  lemma LaidTail(mem: seq<byte>, hs: seq<Header>, first: Header, last: Header, ahead: bool) returns (next: Header)
    requires hs != [] && Laid(mem, hs, first, last, ahead)
    ensures hs[0] == first && Follows(mem, first, next, ahead) && Laid(mem, hs[1..], next, last, ahead)
  {
    next := (hs + [last])[1];
    assert hs[0] == (hs + [last])[0];
    assert hs[1..] + [last] == (hs + [last])[1..];
    forall i | 0 <= i < |hs[1..]| ensures Follows(mem, hs[1..][i], (hs[1..] + [last])[i + 1], ahead) {
      assert Follows(mem, hs[i + 1], (hs + [last])[i + 2], ahead);
    }
  }

  /** All headers lie in the memory, as far as their first two bytes. */
  ghost predicate InMemory(mem: seq<byte>, hs: seq<Header>) {
    forall h | h in hs :: h.offset + 2 <= |mem|
  }

  /** The lengths of the model are those of the standard. */
  lemma FollowsIff(mem: seq<byte>, h: Header, next: Header, ahead: bool)
    ensures Follows(mem, h, next, ahead) <==>
            IsExt(h.proto) && next.proto == At(mem, h.offset)
            && next.offset == h.offset + ExtLength(h.proto, At(mem, h.offset + 1))
                              + if ahead then Drift(h.proto, At(mem, h.offset + 1)) else 0
  {
  }

  /** A chain consists of exactly the headers that follow each other up to the first type that
      is not one of an extension header. */
  lemma ChainIff(mem: seq<byte>, off: nat, proto: word, hs: seq<Header>, upper: word, end: nat)
    ensures ChainAt(mem, off, proto) == Chain(hs, upper, end) <==>
            Laid(mem, hs, Header(proto, off), Header(upper, end), false) && InMemory(mem, hs)
            && !Extension(upper)
  {
    hide ChainAt, Laid, InMemory;
    if Laid(mem, hs, Header(proto, off), Header(upper, end), false) && InMemory(mem, hs) && !Extension(upper) {
      LaidIsChain(mem, off, proto, hs, upper, end);
    }
    if ChainAt(mem, off, proto) == Chain(hs, upper, end) {
      ChainIsLaid(mem, off, proto);
    }
  }

  lemma {:induction false} ChainIsLaid(mem: seq<byte>, off: nat, proto: word)
    requires ChainAt(mem, off, proto).Chain?
    ensures var c := ChainAt(mem, off, proto);
            Laid(mem, c.headers, Header(proto, off), Header(c.upper, c.end), false) && InMemory(mem, c.headers)
            && !Extension(c.upper)
    decreases |mem| - off
  {
    hide ExtLength, Follows;
    if IsExt(proto) {
      hide Laid;
      var c := ChainAt(mem, off, proto);
      var h, next := Header(proto, off), Header(mem[off], off + ExtLength(proto, mem[off + 1]));
      ChainIsLaid(mem, next.offset, next.proto);
      FollowsIff(mem, h, next, false);
      LaidCons(mem, h, ChainAt(mem, next.offset, next.proto).headers, next, Header(c.upper, c.end), false);
    }
  }

  lemma {:induction false} LaidIsChain(mem: seq<byte>, off: nat, proto: word, hs: seq<Header>, upper: word, end: nat)
    requires Laid(mem, hs, Header(proto, off), Header(upper, end), false) && InMemory(mem, hs)
    requires !Extension(upper)
    ensures ChainAt(mem, off, proto) == Chain(hs, upper, end)
    decreases |hs|
  {
    hide ExtLength, Follows, InMemory, At;
    if hs != [] {
      var next := LaidTail(mem, hs, Header(proto, off), Header(upper, end), false);
      TailInMemory(mem, hs);
      FollowsIff(mem, hs[0], next, false);
      InMemoryAt(mem, off);
      LaidIsChain(mem, next.offset, next.proto, hs[1..], upper, end);
      assert hs == [hs[0]] + hs[1..];
    }
  }

  /** How far the walk of analyze_ipv6 has run ahead after the headers `hs`. */
  ghost function Ahead(mem: seq<byte>, hs: seq<Header>): nat {
    if hs == [] then 0
    else Ahead(mem, hs[1..]) + if hs[0].proto == 43 then 16 * (At(mem, hs[0].offset + 1) / 2) else 0
  }

  /** The walk of analyze_ipv6, whether it drifts or not: the headers it visits follow each
      other, with 16 bytes more for each address of a routing header, up to the first type that
      is not one of an extension header; and the length it returns is that of the headers,
      without those bytes. */
  lemma {:induction false} LengthWalkIsLaid(mem: seq<byte>, data: nat, hlen: nat, proto: word) returns (last: Header)
    requires LengthWalk(mem, data, hlen, proto).Walk?
    ensures var w := LengthWalk(mem, data, hlen, proto);
            && Laid(mem, w.visits, Header(proto, data), last, true) && InMemory(mem, w.visits)
            && !Extension(last.proto)
            && w.hlen == hlen + (last.offset - data) - Ahead(mem, w.visits)
    decreases |mem| - data
  {
    hide ExtLength, Follows, Drift;
    if !IsExt(proto) {
      last := Header(proto, data);
    } else {
      hide Laid;
      var len := mem[data + 1];
      var k, d := ExtLength(proto, len), Drift(proto, len);
      var h, next := Header(proto, data), Header(mem[data], data + k + d);
      var rest := LengthWalk(mem, next.offset, hlen + k, next.proto);
      last := LengthWalkIsLaid(mem, next.offset, hlen + k, next.proto);
      FollowsIff(mem, h, next, true);
      LaidCons(mem, h, rest.visits, next, last, true);
      assert ([h] + rest.visits)[1..] == rest.visits;
      assert Ahead(mem, [h] + rest.visits) == Ahead(mem, rest.visits) + d by {
        DriftIsAhead(mem, h);
      }
    }
  }

  lemma DriftIsAhead(mem: seq<byte>, h: Header)
    ensures Drift(h.proto, At(mem, h.offset + 1)) == if h.proto == 43 then 16 * (At(mem, h.offset + 1) / 2) else 0
  {
  }

  /** And it faults only where no such headers lie in the memory. */
  lemma {:induction false} LaidIsWalked(mem: seq<byte>, data: nat, hlen: nat, proto: word, hs: seq<Header>,
      last: Header)
    requires Laid(mem, hs, Header(proto, data), last, true) && InMemory(mem, hs) && !Extension(last.proto)
    ensures LengthWalk(mem, data, hlen, proto).Walk? && LengthWalk(mem, data, hlen, proto).visits == hs
    decreases |hs|
  {
    hide *;
    if hs == [] {
      EmptyWalk(mem, data, hlen, proto, last);
    } else {
      var next := LaidTail(mem, hs, Header(proto, data), last, true);
      TailInMemory(mem, hs);
      FollowsIff(mem, hs[0], next, true);
      InMemoryAt(mem, data);
      var k := ExtLength(proto, mem[data + 1]);
      LengthWalkStep(mem, data, hlen, proto);
      LaidIsWalked(mem, next.offset, hlen + k, next.proto, hs[1..], last);
      PrefixedHead(hs, LengthWalk(mem, next.offset, hlen + k, next.proto));
    }
  }

  lemma EmptyWalk(mem: seq<byte>, data: nat, hlen: nat, proto: word, last: Header)
    requires Laid(mem, [], Header(proto, data), last, true) && !Extension(last.proto)
    ensures LengthWalk(mem, data, hlen, proto) == Walk([], hlen)
  {
  }

  lemma InMemoryAt(mem: seq<byte>, i: nat)
    requires i + 2 <= |mem|
    ensures At(mem, i) == mem[i] && At(mem, i + 1) == mem[i + 1]
  {
  }

  lemma PrefixedHead(hs: seq<Header>, rest: Walk)
    requires hs != [] && rest.Walk? && rest.visits == hs[1..]
    ensures Prefixed([hs[0]], rest).Walk? && Prefixed([hs[0]], rest).visits == hs
  {
  }

  lemma LengthWalkStep(mem: seq<byte>, data: nat, hlen: nat, proto: word)
    requires IsExt(proto) && data + 2 <= |mem|
    ensures var k, d := ExtLength(proto, mem[data + 1]), Drift(proto, mem[data + 1]);
            LengthWalk(mem, data, hlen, proto)
            == Prefixed([Header(proto, data)], LengthWalk(mem, data + k + d, hlen + k, mem[data]))
  {
  }

  lemma TailInMemory(mem: seq<byte>, hs: seq<Header>)
    requires hs != [] && InMemory(mem, hs)
    ensures hs[0].offset + 2 <= |mem| && InMemory(mem, hs[1..])
  {
    assert hs[0] in hs;
  }

  /** The bounded walk from `first` with `clen` bytes left, if it ends before `last`: the headers
      it visits follow each other and begin within the capture; it stops at the first type that
      is not one of an extension header, or when nothing is left; what is left is what the
      headers do not take; and types 50 and 59 are turned into -1. */
  ghost predicate Bounded(mem: seq<byte>, f: Found, first: Header, clen: int, last: Header) {
    && Laid(mem, f.visits, first, last, false)
    && (forall h | h in f.visits :: h.offset < first.offset + clen)
    && (!Extension(last.proto) || f.clen <= 0) && f.clen == clen - (last.offset - first.offset)
    && f.tproto == if f.visits != [] && (last.proto == 50 || last.proto == 59) then 0xffff else last.proto
  }

  /** The bounded walk is that, whether it reaches the end of the chain or not. */
  lemma {:induction false} ClassWalkIsLaid(mem: seq<byte>, dp: nat, clen: int, tproto: word) returns (last: Header)
    ensures Bounded(mem, ClassWalk(mem, dp, clen, tproto), Header(tproto, dp), clen, last)
    decreases clen
  {
    hide ExtLength, Follows;
    var h := Header(tproto, dp);
    if !(IsExt(tproto) && clen > 0) {
      last := h;
    } else {
      hide ClassWalk, Bounded;
      var k := ExtLength(tproto, At(mem, dp + 1));
      var next := Header(At(mem, dp), dp + k);
      last := ClassWalkIsLaid(mem, next.offset, clen - k, next.proto);
      FollowsIff(mem, h, next, false);
      ClassWalkStep(mem, dp, clen, tproto);
      BoundedStep(mem, h, next, ClassWalk(mem, next.offset, clen - k, next.proto), clen, last);
    }
  }

  /** A visit before the walk `f`. */
  ghost function Visited(h: Header, f: Found): Found {
    Found(if f.visits == [] then Upper(f.tproto) else f.tproto, f.clen, [h] + f.visits)
  }

  lemma ClassWalkStep(mem: seq<byte>, dp: nat, clen: int, tproto: word)
    requires IsExt(tproto) && clen > 0
    ensures var k := ExtLength(tproto, At(mem, dp + 1));
            ClassWalk(mem, dp, clen, tproto)
            == Visited(Header(tproto, dp), ClassWalk(mem, dp + k, clen - k, At(mem, dp)))
  {
    hide ExtLength, At;
  }

  lemma BoundedStep(mem: seq<byte>, h: Header, next: Header, f: Found, clen: int, last: Header)
    requires clen > 0 && Follows(mem, h, next, false)
    requires Bounded(mem, f, next, clen - (next.offset - h.offset), last)
    ensures Bounded(mem, Visited(h, f), h, clen, last)
  {
    hide Follows;
    LaidCons(mem, h, f.visits, next, last, false);
    assert f.visits == [] ==> (f.visits + [last])[0] == last;
  }
}
