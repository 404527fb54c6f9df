/**
 One's-complement checksums of the firmware: +1c, the checksum loop, and the wrap-up of an IP and UDP
 packet in the outgoing buffer. The buffer is a run of 16-bit cells, each with its first byte on top.
 */
module Checksum {
  import opened Words

  const BUFFER_CELLS := 750

  // Cells of the header fields: byte offsets 14, 16, 24, 26, 34, 38 and 40.

  const IP_CELL := 7
  const IP_LENGTH := 8
  const IP_CHECKSUM := 12
  const IP_ADDRESSES := 13
  const UDP_CELL := 17
  const UDP_LENGTH := 19
  const UDP_CHECKSUM := 20
  const PROTO_UDP: Word := 17

  // ---------------------------------------------------------------- one's-complement sums

  /** +1c: the carry out of the sum is added back in. */
  function Plus(a: Word, b: Word): Word {
    Wrap(a + b + (if a > Wrap(a + b) then 1 else 0))
  }

  lemma PlusIs(a: Word, b: Word)
    ensures Plus(a, b) == if a + b >= 0x1_0000 then a + b - 0xFFFF else a + b
  {
  }

  lemma PlusCommutes(a: Word, b: Word)
    ensures Plus(a, b) == Plus(b, a)
  {
  }

  lemma PlusAssociates(a: Word, b: Word, c: Word)
    ensures Plus(Plus(a, b), c) == Plus(a, Plus(b, c))
  {
    PlusIs(a, b);
    PlusIs(b, c);
    PlusIs(Plus(a, b), c);
    PlusIs(a, Plus(b, c));
  }

  lemma PlusZero(a: Word)
    ensures Plus(a, 0) == a && Plus(0, a) == a
  {
  }

  lemma PlusComplement(a: Word)
    ensures Plus(a, Not(a)) == 0xFFFF
  {
  }

  function Sum(ws: seq<Word>): Word {
    if ws == [] then 0 else Plus(Sum(ws[..|ws| - 1]), ws[|ws| - 1])
  }

  lemma {:induction false} SumAppend(a: seq<Word>, b: seq<Word>)
    ensures Sum(a + b) == Plus(Sum(a), Sum(b))
  {
    if b == [] {
      assert a + b == a;
      PlusZero(Sum(a));
    } else {
      var last := b[|b| - 1];
      assert (a + b)[..|a + b| - 1] == a + b[..|b| - 1];
      SumAppend(a, b[..|b| - 1]);
      PlusAssociates(Sum(a), Sum(b[..|b| - 1]), last);
    }
  }

  /** The plain sum of the cells. */
  function Total(ws: seq<Word>): nat {
    if ws == [] then 0 else Total(ws[..|ws| - 1]) + ws[|ws| - 1]
  }

  /**
   The sum that RFC 1071 defines, in other words: the cells' plain sum modulo 65535, where zero is
   written as all ones unless every cell is zero.
   */
  lemma {:induction false} SumIsTotal(ws: seq<Word>)
    ensures Sum(ws) % 0xFFFF == Total(ws) % 0xFFFF
    ensures Sum(ws) == 0 <==> Total(ws) == 0
  {
    if ws != [] {
      var front, last := ws[..|ws| - 1], ws[|ws| - 1];
      SumIsTotal(front);
      PlusIs(Sum(front), last);
      ModPlus(Sum(front), Total(front), last);
    }
  }

  lemma ModPlus(a: nat, b: nat, c: nat)
    requires a % 0xFFFF == b % 0xFFFF
    ensures (a + c) % 0xFFFF == (b + c) % 0xFFFF && (a + c - 0xFFFF) % 0xFFFF == (b + c) % 0xFFFF
  {
  }

  lemma Around(ws: seq<Word>, k: nat)
    requires k < |ws|
    ensures ws == ws[..k] + ([ws[k]] + ws[k + 1..])
  {
  }

  lemma SumThree(a: seq<Word>, x: Word, b: seq<Word>)
    ensures Sum(a + ([x] + b)) == Plus(Plus(Sum(a), Sum(b)), x)
  {
    SumAppend(a, [x] + b);
    SumAppend([x], b);
    SumOne(x);
    PlusCommutes(x, Sum(b));
    PlusAssociates(Sum(a), Sum(b), x);
  }

  /** A field in the middle of a run, and the sum around it. */
  lemma SumAround(ws: seq<Word>, k: nat)
    requires k < |ws|
    ensures Sum(ws) == Plus(Plus(Sum(ws[..k]), Sum(ws[k + 1..])), ws[k])
  {
    Around(ws, k);
    SumThree(ws[..k], ws[k], ws[k + 1..]);
  }

  /** Filling a field that was zero adds what is put there. */
  lemma SumFilled(ws: seq<Word>, k: nat, x: Word)
    requires k < |ws| && ws[k] == 0
    ensures Sum(ws[k := x]) == Plus(Sum(ws), x)
  {
    var filled := ws[k := x];
    SumAround(ws, k);
    SumAround(filled, k);
    assert filled[..k] == ws[..k] && filled[k + 1..] == ws[k + 1..];
    PlusZero(Plus(Sum(ws[..k]), Sum(ws[k + 1..])));
  }

  // ---------------------------------------------------------------- the pseudo header

  /** The cells of the datagram, from the UDP header on. */
  function Datagram(p: seq<Word>): seq<Word>
    requires Fits(p)
  {
    p[UDP_CELL..UDP_CELL + CellsFor(p[UDP_LENGTH])]
  }

  /** Cells that so many bytes take up. */
  function CellsFor(bytes: nat): nat {
    (bytes + 1) / 2
  }

  /** The datagram ends within the buffer. */
  predicate Fits(p: seq<Word>) {
    |p| == BUFFER_CELLS && UDP_CELL + CellsFor(p[UDP_LENGTH]) <= BUFFER_CELLS
  }

  /** A last byte that is alone in its cell is followed by zero. */
  function Padded(p: seq<Word>): (q: seq<Word>)
    requires Fits(p)
    ensures Fits(q)
  {
    var k := UDP_CELL + p[UDP_LENGTH] / 2;
    if p[UDP_LENGTH] % 2 == 1 then p[k := p[k] - p[k] % 0x100] else p
  }

  /** Everything that the UDP checksum covers. */
  function Covered(p: seq<Word>): seq<Word>
    requires Fits(p)
  {
    Datagram(p) + p[IP_ADDRESSES..IP_ADDRESSES + 4] + [PROTO_UDP, p[UDP_LENGTH]]
  }

  lemma FourPlus(s: Word, a: Word, b: Word, c: Word, d: Word)
    ensures Plus(s, Plus(a, Plus(b, Plus(c, d)))) == Plus(s, Sum([a, b, c, d]))
  {
    assert [a, b, c, d] == [a] + ([b] + ([c] + [d]));
    SumAppend([a], [b] + ([c] + [d]));
    SumAppend([b], [c] + [d]);
    SumAppend([c], [d]);
    SumOne(a);
    SumOne(b);
    SumOne(c);
    SumOne(d);
  }

  lemma SumOne(a: Word)
    ensures Sum([a]) == a
  {
  }

  lemma SumCovered(p: seq<Word>)
    requires Fits(p)
    ensures Sum(Covered(p))
            == Plus(Plus(Plus(Sum(Datagram(p)), Sum(p[IP_ADDRESSES..IP_ADDRESSES + 4])), PROTO_UDP), p[UDP_LENGTH])
  {
    var a, b := Datagram(p), p[IP_ADDRESSES..IP_ADDRESSES + 4];
    var tail: seq<Word> := [PROTO_UDP, p[UDP_LENGTH]];
    SumAppend(a + b, tail);
    SumAppend(a, b);
    assert tail == [PROTO_UDP] + [p[UDP_LENGTH]];
    SumAppend([PROTO_UDP], [p[UDP_LENGTH]]);
    SumOne(PROTO_UDP);
    SumOne(p[UDP_LENGTH]);
    PlusAssociates(Plus(Sum(a), Sum(b)), PROTO_UDP, p[UDP_LENGTH]);
  }

  // ---------------------------------------------------------------- the words on the buffer

  /** enc-checksum: the complement of the sum of n cells. */
  method EncChecksum(p: array<Word>, at: nat, n: nat) returns (sum: Word)
    requires at + n <= p.Length
    ensures sum == Not(Sum(p[at..at + n]))
  {
    sum := 0;
    var i := 0;
    while i < n
      invariant 0 <= i <= n && sum == Sum(p[at..at + i])
    {
      assert p[at..at + i + 1][..i] == p[at..at + i];
      sum := Plus(sum, p[at + i]);
      i := i + 1;
    }
    sum := Not(sum);
  }

  function IpWrapped(p: seq<Word>, bytelen: Word): seq<Word>
    requires |p| == BUFFER_CELLS && bytelen >= 14
  {
    var q := p[IP_LENGTH := bytelen - 14];
    q[IP_CHECKSUM := Not(Sum(q[IP_CELL..IP_CELL + 10]))]
  }

  /** ip-wrapup */
  method IpWrapup(p: array<Word>, bytelen: Word)
    requires p.Length == BUFFER_CELLS && bytelen >= 14
    modifies p
    ensures p[..] == IpWrapped(old(p[..]), bytelen)
  {
    p[IP_LENGTH] := bytelen - 14;
    ghost var q := old(p[..])[IP_LENGTH := bytelen - 14];
    assert p[..] == q;
    assert p[IP_CELL..IP_CELL + 10] == q[IP_CELL..IP_CELL + 10];
    var sum := EncChecksum(p, IP_CELL, 10);
    p[IP_CHECKSUM] := sum;
  }

  /** udp-checksum: pads the datagram in place and complements the sum of what the checksum covers. */
  method UdpChecksum(p: array<Word>) returns (u: Word)
    requires Fits(p[..])
    modifies p
    ensures p[..] == Padded(old(p[..])) && u == Not(Sum(Covered(p[..])))
  {
    if p[UDP_LENGTH] % 2 == 1 {
      var k := UDP_CELL + p[UDP_LENGTH] / 2;
      p[k] := p[k] - p[k] % 0x100;
    }
    ghost var now := p[..];
    assert now == Padded(old(p[..]));
    assert now[UDP_LENGTH] == p[UDP_LENGTH];
    u := EncChecksum(p, UDP_CELL, CellsFor(p[UDP_LENGTH]));
    assert p[UDP_CELL..UDP_CELL + CellsFor(p[UDP_LENGTH])] == Datagram(now);
    u := Not(u);
    var a, b, c, d := p[IP_ADDRESSES], p[IP_ADDRESSES + 1], p[IP_ADDRESSES + 2], p[IP_ADDRESSES + 3];
    assert now[IP_ADDRESSES..IP_ADDRESSES + 4] == [a, b, c, d];
    FourPlus(u, a, b, c, d);
    u := Plus(u, Plus(a, Plus(b, Plus(c, d))));
    u := Plus(u, PROTO_UDP);
    u := Plus(u, p[UDP_LENGTH]);
    SumCovered(now);
    u := Not(u);
  }

  /** The packet before its UDP checksum is put in. */
  function Measured(p: seq<Word>, bytelen: Word): seq<Word>
    requires |p| == BUFFER_CELLS && 42 <= bytelen <= 2 * BUFFER_CELLS
  {
    IpWrapped(p, bytelen)[UDP_LENGTH := bytelen - 34]
  }

  function Wrapped(p: seq<Word>, bytelen: Word): (q: seq<Word>)
    requires |p| == BUFFER_CELLS && 42 <= bytelen <= 2 * BUFFER_CELLS
    ensures Fits(q)
  {
    var m := Padded(Measured(p, bytelen));
    m[UDP_CHECKSUM := Not(Sum(Covered(m)))]
  }

  /** udp-wrapup, for a packet of that many bytes. */
  method UdpWrapup(p: array<Word>, bytelen: Word)
    requires p.Length == BUFFER_CELLS && 42 <= bytelen <= 2 * BUFFER_CELLS
    modifies p
    ensures p[..] == Wrapped(old(p[..]), bytelen)
  {
    IpWrapup(p, bytelen);
    p[UDP_LENGTH] := bytelen - 34;
    assert p[..] == Measured(old(p[..]), bytelen);
    var sum := UdpChecksum(p);
    p[UDP_CHECKSUM] := sum;
  }

  // ---------------------------------------------------------------- what the receiver finds

  lemma PaddedTwice(p: seq<Word>)
    requires Fits(p)
    ensures Padded(Padded(p)) == Padded(p)
  {
  }

  /** The checksum field is one of the cells that the checksum covers. */
  lemma CoveredFilled(p: seq<Word>, x: Word)
    requires Fits(p) && p[UDP_CHECKSUM] == 0 && p[UDP_LENGTH] >= 8
    ensures Fits(p[UDP_CHECKSUM := x])
    ensures Covered(p)[3] == 0 && Covered(p[UDP_CHECKSUM := x]) == Covered(p)[3 := x]
  {
  }

  /** Padding leaves the checksum field alone: it stands in a cell of its own. */
  lemma PaddedField(p: seq<Word>)
    requires Fits(p)
    ensures p[UDP_CHECKSUM] == 0 ==> Padded(p)[UDP_CHECKSUM] == 0
    ensures forall k :: 0 <= k < UDP_CELL ==> Padded(p)[k] == p[k]
  {
  }

  /**
   A packet whose two checksum fields were zero, closed by udp-wrapup: its IP header sums to all ones,
   and udp-checksum on it gives zero and changes nothing. This is for every length, odd ones included.
   */
  lemma WrappedChecks(p: seq<Word>, bytelen: Word)
    requires |p| == BUFFER_CELLS && 42 <= bytelen <= 2 * BUFFER_CELLS
    requires p[IP_CHECKSUM] == 0 && p[UDP_CHECKSUM] == 0
    ensures var q := Wrapped(p, bytelen);
      && Sum(q[IP_CELL..IP_CELL + 10]) == 0xFFFF
      && Padded(q) == q && Not(Sum(Covered(q))) == 0
      && q[IP_LENGTH] == bytelen - 14 && q[UDP_LENGTH] == bytelen - 34
  {
    var m := Padded(Measured(p, bytelen));
    var q := Wrapped(p, bytelen);
    PaddedField(Measured(p, bytelen));
    assert m[UDP_CHECKSUM] == 0;
    CoveredFilled(m, q[UDP_CHECKSUM]);
    SumFilled(Covered(m), 3, q[UDP_CHECKSUM]);
    PlusComplement(Sum(Covered(m)));
    HeaderSum(p, bytelen);
    assert q[IP_CELL..IP_CELL + 10] == IpWrapped(p, bytelen)[IP_CELL..IP_CELL + 10];
    PaddedWrapped(p, bytelen);
  }

  lemma HeaderSum(p: seq<Word>, bytelen: Word)
    requires |p| == BUFFER_CELLS && bytelen >= 14 && p[IP_CHECKSUM] == 0
    ensures Sum(IpWrapped(p, bytelen)[IP_CELL..IP_CELL + 10]) == 0xFFFF
  {
    var q := p[IP_LENGTH := bytelen - 14];
    var header, sum := q[IP_CELL..IP_CELL + 10], Sum(q[IP_CELL..IP_CELL + 10]);
    assert IpWrapped(p, bytelen)[IP_CELL..IP_CELL + 10] == header[5 := Not(sum)];
    SumFilled(header, 5, Not(sum));
    PlusComplement(sum);
  }

  lemma PaddedWrapped(p: seq<Word>, bytelen: Word)
    requires |p| == BUFFER_CELLS && 42 <= bytelen <= 2 * BUFFER_CELLS
    ensures Padded(Wrapped(p, bytelen)) == Wrapped(p, bytelen)
  {
    var m := Padded(Measured(p, bytelen));
    PaddedTwice(Measured(p, bytelen));
    var x := Not(Sum(Covered(m)));
    assert bytelen - 34 >= 8;
    assert Padded(m[UDP_CHECKSUM := x]) == Padded(m)[UDP_CHECKSUM := x];
  }

  predicate Multiple(n: int) {
    n % 0xFFFF == 0
  }

  /** The receiver's test in other words: what is covered adds up to a positive multiple of 65535. */
  lemma AcceptedIff(p: seq<Word>)
    requires Fits(p)
    ensures Not(Sum(Covered(p))) == 0 <==> Multiple(Total(Covered(p)))
    ensures Total(Covered(p)) > 0
  {
    var ws := Covered(p);
    SumIsTotal(ws);
    assert ws[..|ws| - 1][|ws| - 2] == PROTO_UDP;
    assert Total(ws) >= Total(ws[..|ws| - 1]) >= PROTO_UDP;
  }

  /** What one changed cell does to the plain sum. */
  lemma {:induction false} TotalChanged(ws: seq<Word>, k: nat, x: Word)
    requires k < |ws|
    ensures Total(ws[k := x]) == Total(ws) - ws[k] + x
  {
    var n := |ws| - 1;
    if k < n {
      assert ws[k := x][..n] == ws[..n][k := x];
      TotalChanged(ws[..n], k, x);
    } else {
      assert ws[k := x][..n] == ws[..n];
    }
  }

  /**
   Of the packets that differ from an accepted one in a single cell of the payload, only those are
   accepted that have all zeros for all ones there or the other way round.
   */
  lemma OneCellChanged(p: seq<Word>, k: nat, x: Word)
    requires Fits(p) && UDP_CHECKSUM < k < UDP_CELL + CellsFor(p[UDP_LENGTH]) && x != p[k]
    requires Not(Sum(Covered(p))) == 0
    ensures Fits(p[k := x])
    ensures Not(Sum(Covered(p[k := x]))) == 0 <==> (p[k] == 0 && x == 0xFFFF) || (p[k] == 0xFFFF && x == 0)
  {
    CoveredChanged(p, k, x);
    AcceptedIff(p);
    AcceptedIff(p[k := x]);
    var ws, c := Covered(p), k - UDP_CELL;
    TotalChanged(ws, c, x);
    TotalChanged(ws, c, 0);
    SameResidue(Total(ws), p[k], x);
  }

  lemma CoveredChanged(p: seq<Word>, k: nat, x: Word)
    requires Fits(p) && UDP_CHECKSUM < k < UDP_CELL + CellsFor(p[UDP_LENGTH])
    ensures Fits(p[k := x]) && k - UDP_CELL < |Covered(p)| && Covered(p)[k - UDP_CELL] == p[k]
    ensures Covered(p[k := x]) == Covered(p)[k - UDP_CELL := x]
  {
  }

  lemma SameResidue(total: nat, a: Word, x: Word)
    requires Multiple(total) && total >= a && a != x
    ensures Multiple(total - a + x) <==> (a == 0 && x == 0xFFFF) || (a == 0xFFFF && x == 0)
  {
  }

  /**
   A computed checksum of zero is put into the packet as zero, where RFC 768 has it sent as all ones
   since zero means that there is none. This happens exactly when what is covered, without the field,
   adds up to a multiple of 65535.
   */
  lemma FieldZeroIff(p: seq<Word>, bytelen: Word)
    requires |p| == BUFFER_CELLS && 42 <= bytelen <= 2 * BUFFER_CELLS
    ensures Wrapped(p, bytelen)[UDP_CHECKSUM] == 0
            <==> Multiple(Total(Covered(Padded(Measured(p, bytelen)))))
  {
    AcceptedIff(Padded(Measured(p, bytelen)));
  }

  /** The first cell of the payload has no part in what udp-wrapup does before it sums. */
  lemma PayloadApart(p: seq<Word>, bytelen: Word, x: Word)
    requires |p| == BUFFER_CELLS && 44 <= bytelen <= 2 * BUFFER_CELLS
    ensures Measured(p[UDP_CELL + 4 := x], bytelen) == Measured(p, bytelen)[UDP_CELL + 4 := x]
    ensures Padded(Measured(p[UDP_CELL + 4 := x], bytelen)) == Padded(Measured(p, bytelen))[UDP_CELL + 4 := x]
  {
    var q := p[UDP_CELL + 4 := x];
    assert q[IP_LENGTH := bytelen - 14][IP_CELL..IP_CELL + 10] == p[IP_LENGTH := bytelen - 14][IP_CELL..IP_CELL + 10];
  }

  lemma Complement(t: nat) returns (x: Word)
    ensures Multiple(t + x)
  {
    x := (0xFFFF - t % 0xFFFF) % 0xFFFF;
  }

  /** Such packets exist: any packet with a payload becomes one by the choice of a single cell. */
  lemma SomeFieldZero(p: seq<Word>, bytelen: Word) returns (x: Word)
    requires |p| == BUFFER_CELLS && 44 <= bytelen <= 2 * BUFFER_CELLS
    ensures Wrapped(p[UDP_CELL + 4 := x], bytelen)[UDP_CHECKSUM] == 0
  {
    var m := Padded(Measured(p, bytelen));
    TotalChanged(Covered(m), 4, 0);
    x := Complement(Total(Covered(m)[4 := 0]));
    TotalChanged(Covered(m), 4, x);
    CoveredChanged(m, UDP_CELL + 4, x);
    PayloadApart(p, bytelen, x);
    FieldZeroIff(p[UDP_CELL + 4 := x], bytelen);
  }

  // ---------------------------------------------------------------- building a packet

  /** Byte i of the buffer: the upper half of a cell comes first. */
  function ByteAt(p: seq<Word>, i: nat): Word
    requires i < 2 * |p|
  {
    if i % 2 == 0 then p[i / 2] / 0x100 else p[i / 2] % 0x100
  }

  lemma OrByte(cell: Word, c: Word)
    requires cell % 0x100 == 0 && c < 0x100
    ensures Or(cell, c) == cell + c && (cell + c) / 0x100 == cell / 0x100 && (cell + c) % 0x100 == c
  {
    assert Pow2(8) == 0x100 by {
      assert Pow2(4) == 16;
    }
    OrLow(cell, c, 8);
  }

  /** What a sender chooses of the headers of a datagram. */
  datatype Header = Header(toMac: seq<Word>, myMac: seq<Word>, id: Word, fromIp: seq<Word>, toIp: seq<Word>,
                           fromPort: Word, toPort: Word)

  /**
   What the receiver reads from a packet: destination, source and type of the Ethernet frame, version and header length,
   identification, not to be fragmented, time to live and protocol, the addresses and the ports.
   */
  predicate Headed(p: seq<Word>, h: Header) {
    && |p| == 750 && p[0..3] == h.toMac && p[3..6] == h.myMac && p[6] == 0x800
    && p[7] == 0x4500 && p[9] == h.id && p[10] == 0x4000 && p[11] == 0x4011
    && p[13..15] == h.fromIp && p[15..17] == h.toIp && p[17] == h.fromPort && p[18] == h.toPort
  }

  lemma HeadedBy(p: seq<Word>, link: seq<Word>, ip: seq<Word>, ips: seq<Word>, udp: seq<Word>, h: Header)
    requires |p| == 750 && |h.toMac| == |h.myMac| == 3 && |h.fromIp| == |h.toIp| == 2
    requires link == h.toMac + h.myMac + [0x800] && ip == [0x4500, 0, h.id, 0x4000, 0x4011, 0]
    requires ips == h.fromIp + h.toIp && udp == [h.fromPort, h.toPort, 0, 0]
    requires (forall k :: 0 <= k < 7 ==> p[k] == link[k]) && forall k :: 0 <= k < 6 ==> p[7 + k] == ip[k]
    requires (forall k :: 0 <= k < 4 ==> p[13 + k] == ips[k]) && forall k :: 0 <= k < 4 ==> p[17 + k] == udp[k]
    ensures Headed(p, h) && p[8] == p[12] == p[19] == p[20] == 0
  {
    assert p[7 + 0] == ip[0] && p[7 + 1] == ip[1] && p[7 + 2] == ip[2] && p[7 + 3] == ip[3] && p[7 + 4] == ip[4];
    assert p[7 + 5] == ip[5] && p[17 + 0] == udp[0] && p[17 + 1] == udp[1] && p[17 + 2] == udp[2] && p[17 + 3] == udp[3];
    assert p[0..3] == h.toMac && p[3..6] == h.myMac && p[6] == link[6];
    assert p[13 + 0] == ips[0] && p[13 + 1] == ips[1] && p[13 + 2] == ips[2] && p[13 + 3] == ips[3];
  }

  /**
   What the receiver finds: the headers, the lengths, the two sums of section 3.1 of RFC 791 and of RFC 768, each as a
   positive multiple of 65535, and the payload.
   */
  ghost predicate Delivered(p: seq<Word>, h: Header, payload: seq<Word>)
    requires |p| == BUFFER_CELLS && 42 + |payload| <= 2 * BUFFER_CELLS
  {
    Headed(p, h) && AddsUp(p, 8 + |payload|) && Carries(p, payload)
  }

  predicate AddsUp(p: seq<Word>, length: nat)
    requires |p| == BUFFER_CELLS && 17 + CellsFor(length) <= BUFFER_CELLS
  {
    && p[8] == 20 + length && p[19] == length && Total(p[7..17]) > 0 && Multiple(Total(p[7..17]))
    && Multiple(Total(p[17..17 + CellsFor(length)]) + Total(p[13..17]) + 17 + length)
  }

  ghost predicate Carries(p: seq<Word>, payload: seq<Word>)
    requires |p| == BUFFER_CELLS && 42 + |payload| <= 2 * BUFFER_CELLS
  {
    forall i :: 0 <= i < |payload| ==> ByteAt(p, 42 + i) == payload[i] % 0x100
  }

  lemma StillHeaded(p: seq<Word>, q: seq<Word>, h: Header)
    requires Headed(p, h) && |q| == |p| && forall k :: 0 <= k < 21 ==> q[k] == p[k]
    ensures Headed(q, h)
  {
    assert q[0..3] == p[0..3] && q[3..6] == p[3..6] && q[13..15] == p[13..15] && q[15..17] == p[15..17];
  }

  lemma HeadersKept(p: seq<Word>, q: seq<Word>, h: Header)
    requires Headed(p, h) && |q| == |p| && forall k :: 0 <= k < 19 && k != 8 && k != 12 ==> q[k] == p[k]
    ensures Headed(q, h)
  {
    assert q[0..3] == p[0..3] && q[3..6] == p[3..6] && q[13..15] == p[13..15] && q[15..17] == p[15..17];
  }

  lemma HeaderRight(ws: seq<Word>)
    requires Sum(ws) == 0xFFFF
    ensures Total(ws) > 0 && Multiple(Total(ws))
  {
    SumIsTotal(ws);
  }

  lemma SumsRight(p: seq<Word>, bytelen: Word, length: Word, q: seq<Word>)
    requires |p| == BUFFER_CELLS && 42 <= bytelen <= 2 * BUFFER_CELLS && q == Wrapped(p, bytelen) && p[12] == p[20] == 0
    requires length == bytelen - 34
    ensures AddsUp(q, length)
  {
    WrappedChecks(p, bytelen);
    HeaderRight(q[7..17]);
    RightSum(q, length);
  }

  lemma PayloadKept(p: seq<Word>, bytelen: Word, q: seq<Word>, payload: seq<Word>)
    requires |p| == BUFFER_CELLS && 42 + |payload| == bytelen <= 2 * BUFFER_CELLS && q == Wrapped(p, bytelen)
    requires Carries(p, payload)
    ensures |q| == |p| && Carries(q, payload)
  {
    forall i | 0 <= i < |payload|
      ensures ByteAt(q, 42 + i) == payload[i] % 0x100
    {
      WrappedKeeps(p, bytelen, 42 + i);
    }
  }

  lemma ClosedIsDelivered(p: seq<Word>, bytelen: Word, q: seq<Word>, h: Header, payload: seq<Word>)
    requires |p| == BUFFER_CELLS && 42 + |payload| == bytelen <= 2 * BUFFER_CELLS && q == Wrapped(p, bytelen)
    requires Headed(p, h) && p[12] == p[20] == 0
    requires Carries(p, payload)
    ensures Delivered(q, h, payload)
  {
    assert Headed(q, h) by {
      WrappedHeaders(p, bytelen, q);
      HeadersKept(p, q, h);
    }
    SumsRight(p, bytelen, 8 + |payload|, q);
    PayloadKept(p, bytelen, q, payload);
  }

  class Packet {
    const outgoing: array<Word>
    var writer: nat

    /** A cell of which only the first byte has been written has zero in the other. */
    ghost predicate Valid()
      reads this, outgoing
    {
      && outgoing.Length == BUFFER_CELLS && writer <= 2 * BUFFER_CELLS
      && (writer % 2 == 1 ==> outgoing[writer / 2] % 0x100 == 0)
    }

    constructor ()
      ensures Valid() && writer == 0 && fresh(outgoing)
    {
      outgoing := new Word[BUFFER_CELLS](_ => 0);
      writer := 0;
    }

    /** enc-pkt-, */
    method Cell(w: Word)
      requires Valid() && writer % 2 == 0 && writer < 2 * BUFFER_CELLS
      modifies this`writer, outgoing
      ensures Valid() && writer == old(writer) + 2 && outgoing[..] == old(outgoing[..])[old(writer) / 2 := w]
    {
      outgoing[writer / 2] := w;
      writer := writer + 2;
    }

    method Cells(ws: seq<Word>)
      requires Valid() && writer % 2 == 0 && writer + 2 * |ws| <= 2 * BUFFER_CELLS
      modifies this`writer, outgoing
      ensures Valid() && writer == old(writer) + 2 * |ws|
      ensures outgoing[old(writer) / 2..old(writer) / 2 + |ws|] == ws
      ensures forall k :: 0 <= k < old(writer) / 2 ==> outgoing[k] == old(outgoing[k])
    {
      var i := 0;
      while i < |ws|
        invariant 0 <= i <= |ws| && Valid() && writer == old(writer) + 2 * i
        invariant forall j :: 0 <= j < i ==> outgoing[old(writer) / 2 + j] == ws[j]
        invariant forall k :: 0 <= k < old(writer) / 2 ==> outgoing[k] == old(outgoing[k])
      {
        Cell(ws[i]);
        i := i + 1;
      }
    }

    /** enc-pkt-c, puts a byte into the upper half of a new cell or below the one that is there. */
    method Byte(n: Word)
      requires Valid() && writer < 2 * BUFFER_CELLS
      modifies this`writer, outgoing
      ensures Valid() && writer == old(writer) + 1 && ByteAt(outgoing[..], old(writer)) == n % 0x100
      ensures forall i :: 0 <= i < old(writer) ==> ByteAt(outgoing[..], i) == old(ByteAt(outgoing[..], i))
      ensures forall k :: 0 <= k < old(writer) / 2 ==> outgoing[k] == old(outgoing[k])
    {
      var c := n % 0x100;
      if writer % 2 == 1 {
        OrByte(outgoing[writer / 2], c);
        outgoing[writer / 2] := Or(outgoing[writer / 2], c);
      } else {
        outgoing[writer / 2] := 0x100 * c;
      }
      writer := writer + 1;
    }

    /** udp-header, with the header words it builds on: lengths and checksums are zero. */
    method UdpHeader(toMac: seq<Word>, myMac: seq<Word>, id: Word, fromIp: seq<Word>, toIp: seq<Word>,
                     fromPort: Word, toPort: Word)
      requires Valid() && |toMac| == |myMac| == 3 && |fromIp| == |toIp| == 2
      modifies this`writer, outgoing
      ensures Valid() && writer == 42 && Headed(outgoing[..], Header(toMac, myMac, id, fromIp, toIp, fromPort, toPort))
      ensures outgoing[8] == outgoing[12] == outgoing[19] == outgoing[20] == 0
    {
      writer := 0;
      var link := toMac + myMac + [0x800];
      Cells(link);
      var ip: seq<Word> := [0x4500, 0, id, 0x4000, 0x4000 + PROTO_UDP, 0];
      Cells(ip);
      var ips := fromIp + toIp;
      Cells(ips);
      ghost var before := outgoing[..17];
      assert forall k :: 0 <= k < 7 ==> before[k] == link[k];
      assert forall k :: 0 <= k < 6 ==> before[7 + k] == ip[k];
      assert forall k :: 0 <= k < 4 ==> before[13 + k] == ips[k];
      var udp: seq<Word> := [fromPort, toPort, 0, 0];
      Cells(udp);
      assert outgoing[..17] == before;
      assert forall k :: 0 <= k < 4 ==> outgoing[17..21][k] == udp[k];
      HeadedBy(outgoing[..], link, ip, ips, udp, Header(toMac, myMac, id, fromIp, toIp, fromPort, toPort));
    }

    /** A whole datagram: whatever the payload, the receiver's test finds nothing wrong with it. */
    method Send(toMac: seq<Word>, myMac: seq<Word>, id: Word, fromIp: seq<Word>, toIp: seq<Word>,
                fromPort: Word, toPort: Word, payload: seq<Word>) returns (check: Word)
      requires Valid() && |toMac| == |myMac| == 3 && |fromIp| == |toIp| == 2
      requires 42 + |payload| <= 2 * BUFFER_CELLS
      modifies this`writer, outgoing
      ensures check == 0
      ensures Delivered(outgoing[..], Header(toMac, myMac, id, fromIp, toIp, fromPort, toPort), payload)
    {
      UdpHeader(toMac, myMac, id, fromIp, toIp, fromPort, toPort);
      ghost var before := outgoing[..];
      Payload(payload);
      ghost var p, h := outgoing[..], Header(toMac, myMac, id, fromIp, toIp, fromPort, toPort);
      StillHeaded(before, p, h);
      check := Close();
      ClosedIsDelivered(p, writer, outgoing[..], h, payload);
    }

    method Payload(payload: seq<Word>)
      requires Valid() && writer == 42
      requires 42 + |payload| <= 2 * BUFFER_CELLS
      modifies this`writer, outgoing
      ensures Valid() && writer == 42 + |payload| && forall k :: 0 <= k < 21 ==> outgoing[k] == old(outgoing[k])
      ensures Carries(outgoing[..], payload)
    {
      var i := 0;
      while i < |payload|
        invariant 0 <= i <= |payload| && Valid() && writer == 42 + i
        invariant forall k :: 0 <= k < 21 ==> outgoing[k] == old(outgoing[k])
        invariant forall j :: 0 <= j < i ==> ByteAt(outgoing[..], 42 + j) == payload[j] % 0x100
      {
        Byte(payload[i]);
        i := i + 1;
      }
    }

    /** udp-wrapup, and then the test that the receiver makes. */
    method Close() returns (check: Word)
      requires Valid() && 42 <= writer && outgoing[IP_CHECKSUM] == outgoing[UDP_CHECKSUM] == 0
      modifies outgoing
      ensures check == 0 && outgoing[..] == Wrapped(old(outgoing[..]), writer)
    {
      ghost var p := outgoing[..];
      WrappedChecks(p, writer);
      UdpWrapup(outgoing, writer);
      ghost var q := outgoing[..];
      check := UdpChecksum(outgoing);
      assert outgoing[..] == q;
    }
  }

  /** Of the headers the wrap-up changes the lengths and checksums only. */
  lemma WrappedHeaders(p: seq<Word>, bytelen: Word, q: seq<Word>)
    requires |p| == BUFFER_CELLS && 42 <= bytelen <= 2 * BUFFER_CELLS && q == Wrapped(p, bytelen)
    ensures |q| == |p| && forall k :: 0 <= k < 19 && k != 8 && k != 12 ==> q[k] == p[k]
  {
  }

  lemma {:induction false} TotalAppend(a: seq<Word>, b: seq<Word>)
    ensures Total(a + b) == Total(a) + Total(b)
  {
    if b == [] {
      assert a + b == a;
    } else {
      assert (a + b)[..|a + b| - 1] == a + b[..|b| - 1];
      TotalAppend(a, b[..|b| - 1]);
    }
  }

  /** The receiver's test says that datagram, addresses, protocol and length add up as RFC 768 demands. */
  lemma RightSum(p: seq<Word>, length: Word)
    requires Fits(p) && Not(Sum(Covered(p))) == 0 && p[19] == length
    ensures Multiple(Total(p[17..17 + CellsFor(length)]) + Total(p[13..17]) + 17 + length)
  {
    var a, b := Datagram(p), p[13..17];
    var tail: seq<Word> := [17, p[19]];
    AcceptedIff(p);
    TotalAppend(a + b, tail);
    TotalAppend(a, b);
    TotalTwo(17, p[19]);
  }

  lemma TotalTwo(x: Word, y: Word)
    ensures Total([x, y]) == x + y
  {
    assert [x, y] == [x] + [y] && [x][..0] == [] && [y][..0] == [];
    TotalAppend([x], [y]);
  }

  /** The wrap-up changes no byte of the payload. */
  lemma WrappedKeeps(p: seq<Word>, bytelen: Word, i: nat)
    requires |p| == BUFFER_CELLS && 42 <= i < bytelen <= 2 * BUFFER_CELLS
    ensures ByteAt(Wrapped(p, bytelen), i) == ByteAt(p, i)
  {
  }
}
