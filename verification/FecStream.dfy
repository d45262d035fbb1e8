/** What the sender's stream looks like, group by group and position by position. */
module FecStream {
  import opened FecPacket
  import opened FecParity
  import opened FecEncoder
  import opened Quotients
  import opened FecDecoder

  /** Header fields are one or two bytes wide; a run stays below 65536 groups per lane. */
  ghost predicate Sendable(ps: seq<Bytes>, lanes: nat, size: nat) {
    && 0 < lanes < 0x100 && 0 < size < 0x100
    && (forall k :: 0 <= k < |ps| ==> |ps[k]| <= MAX_PAYLOAD)
    && forall lane :: 0 <= lane < lanes ==> |LaneHistory(ps, lane, lanes)| <= 0x1_0000 * size
  }

  lemma SendablePrefix(ps: seq<Bytes>, lanes: nat, size: nat)
    requires Sendable(ps, lanes, size) && ps != []
    ensures Sendable(ps[..|ps| - 1], lanes, size)
  {
    var n := |ps| - 1;
    HistoriesGrow(ps[..n], ps[n], lanes);
    assert ps[..n] + [ps[n]] == ps;
    forall lane | 0 <= lane < lanes
      ensures |LaneHistory(ps[..n], lane, lanes)| <= 0x1_0000 * size
    {
      assert LaneHistory(ps, lane, lanes) == LaneHistory(ps[..n], lane, lanes) + if lane == n % lanes then [ps[n]] else [];
    }
  }

  predicate IsSubmission(ps: seq<Bytes>, i: int, p: Bytes) {
    0 <= i < |ps| && ps[i] == p
  }

  /** Round robin: payload number k of a lane is submission number k * lanes + lane. */
  lemma {:induction false} LaneHistoryIs(ps: seq<Bytes>, lane: nat, lanes: nat)
    requires lane < lanes
    ensures var h := LaneHistory(ps, lane, lanes);
            && |h| == |ps| / lanes + (if lane < |ps| % lanes then 1 else 0)
            && forall k :: 0 <= k < |h| ==> IsSubmission(ps, k * lanes + lane, h[k])
    decreases ps
  {
    if ps == [] {
      Unique(0, lanes, 0, 0);
    } else {
      hide IsSubmission;
      var n := |ps| - 1;
      LaneHistoryIs(ps[..n], lane, lanes);
      NextQuotient(n, lanes);
      var h := LaneHistory(ps[..n], lane, lanes);
      SubmissionsStay(ps, n, h, lane, lanes);
      if n % lanes == lane {
        LastSubmission(ps, n, lane, lanes);
      }
    }
  }

  lemma SubmissionsStay(ps: seq<Bytes>, n: nat, h: seq<Bytes>, lane: nat, lanes: nat)
    requires n <= |ps| && forall k :: 0 <= k < |h| ==> IsSubmission(ps[..n], k * lanes + lane, h[k])
    ensures forall k :: 0 <= k < |h| ==> IsSubmission(ps, k * lanes + lane, h[k])
  {
    forall k | 0 <= k < |h|
      ensures IsSubmission(ps, k * lanes + lane, h[k])
    {
      assert IsSubmission(ps[..n], k * lanes + lane, h[k]);
    }
  }

  lemma LastSubmission(ps: seq<Bytes>, n: nat, lane: nat, lanes: nat)
    requires lanes > 0 && n < |ps| && n % lanes == lane
    ensures IsSubmission(ps, (n / lanes) * lanes + lane, ps[n])
  {
    assert n == (n / lanes) * lanes + lane;
  }

  // ---------- The packets of one group

  /** A packet without its sequence number. */
  datatype Sent = SentData(slot: nat, payload: Bytes) | SentParity(payload: Bytes)

  function KeyOf(p: Packet): Key {
    Key(p.lane, p.laneGroup)
  }

  function Content(p: Packet): Sent {
    if p.ptype == TYPE_DATA then SentData(p.groupSeq, p.payload) else SentParity(p.payload)
  }

  /** The packets of one group among some wire packets, in wire order. */
  function Select(wire: seq<Packet>, key: Key): seq<Sent> {
    if wire == [] then []
    else Select(wire[..|wire| - 1], key) +
         if KeyOf(wire[|wire| - 1]) == key then [Content(wire[|wire| - 1])] else []
  }

  /** At most `size` payloads of a history from position `from` on. */
  function Part(history: seq<Bytes>, from: nat, size: nat): (r: seq<Bytes>)
    ensures |r| <= size
  {
    if |history| <= from then []
    else if |history| < from + size then history[from..]
    else history[from..from + size]
  }

  /** The part of a lane's history that falls to group g. */
  function GroupPart(history: seq<Bytes>, g: nat, size: nat): (r: seq<Bytes>)
    ensures |r| <= size
  {
    Part(history, g * size, size)
  }

  /** DATA 0, 1, 2, ... and, once the group is complete, its parity. */
  function GroupPackets(part: seq<Bytes>, size: nat): seq<Sent> {
    seq(|part|, j requires 0 <= j < |part| => SentData(j, part[j])) +
    if |part| == size then [SentParity(Parity(part))] else []
  }

  lemma {:induction false} SelectConcat(a: seq<Packet>, b: seq<Packet>, key: Key)
    ensures Select(a + b, key) == Select(a, key) + Select(b, key)
    decreases b
  {
    hide Content, KeyOf;
    if b == [] {
      assert a + b == a;
    } else {
      assert (a + b)[..|a + b| - 1] == a + b[..|b| - 1];
      SelectConcat(a, b[..|b| - 1], key);
    }
  }

  lemma SelectBlock(block: seq<Packet>, key: Key)
    requires 1 <= |block| <= 2
    ensures Select(block, key)
         == (if KeyOf(block[0]) == key then [Content(block[0])] else [])
          + if |block| == 2 && KeyOf(block[1]) == key then [Content(block[1])] else []
  {
    hide Content, KeyOf;
    var first := block[..1];
    assert first[..0] == [] && Select([], key) == [];
    assert Select(first, key) == if KeyOf(block[0]) == key then [Content(block[0])] else [];
    if |block| == 1 {
      assert block == first;
    } else {
      assert block[..|block| - 1] == first;
    }
  }

  /** How one more payload changes the parts of a lane. */
  lemma PartGrows(history: seq<Bytes>, p: Bytes, g: nat, size: nat)
    requires size > 0
    ensures var k := |history|; var part := GroupPart(history, g, size); var part' := GroupPart(history + [p], g, size);
            if k / size == g then part' == part + [p] && |part| == k % size
            else part' == part
  {
    QuotientIs(|history|, size, g);
    PartGrowsAt(history, p, g * size, size);
  }

  lemma PartGrowsAt(history: seq<Bytes>, p: Bytes, from: nat, size: nat)
    ensures var k := |history|; var part := Part(history, from, size); var part' := Part(history + [p], from, size);
            if from <= k < from + size then part' == part + [p] && |part| == k - from
            else part' == part
  {
  }

  lemma GroupNumberFits(k: nat, size: nat)
    requires size > 0 && k < 0x1_0000 * size
    ensures (k / size) % 0x1_0000 == k / size
  {
    QuotientBelow(k, size, 0x1_0000);
  }

  /** The parity of a complete group is the parity of its part. */
  lemma PartAtEnd(history: seq<Bytes>, size: nat)
    requires size > 0 && EndsGroup(history, size) && |history| >= size
    ensures GroupPart(history, (|history| - 1) / size, size) == history[|history| - size..]
  {
    var k := |history|;
    NextQuotient(k - 1, size);
    QuotientIs(k - 1, size, (k - 1) / size);
  }

  /** MAIN: every group's packets are DATA 0, 1, ... in order and, once it is complete, one
      PARITY equal to the zero-padded exclusive or of its payloads. */
  lemma {:induction false} StreamOfGroup(ps: seq<Bytes>, lanes: nat, size: nat, key: Key)
    requires Sendable(ps, lanes, size) && key.lane < lanes
    ensures Select(Wire(ps, lanes, size), key)
         == GroupPackets(GroupPart(LaneHistory(ps, key.lane, lanes), key.group, size), size)
    decreases ps
  {
    hide Select, Parity, LaneHistory, Sendable, GroupPart, Wire, GroupPackets;
    PositiveSizes(ps, lanes, size);
    if ps == [] {
      EmptyStream(lanes, size, key);
    } else {
      var n := |ps| - 1;
      var front, p := ps[..n], ps[n];
      assert front + [p] == ps;
      SendablePrefix(ps, lanes, size);
      StreamOfGroup(front, lanes, size, key);
      WireGrows(front, p, lanes, size);
      var w := Wire(front, lanes, size);
      var block := Block(ps, |w|, lanes, size);
      SelectConcat(w, block, key);
      SelectBlock(block, key);
      HistoriesGrow(front, p, lanes);
      var lane := n % lanes;
      var history := LaneHistory(front, lane, lanes);
      assert LaneHistory(ps, lane, lanes) == history + [p];
      LaneBound(ps, lanes, size, lane);
      GroupNumberFits(|history|, size);
      if key.lane == lane {
        PartGrows(history, p, key.group, size);
        NextQuotient(|history|, size);
        if EndsGroup(history + [p], size) {
          PartAtEnd(history + [p], size);
          PartFull(history, p, size);
        }
        BlockAddsToGroup(history, p, key.group, size, |w|, lane, block);
      } else {
        assert LaneHistory(ps, key.lane, lanes) == LaneHistory(front, key.lane, lanes);
        assert KeyOf(block[0]) != key && (|block| == 2 ==> KeyOf(block[1]) != key);
      }
    }
  }

  lemma PositiveSizes(ps: seq<Bytes>, lanes: nat, size: nat)
    requires Sendable(ps, lanes, size)
    ensures 0 < lanes < 0x100 && 0 < size < 0x100
  {
  }

  lemma LaneBound(ps: seq<Bytes>, lanes: nat, size: nat, lane: nat)
    requires Sendable(ps, lanes, size) && lane < lanes
    ensures |LaneHistory(ps, lane, lanes)| <= 0x1_0000 * size
  {
  }

  lemma EmptyStream(lanes: nat, size: nat, key: Key)
    requires lanes > 0 && size > 0
    ensures Select(Wire([], lanes, size), key)
         == GroupPackets(GroupPart(LaneHistory([], key.lane, lanes), key.group, size), size)
  {
    assert LaneHistory([], key.lane, lanes) == [];
    assert GroupPart([], key.group, size) == [];
  }

  lemma PartFull(history: seq<Bytes>, p: Bytes, size: nat)
    requires size > 0 && EndsGroup(history + [p], size) && |history + [p]| >= size
    ensures |GroupPart(history, |history| / size, size)| == size - 1
  {
    PartGrows(history, p, |history| / size, size);
    NextQuotient(|history|, size);
  }

  /** A block's effect on the packets of a group of its lane. */
  lemma BlockAddsToGroup(history: seq<Bytes>, p: Bytes, g: nat, size: nat, seqNo: nat, lane: nat, block: seq<Packet>)
    requires size > 0 && (|history| / size) % 0x1_0000 == |history| / size
    requires var grown := history + [p];
             && (EndsGroup(grown, size) ==> |grown| >= size)
             && block == [DataPacket(seqNo, lane, |history|, size, p)]
                         + (if EndsGroup(grown, size) then [ParityPacket(seqNo + 1, lane, grown, size)] else [])
    ensures var before := GroupPackets(GroupPart(history, g, size), size);
            var after := GroupPackets(GroupPart(history + [p], g, size), size);
            after == before
              + (if KeyOf(block[0]) == Key(lane, g) then [Content(block[0])] else [])
              + if |block| == 2 && KeyOf(block[1]) == Key(lane, g) then [Content(block[1])] else []
  {
    hide Parity, GroupPart;
    PartGrows(history, p, g, size);
    NextQuotient(|history|, size);
    if EndsGroup(history + [p], size) {
      PartAtEnd(history + [p], size);
    }
  }

  // ---------- Positions on the wire

  /** Where payload n's DATA packet is. */
  function DataPos(ps: seq<Bytes>, n: nat, lanes: nat, size: nat): nat
    requires n <= |ps| && lanes > 0 && size > 0
  {
    |Wire(ps[..n], lanes, size)|
  }

  lemma {:induction false} WirePrefix(ps: seq<Bytes>, n: nat, lanes: nat, size: nat)
    requires n <= |ps| && lanes > 0 && size > 0
    ensures Wire(ps[..n], lanes, size) <= Wire(ps, lanes, size)
    decreases |ps|
  {
    hide Block;
    if n == |ps| {
      assert ps[..n] == ps;
    } else {
      var front := ps[..|ps| - 1];
      assert front[..n] == ps[..n];
      WirePrefix(front, n, lanes, size);
    }
  }

  lemma {:induction false} DataPosGap(ps: seq<Bytes>, m: nat, n: nat, lanes: nat, size: nat)
    requires m <= n <= |ps| && lanes > 0 && size > 0
    ensures DataPos(ps, n, lanes, size) >= DataPos(ps, m, lanes, size) + (n - m)
    decreases n
  {
    if m < n {
      assert ps[..n][..n - 1] == ps[..n - 1];
      DataPosGap(ps, m, n - 1, lanes, size);
    }
  }

  ghost predicate Completes(ps: seq<Bytes>, n: nat, lanes: nat, size: nat)
    requires n < |ps| && lanes > 0 && size > 0
  {
    EndsGroup(LaneHistory(ps[..n + 1], n % lanes, lanes), size)
  }

  /** MAIN: a parity is always adjacent to the DATA packet that completed its group: the
      block of payload n is its DATA and, when it completes a group, that group's parity. */
  lemma BlockAt(ps: seq<Bytes>, n: nat, lanes: nat, size: nat)
    requires n < |ps| && lanes > 0 && size > 0
    ensures var wire := Wire(ps, lanes, size); var d := DataPos(ps, n, lanes, size);
            var history := LaneHistory(ps[..n], n % lanes, lanes);
            && d < |wire| && wire[d] == DataPacket(d, n % lanes, |history|, size, ps[n])
            && (if Completes(ps, n, lanes, size) then
                  && |history| + 1 >= size && d + 1 < |wire|
                  && wire[d + 1] == ParityPacket(d + 1, n % lanes, history + [ps[n]], size)
                  && DataPos(ps, n + 1, lanes, size) == d + 2
                else DataPos(ps, n + 1, lanes, size) == d + 1)
  {
    hide Wire, LaneHistory, Parity;
    assert ps[..n + 1] == ps[..n] + [ps[n]];
    WireGrows(ps[..n], ps[n], lanes, size);
    HistoriesGrow(ps[..n], ps[n], lanes);
    assert LaneHistory(ps[..n + 1], n % lanes, lanes) == LaneHistory(ps[..n], n % lanes, lanes) + [ps[n]];
    WirePrefix(ps, n + 1, lanes, size);
    if Completes(ps, n, lanes, size) {
      MultipleReaches(|LaneHistory(ps[..n + 1], n % lanes, lanes)|, size);
    }
  }

  /** Every wire position belongs to exactly one payload's block. */
  lemma {:induction false} Owner(ps: seq<Bytes>, i: nat, lanes: nat, size: nat) returns (n: nat)
    requires lanes > 0 && size > 0 && i < |Wire(ps, lanes, size)|
    ensures n < |ps|
    ensures i == DataPos(ps, n, lanes, size)
         || (i == DataPos(ps, n, lanes, size) + 1 && Completes(ps, n, lanes, size))
    decreases ps
  {
    var last := |ps| - 1;
    var front := ps[..last];
    if i < |Wire(front, lanes, size)| {
      n := Owner(front, i, lanes, size);
      assert front[..n] == ps[..n] && front[..n + 1] == ps[..n + 1];
    } else {
      n := last;
      assert ps[..n + 1] == ps;
      BlockAt(ps, n, lanes, size);
    }
  }

  lemma SameLaneFarApart(m: nat, n: nat, lanes: nat)
    requires lanes > 0 && m < n && m % lanes == n % lanes
    ensures m + lanes <= n
  {
    var a, b := m / lanes, n / lanes;
    assert m == a * lanes + m % lanes && n == b * lanes + n % lanes;
    assert b <= a ==> b * lanes <= a * lanes;
    assert b >= a + 1 ==> b * lanes >= (a + 1) * lanes;
  }

  /** Two DATA packets of one lane are at least `lanes` positions apart on the wire. */
  lemma DataSpacing(ps: seq<Bytes>, i: nat, j: nat, lanes: nat, size: nat)
    requires lanes > 0 && size > 0 && i < j < |Wire(ps, lanes, size)|
    requires Wire(ps, lanes, size)[i].ptype == TYPE_DATA && Wire(ps, lanes, size)[j].ptype == TYPE_DATA
    requires Wire(ps, lanes, size)[i].lane == Wire(ps, lanes, size)[j].lane
    ensures j - i >= lanes
  {
    hide Wire, LaneHistory, Parity;
    var m := Owner(ps, i, lanes, size);
    var n := Owner(ps, j, lanes, size);
    BlockAt(ps, m, lanes, size);
    BlockAt(ps, n, lanes, size);
    if n <= m {
      DataPosGap(ps, n, m, lanes, size);
    }
    SameLaneFarApart(m, n, lanes);
    DataPosGap(ps, m, n, lanes, size);
  }

  /** Wire packets of one lane come in group order. */
  lemma LaneInGroupOrder(ps: seq<Bytes>, i: nat, j: nat, lanes: nat, size: nat)
    requires Sendable(ps, lanes, size) && i <= j < |Wire(ps, lanes, size)|
    requires Wire(ps, lanes, size)[i].lane == Wire(ps, lanes, size)[j].lane
    ensures Wire(ps, lanes, size)[i].laneGroup <= Wire(ps, lanes, size)[j].laneGroup
  {
    hide Wire, Parity, LaneHistory, Completes;
    var m := Owner(ps, i, lanes, size);
    var n := Owner(ps, j, lanes, size);
    BlockAt(ps, m, lanes, size);
    BlockAt(ps, n, lanes, size);
    if n < m {
      DataPosGap(ps, n + 1, m, lanes, size);
    }
    PacketGroup(ps, m, i, lanes, size);
    PacketGroup(ps, n, j, lanes, size);
    HistoryPrefix(ps, m, n, m % lanes, lanes);
    QuotientMonotone(|LaneHistory(ps[..m], m % lanes, lanes)|, |LaneHistory(ps[..n], n % lanes, lanes)|, size);
  }

  /** The group of the packets in payload n's block. */
  lemma PacketGroup(ps: seq<Bytes>, n: nat, i: nat, lanes: nat, size: nat)
    requires Sendable(ps, lanes, size) && n < |ps| && i < |Wire(ps, lanes, size)|
    requires i == DataPos(ps, n, lanes, size)
          || (i == DataPos(ps, n, lanes, size) + 1 && Completes(ps, n, lanes, size))
    ensures Wire(ps, lanes, size)[i].lane == n % lanes
    ensures Wire(ps, lanes, size)[i].laneGroup == |LaneHistory(ps[..n], n % lanes, lanes)| / size
  {
    hide Wire, Parity, LaneHistory;
    BlockAt(ps, n, lanes, size);
    HistoryPrefix(ps, n + 1, |ps|, n % lanes, lanes);
    assert ps[..|ps|] == ps;
    assert ps[..n + 1] == ps[..n] + [ps[n]];
    HistoriesGrow(ps[..n], ps[n], lanes);
    LaneBound(ps, lanes, size, n % lanes);
    GroupNumberFits(|LaneHistory(ps[..n], n % lanes, lanes)|, size);
  }

  lemma {:induction false} HistoryPrefix(ps: seq<Bytes>, m: nat, n: nat, lane: nat, lanes: nat)
    requires m <= n <= |ps| && lanes > 0
    ensures LaneHistory(ps[..m], lane, lanes) <= LaneHistory(ps[..n], lane, lanes)
    decreases n
  {
    if m < n {
      assert ps[..n][..n - 1] == ps[..n - 1];
      HistoryPrefix(ps, m, n - 1, lane, lanes);
    }
  }

  // ---------- Genuineness of every wire packet

  /** The payloads of a group as the receiver should know them; slots not yet filled are
      empty and never on the wire. */
  function GroupOnWire(history: seq<Bytes>, g: nat, size: nat): (r: seq<Bytes>)
    ensures |r| == size
  {
    var part := GroupPart(history, g, size);
    part + seq(size - |part|, _ => [])
  }

  lemma {:induction false} InSelect(wire: seq<Packet>, i: nat)
    requires i < |wire|
    ensures Content(wire[i]) in Select(wire, KeyOf(wire[i]))
    decreases wire
  {
    hide Content, KeyOf;
    if i < |wire| - 1 {
      InSelect(wire[..|wire| - 1], i);
    }
  }

  lemma {:induction false} FromSelect(wire: seq<Packet>, key: Key, s: Sent) returns (i: nat)
    requires s in Select(wire, key)
    ensures i < |wire| && KeyOf(wire[i]) == key && Content(wire[i]) == s
    decreases wire
  {
    hide Content, KeyOf;
    var n := |wire| - 1;
    if s in Select(wire[..n], key) {
      i := FromSelect(wire[..n], key, s);
    } else {
      i := n;
    }
  }

  lemma PacketFits(ps: seq<Bytes>, i: nat, lanes: nat, size: nat)
    requires Sendable(ps, lanes, size) && i < |Wire(ps, lanes, size)|
    ensures var p := Wire(ps, lanes, size)[i];
            p.Fits() && p.lane < lanes && p.groupSize == size && p.ptype in {TYPE_DATA, TYPE_PARITY}
  {
    hide Wire, LaneHistory, MaxLen;
    var n := Owner(ps, i, lanes, size);
    BlockAt(ps, n, lanes, size);
    var history := LaneHistory(ps[..n], n % lanes, lanes);
    GroupsAreShort(ps[..n], n % lanes, lanes);
    if i != DataPos(ps, n, lanes, size) {
      var group := (history + [ps[n]])[|history| + 1 - size..];
      MaxLenAttained(group, MAX_PAYLOAD);
    }
  }

  /** A wire packet's content is what its group says it is. */
  lemma WireContent(ps: seq<Bytes>, i: nat, lanes: nat, size: nat)
    requires Sendable(ps, lanes, size) && i < |Wire(ps, lanes, size)|
    ensures var p := Wire(ps, lanes, size)[i];
            var group := GroupOnWire(LaneHistory(ps, p.lane, lanes), p.laneGroup, size);
            if p.ptype == TYPE_DATA then p.groupSeq < size && p.payload == group[p.groupSeq]
            else p.payload == Parity(group)
  {
    hide Wire, LaneHistory, Parity, Select, GroupPart;
    var wire := Wire(ps, lanes, size);
    var p := wire[i];
    PacketFits(ps, i, lanes, size);
    StreamOfGroup(ps, lanes, size, KeyOf(p));
    InSelect(wire, i);
    var part := GroupPart(LaneHistory(ps, p.lane, lanes), p.laneGroup, size);
    if p.ptype == TYPE_PARITY {
      assert Content(p) == SentParity(Parity(part));
      assert GroupOnWire(LaneHistory(ps, p.lane, lanes), p.laneGroup, size) == part;
    }
  }

  /** Wire packet i carries sequence number i, modulo 2^32. */
  lemma SequenceNumbers(ps: seq<Bytes>, i: nat, lanes: nat, size: nat)
    requires lanes > 0 && size > 0 && i < |Wire(ps, lanes, size)|
    ensures Wire(ps, lanes, size)[i].seqNo == i % 0x1_0000_0000
  {
    hide Wire, LaneHistory, Parity;
    var n := Owner(ps, i, lanes, size);
    BlockAt(ps, n, lanes, size);
  }
}
