/** The sender: payloads go round robin over the lanes, each lane groups its payloads, and
    one parity packet per completed group waits for the next call
    (gcs/sender/fec_encoder.cpp). */
module FecEncoder {
  import opened FecPacket
  import opened FecParity
  import Crc32
  import opened Quotients

  // ---------- The stream a run should put on the wire

  /** The payloads that fall to one lane, in submission order. */
  function LaneHistory(ps: seq<Bytes>, lane: nat, lanes: nat): seq<Bytes>
    requires lanes > 0
  {
    if ps == [] then []
    else
      var n := |ps| - 1;
      var before := LaneHistory(ps[..n], lane, lanes);
      if n % lanes == lane then before + [ps[n]] else before
  }

  function DataPacket(seqNo: nat, lane: nat, k: nat, size: nat, payload: Bytes): Packet
    requires size > 0
  {
    Packet(TYPE_DATA, seqNo % 0x1_0000_0000, lane, (k / size) % 0x1_0000, k % size, size, payload)
  }

  /** The parity of the group that ends a lane's history. */
  function ParityPacket(seqNo: nat, lane: nat, history: seq<Bytes>, size: nat): Packet
    requires 0 < size <= |history|
  {
    Packet(TYPE_PARITY, seqNo % 0x1_0000_0000, lane, ((|history| - 1) / size) % 0x1_0000, 0, size,
           Parity(history[|history| - size..]))
  }

  predicate EndsGroup(history: seq<Bytes>, size: nat)
    requires size > 0
  {
    |history| > 0 && |history| % size == 0
  }

  /** What one payload puts on the wire: its DATA and, when it completes its group, the
      group's parity directly after it. */
  function Block(ps: seq<Bytes>, seqNo: nat, lanes: nat, size: nat): seq<Packet>
    requires lanes > 0 && size > 0 && ps != []
  {
    var n := |ps| - 1;
    var history := LaneHistory(ps, n % lanes, lanes);
    [DataPacket(seqNo, n % lanes, |history| - 1, size, ps[n])] +
    if EndsGroup(history, size) then
      MultipleReaches(|history|, size);
      [ParityPacket(seqNo + 1, n % lanes, history, size)]
    else []
  }

  /** The packets of a whole run, in wire order. */
  function Wire(ps: seq<Bytes>, lanes: nat, size: nat): seq<Packet>
    requires lanes > 0 && size > 0
  {
    if ps == [] then []
    else
      var before := Wire(ps[..|ps| - 1], lanes, size);
      before + Block(ps, |before|, lanes, size)
  }

  function Datagrams(packets: seq<Packet>): (r: seq<Bytes>)
    ensures |r| == |packets|
  {
    seq(|packets|, i requires 0 <= i < |packets| => Datagram(packets[i]))
  }

  /** The group a lane is still collecting. */
  function OpenGroup(history: seq<Bytes>, size: nat): (r: seq<Bytes>)
    requires size > 0
    ensures |r| == |history| % size
  {
    history[|history| - |history| % size..]
  }

  /** The 16-bit number of that group. */
  function GroupNumber(history: seq<Bytes>, size: nat): nat
    requires size > 0
  {
    (|history| / size) % 0x1_0000
  }

  // ---------- The encoder

  datatype Lane = Lane(groupIndex: nat, pending: seq<Bytes>, maxLen: nat)

  datatype PendingParity = PendingParity(lane: nat, laneGroup: nat, payload: Bytes)

  /** A lane's fields agree with the payloads that fell to it. */
  predicate LaneMatches(lane: Lane, history: seq<Bytes>, size: nat)
    requires size > 0
  {
    && lane.groupIndex == GroupNumber(history, size)
    && lane.pending == OpenGroup(history, size)
    && lane.maxLen == MaxLen(lane.pending)
  }

  predicate LanesMatch(lanes: seq<Lane>, ps: seq<Bytes>, size: nat)
    requires size > 0
  {
    forall i :: 0 <= i < |lanes| ==> LaneMatches(lanes[i], LaneHistory(ps, i, |lanes|), size)
  }

  /** The lane after one more payload: its open group grows or, when complete, restarts. */
  function Advance(lane: Lane, p: Bytes, size: nat): Lane {
    if |lane.pending| + 1 == size then Lane((lane.groupIndex + 1) % 0x1_0000, [], 0)
    else Lane(lane.groupIndex, lane.pending + [p], MaxLen(lane.pending + [p]))
  }

  /** The parity that completing a lane's group queues, if it completes. */
  function Completed(lane: Lane, p: Bytes, laneIdx: nat, size: nat): seq<PendingParity> {
    if |lane.pending| + 1 == size then [PendingParity(laneIdx, lane.groupIndex, Parity(lane.pending + [p]))] else []
  }

  function ParityDatagram(q: PendingParity, seqNo: nat, size: nat): Bytes {
    Datagram(Packet(TYPE_PARITY, seqNo % 0x1_0000_0000, q.lane, q.laneGroup, 0, size, q.payload))
  }

  /** What the front of the parity queue will become on the wire. */
  function QueuedDatagrams(queue: seq<PendingParity>, seqNo: nat, size: nat): seq<Bytes> {
    if queue == [] then [] else [ParityDatagram(queue[0], seqNo, size)]
  }

  class Encoder {
    const groupSize: nat
    var lanes: seq<Lane>
    var pendingParity: seq<PendingParity>
    var nextSeq: nat
    var nextLane: nat
    var sent: seq<Bytes>            // the datagrams handed to the send callback
    ghost var submitted: seq<Bytes> // every payload submitted so far

    ghost predicate Valid()
      reads this
    {
      && 0 < |lanes| < 0x100 && 0 < groupSize < 0x100
      && nextLane == |submitted| % |lanes|
      && nextSeq == |sent| % 0x1_0000_0000
      && |pendingParity| <= 1
      && (forall j :: 0 <= j < |pendingParity| ==> |pendingParity[j].payload| <= MAX_PAYLOAD)
      && LanesMatch(lanes, submitted, groupSize)
      && (forall k :: 0 <= k < |submitted| ==> |submitted[k]| <= MAX_PAYLOAD)
      && Datagrams(Wire(submitted, |lanes|, groupSize)) == sent + QueuedDatagrams(pendingParity, |sent|, groupSize)
    }

    constructor (laneCount: nat, size: nat)
      requires 0 < laneCount < 0x100 && 0 < size < 0x100
      ensures Valid() && submitted == [] && sent == []
      ensures |lanes| == laneCount && groupSize == size
    {
      groupSize := size;
      lanes := seq(laneCount, i => Lane(0, [], 0));
      pendingParity := [];
      nextSeq, nextLane := 0, 0;
      sent := [];
      submitted := [];
    }

    method Emit(ptype: nat, lane: nat, laneGroup: nat, groupSeq: nat, payload: Bytes)
      requires nextSeq == |sent| % 0x1_0000_0000
      modifies this`nextSeq, this`sent
      ensures nextSeq == |sent| % 0x1_0000_0000
      ensures sent == old(sent)
        + [Datagram(Packet(ptype, old(|sent|) % 0x1_0000_0000, lane, laneGroup, groupSeq, groupSize, payload))]
    {
      hide Datagram;
      var buf := Pack(ptype, lane, laneGroup, groupSeq, payload);
      nextSeq := (nextSeq + 1) % 0x1_0000_0000;
      sent := sent + [buf];
    }

    /** Header and payload as emit lays them out, with the table-driven checksum. */
    method Pack(ptype: nat, lane: nat, laneGroup: nat, groupSeq: nat, payload: Bytes) returns (buf: Bytes)
      ensures buf == Datagram(Packet(ptype, nextSeq, lane, laneGroup, groupSeq, groupSize, payload))
    {
      hide Crc32.Checksum, ToLE, CrcBytes;
      var crc := Crc32.Compute(payload);
      buf := ToLE(MAGIC, 4) + ToLE(ptype, 1) + ToLE(nextSeq, 4) + ToLE(lane, 1) + ToLE(laneGroup, 2) +
             ToLE(groupSeq, 1) + ToLE(groupSize, 1) + ToLE(1, 1) + ToLE(|payload|, 2) + CrcBytes(crc) + payload;
    }

    method EmitOnePendingParity()
      requires Valid()
      modifies this`nextSeq, this`sent, this`pendingParity
      ensures Valid() && pendingParity == []
      ensures sent == Datagrams(Wire(submitted, |lanes|, groupSize))
    {
      hide Wire, LanesMatch, Datagram, Datagrams;
      if |pendingParity| == 0 {
        return;
      }
      var p := pendingParity[0];
      pendingParity := pendingParity[1..];
      Emit(TYPE_PARITY, p.lane, p.laneGroup, 0, p.payload);
      assert sent == old(sent) + [ParityDatagram(p, old(|sent|), groupSize)];
    }

    /** The lane after one more payload, and the parity to queue if that completes its group. */
    method PutInLane(lane: Lane, payload: Bytes, laneIdx: nat) returns (lane': Lane, completed: seq<PendingParity>)
      requires lane.maxLen == MaxLen(lane.pending) && |payload| <= MAX_PAYLOAD
      requires forall p :: p in lane.pending ==> |p| <= MAX_PAYLOAD
      ensures lane' == Advance(lane, payload, groupSize) && completed == Completed(lane, payload, laneIdx, groupSize)
      ensures |completed| <= 1 && forall j :: 0 <= j < |completed| ==> |completed[j].payload| <= MAX_PAYLOAD
    {
      hide MaxLen, Parity;
      var pending := lane.pending + [payload];
      var maxLen := if lane.maxLen < |payload| then |payload| else lane.maxLen;
      MaxLenStep(lane.pending, payload);
      completed := [];
      if |pending| == groupSize {
        var parity := BuildParity(pending, maxLen);
        MaxLenAttained(pending, MAX_PAYLOAD);
        completed := [PendingParity(laneIdx, lane.groupIndex, parity)];
        lane' := Lane((lane.groupIndex + 1) % 0x1_0000, [], 0);
      } else {
        lane' := Lane(lane.groupIndex, pending, maxLen);
      }
    }

    /** submit: the packets on the wire, together with a parity still queued, are exactly
        the stream of everything submitted. */
    method Submit(payload: Bytes)
      requires Valid() && |payload| <= MAX_PAYLOAD
      modifies this
      ensures Valid()
      ensures submitted == old(submitted) + [payload]
      ensures |lanes| == old(|lanes|)
      ensures sent <= Datagrams(Wire(submitted, |lanes|, groupSize))
    {
      hide Wire, Datagram, Datagrams, MaxLen, LanesMatch, Parity, QueuedDatagrams, Advance, Completed;
      EmitOnePendingParity();
      ghost var before, lanesBefore, sentBefore := submitted, lanes, sent;
      var laneIdx := nextLane;
      nextLane := (nextLane + 1) % |lanes|;
      RoundRobin(|before|, |lanes|);
      LaneIsShort(lanes, before, laneIdx, groupSize);
      var lane := lanes[laneIdx];
      Emit(TYPE_DATA, laneIdx, lane.groupIndex, |lane.pending|, payload);

      var advanced, completed := PutInLane(lane, payload, laneIdx);
      lanes := lanes[laneIdx := advanced];
      pendingParity := pendingParity + completed;
      assert pendingParity == completed;
      submitted := submitted + [payload];
      LanesAdvance(lanesBefore, before, payload, groupSize);
      StreamGrows(lanesBefore, before, payload, groupSize);
    }

    /** flush: nothing is left queued, so the wire carries the complete stream. */
    method Flush()
      requires Valid()
      modifies this
      ensures Valid() && pendingParity == []
      ensures submitted == old(submitted) && |lanes| == old(|lanes|)
      ensures sent == Datagrams(Wire(submitted, |lanes|, groupSize))
    {
      EmitOnePendingParity();
    }
  }

  predicate AllShort(ps: seq<Bytes>) {
    forall k :: 0 <= k < |ps| ==> |ps[k]| <= MAX_PAYLOAD
  }

  /** A fresh sender that submits all payloads and flushes. */
  method SendAll(ps: seq<Bytes>, laneCount: nat, size: nat) returns (sent: seq<Bytes>)
    requires 0 < laneCount < 0x100 && 0 < size < 0x100 && AllShort(ps)
    ensures sent == Datagrams(Wire(ps, laneCount, size))
  {
    hide *;
    var encoder := new Encoder(laneCount, size);
    for i := 0 to |ps|
      invariant fresh(encoder) && encoder.Valid() && encoder.submitted == ps[..i]
      invariant |encoder.lanes| == laneCount && encoder.groupSize == size
    {
      OneShort(ps, i);
      encoder.Submit(ps[i]);
      assert ps[..i + 1] == ps[..i] + [ps[i]];
    }
    encoder.Flush();
    assert ps[..|ps|] == ps;
    sent := encoder.sent;
  }

  lemma OneShort(ps: seq<Bytes>, i: nat)
    requires AllShort(ps) && i < |ps|
    ensures |ps[i]| <= MAX_PAYLOAD
  {
  }

  /** The nested loops that build a parity payload in a zeroed buffer. */
  method BuildParity(pending: seq<Bytes>, maxLen: nat) returns (parity: Bytes)
    requires maxLen == MaxLen(pending)
    ensures parity == Parity(pending)
  {
    hide Xor, MaxLen, At;
    var buf := new bv8[maxLen](_ => 0);
    for k := 0 to |pending|
      invariant forall i :: 0 <= i < maxLen ==> buf[i] == ParityAt(pending[..k], i)
    {
      var p := pending[k];
      MaxLenBounds(pending, k);
      assert pending[..k + 1][..k] == pending[..k];
      for i := 0 to |p|
        invariant forall j :: 0 <= j < i ==> buf[j] == Xor(ParityAt(pending[..k], j), p[j])
        invariant forall j :: i <= j < maxLen ==> buf[j] == ParityAt(pending[..k], j)
      {
        buf[i] := Xor(buf[i], p[i]);
      }
      forall j | 0 <= j < maxLen
        ensures buf[j] == ParityAt(pending[..k + 1], j)
      {
        AtPadded(p, j);
        XorZero(ParityAt(pending[..k], j));
      }
    }
    assert pending[..|pending|] == pending;
    parity := buf[..];
  }

  // ---------- How the stream grows

  lemma LaneIsShort(lanes: seq<Lane>, ps: seq<Bytes>, i: nat, size: nat)
    requires size > 0 && i < |lanes| && LanesMatch(lanes, ps, size)
    requires forall k :: 0 <= k < |ps| ==> |ps[k]| <= MAX_PAYLOAD
    ensures |lanes[i].pending| < size && lanes[i].maxLen == MaxLen(lanes[i].pending)
    ensures forall p :: p in lanes[i].pending ==> |p| <= MAX_PAYLOAD
  {
    hide MaxLen;
    GroupsAreShort(ps, i, |lanes|);
    assert LaneMatches(lanes[i], LaneHistory(ps, i, |lanes|), size);
  }

  lemma LanesAdvance(lanes: seq<Lane>, ps: seq<Bytes>, p: Bytes, size: nat)
    requires size > 0 && |lanes| > 0 && LanesMatch(lanes, ps, size)
    ensures var i := |ps| % |lanes|;
            LanesMatch(lanes[i := Advance(lanes[i], p, size)], ps + [p], size)
  {
    hide Advance, LaneMatches, LaneHistory;
    var i := |ps| % |lanes|;
    HistoriesGrow(ps, p, |lanes|);
    LaneAdvance(lanes[i], LaneHistory(ps, i, |lanes|), p, size);
    var lanes' := lanes[i := Advance(lanes[i], p, size)];
    forall j | 0 <= j < |lanes'|
      ensures LaneMatches(lanes'[j], LaneHistory(ps + [p], j, |lanes'|), size)
    {
      if j != i {
        assert LaneHistory(ps + [p], j, |lanes|) == LaneHistory(ps, j, |lanes|);
      }
    }
  }

  lemma LaneAdvance(lane: Lane, history: seq<Bytes>, p: Bytes, size: nat)
    requires size > 0 && LaneMatches(lane, history, size)
    ensures LaneMatches(Advance(lane, p, size), history + [p], size)
  {
    hide MaxLen, OpenGroup, GroupNumber;
    GroupGrows(history, p, size);
    MaxLenStep(OpenGroup(history, size), p);
  }

  /** The open group and its number after one more payload. */
  lemma GroupGrows(history: seq<Bytes>, p: Bytes, size: nat)
    requires size > 0
    ensures var open := OpenGroup(history, size); var grown := history + [p];
            if |open| + 1 == size
            then OpenGroup(grown, size) == [] && GroupNumber(grown, size) == (GroupNumber(history, size) + 1) % 0x1_0000
            else OpenGroup(grown, size) == open + [p] && GroupNumber(grown, size) == GroupNumber(history, size)
  {
    hide OpenGroup, EndsGroup;
    LaneAdvances(history, p, size);
    Wraps(|history| / size);
  }

  lemma Wraps(n: nat)
    ensures (n % 0x1_0000 + 1) % 0x1_0000 == (n + 1) % 0x1_0000
  {
  }

  lemma StreamGrows(lanes: seq<Lane>, ps: seq<Bytes>, p: Bytes, size: nat)
    requires size > 0 && |lanes| > 0 && LanesMatch(lanes, ps, size)
    ensures
      var i := |ps| % |lanes|;
      var lane := lanes[i];
      var before := Datagrams(Wire(ps, |lanes|, size));
      Datagrams(Wire(ps + [p], |lanes|, size)) ==
        before
        + [Datagram(Packet(TYPE_DATA, |before| % 0x1_0000_0000, i, lane.groupIndex, |lane.pending|, size, p))]
        + QueuedDatagrams(Completed(lane, p, i, size), |before| + 1, size)
  {
    hide MaxLen, Wire, LaneHistory, OpenGroup, Datagram, Parity;
    var i := |ps| % |lanes|;
    var history := LaneHistory(ps, i, |lanes|);
    var grown := history + [p];
    assert LaneMatches(lanes[i], history, size);
    WireGrows(ps, p, |lanes|, size);
    HistoriesGrow(ps, p, |lanes|);
    assert LaneHistory(ps + [p], i, |lanes|) == grown;
    LaneAdvances(history, p, size);
    var w := Wire(ps, |lanes|, size);
    DatagramsConcat(w, Block(ps + [p], |w|, |lanes|, size));
  }

  lemma DatagramsConcat(a: seq<Packet>, b: seq<Packet>)
    ensures Datagrams(a + b) == Datagrams(a) + Datagrams(b)
  {
    hide Datagram;
  }

  lemma MaxLenStep(ps: seq<Bytes>, p: Bytes)
    ensures MaxLen([]) == 0 && MaxLen(ps + [p]) == if MaxLen(ps) < |p| then |p| else MaxLen(ps)
  {
    assert (ps + [p])[..|ps|] == ps;
  }

  lemma HistoriesGrow(ps: seq<Bytes>, p: Bytes, lanes: nat)
    requires lanes > 0
    ensures forall i :: LaneHistory(ps + [p], i, lanes)
                     == LaneHistory(ps, i, lanes) + if i == |ps| % lanes then [p] else []
  {
    assert (ps + [p])[..|ps|] == ps;
  }

  lemma {:induction false} GroupsAreShort(ps: seq<Bytes>, lane: nat, lanes: nat)
    requires lanes > 0 && forall k :: 0 <= k < |ps| ==> |ps[k]| <= MAX_PAYLOAD
    ensures forall p :: p in LaneHistory(ps, lane, lanes) ==> |p| <= MAX_PAYLOAD
  {
    if ps != [] {
      GroupsAreShort(ps[..|ps| - 1], lane, lanes);
    }
  }

  /** One more payload either extends a lane's open group or completes it. */
  lemma LaneAdvances(history: seq<Bytes>, p: Bytes, size: nat)
    requires size > 0
    ensures var grown := history + [p];
            if |OpenGroup(history, size)| + 1 == size then
              && EndsGroup(grown, size) && |grown| / size == |history| / size + 1
              && OpenGroup(grown, size) == [] && |grown| >= size
              && grown[|grown| - size..] == OpenGroup(history, size) + [p]
            else
              && !EndsGroup(grown, size) && |grown| / size == |history| / size
              && OpenGroup(grown, size) == OpenGroup(history, size) + [p]
  {
    NextQuotient(|history|, size);
    OpenGroupSlices(history, p, |history| % size, size);
  }

  lemma OpenGroupSlices(history: seq<Bytes>, p: Bytes, r: nat, size: nat)
    requires r < size && r <= |history|
    ensures var grown := history + [p];
            && grown[|grown| - (r + 1)..] == history[|history| - r..] + [p]
            && grown[|grown| - 0..] == []
  {
  }

  lemma WireGrows(ps: seq<Bytes>, p: Bytes, lanes: nat, size: nat)
    requires lanes > 0 && size > 0
    ensures Wire(ps + [p], lanes, size)
         == Wire(ps, lanes, size) + Block(ps + [p], |Wire(ps, lanes, size)|, lanes, size)
  {
    assert (ps + [p])[..|ps|] == ps;
  }
}

/** Division facts about groups and round-robin order. */
module Quotients {

  lemma NextQuotient(k: nat, size: nat)
    requires size > 0
    ensures if k % size == size - 1 then (k + 1) % size == 0 && (k + 1) / size == k / size + 1
            else (k + 1) % size == k % size + 1 && (k + 1) / size == k / size
  {
    var q, r := k / size, k % size;
    assert k == q * size + r;
    if r == size - 1 {
      assert k + 1 == (q + 1) * size;
      Unique(k + 1, size, q + 1, 0);
    } else {
      Unique(k + 1, size, q, r + 1);
    }
  }

  lemma Unique(n: nat, size: nat, q: nat, r: nat)
    requires n == q * size + r && r < size
    ensures n / size == q && n % size == r
  {
    var q', r' := n / size, n % size;
    assert n == q' * size + r';
    assert q < q' ==> (q + 1) * size <= q' * size;
    assert q' < q ==> (q' + 1) * size <= q * size;
  }

  /** A quotient is below q exactly when the number is below q groups. */
  lemma QuotientBelow(k: nat, size: nat, q: nat)
    requires size > 0
    ensures k / size < q <==> k < q * size
  {
    var d, r := k / size, k % size;
    assert k == d * size + r;
    assert d < q ==> (d + 1) * size <= q * size;
    assert d >= q ==> d * size >= q * size;
  }

  /** The group of k is g exactly when k lies in group g's range. */
  lemma QuotientIs(k: nat, size: nat, g: nat)
    requires size > 0
    ensures k / size == g <==> g * size <= k < g * size + size
    ensures k / size == g ==> k % size == k - g * size
  {
    QuotientBelow(k, size, g);
    QuotientBelow(k, size, g + 1);
    assert (g + 1) * size == g * size + size;
    assert k == (k / size) * size + k % size;
  }

  lemma QuotientMonotone(a: nat, b: nat, size: nat)
    requires size > 0 && a <= b
    ensures a / size <= b / size
  {
    QuotientBelow(b, size, b / size + 1);
    QuotientBelow(a, size, b / size + 1);
  }

  lemma RoundRobin(n: nat, lanes: nat)
    requires lanes > 0
    ensures (n + 1) % lanes == (n % lanes + 1) % lanes
  {
    NextQuotient(n, lanes);
    Unique(n % lanes + 1, lanes, if n % lanes == lanes - 1 then 1 else 0,
           if n % lanes == lanes - 1 then 0 else n % lanes + 1);
  }

  lemma MultipleReaches(n: nat, size: nat)
    requires size > 0 && n > 0 && n % size == 0
    ensures n >= size
  {
  }
}
