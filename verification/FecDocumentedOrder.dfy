/** The emission order that gcs/sender/fec_encoder.hpp describes - each call sends its DATA
    first and then a parity queued by an earlier call, and flush sends what is left - for
    contrast with the order the program has. */
module FecDocumentedOrder {
  import opened FecPacket
  import opened FecParity
  import opened FecEncoder
  import opened FecStream
  import opened Quotients

  /** The parity of the group that payload n completes. */
  function ParityOf(ps: seq<Bytes>, n: nat, seqNo: nat, lanes: nat, size: nat): seq<Packet>
    requires n < |ps| && lanes > 0 && size > 0
  {
    var history := LaneHistory(ps[..n + 1], n % lanes, lanes);
    if EndsGroup(history, size) then
      MultipleReaches(|history|, size);
      [ParityPacket(seqNo, n % lanes, history, size)]
    else []
  }

  /** The documented stream: DATA n, then the parity that payload n - 1 queued. */
  function DocumentedWire(ps: seq<Bytes>, lanes: nat, size: nat): seq<Packet>
    requires lanes > 0 && size > 0
  {
    if ps == [] then []
    else
      var n := |ps| - 1;
      var before := DocumentedWire(ps[..n], lanes, size);
      before + [DataPacket(|before|, n % lanes, |LaneHistory(ps[..n], n % lanes, lanes)|, size, ps[n])] +
      if n > 0 then ParityOf(ps, n - 1, |before| + 1, lanes, size) else []
  }

  lemma {:induction false} DocumentedPrefix(ps: seq<Bytes>, n: nat, lanes: nat, size: nat)
    requires n <= |ps| && lanes > 0 && size > 0
    ensures DocumentedWire(ps[..n], lanes, size) <= DocumentedWire(ps, lanes, size)
    decreases |ps|
  {
    hide ParityOf, DataPacket;
    if n == |ps| {
      assert ps[..n] == ps;
    } else {
      var front := ps[..|ps| - 1];
      assert front[..n] == ps[..n];
      DocumentedPrefix(front, n, lanes, size);
    }
  }

  lemma DocumentedStep(ps: seq<Bytes>, n: nat, lanes: nat, size: nat)
    requires n < |ps| && lanes > 0 && size > 0
    ensures var w, w' := DocumentedWire(ps[..n], lanes, size), DocumentedWire(ps[..n + 1], lanes, size);
            w' == w + [DataPacket(|w|, n % lanes, |LaneHistory(ps[..n], n % lanes, lanes)|, size, ps[n])]
                    + if n > 0 then ParityOf(ps, n - 1, |w| + 1, lanes, size) else []
  {
    hide DataPacket, LaneHistory;
    var front := ps[..n + 1];
    assert front[..n] == ps[..n] && front[n] == ps[n];
    if n > 0 {
      assert front[..n - 1 + 1] == ps[..n - 1 + 1];
      assert ParityOf(front, n - 1, |DocumentedWire(ps[..n], lanes, size)| + 1, lanes, size)
          == ParityOf(ps, n - 1, |DocumentedWire(ps[..n], lanes, size)| + 1, lanes, size);
    }
  }

  /** The documented stream of a whole run: flush sends the parity that the last payload
      queued. */
  function DocumentedRun(ps: seq<Bytes>, lanes: nat, size: nat): seq<Packet>
    requires lanes > 0 && size > 0
  {
    var wire := DocumentedWire(ps, lanes, size);
    wire + if ps != [] then ParityOf(ps, |ps| - 1, |wire|, lanes, size) else []
  }

  /** How far the parity of the group that payload n completes is behind it in the documented
      order: its DATA itself, the parity that the payload before it queued, and the DATA of
      the call that sends it - which flush does not have. */
  ghost function DocumentedGap(ps: seq<Bytes>, n: nat, lanes: nat, size: nat): nat
    requires lanes > 0 && size > 0 && n < |ps|
  {
    1 + (if n > 0 && Completes(ps, n - 1, lanes, size) then 1 else 0) + if n + 1 < |ps| then 1 else 0
  }

  lemma ParityOfLength(ps: seq<Bytes>, n: nat, seqNo: nat, lanes: nat, size: nat)
    requires n < |ps| && lanes > 0 && size > 0
    ensures |ParityOf(ps, n, seqNo, lanes, size)| == if Completes(ps, n, lanes, size) then 1 else 0
  {
    hide LaneHistory, ParityPacket;
  }

  /** MAIN: where every group's last DATA and parity are, in the documented order and in the
      program's.  In the documented order a two-packet burst takes both of a group only if the
      last payload of all completes it and the payload before that completes none; in the
      program's order they are adjacent for every group. */
  lemma TwoPacketBursts(ps: seq<Bytes>, n: nat, lanes: nat, size: nat)
    requires lanes > 0 && size > 0 && n < |ps| && Completes(ps, n, lanes, size)
    ensures var wire := DocumentedRun(ps, lanes, size); var d := |DocumentedWire(ps[..n], lanes, size)|;
            var q := d + DocumentedGap(ps, n, lanes, size); var history := LaneHistory(ps[..n + 1], n % lanes, lanes);
            && |history| >= size && q < |wire|
            && wire[d] == DataPacket(d, n % lanes, |LaneHistory(ps[..n], n % lanes, lanes)|, size, ps[n])
            && wire[q] == ParityPacket(q, n % lanes, history, size)
    ensures DocumentedGap(ps, n, lanes, size) == 1
            <==> n + 1 == |ps| && (n == 0 || !Completes(ps, n - 1, lanes, size))
    ensures var wire := Wire(ps, lanes, size); var d := DataPos(ps, n, lanes, size);
            var history := LaneHistory(ps[..n + 1], n % lanes, lanes);
            && |history| >= size
            && d + 1 < |wire| && wire[d] == DataPacket(d, n % lanes, |LaneHistory(ps[..n], n % lanes, lanes)|, size, ps[n])
            && wire[d + 1] == ParityPacket(d + 1, n % lanes, history, size)
  {
    hide DocumentedWire, DocumentedRun, Wire, LaneHistory, Parity, DataPacket, ParityPacket, Completes, ParityOf;
    var history := LaneHistory(ps[..n + 1], n % lanes, lanes);
    CompletesIs(ps, n, lanes, size);
    MultipleReaches(|history|, size);
    DocumentedPositions(ps, n, lanes, size);
    BlockAt(ps, n, lanes, size);
    assert ps[..n + 1] == ps[..n] + [ps[n]];
    HistoriesGrow(ps[..n], ps[n], lanes);
  }

  lemma CompletesIs(ps: seq<Bytes>, n: nat, lanes: nat, size: nat)
    requires lanes > 0 && size > 0 && n < |ps|
    ensures Completes(ps, n, lanes, size) <==> EndsGroup(LaneHistory(ps[..n + 1], n % lanes, lanes), size)
  {
  }

  lemma DocumentedPositions(ps: seq<Bytes>, n: nat, lanes: nat, size: nat)
    requires lanes > 0 && size > 0 && n < |ps| && Completes(ps, n, lanes, size)
    requires |LaneHistory(ps[..n + 1], n % lanes, lanes)| >= size
    ensures var wire := DocumentedRun(ps, lanes, size); var d := |DocumentedWire(ps[..n], lanes, size)|;
            var q := d + DocumentedGap(ps, n, lanes, size);
            && q < |wire|
            && wire[d] == DataPacket(d, n % lanes, |LaneHistory(ps[..n], n % lanes, lanes)|, size, ps[n])
            && wire[q] == ParityPacket(q, n % lanes, LaneHistory(ps[..n + 1], n % lanes, lanes), size)
  {
    hide DocumentedWire, LaneHistory, DataPacket, ParityPacket, Completes;
    CompletesIs(ps, n, lanes, size);
    var w := DocumentedWire(ps[..n + 1], lanes, size);
    DocumentedStep(ps, n, lanes, size);
    if n > 0 {
      ParityOfLength(ps, n - 1, |DocumentedWire(ps[..n], lanes, size)| + 1, lanes, size);
    }
    DocumentedPrefix(ps, n + 1, lanes, size);
    if n + 1 < |ps| {
      DocumentedStep(ps, n + 1, lanes, size);
      DocumentedPrefix(ps, n + 2, lanes, size);
      var wire := DocumentedWire(ps, lanes, size);
      assert wire[|w| + 1] == ParityPacket(|w| + 1, n % lanes, LaneHistory(ps[..n + 1], n % lanes, lanes), size);
    } else {
      assert ps[..n + 1] == ps;
    }
  }
}
