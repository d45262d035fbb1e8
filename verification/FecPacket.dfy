/** The datagram format shared by the sender and the receiver
    (gcs/sender/fec_packet.hpp, gcs/sender/fec_encoder.cpp, gcs/tools/fec_core.py). */
module FecPacket {
  import Crc32

  type Bytes = seq<bv8>

  const MAGIC: nat := 0x31544741
  const TYPE_DATA: nat := 0
  const TYPE_PARITY: nat := 1
  const HEADER_LEN: nat := 21
  const MAX_PAYLOAD: nat := 1200

  /** The header fields a receiver looks at, the sequence number, and the payload. */
  datatype Packet = Packet(ptype: nat, seqNo: nat, lane: nat, laneGroup: nat, groupSeq: nat, groupSize: nat,
                           payload: Bytes)
  {
    predicate Fits() {
      && ptype < 0x100 && seqNo < 0x1_0000_0000 && lane < 0x100 && laneGroup < 0x1_0000
      && groupSeq < 0x100 && groupSize < 0x100 && |payload| < 0x1_0000
    }
  }

  /** What the receiver makes of a datagram. */
  datatype Arrival =
    | TooShort
    | Corrupt
    | Accepted(ptype: nat, lane: nat, laneGroup: nat, groupSeq: nat, groupSize: nat, payload: Bytes)

  // ---------- Little-endian fields

  function ToLE(n: nat, k: nat): (b: Bytes)
    ensures |b| == k
    decreases k
  {
    if k == 0 then [] else [LowByte(n)] + ToLE(n / 256, k - 1)
  }

  function LowByte(n: nat): bv8 {
    (n % 256) as bv8
  }

  function FromLE(b: Bytes): nat
    decreases b
  {
    if b == [] then 0 else NatOfByte(b[0]) + 256 * FromLE(b[1..])
  }

  function NatOfByte(b: bv8): (n: nat)
    ensures n < 256
  {
    b as int
  }

  function Range(k: nat): (r: nat)
    decreases k
  {
    if k == 0 then 1 else 256 * Range(k - 1)
  }

  lemma ByteRoundTrip(n: nat)
    requires n < 256
    ensures NatOfByte(n as bv8) == n
  {
  }

  lemma {:induction false} LERoundTrip(n: nat, k: nat)
    requires n < Range(k)
    ensures FromLE(ToLE(n, k)) == n
    decreases k
  {
    if k > 0 {
      ByteRoundTrip(n % 256);
      var b := ToLE(n, k);
      assert b[1..] == ToLE(n / 256, k - 1);
      LERoundTrip(n / 256, k - 1);
    }
  }

  lemma {:induction false} LEBound(b: Bytes)
    ensures FromLE(b) < Range(|b|)
  {
    if b != [] {
      LEBound(b[1..]);
    }
  }

  /** The four little-endian bytes of a checksum. */
  function CrcBytes(c: bv32): (b: Bytes)
    ensures |b| == 4
  {
    [(c & 0xFF) as bv8, ((c >> 8) & 0xFF) as bv8, ((c >> 16) & 0xFF) as bv8, ((c >> 24) & 0xFF) as bv8]
  }

  lemma CrcBytesInjective(c: bv32, d: bv32)
    requires CrcBytes(c) == CrcBytes(d)
    ensures c == d
  {
    var b, e := CrcBytes(c), CrcBytes(d);
    assert b[0] == e[0] && b[1] == e[1] && b[2] == e[2] && b[3] == e[3];
    SameBytes(c, d);
  }

  lemma SameBytes(c: bv32, d: bv32)
    requires (c & 0xFF) as bv8 == (d & 0xFF) as bv8
    requires ((c >> 8) & 0xFF) as bv8 == ((d >> 8) & 0xFF) as bv8
    requires ((c >> 16) & 0xFF) as bv8 == ((d >> 16) & 0xFF) as bv8
    requires ((c >> 24) & 0xFF) as bv8 == ((d >> 24) & 0xFF) as bv8
    ensures c == d
  {
  }

  // ---------- The datagram

  function Header(p: Packet): (h: Bytes)
    ensures |h| == HEADER_LEN
  {
    ToLE(MAGIC, 4) + ToLE(p.ptype, 1) + ToLE(p.seqNo, 4) + ToLE(p.lane, 1) + ToLE(p.laneGroup, 2) +
    ToLE(p.groupSeq, 1) + ToLE(p.groupSize, 1) + ToLE(1, 1) + ToLE(|p.payload|, 2) +
    CrcBytes(Crc32.Checksum(p.payload))
  }

  /** The packed header followed by the payload. */
  function Datagram(p: Packet): (raw: Bytes) {
    Header(p) + p.payload
  }

  /** The payload: as many bytes behind the header as it states, or as there are. */
  function PayloadOf(raw: Bytes): Bytes
    requires |raw| >= HEADER_LEN
  {
    var end := HEADER_LEN + FromLE(raw[15..17]);
    raw[HEADER_LEN..if end <= |raw| then end else |raw|]
  }

  /** The receiver's reading of a datagram: length, magic number and checksum decide. */
  function Parse(raw: Bytes): Arrival {
    if |raw| < HEADER_LEN then TooShort
    else
      var payload := PayloadOf(raw);
      if FromLE(raw[0..4]) != MAGIC || CrcBytes(Crc32.Checksum(payload)) != raw[17..21] then Corrupt
      else Accepted(FromLE(raw[4..5]), FromLE(raw[9..10]), FromLE(raw[10..12]), FromLE(raw[12..13]),
                    FromLE(raw[13..14]), payload)
  }

  lemma HeaderFields(p: Packet)
    ensures var h := Header(p);
            && h[0..4] == ToLE(MAGIC, 4) && h[4..5] == ToLE(p.ptype, 1) && h[5..9] == ToLE(p.seqNo, 4)
            && h[9..10] == ToLE(p.lane, 1) && h[14..15] == ToLE(1, 1)
            && h[10..12] == ToLE(p.laneGroup, 2) && h[12..13] == ToLE(p.groupSeq, 1)
            && h[13..14] == ToLE(p.groupSize, 1) && h[15..17] == ToLE(|p.payload|, 2)
            && h[17..21] == CrcBytes(Crc32.Checksum(p.payload))
  {
    hide ToLE, CrcBytes, Crc32.Checksum;
  }

  lemma Ranges()
    ensures Range(1) == 0x100 && Range(2) == 0x1_0000 && Range(4) == 0x1_0000_0000
  {
    assert Range(1) == 256 * Range(0);
    assert Range(2) == 256 * Range(1);
    assert Range(3) == 256 * Range(2);
    assert Range(4) == 256 * Range(3);
  }

  /** MAIN: the receiver reads back exactly the fields and the payload that were packed. */
  lemma ParseDatagram(p: Packet)
    requires p.Fits()
    ensures Parse(Datagram(p)) == Accepted(p.ptype, p.lane, p.laneGroup, p.groupSeq, p.groupSize, p.payload)
  {
    hide ToLE, FromLE, CrcBytes, Crc32.Checksum, Header, Range;
    var raw := Datagram(p);
    var h := Header(p);
    HeaderFields(p);
    Ranges();
    assert forall i, j {:trigger raw[i..j]} :: 0 <= i <= j <= HEADER_LEN ==> raw[i..j] == h[i..j];
    LERoundTrip(MAGIC, 4);
    LERoundTrip(p.ptype, 1);
    LERoundTrip(p.lane, 1);
    LERoundTrip(p.laneGroup, 2);
    LERoundTrip(p.groupSeq, 1);
    LERoundTrip(p.groupSize, 1);
    LERoundTrip(|p.payload|, 2);
    assert PayloadOf(raw) == p.payload;
  }

  /** Every accepted datagram's fields are in the ranges of their header widths. */
  lemma AcceptedInRange(raw: Bytes)
    requires Parse(raw).Accepted?
    ensures Parse(raw).groupSeq < 0x100 && Parse(raw).groupSize < 0x100 && Parse(raw).laneGroup < 0x1_0000
  {
    hide FromLE, CrcBytes, Crc32.Checksum, Range;
    Ranges();
    LEBound(raw[12..13]);
    LEBound(raw[13..14]);
    LEBound(raw[10..12]);
  }

  /** A payload corrupted inside four consecutive bytes is never accepted under the header
      that was sent. */
  lemma CorruptionRejected(p: Packet, payload: Bytes, i: nat)
    requires p.Fits() && |payload| == |p.payload| && payload != p.payload
    requires forall k :: 0 <= k < |payload| && !(i <= k < i + 4) ==> payload[k] == p.payload[k]
    ensures Parse(Header(p) + payload) == Corrupt
  {
    hide ToLE, FromLE, CrcBytes, Crc32.Checksum, Header, Range;
    var raw := Header(p) + payload;
    var h := Header(p);
    HeaderFields(p);
    Ranges();
    assert forall i, j {:trigger raw[i..j]} :: 0 <= i <= j <= HEADER_LEN ==> raw[i..j] == h[i..j];
    LERoundTrip(|p.payload|, 2);
    assert PayloadOf(raw) == payload;
    Crc32.FourByteWindowDetected(payload, p.payload, i);
    if CrcBytes(Crc32.Checksum(payload)) == raw[17..21] {
      CrcBytesInjective(Crc32.Checksum(payload), Crc32.Checksum(p.payload));
    }
  }

  // ---------- The bytes on the wire

  /** The first four bytes of every datagram, "AGT1". */
  const MAGIC_BYTES: Bytes := [0x41, 0x47, 0x54, 0x31]

  lemma MagicLE()
    ensures ToLE(MAGIC, 4) == MAGIC_BYTES
  {
    FourBytes(MAGIC);
    MagicDigits();
    hide LowByte, ToLE;
  }

  lemma MagicDigits()
    ensures LowByte(MAGIC) == 0x41 && LowByte(MAGIC / 256) == 0x47
    ensures LowByte(MAGIC / 256 / 256) == 0x54 && LowByte(MAGIC / 256 / 256 / 256) == 0x31
  {
    assert MAGIC / 256 == 0x315447 && MAGIC / 256 / 256 == 0x3154 && MAGIC / 256 / 256 / 256 == 0x31;
  }

  lemma TwoBytes(n: nat)
    ensures ToLE(n, 1) == [LowByte(n)]
    ensures ToLE(n, 2) == [LowByte(n), LowByte(n / 256)]
  {
    hide LowByte;
    assert ToLE(n / 256, 1) == [LowByte(n / 256)] + ToLE(n / 256 / 256, 0);
    assert ToLE(n, 1) == [LowByte(n)] + ToLE(n / 256, 0);
  }

  lemma FourBytes(n: nat)
    ensures ToLE(n, 4) == [LowByte(n), LowByte(n / 256), LowByte(n / 256 / 256), LowByte(n / 256 / 256 / 256)]
  {
    hide LowByte;
    TwoBytes(n / 256 / 256);
    assert ToLE(n, 4) == [LowByte(n)] + ToLE(n / 256, 3);
    assert ToLE(n / 256, 3) == [LowByte(n / 256)] + ToLE(n / 256 / 256, 2);
  }

  /** Where each field is: magic number, type, sequence number, lane, group, index, group size,
      one parity per group, length, checksum, all little-endian, and then the payload. */
  lemma HeaderLayout(p: Packet)
    requires p.Fits()
    ensures var raw := Datagram(p);
            && raw[..4] == MAGIC_BYTES && raw[4] == LowByte(p.ptype)
            && raw[5..9] == [LowByte(p.seqNo), LowByte(p.seqNo / 256), LowByte(p.seqNo / 256 / 256),
                             LowByte(p.seqNo / 256 / 256 / 256)]
            && raw[9] == LowByte(p.lane) && raw[10..12] == [LowByte(p.laneGroup), LowByte(p.laneGroup / 256)]
            && raw[12] == LowByte(p.groupSeq) && raw[13] == LowByte(p.groupSize) && raw[14] == LowByte(1)
            && raw[15..17] == [LowByte(|p.payload|), LowByte(|p.payload| / 256)]
            && raw[17..21] == CrcBytes(Crc32.Checksum(p.payload)) && raw[21..] == p.payload
  {
    hide ToLE, CrcBytes, Crc32.Checksum, LowByte, Header;
    var raw := Datagram(p);
    var h := Header(p);
    HeaderFields(p);
    assert forall i, j {:trigger raw[i..j]} :: 0 <= i <= j <= HEADER_LEN ==> raw[i..j] == h[i..j];
    assert raw[..4] == raw[0..4];
    assert raw[4] == raw[4..5][0] && raw[9] == raw[9..10][0] && raw[12] == raw[12..13][0] && raw[13] == raw[13..14][0]
      && raw[14] == raw[14..15][0];
    MagicLE();
    FourBytes(p.seqNo);
    TwoBytes(p.ptype);
    TwoBytes(p.lane);
    TwoBytes(p.laneGroup);
    TwoBytes(p.groupSeq);
    TwoBytes(p.groupSize);
    TwoBytes(1);
    TwoBytes(|p.payload|);
  }

  function Value(low: bv8, high: bv8): nat {
    NatOfByte(low) + 256 * NatOfByte(high)
  }

  lemma FromTwo(b: Bytes)
    requires |b| == 2
    ensures FromLE(b) == Value(b[0], b[1])
  {
    hide NatOfByte;
    FromOne(b[1..]);
  }

  lemma FromOne(b: Bytes)
    requires |b| == 1
    ensures FromLE(b) == NatOfByte(b[0])
  {
    assert b[1..] == [];
  }

  lemma {:induction false} FromLEInjective(a: Bytes, b: Bytes)
    requires |a| == |b| && FromLE(a) == FromLE(b)
    ensures a == b
    decreases a
  {
    hide NatOfByte;
    if a != [] {
      assert NatOfByte(a[0]) == NatOfByte(b[0]) && FromLE(a[1..]) == FromLE(b[1..]);
      ByteOfNat(a[0], b[0]);
      FromLEInjective(a[1..], b[1..]);
      assert a == [a[0]] + a[1..] && b == [b[0]] + b[1..];
    }
  }

  lemma ByteOfNat(a: bv8, b: bv8)
    requires NatOfByte(a) == NatOfByte(b)
    ensures a == b
  {
  }

  /** MAIN: a datagram is accepted if and only if it is as long as the header, starts with the
      magic bytes, and carries the checksum of its payload, which is what follows the header up
      to the stated length; the fields are the bytes at their places. */
  lemma AcceptedExactly(raw: Bytes)
    ensures Parse(raw).TooShort? <==> |raw| < 21
    ensures |raw| >= 21 ==>
              var stated := Value(raw[15], raw[16]);
              var payload := if stated <= |raw| - 21 then raw[21..21 + stated] else raw[21..];
              && (Parse(raw).Accepted? <==> raw[..4] == MAGIC_BYTES && raw[17..21] == CrcBytes(Crc32.Checksum(payload)))
              && (Parse(raw).Accepted? ==>
                    Parse(raw) == Accepted(NatOfByte(raw[4]), NatOfByte(raw[9]), Value(raw[10], raw[11]), NatOfByte(raw[12]),
                                           NatOfByte(raw[13]), payload))
  {
    hide ToLE, FromLE, CrcBytes, Crc32.Checksum, NatOfByte, Range;
    if |raw| >= 21 {
      FromTwo(raw[15..17]);
      FromTwo(raw[10..12]);
      FromOne(raw[4..5]);
      FromOne(raw[9..10]);
      FromOne(raw[12..13]);
      FromOne(raw[13..14]);
      MagicLE();
      Ranges();
      LERoundTrip(MAGIC, 4);
      var stated := Value(raw[15], raw[16]);
      assert PayloadOf(raw) == if stated <= |raw| - 21 then raw[21..21 + stated] else raw[21..];
      assert raw[0..4] == raw[..4] && FromLE(MAGIC_BYTES) == MAGIC;
      if FromLE(raw[..4]) == MAGIC {
        FromLEInjective(raw[..4], MAGIC_BYTES);
      }
    }
  }
}
