/** Cutting JPEG frames out of a byte stream that arrives in chunks (test_cam/fpslog.py). */
module FrameSplitter {
  import opened Wrappers

  type Bytes = seq<bv8>

  const SOI: Bytes := [0xff, 0xd8]
  const EOI: Bytes := [0xff, 0xd9]

  /** buf.find(mark, from): the first occurrence at or after `from`. */
  function Find(buf: Bytes, mark: Bytes, from: nat): (r: Option<nat>)
    ensures r.Some? ==> from <= r.value && MarkAt(buf, mark, r.value)
    ensures r.Some? ==> forall i :: from <= i < r.value ==> !MarkAt(buf, mark, i)
    ensures r.None? ==> forall i :: from <= i ==> !MarkAt(buf, mark, i)
    decreases |buf| - from
  {
    if from + |mark| > |buf| then None
    else if MarkAt(buf, mark, from) then Some(from)
    else Find(buf, mark, from + 1)
  }

  predicate MarkAt(buf: Bytes, mark: Bytes, i: nat) {
    i + |mark| <= |buf| && buf[i..i + |mark|] == mark
  }

  /** The next complete frame: from the first start mark to the first end mark behind it. */
  datatype Cut = NoFrame | Cut(start: nat, end: nat)

  function NextFrame(buf: Bytes): (c: Cut)
    ensures c.Cut? ==> c.start + 4 <= c.end <= |buf|
  {
    var start := Find(buf, SOI, 0);
    if start.None? then NoFrame
    else
      var end := Find(buf, EOI, start.value + 2);
      if end.None? then NoFrame else Cut(start.value, end.value + 2)
  }

  /** One frame with the bytes skipped before it. */
  datatype Frame = Frame(skipped: Bytes, bytes: Bytes)

  datatype Split = Split(frames: seq<Frame>, rest: Bytes)

  /** The greedy scan of a whole buffer. */
  function Scan(buf: Bytes): Split
    decreases |buf|
  {
    match NextFrame(buf)
    case NoFrame => Split([], buf)
    case Cut(start, end) =>
      var more := Scan(buf[end..]);
      Split([Frame(buf[..start], buf[start..end])] + more.frames, more.rest)
  }

  function Concat(chunks: seq<Bytes>): Bytes {
    if chunks == [] then [] else Concat(chunks[..|chunks| - 1]) + chunks[|chunks| - 1]
  }

  /** The reading loop: every chunk is appended, then all complete frames are cut off. */
  method Grab(chunks: seq<Bytes>) returns (frames: seq<Frame>, buf: Bytes)
    ensures Split(frames, buf) == Scan(Concat(chunks))
  {
    hide Scan, Find, NextFrame;
    frames, buf := [], [];
    ScanEmpty();
    for k := 0 to |chunks|
      invariant Split(frames, buf) == Scan(Concat(chunks[..k]))
    {
      assert chunks[..k + 1][..k] == chunks[..k];
      ScanAppend(Concat(chunks[..k]), chunks[k]);
      ghost var done := frames;
      buf := buf + chunks[k];
      ghost var pending := Scan(buf);
      assert frames == done + [];
      ghost var cut: seq<Frame> := [];
      while true
        invariant frames == done + cut
        invariant Split(cut + Scan(buf).frames, Scan(buf).rest) == pending
        decreases |buf|
      {
        ScanUnfolds(buf);
        var start := Find(buf, SOI, 0);
        var from := if start.Some? then start.value + 2 else 1;
        var end := Find(buf, EOI, from);
        NextFrameIs(buf, start, end);
        if start == None || end == None {
          break;
        }
        var frame := Frame(buf[..start.value], buf[start.value..end.value + 2]);
        cut := cut + [frame];
        frames := frames + [frame];
        buf := buf[end.value + 2..];
      }
      assert cut + [] == cut;
    }
    assert chunks[..|chunks|] == chunks;
  }

  lemma ScanEmpty()
    ensures Scan([]) == Split([], []) && Concat([]) == []
  {
  }

  lemma NextFrameIs(buf: Bytes, start: Option<nat>, end: Option<nat>)
    requires start == Find(buf, SOI, 0) && end == Find(buf, EOI, if start.Some? then start.value + 2 else 1)
    ensures NextFrame(buf) == if start.None? || end.None? then NoFrame else Cut(start.value, end.value + 2)
  {
  }

  lemma ScanUnfolds(buf: Bytes)
    ensures var c := NextFrame(buf);
            if c.NoFrame? then Scan(buf) == Split([], buf)
            else
              var more := Scan(buf[c.end..]);
              Scan(buf) == Split([Frame(buf[..c.start], buf[c.start..c.end])] + more.frames, more.rest)
  {
    hide NextFrame;
  }

  // ---------- Streaming equals batch

  lemma {:induction false} FindIs(buf: Bytes, mark: Bytes, from: nat, i: nat)
    requires from <= i && MarkAt(buf, mark, i) && forall j :: from <= j < i ==> !MarkAt(buf, mark, j)
    ensures Find(buf, mark, from) == Some(i)
    decreases i - from
  {
    MarkFits(buf, mark, i);
    if from < i {
      FindIs(buf, mark, from + 1, i);
    }
  }

  lemma MarkStays(buf: Bytes, more: Bytes, mark: Bytes, i: nat)
    requires i + |mark| <= |buf|
    ensures MarkAt(buf + more, mark, i) <==> MarkAt(buf, mark, i)
  {
    assert (buf + more)[i..i + |mark|] == buf[i..i + |mark|];
  }

  /** Bytes that arrive later never change where the next complete frame is. */
  lemma FrameStays(buf: Bytes, more: Bytes)
    requires NextFrame(buf).Cut?
    ensures NextFrame(buf + more) == NextFrame(buf)
  {
    hide Find, MarkAt;
    var start := Find(buf, SOI, 0).value;
    var end := Find(buf, EOI, start + 2).value;
    MarkFits(buf, EOI, end);
    forall j | 0 <= j <= start
      ensures MarkAt(buf + more, SOI, j) <==> MarkAt(buf, SOI, j)
    {
      MarkStays(buf, more, SOI, j);
    }
    forall j | start + 2 <= j <= end
      ensures MarkAt(buf + more, EOI, j) <==> MarkAt(buf, EOI, j)
    {
      MarkStays(buf, more, EOI, j);
    }
    FindIs(buf + more, SOI, 0, start);
    FindIs(buf + more, EOI, start + 2, end);
  }

  lemma MarkFits(buf: Bytes, mark: Bytes, i: nat)
    requires MarkAt(buf, mark, i)
    ensures i + |mark| <= |buf|
  {
  }

  /** MAIN: scanning what is already there and then the leftover with the new bytes is the
      same as scanning everything at once. */
  lemma {:induction false} ScanAppend(buf: Bytes, more: Bytes)
    ensures Scan(buf + more) ==
      Split(Scan(buf).frames + Scan(Scan(buf).rest + more).frames, Scan(Scan(buf).rest + more).rest)
    decreases |buf|
  {
    hide NextFrame;
    match NextFrame(buf) {
      case NoFrame =>
        assert Scan(buf) == Split([], buf);
        assert [] + Scan(buf + more).frames == Scan(buf + more).frames;
      case Cut(start, end) =>
        FrameStays(buf, more);
        CutInRange(buf);
        assert (buf + more)[end..] == buf[end..] + more;
        assert (buf + more)[..start] == buf[..start] && (buf + more)[start..end] == buf[start..end];
        ScanAppend(buf[end..], more);
        var f := [Frame(buf[..start], buf[start..end])];
        var a, b := Scan(buf[end..]).frames, Scan(Scan(buf[end..]).rest + more).frames;
        assert f + (a + b) == (f + a) + b;
    }
  }

  lemma CutInRange(buf: Bytes)
    requires NextFrame(buf).Cut?
    ensures NextFrame(buf).start <= NextFrame(buf).end <= |buf| && NextFrame(buf).end > 0
  {
  }

  /** MAIN: the frames do not depend on how the stream is cut into chunks. */
  lemma ChunkingIrrelevant(chunks: seq<Bytes>, others: seq<Bytes>)
    requires Concat(chunks) == Concat(others)
    ensures Streamed(chunks) == Streamed(others) == Scan(Concat(chunks))
  {
    StreamedIsBatch(chunks);
    StreamedIsBatch(others);
  }

  /** The loop's state after each chunk. */
  function Streamed(chunks: seq<Bytes>): Split {
    if chunks == [] then Split([], [])
    else
      var before := Streamed(chunks[..|chunks| - 1]);
      var now := Scan(before.rest + chunks[|chunks| - 1]);
      Split(before.frames + now.frames, now.rest)
  }

  lemma {:induction false} StreamedIsBatch(chunks: seq<Bytes>)
    ensures Streamed(chunks) == Scan(Concat(chunks))
    decreases chunks
  {
    hide Scan;
    if chunks == [] {
      ScanEmpty();
    } else {
      var n := |chunks| - 1;
      StreamedIsBatch(chunks[..n]);
      ScanAppend(Concat(chunks[..n]), chunks[n]);
    }
  }

  // ---------- What the frames are

  function Rejoined(frames: seq<Frame>): Bytes {
    if frames == [] then [] else frames[0].skipped + frames[0].bytes + Rejoined(frames[1..])
  }

  /** A start mark, the first end mark behind it, and nothing after that. */
  predicate IsFrame(f: Bytes) {
    && |f| >= 4 && MarkAt(f, SOI, 0) && MarkAt(f, EOI, |f| - 2)
    && forall i :: 2 <= i < |f| - 2 ==> !MarkAt(f, EOI, i)
  }

  /** No start mark in the bytes skipped before a frame, not even across its border. */
  predicate NothingMissed(f: Frame) {
    forall i :: 0 <= i < |f.skipped| ==> !MarkAt(f.skipped + f.bytes, SOI, i)
  }

  lemma FrameShape(buf: Bytes)
    requires NextFrame(buf).Cut?
    ensures var c := NextFrame(buf);
            IsFrame(buf[c.start..c.end]) && NothingMissed(Frame(buf[..c.start], buf[c.start..c.end]))
  {
    hide Find;
    var c := NextFrame(buf);
    var f := buf[c.start..c.end];
    MarkInside(buf, SOI, c.start, c.end, c.start);
    MarkInside(buf, EOI, c.start, c.end, c.end - 2);
    forall i | 2 <= i < |f| - 2
      ensures !MarkAt(f, EOI, i)
    {
      MarkInside(buf, EOI, c.start, c.end, c.start + i);
    }
    assert buf[..c.start] + f == buf[0..c.end];
    forall i | 0 <= i < c.start
      ensures !MarkAt(buf[..c.start] + f, SOI, i)
    {
      MarkInside(buf, SOI, 0, c.end, i);
    }
  }

  lemma MarkInside(buf: Bytes, mark: Bytes, a: nat, b: nat, i: nat)
    requires a <= i && i + |mark| <= b <= |buf|
    ensures MarkAt(buf[a..b], mark, i - a) <==> MarkAt(buf, mark, i)
  {
    var s := buf[a..b];
    var d := i - a;
    var inner, outer := s[d..d + |mark|], buf[i..i + |mark|];
    forall k | 0 <= k < |mark|
      ensures inner[k] == outer[k]
    {
      assert inner[k] == s[d + k];
    }
    assert inner == outer;
  }

  /** MAIN: skipped bytes, frames and leftover concatenate to the input, and the leftover
      holds no complete frame. */
  lemma {:induction false} NothingLost(buf: Bytes)
    ensures Rejoined(Scan(buf).frames) + Scan(buf).rest == buf
    ensures NextFrame(Scan(buf).rest).NoFrame?
    decreases |buf|
  {
    assert Rejoined([]) == [];
    hide NextFrame, Rejoined;
    match NextFrame(buf) {
      case NoFrame =>
      case Cut(start, end) =>
        CutInRange(buf);
        NothingLost(buf[end..]);
        RejoinFirst(Frame(buf[..start], buf[start..end]), Scan(buf[end..]).frames);
        Reassemble(buf, start, end, Rejoined(Scan(buf[end..]).frames), Scan(buf[end..]).rest);
    }
  }

  lemma Reassemble(buf: Bytes, start: nat, end: nat, tail: Bytes, rest: Bytes)
    requires start <= end <= |buf| && tail + rest == buf[end..]
    ensures buf[..start] + buf[start..end] + tail + rest == buf
  {
    assert buf[..start] + buf[start..end] + tail + rest == buf[..start] + buf[start..end] + (tail + rest);
  }

  lemma RejoinFirst(f: Frame, fs: seq<Frame>)
    ensures Rejoined([f] + fs) == f.skipped + f.bytes + Rejoined(fs)
  {
    assert ([f] + fs)[1..] == fs;
  }

  /** MAIN: every frame runs from a start mark to the first end mark behind it, and no start
      mark is missed before it. */
  lemma {:induction false} FramesExact(buf: Bytes, i: nat)
    requires i < |Scan(buf).frames|
    ensures IsFrame(Scan(buf).frames[i].bytes) && NothingMissed(Scan(buf).frames[i])
    decreases |buf|
  {
    hide NextFrame, IsFrame, NothingMissed;
    var c := NextFrame(buf);
    CutInRange(buf);
    if i == 0 {
      FrameShape(buf);
    } else {
      FramesExact(buf[c.end..], i - 1);
    }
  }

  /** The first two and the last two bytes of every frame. */
  lemma FrameEnds(buf: Bytes, i: nat)
    requires i < |Scan(buf).frames|
    ensures var f := Scan(buf).frames[i].bytes;
            |f| >= 4 && f[0] == 0xff && f[1] == 0xd8 && f[|f| - 2] == 0xff && f[|f| - 1] == 0xd9
  {
    hide Scan;
    FramesExact(buf, i);
    var f := Scan(buf).frames[i].bytes;
    assert f[0..2] == [0xff, 0xd8] && f[|f| - 2..|f| - 2 + 2] == [0xff, 0xd9];
    assert f[0] == f[0..2][0] && f[1] == f[0..2][1];
    assert f[|f| - 2] == f[|f| - 2..|f|][0] && f[|f| - 1] == f[|f| - 2..|f|][1];
  }
}
