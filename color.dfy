/**
 * `sd_color_pkt_scan`: the color camera sends a JPEG stream over bulk
 * transfers of BULK_SIZE bytes. A transfer shorter than that ends the
 * frame; packet size is the only segmentation signal. A header magic is
 * checked only on the packet that would start a frame.
 */
module ColorFramer {

  import opened Bytes
  import opened FrameSink

  /** Size of each color bulk transfer buffer. */
  const BULK_SIZE := 0x8000

  /** The magic at the head of every color frame, "BBBB". */
  const COLOR_MAGIC: u32 := 0x42424242

  /**
   * `struct kinect2_color_header` (declared in kinect2.h, which is not part
   * of this model) is taken as a sequence word followed by the magic word,
   * the layout of the raw color packet header in libfreenect2.
   */
  const COLOR_MAGIC_OFFSET := 4
  const COLOR_HEADER_SIZE := 8

  /** `0x42424242 == h->magic` for the header at the start of the transfer buffer. */
  predicate HeaderOk(buf: seq<byte>)
    requires |buf| >= COLOR_HEADER_SIZE
  {
    DecodeLE32(buf[COLOR_MAGIC_OFFSET .. COLOR_MAGIC_OFFSET + 4]) == COLOR_MAGIC
  }

  /**
   * The raw word is compared without a byte-order conversion; that is sound
   * on any host because the magic is the same four bytes either way round.
   */
  lemma HeaderOkIsByteOrderFree(buf: seq<byte>)
    requires |buf| >= COLOR_HEADER_SIZE
    ensures HeaderOk(buf) <==> buf[4] == buf[5] == buf[6] == buf[7] == 0x42
  {
    var h := buf[COLOR_MAGIC_OFFSET .. COLOR_MAGIC_OFFSET + 4];
    MatchesEncoding(h, COLOR_MAGIC);
    assert LE32(COLOR_MAGIC) == [0x42, 0x42, 0x42, 0x42];
  }

  /** The segment tag of a packet of `datalen` bytes, chosen from its size alone. */
  function ColorTag(imageLen: nat, datalen: nat): (tag: PacketType)
    // a short transfer ends the frame
    ensures tag == Last <==> datalen != BULK_SIZE
    // a full one starts a frame exactly when no frame is in progress, and continues it otherwise
    ensures tag == First <==> datalen == BULK_SIZE && imageLen == 0
    ensures tag != Discard
  {
    if datalen != BULK_SIZE then Last
    else if imageLen != 0 then Inter
    else First
  }

  /**
   * One call of `sd_color_pkt_scan(gspca_dev, buf, datalen)`: `buf` is the
   * transfer buffer, of which the first `datalen` bytes arrived. The header
   * is read from the buffer whatever `datalen` is, as the code does.
   */
  function ColorScan(s: Sink, buf: seq<byte>, datalen: nat): (r: Sink)
    requires |buf| >= COLOR_HEADER_SIZE
    // a packet that should start a frame but lacks the magic is dropped and nothing changes
    ensures s.imageLen == 0 && !HeaderOk(buf) ==> r == s
    // every other packet is handed to the sink whole, as exactly one segment, whose tag
    // is chosen by size alone: LAST when short, else FIRST outside a frame and INTER inside one
    ensures !(s.imageLen == 0 && !HeaderOk(buf)) ==>
      r.segments == s.segments + [Segment(ColorTag(s.imageLen, datalen), datalen)]
    // the tags keep the image length tied to a frame being received
    ensures Coherent(s) ==> Coherent(r)
    // so, from a coherent sink, a short packet always ends the frame, even one that would start it
    ensures Coherent(s) && datalen != BULK_SIZE && r != s ==> r.last == Last && r.imageLen == 0
    // and a full packet starts a frame when none is in progress and continues it otherwise
    ensures Coherent(s) && datalen == BULK_SIZE && r != s ==>
      r.last == (if s.imageLen == 0 then First else Inter) && r.imageLen == s.imageLen + BULK_SIZE
  {
    if s.imageLen == 0 && !HeaderOk(buf) then s
    else Add(s, ColorTag(s.imageLen, datalen), datalen)
  }

  /** A completed bulk transfer: its buffer and how many bytes arrived. */
  datatype BulkPacket = BulkPacket(buf: seq<byte>, datalen: nat)

  predicate WellFormed(p: BulkPacket)
  {
    |p.buf| >= COLOR_HEADER_SIZE && p.datalen <= |p.buf|
  }

  /** The color framer fed a series of transfers, in delivery order. */
  function ColorRun(s: Sink, pkts: seq<BulkPacket>): Sink
    requires forall i :: 0 <= i < |pkts| ==> WellFormed(pkts[i])
    decreases |pkts|
  {
    if pkts == [] then s
    else
      assert WellFormed(pkts[0]);
      ColorRun(ColorScan(s, pkts[0].buf, pkts[0].datalen), pkts[1..])
  }

  /** Feeding two series one after the other is feeding their concatenation. */
  lemma {:induction false} ColorRunConcat(s: Sink, a: seq<BulkPacket>, b: seq<BulkPacket>)
    requires forall i :: 0 <= i < |a| ==> WellFormed(a[i])
    requires forall i :: 0 <= i < |b| ==> WellFormed(b[i])
    ensures forall i :: 0 <= i < |a + b| ==> WellFormed((a + b)[i])
    ensures ColorRun(s, a + b) == ColorRun(ColorRun(s, a), b)
    decreases |a|
  {
    assert forall i :: 0 <= i < |a + b| ==> (a + b)[i] == if i < |a| then a[i] else b[i - |a|];
    if a != [] {
      assert WellFormed(a[0]);
      var s' := ColorScan(s, a[0].buf, a[0].datalen);
      assert (a + b)[0] == a[0] && (a + b)[1..] == a[1..] + b;
      ColorRunConcat(s', a[1..], b);
    } else {
      assert a + b == b;
    }
  }

  /**
   * While no frame is in progress, packets without the header magic are all
   * dropped: the framer waits, unchanged, for a packet that carries it.
   */
  lemma {:induction false} ColorWaitsForMagic(s: Sink, pkts: seq<BulkPacket>)
    requires s.imageLen == 0
    requires forall i :: 0 <= i < |pkts| ==> WellFormed(pkts[i]) && !HeaderOk(pkts[i].buf)
    ensures ColorRun(s, pkts) == s
    decreases |pkts|
  {
    if pkts != [] {
      ColorWaitsForMagic(s, pkts[1..]);
    }
  }

  /** The lengths of a series of transfers. */
  function Lengths(pkts: seq<BulkPacket>): (lens: seq<nat>)
    ensures |lens| == |pkts|
    ensures forall i :: 0 <= i < |pkts| ==> lens[i] == pkts[i].datalen
  {
    if pkts == [] then [] else [pkts[0].datalen] + Lengths(pkts[1..])
  }

  /**
   * One color frame on the wire: it starts with the header magic, every
   * transfer but the last is full, and the last is short.
   */
  predicate IsColorFrame(pkts: seq<BulkPacket>)
  {
    && |pkts| >= 1
    && (forall i :: 0 <= i < |pkts| ==> WellFormed(pkts[i]))
    && HeaderOk(pkts[0].buf)
    && (forall i :: 0 <= i < |pkts| - 1 ==> pkts[i].datalen == BULK_SIZE)
    && pkts[|pkts| - 1].datalen != BULK_SIZE
  }

  /** Feeding a non-empty series is feeding its first transfer, then the rest. */
  lemma ColorRunCons(s: Sink, pkts: seq<BulkPacket>)
    requires |pkts| >= 1
    requires forall i :: 0 <= i < |pkts| ==> WellFormed(pkts[i])
    ensures WellFormed(pkts[0])
    ensures forall i :: 0 <= i < |pkts| - 1 ==> WellFormed(pkts[1..][i])
    ensures ColorRun(s, pkts) == ColorRun(ColorScan(s, pkts[0].buf, pkts[0].datalen), pkts[1..])
  {
    assert WellFormed(pkts[0]);
    assert forall i :: 0 <= i < |pkts| - 1 ==> pkts[1..][i] == pkts[i + 1];
  }

  /** Inside a frame, full transfers continue it and the short one ends it. */
  lemma {:induction false} ColorTailEmits(s: Sink, pkts: seq<BulkPacket>)
    requires |pkts| >= 1 && s.imageLen > 0 && Receiving(s)
    requires forall i :: 0 <= i < |pkts| ==> WellFormed(pkts[i])
    requires forall i :: 0 <= i < |pkts| - 1 ==> pkts[i].datalen == BULK_SIZE
    requires pkts[|pkts| - 1].datalen != BULK_SIZE
    ensures ColorRun(s, pkts) == Sink(0, Last, s.segments + TailSegments(Lengths(pkts)))
    decreases |pkts|
  {
    ColorRunCons(s, pkts);
    var s' := ColorScan(s, pkts[0].buf, pkts[0].datalen);
    var rest := pkts[1..];
    if |pkts| == 1 {
      assert s' == Add(s, Last, pkts[0].datalen);
      assert TailSegments(Lengths(pkts)) == [Segment(Last, pkts[0].datalen)];
    } else {
      assert s' == Add(s, Inter, BULK_SIZE);
      assert forall i :: 0 <= i < |rest| - 1 ==> rest[i].datalen == BULK_SIZE by {
        forall i | 0 <= i < |rest| - 1 ensures rest[i].datalen == BULK_SIZE {
          assert rest[i] == pkts[i + 1];
        }
      }
      assert rest[|rest| - 1] == pkts[|pkts| - 1];
      ColorTailEmits(s', rest);
      var lens := Lengths(pkts);
      assert lens[1..] == Lengths(rest);
      var head, tail := [Segment(Inter, BULK_SIZE)], TailSegments(Lengths(rest));
      assert TailSegments(lens) == head + tail;
      AppendAssoc(s.segments, head, tail);
    }
  }

  /**
   * A frame fed from a state with no frame in progress is emitted as one
   * FIRST segment, then INTER segments, then one LAST segment (a frame of a
   * single short transfer is one LAST segment), each as long as its
   * transfer; afterwards no frame is in progress again.
   */
  lemma {:induction false} ColorFrameEmits(s: Sink, pkts: seq<BulkPacket>)
    requires s.imageLen == 0 && IsColorFrame(pkts)
    ensures ColorRun(s, pkts) == Sink(0, Last, s.segments + FrameSegments(Lengths(pkts)))
  {
    ColorRunCons(s, pkts);
    var s' := ColorScan(s, pkts[0].buf, pkts[0].datalen);
    var rest := pkts[1..];
    if |pkts| == 1 {
      assert s' == Add(s, Last, pkts[0].datalen);
      assert FrameSegments(Lengths(pkts)) == [Segment(Last, pkts[0].datalen)];
    } else {
      assert s' == Add(s, First, BULK_SIZE);
      assert forall i :: 0 <= i < |rest| - 1 ==> rest[i].datalen == BULK_SIZE by {
        forall i | 0 <= i < |rest| - 1 ensures rest[i].datalen == BULK_SIZE {
          assert rest[i] == pkts[i + 1];
        }
      }
      assert rest[|rest| - 1] == pkts[|pkts| - 1];
      ColorTailEmits(s', rest);
      var lens := Lengths(pkts);
      assert lens[1..] == Lengths(rest);
      var head, tail := [Segment(First, BULK_SIZE)], TailSegments(Lengths(rest));
      assert FrameSegments(lens) == head + tail;
      AppendAssoc(s.segments, head, tail);
    }
  }

  /**
   * Back-to-back frames are emitted back to back: two frames in a row give
   * the segments of the first followed by those of the second.
   */
  lemma ColorFramesInSequence(s: Sink, f1: seq<BulkPacket>, f2: seq<BulkPacket>)
    requires s.imageLen == 0 && IsColorFrame(f1) && IsColorFrame(f2)
    ensures forall i :: 0 <= i < |f1 + f2| ==> WellFormed((f1 + f2)[i])
    ensures ColorRun(s, f1 + f2)
         == Sink(0, Last, s.segments + FrameSegments(Lengths(f1)) + FrameSegments(Lengths(f2)))
  {
    ColorRunConcat(s, f1, f2);
    ColorFrameEmits(s, f1);
    ColorFrameEmits(ColorRun(s, f1), f2);
  }
}
