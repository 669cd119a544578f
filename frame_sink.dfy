/**
 * The part of the generic gspca camera layer that the framers talk to: the
 * per-device state they read (`iface`, `pkt_size`, `image_len`,
 * `last_packet_type`) and the frame sink `gspca_frame_add`.
 *
 * The sink itself lives in gspca.c, which is not part of this model. It is
 * abstracted as a log of the segments the driver handed it, plus gspca's
 * own `image_len` and `last_packet_type`, which follow its packet-type
 * rules: a FIRST segment starts a frame, an INTER segment extends it and a
 * LAST segment completes it; after a discarded frame everything is ignored
 * up to the LAST that ends it, and after a LAST everything up to the next
 * FIRST.
 */
module FrameSink {

  import opened Bytes

  /** gspca's `enum gspca_packet_type`. */
  datatype PacketType = Discard | First | Inter | Last

  /** One call of `gspca_frame_add`: the segment tag and the number of bytes handed over. */
  datatype Segment = Segment(tag: PacketType, len: nat)

  /** The sink state that the framers observe and change. */
  datatype Sink = Sink(imageLen: nat, last: PacketType, segments: seq<Segment>)

  /** A frame is being received: its FIRST was accepted and its LAST has not come. */
  predicate Receiving(s: Sink)
  {
    s.last == First || s.last == Inter
  }

  /** Image data is held only while a frame is being received. */
  predicate Coherent(s: Sink)
  {
    s.imageLen > 0 ==> Receiving(s)
  }

  /**
   * `gspca_frame_add(gspca_dev, tag, data, len)` as seen by the framers,
   * with a frame buffer always queued and never overflowing.
   */
  function Add(s: Sink, tag: PacketType, len: nat): (r: Sink)
    // every call is logged, whether or not gspca keeps the data
    ensures r.segments == s.segments + [Segment(tag, len)]
    // a FIRST segment always starts a new frame
    ensures tag == First ==> r.imageLen == len && r.last == First
    // while a frame is being received, INTER extends it and LAST completes it
    ensures Receiving(s) && tag == Inter ==> r.imageLen == s.imageLen + len && r.last == Inter
    ensures Receiving(s) && tag == Last ==> r.imageLen == 0 && r.last == Last
    // a LAST completes a discarded frame too, without delivering it
    ensures s.last == Discard && tag == Last ==> r.imageLen == 0 && r.last == Last
    // outside a frame, anything but a FIRST is ignored
    ensures !Receiving(s) && tag != First && !(s.last == Discard && tag == Last) ==>
      r.imageLen == s.imageLen && r.last == s.last
    // the driver's tags keep the image length tied to a frame being received
    ensures tag != Discard && Coherent(s) ==> Coherent(r)
  {
    var segments := s.segments + [Segment(tag, len)];
    if tag == First then Sink(len, First, segments)
    else if s.last == Discard then
      if tag == Last then Sink(0, Last, segments) else s.(segments := segments)
    else if s.last == Last then s.(segments := segments)
    else if tag == Last then Sink(0, Last, segments)
    else Sink(s.imageLen + len, tag, segments)
  }

  /** `last_packet_type = DISCARD_PACKET`: drop the frame in progress. */
  function MarkDiscard(s: Sink): Sink
  {
    s.(last := Discard)
  }

  /** The segments of the rest of a frame: INTER for each packet but the last, which is LAST. */
  function TailSegments(lens: seq<nat>): (r: seq<Segment>)
    requires |lens| >= 1
    ensures |r| == |lens|
  {
    if |lens| == 1 then [Segment(Last, lens[0])]
    else [Segment(Inter, lens[0])] + TailSegments(lens[1..])
  }

  /**
   * The segments of a whole frame of packets with lengths `lens`: FIRST,
   * then the rest of the frame; a one-packet frame is a single LAST.
   */
  function FrameSegments(lens: seq<nat>): (r: seq<Segment>)
    requires |lens| >= 1
    ensures |r| == |lens|
  {
    if |lens| == 1 then [Segment(Last, lens[0])]
    else [Segment(First, lens[0])] + TailSegments(lens[1..])
  }

  /** Sequence concatenation is associative. */
  lemma AppendAssoc<T>(a: seq<T>, b: seq<T>, c: seq<T>)
    ensures (a + b) + c == a + (b + c)
  {
  }

  /** The embedded `struct gspca_dev`, limited to the fields the driver core uses. */
  class GspcaDev {
    const iface: int
    var pktSize: nat
    var imageLen: nat
    var lastPacketType: PacketType
    var segments: seq<Segment>

    function State(): Sink
      reads this
    {
      Sink(imageLen, lastPacketType, segments)
    }

    /** gspca allocates the device zeroed. */
    constructor (iface: int)
      ensures this.iface == iface && pktSize == 0
      ensures State() == Sink(0, Discard, [])
    {
      this.iface := iface;
      pktSize := 0;
      imageLen := 0;
      lastPacketType := Discard;
      segments := [];
    }

    /** Hand `len` bytes of `data` to the frame sink under segment tag `tag`. */
    method FrameAdd(tag: PacketType, data: seq<byte>, len: nat)
      modifies this
      ensures State() == Add(old(State()), tag, len)
      ensures pktSize == old(pktSize)
    {
      var r := Add(State(), tag, len);
      imageLen, lastPacketType, segments := r.imageLen, r.last, r.segments;
    }
  }
}
