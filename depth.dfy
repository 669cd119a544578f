/**
 * `sd_depth_pkt_scan`: the depth camera sends isochronous packets. A packet
 * of the nominal size `pkt_size` carries only image data; any other packet
 * ends with a footer giving a marker word, the expected image length and a
 * sub-sequence number, 9 marking the last packet of a frame. The framer is
 * a two-state machine: unsynced, it waits for a sub-sequence-9 footer;
 * synced, it hands packets to the frame sink, and any malformed footer
 * throws it back to unsynced.
 */
module DepthFramer {

  import opened Bytes
  import opened FrameSink

  /**
   * `struct kinect2_depth_footer` is declared in kinect2.h, which is not part
   * of this model. Its layout is taken from libfreenect2's depth sub-packet
   * footer: the words magic0, magic1, timestamp, sequence, subsequence,
   * length, then 32 more words.
   */
  const FOOTER_SIZE := 4 * (6 + 32)
  const MAGIC0_WORD := 0
  const SUBSEQUENCE_WORD := 4
  const LENGTH_WORD := 5

  /** `KINECT2_DEPTH_IMAGE_SIZE` from kinect2.h; no proof here depends on its value. */
  const DEPTH_IMAGE_SIZE: u32

  /** The sub-sequence number of the last packet of a depth frame. */
  const LAST_SUBSEQUENCE: u32 := 9

  /** The footer fields the framer looks at. */
  datatype Footer = Footer(magic0: u32, subsequence: u32, length: u32)

  /** The footer in the last FOOTER_SIZE bytes of a packet: `data + datalen - sizeof(*f)`. */
  function ReadFooter(data: seq<byte>): Footer
    requires |data| >= FOOTER_SIZE
  {
    var f := data[|data| - FOOTER_SIZE ..];
    Footer(WordAt(f, MAGIC0_WORD), WordAt(f, SUBSEQUENCE_WORD), WordAt(f, LENGTH_WORD))
  }

  /** A footer that passes both checks: a zero marker and the expected image length. */
  predicate FooterOk(f: Footer)
  {
    f.magic0 == 0 && f.length == DEPTH_IMAGE_SIZE
  }

  /** The framer's state: the `synced` flag of the session and the sink it feeds. */
  datatype DepthState = DepthState(synced: bool, sink: Sink)

  /** The code reads a footer from every packet that is not of the nominal size. */
  predicate Readable(pktSize: nat, data: seq<byte>)
  {
    |data| != pktSize ==> |data| >= FOOTER_SIZE
  }

  /** The `discard:` label: drop the frame in progress and lose synchronisation. */
  function DiscardFrame(st: DepthState): DepthState
  {
    DepthState(false, MarkDiscard(st.sink))
  }

  /** One call of `sd_depth_pkt_scan(gspca_dev, data, |data|)` with nominal packet size `pktSize`. */
  function DepthScan(st: DepthState, pktSize: nat, data: seq<byte>): (r: DepthState)
    requires Readable(pktSize, data)
    // at most one segment is appended, holding the whole packet, and only while synced
    ensures r.sink.segments == st.sink.segments
         || (&& st.synced && r.synced
             && |r.sink.segments| == |st.sink.segments| + 1
             && r.sink.segments[..|st.sink.segments|] == st.sink.segments
             && r.sink.segments[|st.sink.segments|].len == |data|
             && r.sink.segments[|st.sink.segments|].tag != Discard)
    // a packet that loses synchronisation marks the frame in progress discarded
    ensures st.synced && !r.synced ==> r.sink == MarkDiscard(st.sink)
    // the length of the frame in progress changes only through an appended segment
    ensures r.sink.segments == st.sink.segments ==> r.sink.imageLen == st.sink.imageLen
  {
    if |data| != pktSize then
      var f := ReadFooter(data);
      if f.magic0 != 0 then DiscardFrame(st)
      else if f.length != DEPTH_IMAGE_SIZE then DiscardFrame(st)
      else if st.synced then
        DepthState(true, Add(st.sink, if f.subsequence == LAST_SUBSEQUENCE then Last else Inter, |data|))
      else if f.subsequence == LAST_SUBSEQUENCE then DepthState(true, st.sink)
      else st
    else if st.synced then
      DepthState(true, Add(st.sink, if st.sink.imageLen == 0 then First else Inter, |data|))
    else DiscardFrame(st)
  }

  /**
   * A footer packet whose marker is not zero or whose length is wrong leaves
   * the framer unsynced with the frame discarded, whatever state it was in,
   * and the packet is not appended.
   */
  lemma BadFooterForcesUnsynced(st: DepthState, pktSize: nat, data: seq<byte>)
    requires |data| != pktSize && |data| >= FOOTER_SIZE
    requires !FooterOk(ReadFooter(data))
    ensures DepthScan(st, pktSize, data) == DepthState(false, st.sink.(last := Discard))
  {
  }

  /**
   * Unsynced, a valid footer packet is never appended; it syncs the framer
   * exactly when its sub-sequence is 9, and otherwise changes nothing at all.
   */
  lemma UnsyncedFooterOnlyResyncs(st: DepthState, pktSize: nat, data: seq<byte>)
    requires !st.synced && |data| != pktSize && |data| >= FOOTER_SIZE
    requires FooterOk(ReadFooter(data))
    ensures DepthScan(st, pktSize, data).sink == st.sink
    ensures DepthScan(st, pktSize, data).synced <==> ReadFooter(data).subsequence == LAST_SUBSEQUENCE
    ensures ReadFooter(data).subsequence != LAST_SUBSEQUENCE ==> DepthScan(st, pktSize, data) == st
  {
  }

  /** Unsynced, a nominal-size packet is discarded. */
  lemma UnsyncedNominalDiscards(st: DepthState, pktSize: nat, data: seq<byte>)
    requires !st.synced && |data| == pktSize
    ensures DepthScan(st, pktSize, data) == DepthState(false, st.sink.(last := Discard))
  {
  }

  /** Synced, a valid footer packet is appended whole, footer included: LAST iff sub-sequence 9, else INTER. */
  lemma SyncedFooterAppends(st: DepthState, pktSize: nat, data: seq<byte>)
    requires st.synced && |data| != pktSize && |data| >= FOOTER_SIZE
    requires FooterOk(ReadFooter(data))
    ensures var r := DepthScan(st, pktSize, data);
      && r.synced
      && r.sink.segments == st.sink.segments
           + [Segment(if ReadFooter(data).subsequence == LAST_SUBSEQUENCE then Last else Inter, |data|)]
  {
  }

  /** Synced, a nominal-size packet is appended: FIRST when no frame is in progress, else INTER. */
  lemma SyncedNominalAppends(st: DepthState, pktSize: nat, data: seq<byte>)
    requires st.synced && |data| == pktSize
    ensures var r := DepthScan(st, pktSize, data);
      && r.synced
      && r.sink.segments == st.sink.segments
           + [Segment(if st.sink.imageLen == 0 then First else Inter, |data|)]
  {
  }

  /** The depth framer fed a series of packets, in delivery order. */
  function DepthRun(st: DepthState, pktSize: nat, pkts: seq<seq<byte>>): DepthState
    requires forall i :: 0 <= i < |pkts| ==> Readable(pktSize, pkts[i])
    decreases |pkts|
  {
    if pkts == [] then st
    else
      assert Readable(pktSize, pkts[0]);
      DepthRun(DepthScan(st, pktSize, pkts[0]), pktSize, pkts[1..])
  }

  /** Feeding a non-empty series is feeding its first packet, then the rest. */
  lemma DepthRunCons(st: DepthState, pktSize: nat, pkts: seq<seq<byte>>)
    requires |pkts| >= 1
    requires forall i :: 0 <= i < |pkts| ==> Readable(pktSize, pkts[i])
    ensures DepthRun(st, pktSize, pkts) == DepthRun(DepthScan(st, pktSize, pkts[0]), pktSize, pkts[1..])
  {
  }

  /** A series is readable when its first packet and the rest are. */
  lemma ReadableCons(pktSize: nat, pkts: seq<seq<byte>>)
    requires |pkts| >= 1 && Readable(pktSize, pkts[0])
    requires forall i :: 0 <= i < |pkts| - 1 ==> Readable(pktSize, pkts[1..][i])
    ensures forall i :: 0 <= i < |pkts| ==> Readable(pktSize, pkts[i])
  {
    forall i | 1 <= i < |pkts| ensures Readable(pktSize, pkts[i]) {
      assert pkts[i] == pkts[1..][i - 1];
    }
  }

  /** A packet that resynchronises an unsynced framer: a valid footer with sub-sequence 9. */
  predicate IsAnchor(pktSize: nat, data: seq<byte>)
  {
    && |data| != pktSize && |data| >= FOOTER_SIZE
    && FooterOk(ReadFooter(data))
    && ReadFooter(data).subsequence == LAST_SUBSEQUENCE
  }

  /**
   * Unsynced, the framer appends nothing and stays unsynced until a
   * resynchronising packet arrives, whatever else it is fed.
   */
  lemma {:induction false} UnsyncedAppendsNothing(st: DepthState, pktSize: nat, pkts: seq<seq<byte>>)
    requires !st.synced
    requires forall i :: 0 <= i < |pkts| ==> Readable(pktSize, pkts[i]) && !IsAnchor(pktSize, pkts[i])
    ensures !DepthRun(st, pktSize, pkts).synced
    ensures DepthRun(st, pktSize, pkts).sink.segments == st.sink.segments
    ensures DepthRun(st, pktSize, pkts).sink.imageLen == st.sink.imageLen
    decreases |pkts|
  {
    if pkts != [] {
      assert Readable(pktSize, pkts[0]) && !IsAnchor(pktSize, pkts[0]);
      UnsyncedAppendsNothing(DepthScan(st, pktSize, pkts[0]), pktSize, pkts[1..]);
    }
  }

  /**
   * From unsynced, any packets other than a resynchronising one followed by
   * one that is leave the framer synced, with nothing appended: the anchor
   * packet itself is not emitted.
   */
  lemma Resync(st: DepthState, pktSize: nat, noise: seq<seq<byte>>, anchor: seq<byte>)
    requires !st.synced
    requires forall i :: 0 <= i < |noise| ==> Readable(pktSize, noise[i]) && !IsAnchor(pktSize, noise[i])
    requires IsAnchor(pktSize, anchor)
    ensures forall i :: 0 <= i < |noise + [anchor]| ==> Readable(pktSize, (noise + [anchor])[i])
    ensures DepthRun(st, pktSize, noise + [anchor]).synced
    ensures DepthRun(st, pktSize, noise + [anchor]).sink.segments == st.sink.segments
    ensures DepthRun(st, pktSize, noise + [anchor]).sink.imageLen == st.sink.imageLen
  {
    var pkts := noise + [anchor];
    assert forall i :: 0 <= i < |pkts| ==> pkts[i] == if i < |noise| then noise[i] else anchor;
    DepthRunConcat(st, pktSize, noise, [anchor]);
    UnsyncedAppendsNothing(st, pktSize, noise);
  }

  /** Feeding two series one after the other is feeding their concatenation. */
  lemma {:induction false} DepthRunConcat(st: DepthState, pktSize: nat, a: seq<seq<byte>>, b: seq<seq<byte>>)
    requires forall i :: 0 <= i < |a| ==> Readable(pktSize, a[i])
    requires forall i :: 0 <= i < |b| ==> Readable(pktSize, b[i])
    ensures forall i :: 0 <= i < |a + b| ==> Readable(pktSize, (a + b)[i])
    ensures DepthRun(st, pktSize, a + b) == DepthRun(DepthRun(st, pktSize, a), pktSize, b)
    decreases |a|
  {
    assert forall i :: 0 <= i < |a + b| ==> (a + b)[i] == if i < |a| then a[i] else b[i - |a|];
    if a != [] {
      assert Readable(pktSize, a[0]);
      assert (a + b)[0] == a[0] && (a + b)[1..] == a[1..] + b;
      DepthRunConcat(DepthScan(st, pktSize, a[0]), pktSize, a[1..], b);
    } else {
      assert a + b == b;
    }
  }

  /** A packet inside a depth frame: nominal, or a valid footer with a sub-sequence other than 9. */
  predicate IsInner(pktSize: nat, data: seq<byte>)
  {
    || |data| == pktSize
    || (&& |data| >= FOOTER_SIZE
        && FooterOk(ReadFooter(data))
        && ReadFooter(data).subsequence != LAST_SUBSEQUENCE)
  }

  /**
   * One depth frame on the wire: a nominal packet first, then inner
   * packets, and a resynchronising (sub-sequence 9) packet last.
   */
  predicate IsDepthFrame(pktSize: nat, pkts: seq<seq<byte>>)
  {
    && |pkts| >= 2
    && |pkts[0]| == pktSize
    && (forall i :: 1 <= i < |pkts| - 1 ==> IsInner(pktSize, pkts[i]))
    && IsAnchor(pktSize, pkts[|pkts| - 1])
  }

  /** The lengths of a series of packets. */
  function Lengths(pkts: seq<seq<byte>>): (lens: seq<nat>)
    ensures |lens| == |pkts|
    ensures forall i :: 0 <= i < |pkts| ==> lens[i] == |pkts[i]|
  {
    if pkts == [] then [] else [|pkts[0]|] + Lengths(pkts[1..])
  }

  /** Synced, a nominal-size packet is appended: FIRST with no frame in progress, INTER inside one. */
  lemma NominalStep(st: DepthState, pktSize: nat, data: seq<byte>)
    requires st.synced && |data| == pktSize
    ensures Readable(pktSize, data)
    ensures DepthScan(st, pktSize, data)
         == DepthState(true, Add(st.sink, if st.sink.imageLen == 0 then First else Inter, |data|))
  {
  }

  /** Synced inside a frame, an inner packet is appended as INTER. */
  lemma InnerStep(st: DepthState, pktSize: nat, data: seq<byte>)
    requires st.synced && st.sink.imageLen > 0 && IsInner(pktSize, data)
    ensures Readable(pktSize, data)
    ensures DepthScan(st, pktSize, data) == DepthState(true, Add(st.sink, Inter, |data|))
  {
  }

  /** Synced, a resynchronising packet is appended as LAST. */
  lemma AnchorStep(st: DepthState, pktSize: nat, data: seq<byte>)
    requires st.synced && IsAnchor(pktSize, data)
    ensures Readable(pktSize, data)
    ensures DepthScan(st, pktSize, data) == DepthState(true, Add(st.sink, Last, |data|))
  {
  }

  /**
   * Synced inside a frame, inner packets are INTER and the anchor is LAST;
   * whether the sink was receiving that frame or had discarded it, the
   * anchor leaves it with no frame in progress.
   */
  lemma {:induction false} TailEmits(st: DepthState, pktSize: nat, pkts: seq<seq<byte>>)
    requires st.synced && st.sink.imageLen > 0 && st.sink.last != Last
    requires |pkts| >= 1
    requires forall i :: 0 <= i < |pkts| - 1 ==> IsInner(pktSize, pkts[i])
    requires IsAnchor(pktSize, pkts[|pkts| - 1])
    ensures forall i :: 0 <= i < |pkts| ==> Readable(pktSize, pkts[i])
    ensures DepthRun(st, pktSize, pkts)
         == DepthState(true, Sink(0, Last, st.sink.segments + TailSegments(Lengths(pkts))))
    decreases |pkts|
  {
    if |pkts| == 1 {
      AnchorStep(st, pktSize, pkts[0]);
      assert DepthRun(st, pktSize, pkts) == DepthScan(st, pktSize, pkts[0]);
      assert TailSegments(Lengths(pkts)) == [Segment(Last, |pkts[0]|)];
      assert Add(st.sink, Last, |pkts[0]|) == Sink(0, Last, st.sink.segments + TailSegments(Lengths(pkts)));
    } else {
      InnerStep(st, pktSize, pkts[0]);
      var st' := DepthScan(st, pktSize, pkts[0]);
      var rest := pkts[1..];
      assert forall i :: 0 <= i < |rest| - 1 ==> IsInner(pktSize, rest[i]) by {
        forall i | 0 <= i < |rest| - 1 ensures IsInner(pktSize, rest[i]) {
          assert rest[i] == pkts[i + 1];
        }
      }
      assert rest[|rest| - 1] == pkts[|pkts| - 1];
      TailEmits(st', pktSize, rest);
      ReadableCons(pktSize, pkts);
      DepthRunCons(st, pktSize, pkts);
      var lens := Lengths(pkts);
      assert lens[1..] == Lengths(rest);
      assert TailSegments(lens) == [Segment(Inter, |pkts[0]|)] + TailSegments(Lengths(rest));
      var head, tail := [Segment(Inter, |pkts[0]|)], TailSegments(Lengths(rest));
      assert st'.sink.segments == st.sink.segments + head;
      AppendAssoc(st.sink.segments, head, tail);
      assert DepthRun(st', pktSize, rest) == DepthState(true, Sink(0, Last, st.sink.segments + TailSegments(lens)));
    }
  }

  /**
   * Synced with no frame in progress, a whole depth frame is emitted as one
   * FIRST segment, INTER segments and one LAST segment, each as long as its
   * packet, footers included; the framer stays synced with no frame in
   * progress, ready for the next one.
   */
  lemma {:induction false} FrameEmits(st: DepthState, pktSize: nat, pkts: seq<seq<byte>>)
    requires st.synced && st.sink.imageLen == 0 && pktSize > 0
    requires IsDepthFrame(pktSize, pkts)
    ensures forall i :: 0 <= i < |pkts| ==> Readable(pktSize, pkts[i])
    ensures DepthRun(st, pktSize, pkts)
         == DepthState(true, Sink(0, Last, st.sink.segments + FrameSegments(Lengths(pkts))))
  {
    NominalStep(st, pktSize, pkts[0]);
    var st' := DepthScan(st, pktSize, pkts[0]);
    var rest := pkts[1..];
    assert forall i :: 0 <= i < |rest| - 1 ==> IsInner(pktSize, rest[i]) by {
      forall i | 0 <= i < |rest| - 1 ensures IsInner(pktSize, rest[i]) {
        assert rest[i] == pkts[i + 1];
      }
    }
    assert rest[|rest| - 1] == pkts[|pkts| - 1];
    TailEmits(st', pktSize, rest);
    ReadableCons(pktSize, pkts);
    DepthRunCons(st, pktSize, pkts);
    var lens := Lengths(pkts);
    assert lens[1..] == Lengths(rest);
    var head, tail := [Segment(First, pktSize)], TailSegments(Lengths(rest));
    assert FrameSegments(lens) == head + tail;
    assert st'.sink.segments == st.sink.segments + head;
    AppendAssoc(st.sink.segments, head, tail);
  }

  /**
   * Back-to-back depth frames are emitted back to back: once synced with no
   * frame in progress, every frame is FIRST, INTER…, LAST.
   */
  lemma DepthFramesInSequence(st: DepthState, pktSize: nat, f1: seq<seq<byte>>, f2: seq<seq<byte>>)
    requires st.synced && st.sink.imageLen == 0 && pktSize > 0
    requires IsDepthFrame(pktSize, f1) && IsDepthFrame(pktSize, f2)
    ensures forall i :: 0 <= i < |f1 + f2| ==> Readable(pktSize, (f1 + f2)[i])
    ensures DepthRun(st, pktSize, f1 + f2)
         == DepthState(true, Sink(0, Last, st.sink.segments + FrameSegments(Lengths(f1)) + FrameSegments(Lengths(f2))))
  {
    FrameEmits(st, pktSize, f1);
    FrameEmits(DepthRun(st, pktSize, f1), pktSize, f2);
    DepthRunConcat(st, pktSize, f1, f2);
  }

  /**
   * From unsynced with no frame in progress, any packets other than a
   * resynchronising one, then one that is, then a whole depth frame: the
   * framer syncs on the anchor and emits the frame as FIRST, INTER…, LAST.
   */
  lemma ResyncThenFrame(st: DepthState, pktSize: nat, noise: seq<seq<byte>>, anchor: seq<byte>, frame: seq<seq<byte>>)
    requires !st.synced && st.sink.imageLen == 0 && pktSize > 0
    requires forall i :: 0 <= i < |noise| ==> Readable(pktSize, noise[i]) && !IsAnchor(pktSize, noise[i])
    requires IsAnchor(pktSize, anchor) && IsDepthFrame(pktSize, frame)
    ensures forall i :: 0 <= i < |noise + [anchor] + frame| ==> Readable(pktSize, (noise + [anchor] + frame)[i])
    ensures DepthRun(st, pktSize, noise + [anchor] + frame)
         == DepthState(true, Sink(0, Last, st.sink.segments + FrameSegments(Lengths(frame))))
  {
    Resync(st, pktSize, noise, anchor);
    FrameEmits(DepthRun(st, pktSize, noise + [anchor]), pktSize, frame);
    DepthRunConcat(st, pktSize, noise + [anchor], frame);
  }

  /** The bad footer and the anchor of a mid-frame loss: the framer is synced again, the sink still discarding. */
  lemma LossThenAnchor(st: DepthState, pktSize: nat, bad: seq<byte>, anchor: seq<byte>)
    requires |bad| != pktSize && |bad| >= FOOTER_SIZE && !FooterOk(ReadFooter(bad))
    requires IsAnchor(pktSize, anchor)
    ensures forall i :: 0 <= i < |[bad, anchor]| ==> Readable(pktSize, [bad, anchor][i])
    ensures DepthRun(st, pktSize, [bad, anchor]) == DepthState(true, st.sink.(last := Discard))
  {
    BadFooterForcesUnsynced(st, pktSize, bad);
    var st' := DepthScan(st, pktSize, bad);
    UnsyncedFooterOnlyResyncs(st', pktSize, anchor);
    DepthRunCons(st, pktSize, [bad, anchor]);
    assert [bad, anchor][1..] == [anchor];
    DepthRunCons(st', pktSize, [anchor]);
    assert [anchor][1..] == [];
  }

  /** While the sink is discarding a frame that holds data, inner packets are handed over and ignored. */
  lemma {:induction false} DiscardingIgnoresInner(st: DepthState, pktSize: nat, pkts: seq<seq<byte>>)
    requires st.synced && st.sink.imageLen > 0 && st.sink.last == Discard
    requires forall i :: 0 <= i < |pkts| ==> IsInner(pktSize, pkts[i])
    ensures forall i :: 0 <= i < |pkts| ==> Readable(pktSize, pkts[i])
    ensures var r := DepthRun(st, pktSize, pkts);
      r.synced && r.sink.last == Discard && r.sink.imageLen == st.sink.imageLen
    decreases |pkts|
  {
    assert forall i :: 0 <= i < |pkts| ==> Readable(pktSize, pkts[i]);
    if pkts != [] {
      InnerStep(st, pktSize, pkts[0]);
      assert forall i :: 0 <= i < |pkts[1..]| ==> pkts[1..][i] == pkts[i + 1];
      DiscardingIgnoresInner(DepthScan(st, pktSize, pkts[0]), pktSize, pkts[1..]);
    }
  }

  /**
   * A frame lost mid-way costs the next frame as well. The malformed footer
   * marks the frame discarded but leaves the image length as it was, so
   * after the resynchronising packet the next frame is tagged INTER…, LAST,
   * with no FIRST; gspca, still discarding, ignores it up to its LAST, which
   * only closes the discarded frame. The framer is then synced with no frame
   * in progress, so the frame after that is emitted whole.
   */
  lemma MidFrameLoss(st: DepthState, pktSize: nat, bad: seq<byte>, anchor: seq<byte>, next: seq<seq<byte>>)
    requires st.synced && st.sink.imageLen > 0
    requires |bad| != pktSize && |bad| >= FOOTER_SIZE && !FooterOk(ReadFooter(bad))
    requires IsAnchor(pktSize, anchor) && IsDepthFrame(pktSize, next)
    ensures forall i :: 0 <= i < |[bad, anchor] + next| ==> Readable(pktSize, ([bad, anchor] + next)[i])
    // the next frame is handed over without a FIRST
    ensures DepthRun(st, pktSize, [bad, anchor] + next)
         == DepthState(true, Sink(0, Last, st.sink.segments + TailSegments(Lengths(next))))
    // and up to its LAST the sink is discarding, so none of it is received
    ensures var upToLast := [bad, anchor] + next[..|next| - 1];
      && (forall i :: 0 <= i < |upToLast| ==> Readable(pktSize, upToLast[i]))
      && DepthRun(st, pktSize, upToLast).sink.last == Discard
  {
    LossThenAnchor(st, pktSize, bad, anchor);
    var st' := DepthRun(st, pktSize, [bad, anchor]);
    assert forall i :: 0 <= i < |next| - 1 ==> IsInner(pktSize, next[i]);
    TailEmits(st', pktSize, next);
    DepthRunConcat(st, pktSize, [bad, anchor], next);
    var inner := next[..|next| - 1];
    assert forall i :: 0 <= i < |inner| ==> inner[i] == next[i];
    DiscardingIgnoresInner(st', pktSize, inner);
    DepthRunConcat(st, pktSize, [bad, anchor], inner);
  }
}
