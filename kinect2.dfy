/**
 * The driver's per-interface session, `struct sd`: the embedded gspca
 * device, the command sequence counter, the request and response buffers
 * of the control channel, and the depth framer's `synced` flag. Each method
 * is one function of kinect2.c. Those with a specification function in
 * Command, ColorFramer, DepthFramer or DataPage are proved to do what it
 * says; `Config` states its new state directly.
 */
module Kinect2 {

  import opened Bytes
  import opened FrameSink
  import opened Command
  import ColorFramer
  import DepthFramer
  import opened DataPage

  const COLOR_IF := 0
  const DEPTH_IF := 1

  class Sd {
    const gspca: GspcaDev

    var cmdseq: u32

    // sd->request, field by field
    var reqMagic: u32
    var reqCmdseq: u32
    var reqReplyLen: u32
    var reqCmd: u32
    var reqReserved0: u32
    const reqParam: array<u32>

    /** sd->response: the buffer the completion block is read into. */
    const response: array<byte>

    var synced: bool

    ghost predicate Valid()
      reads this
    {
      reqParam.Length == MAX_PARAMS && response.Length == RESPONSE_SIZE
    }

    /** sd->request as a value. */
    function Request(): Request
      reads this, reqParam
    {
      Command.Request(reqMagic, reqCmdseq, reqReplyLen, reqCmd, reqReserved0, reqParam[..])
    }

    /** The framer state `sd_depth_pkt_scan` works on. */
    function Depth(): DepthFramer.DepthState
      reads this, gspca
    {
      DepthFramer.DepthState(synced, gspca.State())
    }

    /** The session as gspca allocates it for interface `iface`: all zero. */
    constructor (iface: int)
      ensures Valid() && fresh(gspca) && fresh(reqParam) && fresh(response)
      ensures gspca.iface == iface && gspca.pktSize == 0 && gspca.State() == Sink(0, Discard, [])
      ensures cmdseq == 0 && !synced
      ensures Request() == Command.Request(0, 0, 0, 0, 0, seq(MAX_PARAMS, _ => 0))
      ensures response[..] == seq(RESPONSE_SIZE, _ => 0)
    {
      gspca := new GspcaDev(iface);
      cmdseq := 0;
      reqMagic, reqCmdseq, reqReplyLen, reqCmd, reqReserved0 := 0, 0, 0, 0, 0;
      reqParam := new u32[MAX_PARAMS](_ => 0);
      response := new byte[RESPONSE_SIZE](_ => 0);
      synced := false;
    }

    /**
     * `send_cmd(gspca_dev, cmd, param, |param|, replybuf, replyLen)`. The
     * transport's answers to the calls made are `io`, in order; the reply
     * read into replybuf is returned as `reply`.
     */
    method SendCmd(cmd: u32, param: seq<u32>, replyLen: u32, io: seq<Transfer>)
        returns (r: int, sent: seq<byte>, reply: seq<byte>, calls: nat)
      requires Valid() && Honest(io, replyLen)
      modifies this`cmdseq, this`reqMagic, this`reqCmdseq, this`reqReplyLen, this`reqCmd
      modifies reqParam, response
      ensures Valid()
      ensures Exchange(r, cmdseq, Request(), response[..], sent, reply, calls)
           == SendCmdSpec(old(cmdseq), old(Request()), old(response[..]), cmd, param, replyLen, io)
    {
      if |param| > MAX_PARAMS {
        return -1, [], [], 0;
      }
      FillRequest(cmd, param, replyLen);
      sent := WireBytes(Request(), |param|);

      calls := 1;
      if io[0].Failed? {
        return io[0].code, sent, [], calls;
      }

      var result := 0;
      reply := [];
      if replyLen != 0 {
        calls := 2;
        if io[1].Failed? {
          return io[1].code, sent, [], calls;
        }
        reply := io[1].data;
        result := |reply|;
      }

      // the completion block
      var t := io[calls];
      calls := calls + 1;
      if t.Failed? {
        return t.code, sent, reply, calls;
      }
      ReadCompletion(t.data);

      if response[0..4] != LE32(RESPONSE_MAGIC) {
        return -1, sent, reply, calls;
      } else if response[4..8] != LE32(cmdseq) {
        return -1, sent, reply, calls;
      }

      cmdseq := Next(cmdseq);
      r := result;
    }

    /** The first half of `send_cmd`: fill in sd->request for this command. */
    method FillRequest(cmd: u32, param: seq<u32>, replyLen: u32)
      requires Valid() && |param| <= MAX_PARAMS
      modifies this`reqMagic, this`reqCmdseq, this`reqReplyLen, this`reqCmd, reqParam
      ensures Request() == Prepare(old(Request()), cmdseq, cmd, param, replyLen)
    {
      ghost var req0 := Request();
      reqMagic := REQUEST_MAGIC;
      reqCmdseq := cmdseq;
      reqReplyLen := replyLen;
      reqCmd := cmd;
      for i := 0 to |param|
        modifies reqParam
        invariant reqParam[..i] == param[..i]
        invariant reqParam[i..] == req0.param[i..]
      {
        reqParam[i] := param[i];
      }
      assert reqParam[..] == reqParam[..|param|] + reqParam[|param|..];
    }

    /** The completion read: `data` lands at the start of sd->response, the rest is left as it was. */
    method ReadCompletion(data: seq<byte>)
      requires Valid() && |data| <= RESPONSE_SIZE
      modifies response
      ensures response[..] == Overlay(data, old(response[..]))
    {
      forall i | 0 <= i < |data| {
        response[i] := data[i];
      }
      assert forall i :: 0 <= i < RESPONSE_SIZE ==> response[i] == Overlay(data, old(response[..]))[i];
    }

    /** `sd_color_pkt_scan(gspca_dev, buf, datalen)`. */
    method ColorPktScan(buf: seq<byte>, datalen: nat)
      requires |buf| >= ColorFramer.COLOR_HEADER_SIZE && datalen <= |buf|
      modifies gspca
      ensures gspca.State() == ColorFramer.ColorScan(old(gspca.State()), buf, datalen)
      ensures gspca.pktSize == old(gspca.pktSize)
    {
      if gspca.imageLen == 0 {
        if !ColorFramer.HeaderOk(buf) {
          return;
        }
      }

      var tag;
      if ColorFramer.BULK_SIZE != datalen {
        tag := Last;
      } else {
        tag := if gspca.imageLen != 0 then Inter else First;
      }
      gspca.FrameAdd(tag, buf[..datalen], datalen);
    }

    /** `sd_depth_pkt_scan(gspca_dev, data, |data|)`. */
    method DepthPktScan(data: seq<byte>)
      requires DepthFramer.Readable(gspca.pktSize, data)
      modifies this`synced, gspca
      ensures Depth() == DepthFramer.DepthScan(old(Depth()), old(gspca.pktSize), data)
      ensures gspca.pktSize == old(gspca.pktSize)
    {
      var discard := false;
      if gspca.pktSize != |data| {
        var f := DepthFramer.ReadFooter(data);
        if 0 != f.magic0 {
          discard := true;
        } else if DepthFramer.DEPTH_IMAGE_SIZE != f.length {
          discard := true;
        } else {
          if synced {
            gspca.FrameAdd(if DepthFramer.LAST_SUBSEQUENCE == f.subsequence then Last else Inter, data, |data|);
          } else {
            if DepthFramer.LAST_SUBSEQUENCE == f.subsequence {
              synced := true;
            }
          }
        }
      } else {
        if synced {
          gspca.FrameAdd(if 0 == gspca.imageLen then First else Inter, data, |data|);
        } else {
          discard := true;
        }
      }
      if discard {
        gspca.lastPacketType := Discard;
        synced := false;
      }
    }

    /** `sd_pkt_scan`: hand a packet to the framer of this session's interface. */
    method PktScan(buf: seq<byte>, datalen: nat)
      requires datalen <= |buf|
      requires gspca.iface == COLOR_IF ==> |buf| >= ColorFramer.COLOR_HEADER_SIZE
      requires gspca.iface == DEPTH_IF ==> DepthFramer.Readable(gspca.pktSize, buf[..datalen])
      modifies this`synced, gspca
      ensures gspca.iface == COLOR_IF ==>
        gspca.State() == ColorFramer.ColorScan(old(gspca.State()), buf, datalen) && synced == old(synced)
      ensures gspca.iface == DEPTH_IF ==>
        Depth() == DepthFramer.DepthScan(old(Depth()), old(gspca.pktSize), buf[..datalen])
      ensures gspca.iface != COLOR_IF && gspca.iface != DEPTH_IF ==> Depth() == old(Depth())
      ensures gspca.pktSize == old(gspca.pktSize)
    {
      if gspca.iface == COLOR_IF {
        ColorPktScan(buf, datalen);
      } else if gspca.iface == DEPTH_IF {
        DepthPktScan(buf[..datalen]);
      }
    }

    /**
     * The part of `sd_config` this model keeps: the sequence counter is reset,
     * the depth interface takes its isochronous packet size (found by
     * `get_iso_max_packet_size`, here the parameter `isoPktSize`), and an
     * unknown interface is refused.
     */
    method Config(isoPktSize: nat) returns (r: int)
      modifies this`cmdseq, gspca`pktSize
      ensures cmdseq == 0
      ensures r == if gspca.iface == COLOR_IF || gspca.iface == DEPTH_IF then 0 else -1
      ensures gspca.pktSize == if gspca.iface == DEPTH_IF then isoPktSize else old(gspca.pktSize)
    {
      cmdseq := 0;
      if gspca.iface == COLOR_IF {
        r := 0;
      } else if gspca.iface == DEPTH_IF {
        gspca.pktSize := isoPktSize;
        r := 0;
      } else {
        r := -1;
      }
    }

    /**
     * `sd_start`: the depth framer starts unsynced; on the depth interface a
     * start-depth command is sent and its outcome ignored. The color
     * interface's streaming task is not part of this model.
     */
    method Start(io: seq<Transfer>) returns (r: int)
      requires Valid() && Honest(io, 0)
      modifies this`synced, this`cmdseq, this`reqMagic, this`reqCmdseq, this`reqReplyLen, this`reqCmd
      modifies reqParam, response
      ensures Valid() && r == 0 && !synced
      ensures gspca.iface == DEPTH_IF ==>
        var e := SendCmdSpec(old(cmdseq), old(Request()), old(response[..]), KCMD_START_DEPTH, [], 0, io);
        cmdseq == e.cmdseq && Request() == e.request && response[..] == e.response
      ensures gspca.iface != DEPTH_IF ==>
        cmdseq == old(cmdseq) && Request() == old(Request()) && response[..] == old(response[..])
    {
      synced := false;
      if gspca.iface == DEPTH_IF {
        var _, _, _, _ := SendCmd(KCMD_START_DEPTH, [], 0, io);
      }
      r := 0;
    }

    /**
     * `sd_stopN`: on the depth interface a stop-depth command is sent and its
     * outcome ignored. The color interface's shutdown flag is not part of
     * this model.
     */
    method StopN(io: seq<Transfer>)
      requires Valid() && Honest(io, 0)
      modifies this`cmdseq, this`reqMagic, this`reqCmdseq, this`reqReplyLen, this`reqCmd
      modifies reqParam, response
      ensures Valid()
      ensures gspca.iface == DEPTH_IF ==>
        var e := SendCmdSpec(old(cmdseq), old(Request()), old(response[..]), KCMD_STOP_DEPTH, [], 0, io);
        cmdseq == e.cmdseq && Request() == e.request && response[..] == e.response
      ensures gspca.iface != DEPTH_IF ==>
        cmdseq == old(cmdseq) && Request() == old(Request()) && response[..] == old(response[..])
    {
      if gspca.iface == DEPTH_IF {
        var _, _, _, _ := SendCmd(KCMD_STOP_DEPTH, [], 0, io);
      }
    }

    /**
     * `sd_private_ioctl` for ioctl number `cmd` with a request declaring
     * `reqLen` bytes. Whether `kmalloc` and `copy_to_user` succeed are the
     * parameters `allocOk` and `copyOk`; the page handed to the caller is
     * returned as `copied`.
     */
    method PrivateIoctl(cmd: u32, reqLen: int, allocOk: bool, copyOk: bool, io: seq<Transfer>)
        returns (r: int, copied: seq<byte>, calls: nat)
      requires Valid()
      requires CheckRequest(cmd, reqLen).Accepted? ==> Honest(io, CheckRequest(cmd, reqLen).page.len)
      modifies this`cmdseq, this`reqMagic, this`reqCmdseq, this`reqReplyLen, this`reqCmd
      modifies reqParam, response
      ensures Valid()
      // a bad index or a wrong length is refused before any allocation or transport call
      ensures CheckRequest(cmd, reqLen).Rejected? ==>
        && r == CheckRequest(cmd, reqLen).error && calls == 0 && copied == []
        && cmdseq == old(cmdseq) && Request() == old(Request()) && response[..] == old(response[..])
      // an allocation failure is refused before any transport call
      ensures CheckRequest(cmd, reqLen).Accepted? && !allocOk ==>
        && r == -ENOMEM && calls == 0 && copied == []
        && cmdseq == old(cmdseq) && Request() == old(Request()) && response[..] == old(response[..])
      // otherwise the page is read with one command; anything but a reply of the page's length is a fault
      ensures CheckRequest(cmd, reqLen).Accepted? && allocOk ==>
        var page := CheckRequest(cmd, reqLen).page;
        var e := SendCmdSpec(old(cmdseq), old(Request()), old(response[..]), KCMD_READ_DATA_PAGE, [page.id], page.len, io);
        && calls == e.calls && cmdseq == e.cmdseq && Request() == e.request && response[..] == e.response
        && r == (if e.result == page.len && copyOk then 0 else -EFAULT)
        && copied == (if e.result == page.len && copyOk then e.reply else [])
    {
      copied := [];
      calls := 0;
      var checked := CheckRequest(cmd, reqLen);
      if checked.Rejected? {
        r := checked.error;
        return;
      }
      var page := checked.page;
      if !allocOk {
        r := -ENOMEM;
        return;
      }
      var res, _, reply, n := SendCmd(KCMD_READ_DATA_PAGE, [page.id], page.len, io);
      calls := n;
      if page.len == res {
        if copyOk {
          r := 0;
          copied := reply;
        } else {
          r := -EFAULT;
        }
      } else {
        r := -EFAULT;
      }
    }
  }
}
