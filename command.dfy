/**
 * The control channel of the Kinect v2: `send_cmd` writes a fixed-layout
 * request to bulk endpoint 0x02, reads an optional reply and then a
 * completion block from endpoint 0x81, checks the completion's magic and
 * echoed sequence number, and only then advances the session's `cmdseq`.
 *
 * The USB transport is a supplied sequence of outcomes, one per
 * `usb_bulk_msg` call, in call order.
 */
module Command {

  import opened Bytes

  const REQUEST_MAGIC: u32 := 0x06022009
  const RESPONSE_MAGIC: u32 := 0x0A6FE000

  const KCMD_READ_FIRMWARE_VERSIONS: u32 := 0x02
  const KCMD_READ_DATA_PAGE: u32 := 0x22
  const KCMD_SET_STREAMING: u32 := 0x2B
  const KCMD_START_DEPTH: u32 := 0x09
  const KCMD_STOP_DEPTH: u32 := 0x0A

  /** `ARRAY_SIZE(req->param)`. */
  const MAX_PARAMS := 8
  /** `sizeof(struct request)`: five header words and eight parameters, packed. */
  const REQUEST_SIZE := 4 * 5 + 4 * MAX_PARAMS
  /** `sizeof(req->param)`. */
  const PARAMS_SIZE := 4 * MAX_PARAMS
  /** `sizeof(sd->response)`: `u32 response[32]`. */
  const RESPONSE_SIZE := 4 * 32

  /** `struct request`, field by field; `param` always has MAX_PARAMS words. */
  datatype Request = Request(magic: u32, cmdseq: u32, replyLen: u32, cmd: u32, reserved0: u32, param: seq<u32>)

  /** The whole request struct as it lies in memory, every field little-endian. */
  function Layout(r: Request): seq<byte>
  {
    Words([r.magic, r.cmdseq, r.replyLen, r.cmd, r.reserved0] + r.param)
  }

  /**
   * The bytes `send_cmd` hands to the transport: the used prefix of the
   * request, `sizeof(*req) - sizeof(req->param) + num_param*4` bytes.
   */
  function WireBytes(r: Request, numParam: nat): (b: seq<byte>)
    requires |r.param| == MAX_PARAMS && numParam <= MAX_PARAMS
    ensures |b| == 20 + 4 * numParam
    ensures WordAt(b, 0) == r.magic && WordAt(b, 1) == r.cmdseq && WordAt(b, 2) == r.replyLen
    ensures WordAt(b, 3) == r.cmd && WordAt(b, 4) == r.reserved0
    ensures forall i :: 0 <= i < numParam ==> WordAt(b, 5 + i) == r.param[i]
  {
    var all := Layout(r);
    var ws := [r.magic, r.cmdseq, r.replyLen, r.cmd, r.reserved0] + r.param;
    var n := REQUEST_SIZE - PARAMS_SIZE + numParam * 4;
    forall i | 0 <= i < 5 + numParam
      ensures WordAt(all[..n], i) == ws[i]
    {
      WordAtPrefix(all, n, i);
    }
    all[..n]
  }

  /** The outcome of one `usb_bulk_msg` call: a negative error code, or the bytes transferred. */
  datatype Transfer = Failed(code: int) | Done(data: seq<byte>)

  /** A transfer that moved no more than `cap` bytes. */
  predicate Fits(t: Transfer, cap: nat)
  {
    t.Done? ==> |t.data| <= cap
  }

  /** The number of transport calls a fully successful exchange makes. */
  function Calls(replyLen: u32): nat
  {
    if replyLen == 0 then 2 else 3
  }

  /**
   * What the transport promises: errors are negative, and no read delivers
   * more than its buffer holds.
   */
  predicate Honest(io: seq<Transfer>, replyLen: u32)
  {
    && |io| >= 3
    && (forall k :: 0 <= k < |io| ==> io[k].Failed? ==> io[k].code < 0)
    && (replyLen != 0 ==> Fits(io[1], replyLen))
    && Fits(io[Calls(replyLen) - 1], RESPONSE_SIZE)
  }

  /** The response buffer after a read of `data` into it: bytes beyond the read are left as they were. */
  function Overlay(data: seq<byte>, buffer: seq<byte>): (r: seq<byte>)
    requires |data| <= |buffer|
    ensures |r| == |buffer|
    ensures forall i :: 0 <= i < |data| ==> r[i] == data[i]
    ensures forall i :: |data| <= i < |buffer| ==> r[i] == buffer[i]
  {
    data + buffer[|data|..]
  }

  /** A completion that carries the response magic and echoes sequence number `cmdseq`. */
  predicate CompletionOk(response: seq<byte>, cmdseq: u32)
    requires |response| >= 8
  {
    WordAt(response, 0) == RESPONSE_MAGIC && WordAt(response, 1) == cmdseq
  }

  /**
   * `sd->request` after `send_cmd` has filled it in: the header words, and
   * the first `|param|` parameters; the later parameter slots keep whatever
   * an earlier command left there, and `reserved0` is never written.
   */
  function Prepare(req: Request, cmdseq: u32, cmd: u32, param: seq<u32>, replyLen: u32): (r: Request)
    requires |req.param| == MAX_PARAMS && |param| <= MAX_PARAMS
    ensures r.magic == REQUEST_MAGIC && r.cmdseq == cmdseq && r.replyLen == replyLen && r.cmd == cmd
    ensures r.reserved0 == req.reserved0
    ensures |r.param| == MAX_PARAMS
    ensures forall i :: 0 <= i < |param| ==> r.param[i] == param[i]
    ensures forall i :: |param| <= i < MAX_PARAMS ==> r.param[i] == req.param[i]
  {
    Request(REQUEST_MAGIC, cmdseq, replyLen, cmd, req.reserved0, param + req.param[|param|..])
  }

  /**
   * The checks as the code writes them: the first two raw words of the
   * response buffer against `cpu_to_le32(RESPONSE_MAGIC)` and
   * `cpu_to_le32(sd->cmdseq)`, that is, their memory images.
   */
  predicate RawCompletionOk(response: seq<byte>, cmdseq: u32)
    requires |response| >= 8
  {
    response[0..4] == LE32(RESPONSE_MAGIC) && response[4..8] == LE32(cmdseq)
  }

  /** What the transport phase of an exchange produces. */
  datatype Outcome = Outcome(
    result: int,         // the return value of send_cmd
    cmdseq: u32,         // sd->cmdseq afterwards
    response: seq<byte>, // sd->response afterwards
    reply: seq<byte>,    // the reply bytes read into replybuf
    calls: nat)          // the number of transport calls made

  /**
   * The transport phase of `send_cmd`, once the request is built: send it,
   * read the reply when one is asked for, read the completion block over
   * sd->response and check it against the current sequence number.
   */
  function Transact(cmdseq: u32, response: seq<byte>, replyLen: u32, io: seq<Transfer>): (o: Outcome)
    requires |response| == RESPONSE_SIZE && Honest(io, replyLen)
    ensures |o.response| == RESPONSE_SIZE
    ensures 1 <= o.calls <= Calls(replyLen)
    // the sequence number advances on success only
    ensures o.cmdseq == if o.result >= 0 then Next(cmdseq) else cmdseq
  {
    if io[0].Failed? then
      Outcome(io[0].code, cmdseq, response, [], 1)
    else if replyLen != 0 && io[1].Failed? then
      Outcome(io[1].code, cmdseq, response, [], 2)
    else
      var reply := if replyLen != 0 then io[1].data else [];
      var k := Calls(replyLen) - 1;
      if io[k].Failed? then
        Outcome(io[k].code, cmdseq, response, reply, k + 1)
      else
        var response' := Overlay(io[k].data, response);
        if !RawCompletionOk(response', cmdseq) then
          Outcome(-1, cmdseq, response', reply, k + 1)
        else
          Outcome(|reply|, Next(cmdseq), response', reply, k + 1)
  }

  /**
   * A successful exchange made every transport call and returns the length
   * of the reply read, 0 when no reply was asked for.
   */
  lemma TransactSuccess(cmdseq: u32, response: seq<byte>, replyLen: u32, io: seq<Transfer>)
    requires |response| == RESPONSE_SIZE && Honest(io, replyLen)
    requires Transact(cmdseq, response, replyLen, io).result >= 0
    ensures var o := Transact(cmdseq, response, replyLen, io);
      && o.calls == Calls(replyLen)
      && (forall k :: 0 <= k < o.calls ==> io[k].Done?)
      && o.reply == (if replyLen == 0 then [] else io[1].data)
      && o.result == |o.reply| <= replyLen
  {
    var o := Transact(cmdseq, response, replyLen, io);
    assert io[0].Done? && !(replyLen != 0 && io[1].Failed?);
    var k := Calls(replyLen) - 1;
    assert io[k].Done? && o.calls == k + 1;
  }

  /**
   * A failed exchange stops at its first failing transport call and returns
   * that call's error code; a failure after every call worked (a bad
   * completion block) returns -1.
   */
  lemma TransactFailure(cmdseq: u32, response: seq<byte>, replyLen: u32, io: seq<Transfer>)
    requires |response| == RESPONSE_SIZE && Honest(io, replyLen)
    ensures var o := Transact(cmdseq, response, replyLen, io);
      && (forall k :: 0 <= k < o.calls - 1 ==> io[k].Done?)
      && (io[o.calls - 1].Failed? ==> o.result == io[o.calls - 1].code < 0)
      && (o.result < 0 && io[o.calls - 1].Done? ==> o.result == -1 && o.calls == Calls(replyLen))
  {
  }

  /**
   * The transport phase succeeds exactly when every transfer works and the
   * completion block, read over the previous contents of the response
   * buffer, carries the response magic and echoes the current sequence
   * number. The code compares raw words with `cpu_to_le32` constants; that
   * is the same as comparing little-endian decoded words.
   */
  lemma TransactSucceedsIff(cmdseq: u32, response: seq<byte>, replyLen: u32, io: seq<Transfer>)
    requires |response| == RESPONSE_SIZE && Honest(io, replyLen)
    ensures Transact(cmdseq, response, replyLen, io).result >= 0 <==>
      && (forall k :: 0 <= k < Calls(replyLen) ==> io[k].Done?)
      && CompletionOk(Overlay(io[Calls(replyLen) - 1].data, response), cmdseq)
  {
    var k := Calls(replyLen) - 1;
    if forall j :: 0 <= j < Calls(replyLen) ==> io[j].Done? {
      assert io[0].Done? && io[k].Done?;
      assert replyLen != 0 ==> io[1].Done?;
      var response' := Overlay(io[k].data, response);
      MatchesEncoding(response'[0..4], RESPONSE_MAGIC);
      MatchesEncoding(response'[4..8], cmdseq);
      assert WordAt(response', 0) == DecodeLE32(response'[0..4]);
      assert WordAt(response', 1) == DecodeLE32(response'[4..8]);
    } else if Transact(cmdseq, response, replyLen, io).result >= 0 {
      TransactSuccess(cmdseq, response, replyLen, io);
    }
  }

  /** Everything one exchange produces. */
  datatype Exchange = Exchange(
    result: int,         // the return value of send_cmd
    cmdseq: u32,         // sd->cmdseq afterwards
    request: Request,    // sd->request afterwards
    response: seq<byte>, // sd->response afterwards
    sent: seq<byte>,     // the bytes handed to the transport, if any
    reply: seq<byte>,    // the reply bytes read into replybuf
    calls: nat)          // the number of transport calls made

  /** `send_cmd(gspca_dev, cmd, param, |param|, replybuf, replyLen)` against the transport `io`. */
  function SendCmdSpec(cmdseq: u32, req: Request, response: seq<byte>,
                       cmd: u32, param: seq<u32>, replyLen: u32, io: seq<Transfer>): (e: Exchange)
    requires |req.param| == MAX_PARAMS && |response| == RESPONSE_SIZE && Honest(io, replyLen)
    ensures |e.request.param| == MAX_PARAMS && |e.response| == RESPONSE_SIZE
    // too many parameters: fail before any transport call, change nothing
    ensures |param| > MAX_PARAMS ==> e == Exchange(-1, cmdseq, req, response, [], [], 0)
    // otherwise the request is prepared in sd->request, its used prefix is sent,
    // and the rest is the transport phase
    ensures |param| <= MAX_PARAMS ==>
      && e.request == Prepare(req, cmdseq, cmd, param, replyLen)
      && e.sent == WireBytes(e.request, |param|)
      && Outcome(e.result, e.cmdseq, e.response, e.reply, e.calls) == Transact(cmdseq, response, replyLen, io)
    // the sequence number advances on success only
    ensures e.cmdseq == if e.result >= 0 then Next(cmdseq) else cmdseq
  {
    if |param| > MAX_PARAMS then
      Exchange(-1, cmdseq, req, response, [], [], 0)
    else
      var req' := Prepare(req, cmdseq, cmd, param, replyLen);
      var o := Transact(cmdseq, response, replyLen, io);
      Exchange(o.result, o.cmdseq, req', o.response, WireBytes(req', |param|), o.reply, o.calls)
  }

  /** A command with too many parameters fails; otherwise its outcome is the transport phase's. */
  lemma SendCmdSucceedsIff(cmdseq: u32, req: Request, response: seq<byte>,
                           cmd: u32, param: seq<u32>, replyLen: u32, io: seq<Transfer>)
    requires |req.param| == MAX_PARAMS && |response| == RESPONSE_SIZE && Honest(io, replyLen)
    ensures SendCmdSpec(cmdseq, req, response, cmd, param, replyLen, io).result >= 0 <==>
      && |param| <= MAX_PARAMS
      && (forall k :: 0 <= k < Calls(replyLen) ==> io[k].Done?)
      && CompletionOk(Overlay(io[Calls(replyLen) - 1].data, response), cmdseq)
  {
    TransactSucceedsIff(cmdseq, response, replyLen, io);
  }

  /**
   * The bytes sent are exactly `20 + 4 * num_param` long and hold, as
   * little-endian words in this order, the request magic, the current
   * sequence number, the reply length, the command, the reserved word and
   * the parameters.
   */
  lemma SentRequestLayout(cmdseq: u32, req: Request, response: seq<byte>,
                          cmd: u32, param: seq<u32>, replyLen: u32, io: seq<Transfer>)
    requires |req.param| == MAX_PARAMS && |response| == RESPONSE_SIZE && Honest(io, replyLen)
    requires |param| <= MAX_PARAMS
    ensures var sent := SendCmdSpec(cmdseq, req, response, cmd, param, replyLen, io).sent;
      && |sent| == 20 + 4 * |param|
      && WordAt(sent, 0) == REQUEST_MAGIC && WordAt(sent, 1) == cmdseq
      && WordAt(sent, 2) == replyLen && WordAt(sent, 3) == cmd
      && WordAt(sent, 4) == req.reserved0
      && (forall i :: 0 <= i < |param| ==> WordAt(sent, 5 + i) == param[i])
  {
    var r := Prepare(req, cmdseq, cmd, param, replyLen);
    var sent := WireBytes(r, |param|);
    assert forall i :: 0 <= i < |param| ==> WordAt(sent, 5 + i) == r.param[i];
  }

  /** One call of send_cmd in a session: its arguments and the transport's answers. */
  datatype Call = Call(cmd: u32, param: seq<u32>, replyLen: u32, io: seq<Transfer>)

  /** The state `send_cmd` keeps in the session between calls. */
  datatype Channel = Channel(cmdseq: u32, request: Request, response: seq<byte>)

  predicate ChannelOk(c: Channel)
  {
    |c.request.param| == MAX_PARAMS && |c.response| == RESPONSE_SIZE
  }

  /** One exchange applied to the channel state, and whether it succeeded. */
  function Step(c: Channel, call: Call): (r: (Channel, bool))
    requires ChannelOk(c) && Honest(call.io, call.replyLen)
    ensures ChannelOk(r.0)
    ensures r.0.cmdseq == if r.1 then Next(c.cmdseq) else c.cmdseq
  {
    var e := SendCmdSpec(c.cmdseq, c.request, c.response, call.cmd, call.param, call.replyLen, call.io);
    (Channel(e.cmdseq, e.request, e.response), e.result >= 0)
  }

  /** A series of exchanges: the final channel state and how many exchanges succeeded. */
  function Run(c: Channel, calls: seq<Call>): (r: (Channel, nat))
    requires ChannelOk(c)
    requires forall i :: 0 <= i < |calls| ==> Honest(calls[i].io, calls[i].replyLen)
    ensures ChannelOk(r.0) && r.1 <= |calls|
    decreases |calls|
  {
    if calls == [] then (c, 0)
    else
      var st := Step(c, calls[0]);
      var rest := Run(st.0, calls[1..]);
      (rest.0, rest.1 + if st.1 then 1 else 0)
  }

  /** The calls after the first of an honest series are honest. */
  lemma HonestTail(calls: seq<Call>)
    requires |calls| >= 1
    requires forall i :: 0 <= i < |calls| ==> Honest(calls[i].io, calls[i].replyLen)
    ensures forall i :: 0 <= i < |calls| - 1 ==> Honest(calls[1..][i].io, calls[1..][i].replyLen)
  {
    forall i | 0 <= i < |calls| - 1 ensures Honest(calls[1..][i].io, calls[1..][i].replyLen) {
      assert calls[1..][i] == calls[i + 1];
    }
  }

  /** A non-empty series is its first exchange followed by the rest. */
  lemma RunCons(c: Channel, calls: seq<Call>)
    requires ChannelOk(c) && |calls| >= 1
    requires forall i :: 0 <= i < |calls| ==> Honest(calls[i].io, calls[i].replyLen)
    requires forall i :: 0 <= i < |calls| - 1 ==> Honest(calls[1..][i].io, calls[1..][i].replyLen)
    ensures var st := Step(c, calls[0]);
      && Run(c, calls).0 == Run(st.0, calls[1..]).0
      && Run(c, calls).1 == Run(st.0, calls[1..]).1 + if st.1 then 1 else 0
  {
  }

  /** `cmdseq` after `n` successful exchanges. */
  function Advance(x: u32, n: nat): u32
  {
    if n == 0 then x else Next(Advance(x, n - 1))
  }

  lemma {:induction false} AdvanceShift(x: u32, n: nat)
    ensures Advance(Next(x), n) == Advance(x, n + 1)
  {
    if n > 0 {
      AdvanceShift(x, n - 1);
    }
  }

  /** Advancing `n` times is adding `n` modulo 2^32. */
  lemma {:induction false} AdvanceIsAdd(x: u32, n: nat)
    ensures Advance(x, n) == (x + n) % 0x1_0000_0000
  {
    if n > 0 {
      AdvanceIsAdd(x, n - 1);
      AddStep(x, n - 1);
    }
  }

  /** The arithmetic of one step of AdvanceIsAdd. */
  lemma AddStep(x: u32, n: nat)
    ensures Next(((x + n) % 0x1_0000_0000) as u32) == (x + n + 1) % 0x1_0000_0000
  {
  }

  /** Over a series of exchanges, `cmdseq` advances once per successful exchange. */
  lemma {:induction false} RunAdvances(c: Channel, calls: seq<Call>)
    requires ChannelOk(c)
    requires forall i :: 0 <= i < |calls| ==> Honest(calls[i].io, calls[i].replyLen)
    ensures Run(c, calls).0.cmdseq == Advance(c.cmdseq, Run(c, calls).1)
    decreases |calls|
  {
    if calls != [] {
      var st := Step(c, calls[0]);
      HonestTail(calls);
      RunCons(c, calls);
      RunAdvances(st.0, calls[1..]);
      if st.1 {
        AdvanceShift(c.cmdseq, Run(st.0, calls[1..]).1);
      }
    }
  }

  /**
   * Over any series of exchanges, `cmdseq` has advanced by exactly the number
   * of exchanges that succeeded (modulo 2^32): failed exchanges consume no
   * sequence number.
   */
  lemma RunCountsSuccesses(c: Channel, calls: seq<Call>)
    requires ChannelOk(c)
    requires forall i :: 0 <= i < |calls| ==> Honest(calls[i].io, calls[i].replyLen)
    ensures Run(c, calls).0.cmdseq == (c.cmdseq + Run(c, calls).1) % 0x1_0000_0000
  {
    RunAdvances(c, calls);
    AdvanceIsAdd(c.cmdseq, Run(c, calls).1);
  }
}
