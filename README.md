# kinect2 gspca driver core, modelled in Dafny

This project models the core of `kinect2.c`, the gspca sub-driver for the
Kinect for Windows v2 sensor. The sensor has two USB interfaces:

- interface 0 sends color images as JPEG over bulk transfers;
- interface 1 sends depth images over isochronous transfers.

The model covers four parts of the driver.

- **Control channel.** `send_cmd` builds a `struct request` in the session
  buffer and stamps it with the session's sequence counter `cmdseq`. It sends
  the used prefix of the request and optionally reads a reply. It then reads a
  completion block into the session's response buffer and checks the block's
  magic and sequence echo. `cmdseq` advances only when the whole exchange
  succeeds.
- **Color framer.** `sd_color_pkt_scan` needs a header magic only on the
  packet that would start a frame. It tags each packet FIRST, INTER or LAST
  from the packet's length alone.
- **Depth framer.** `sd_depth_pkt_scan` checks a footer on every packet that
  is not of the nominal isochronous size. It keeps a `synced` flag: on a bad
  packet it drops the frame in progress, and it resynchronises on a footer
  whose sub-sequence is 9.
- **Session.** `sd_pkt_scan` dispatches packets by interface. `sd_config` and
  `sd_start` reset `cmdseq` and `synced`. `sd_stopN` stops the depth stream.
  `sd_private_ioctl` reads calibration pages after checking the page index and
  the declared length.

Modules:

- `Bytes` (`bytes.dfy`): bytes, `u32`, the `cpu_to_le32` memory image of a
  word, and the wrapping successor of `cmdseq`.
- `FrameSink` (`frame_sink.dfy`): the part of `struct gspca_dev` the framers
  use, and an abstraction of `gspca_frame_add`: a log of tagged segments,
  with gspca's packet-type rules for the image length.
- `Command` (`command.dfy`): the request layout, `send_cmd` as a function of
  the session state and of the transport's answers, and series of commands.
- `ColorFramer` (`color.dfy`) and `DepthFramer` (`depth.dfy`): one packet as a
  function, and runs of packets with the frames they emit.
- `DataPage` (`data_page.dfy`): the page table and the index and length checks
  of the private ioctl.
- `Kinect2` (`kinect2.dfy`): `struct sd` as the class `Sd`, whose methods
  update its fields in place. `SendCmd`, the packet scans, `Start`, `StopN` and
  `PrivateIoctl` are proved equal to the specification functions of the
  modules above; `Config`, which only resets and sets fields, states its new
  state directly.

The transport is a parameter. The answers of successive `usb_bulk_msg` calls
are a sequence of `Transfer` values, each `Failed(code)` or `Done(bytes)`.
`Honest` states what the USB core guarantees about them: error codes are
negative, and no read returns more than its buffer holds.

Two facts about the code are easy to miss:

- Depth packets are handed to the frame sink whole, footer included
  (kinect2.c:245-247 and 255-257). The footer is not stripped.
- `send_cmd` returns the number of reply bytes actually read
  (kinect2.c:184). That number may be less than `reply_len`.

The frame sink follows gspca's packet-type rules for `image_len` and
`last_packet_type`. After a DISCARD it ignores everything up to the LAST that
ends the discarded frame, and after a LAST everything up to the next FIRST.
The depth framer's `discard:` path (kinect2.c:264-267) marks the frame
discarded but does not reset `image_len`, which kinect2.c:256 reads. So when a
frame is lost mid-way, the frame after the resynchronising packet is tagged
INTER…, LAST with no FIRST, and the sink drops it as well
(`DepthFramer.MidFrameLoss`). Frames are received whole again from the one
after it.

The build modelled is the one the file selects: `KINECT2_USE_WORKQUEUE` is 1
(kinect2.c:59). In that build:

- the color interface's start and stop only manage the streaming task;
- gspca's `pkt_scan` hook is `sd_depth_pkt_scan` directly (kinect2.c:638).

`sd_pkt_scan` is still modelled, as the dispatch the other build installs.

## Model

| member | source | states |
|---|---|---|
| Bytes.Next | kinect2.c:204 | `sd->cmdseq++` on a `u32`: the successor differs from the counter, is 0 exactly when the counter is 0xFFFFFFFF, and is otherwise one more |
| Bytes.LE32 | kinect2.c:159-164 | `cpu_to_le32` stores a word as four bytes that decode back to the word |
| Bytes.EncodeDecode | kinect2.c:196-199 | any four bytes are the memory image of the word they decode to |
| Bytes.MatchesEncoding | kinect2.c:196-202 | a raw word equals `cpu_to_le32(x)` exactly when it decodes to `x`, so the completion checks compare decoded words |
| Bytes.Words | kinect2.c:66-73 | a packed run of words is four bytes per word, and word `i` of the image decodes to the `i`-th word |
| Command.Prepare | kinect2.c:159-164 | after filling in, the request holds magic, sequence number, reply length and command; the first `num_param` parameter slots hold the parameters; later slots and `reserved0` keep what was there before |
| Command.WireBytes | kinect2.c:166-168 | the bytes sent are `20 + 4*num_param` long and hold the header words and then the used parameters, each little-endian |
| Command.Overlay | kinect2.c:188-190 | reading the completion block overwrites only the bytes read; the rest of the response buffer is unchanged |
| Command.Transact | kinect2.c:166-206 | the transport phase makes one to `Calls(reply_len)` calls, and advances `cmdseq` by one exactly when it returns a non-negative result |
| Command.TransactSuccess | kinect2.c:176-206 | a success made every call, all of which worked, and returns the reply length read (0 when no reply is asked for), never more than `reply_len` |
| Command.TransactFailure | kinect2.c:171-202 | a failure stops at the first failing call and returns that call's negative code; a failure after every call worked returns -1 |
| Command.TransactSucceedsIff | kinect2.c:171-204 | the transport phase succeeds if and only if every transfer works and the completion block, read over the old buffer contents, carries `RESPONSE_MAGIC` and echoes the current `cmdseq`; the raw comparison of kinect2.c:196-202 is `RawCompletionOk`, stated here on decoded words |
| Command.SendCmdSpec | kinect2.c:144-207 | more than 8 parameters returns -1 with no call made and nothing changed; otherwise the request is filled in, its used prefix is sent, the rest is the transport phase, and `cmdseq` advances exactly on success |
| Command.SendCmdSucceedsIff | kinect2.c:154-204 | `send_cmd` succeeds if and only if there are at most 8 parameters, every transfer works and the completion block matches |
| Command.SentRequestLayout | kinect2.c:159-168 | the bytes sent, word by word: request magic, current `cmdseq`, reply length, command, reserved word, parameters |
| Command.Step | kinect2.c:160-204 | one command on a session advances `cmdseq` if and only if it succeeds |
| Command.AdvanceIsAdd | kinect2.c:204 | `n` increments of the 32-bit counter add `n` modulo 2^32 |
| Command.RunAdvances | kinect2.c:160-204 | over any series of commands, `cmdseq` has been incremented once per successful command |
| Command.RunCountsSuccesses | kinect2.c:160-204 | over any series of commands, the final `cmdseq` is the initial one plus the number of successes, modulo 2^32; failed commands consume no sequence number |
| FrameSink.Add | kinect2.c:227 | `gspca_frame_add` logs one segment with the packet's tag and length; FIRST always starts a frame; while a frame is received INTER adds to the image length and LAST ends the frame; after a DISCARD only a LAST is taken, ending the discarded frame; otherwise the packet is ignored; the driver's tags keep image data only inside a received frame |
| FrameSink.GspcaDev.FrameAdd | kinect2.c:227 | the device state after a frame add is `Add` of the state before; the packet size is unchanged |
| ColorFramer.HeaderOkIsByteOrderFree | kinect2.c:214-219 | the magic check `HeaderOk` passes exactly when the header's magic bytes are all 0x42, on either byte order |
| ColorFramer.ColorTag | kinect2.c:222-225 | a packet is LAST exactly when it is short, and FIRST exactly when it is full and no frame is in progress; otherwise INTER |
| ColorFramer.ColorScan | kinect2.c:209-228 | a frame-starting packet without the magic changes nothing; any other packet is appended whole as one segment tagged by `ColorTag`; the sink stays coherent, and from a coherent sink a short packet ends the frame and a full one starts or extends it |
| ColorFramer.ColorRunConcat | kinect2.c:209-228 | feeding two series of packets in turn equals feeding their concatenation |
| ColorFramer.ColorWaitsForMagic | kinect2.c:214-219 | outside a frame, any number of packets without the magic leave the state unchanged |
| ColorFramer.ColorTailEmits | kinect2.c:222-227 | inside a received frame, full packets are INTER and the closing short packet is LAST, each as long as its packet, and the frame ends |
| ColorFramer.ColorFrameEmits | kinect2.c:209-228 | a frame (magic first, full packets, one short packet) fed outside a frame is emitted as FIRST, INTER…, LAST, or as a single LAST, with no frame in progress afterwards |
| ColorFramer.ColorFramesInSequence | kinect2.c:209-228 | two frames in a row are emitted as the segments of the first followed by those of the second |
| DepthFramer.DepthScan | kinect2.c:230-268 | at most one segment is appended, holding the whole packet and only while synced; losing sync marks the frame in progress discarded; the image length changes only through an appended segment; the footer is read by `ReadFooter` and checked by `FooterOk` (kinect2.c:235-242) |
| DepthFramer.BadFooterForcesUnsynced | kinect2.c:234-267 | a footer with a non-zero marker or a wrong length leaves the framer unsynced with the frame discarded and nothing appended, from any state |
| DepthFramer.UnsyncedFooterOnlyResyncs | kinect2.c:243-251 | unsynced, a valid footer packet is never appended; it syncs the framer exactly when its sub-sequence is 9 and otherwise changes nothing |
| DepthFramer.UnsyncedNominalDiscards | kinect2.c:253-267 | unsynced, a nominal-size packet discards and the framer stays unsynced |
| DepthFramer.SyncedFooterAppends | kinect2.c:243-247 | synced, a valid footer packet is appended whole: LAST when its sub-sequence is 9, otherwise INTER |
| DepthFramer.SyncedNominalAppends | kinect2.c:253-257 | synced, a nominal-size packet is appended: FIRST outside a frame, INTER inside one |
| DepthFramer.UnsyncedAppendsNothing | kinect2.c:230-268 | unsynced, any series without a resynchronising packet appends nothing, leaves the framer unsynced and the image length unchanged |
| DepthFramer.Resync | kinect2.c:248-250 | from unsynced, noise followed by one sub-sequence-9 footer packet leaves the framer synced with nothing appended and the image length unchanged |
| DepthFramer.DepthRunConcat | kinect2.c:230-268 | feeding two series of packets in turn equals feeding their concatenation |
| DepthFramer.TailEmits | kinect2.c:243-257 | synced inside a frame, received or discarded, inner packets are INTER and the sub-sequence-9 packet is LAST, and the frame ends |
| DepthFramer.FrameEmits | kinect2.c:230-268 | synced outside a frame, a depth frame (nominal packet, inner packets, sub-sequence-9 packet) is emitted as FIRST, INTER…, LAST, each as long as its packet, footer included, and the framer stays synced |
| DepthFramer.DepthFramesInSequence | kinect2.c:230-268 | synced outside a frame, two depth frames in a row are emitted as FIRST, INTER…, LAST each, one after the other |
| DepthFramer.ResyncThenFrame | kinect2.c:230-268 | from unsynced outside a frame, noise, one sub-sequence-9 packet and then a depth frame leave the framer synced, with exactly that frame emitted as FIRST, INTER…, LAST |
| DepthFramer.LossThenAnchor | kinect2.c:234-267 | a malformed footer and then a sub-sequence-9 packet leave the framer synced, the sink marked discarding and the image length unchanged |
| DepthFramer.DiscardingIgnoresInner | kinect2.c:243-257 | synced while the sink discards a frame that holds data, inner packets are handed over as INTER and the sink keeps discarding with its image length unchanged |
| DepthFramer.MidFrameLoss | kinect2.c:230-268 | after a mid-frame loss and a resynchronising packet, the next frame is handed over as INTER…, LAST with no FIRST, the sink is discarding until its LAST, and afterwards the framer is synced with no frame in progress |
| DataPage.IocNr | kinect2.c:592 | `_IOC_NR` is below 0x100 and agrees with the ioctl command in its low eight bits, so it is those bits |
| DataPage.CheckRequest | kinect2.c:578-601 | only numbers 192-194 are served, each by its own page, and only for a declared length equal to that page's length; other numbers give `-EOPNOTSUPP`, and a served number with a wrong length gives exactly `-EINVAL` |
| Kinect2.Sd.SendCmd | kinect2.c:144-207 | the return value, the new `cmdseq`, request and response buffers, the bytes sent, the reply read and the number of calls are those of `SendCmdSpec` on the old state |
| Kinect2.Sd.FillRequest | kinect2.c:159-164 | the loop leaves the request equal to `Prepare` of the old request |
| Kinect2.Sd.ReadCompletion | kinect2.c:188-190 | the response buffer becomes `Overlay` of the bytes read on its old contents |
| Kinect2.Sd.ColorPktScan | kinect2.c:209-228 | the device state becomes `ColorScan` of the old state |
| Kinect2.Sd.DepthPktScan | kinect2.c:230-268 | `synced` and the device state become `DepthScan` of the old ones |
| Kinect2.Sd.PktScan | kinect2.c:270-276 | interface 0 runs the color framer on the buffer, interface 1 runs the depth framer on the first `datalen` bytes, any other interface changes nothing |
| Kinect2.Sd.Config | kinect2.c:421-481 | `cmdseq` is reset to 0; the depth interface takes the isochronous packet size; an interface other than 0 or 1 returns -1 |
| Kinect2.Sd.Start | kinect2.c:501-529 | `synced` is cleared and 0 is returned; on the depth interface `cmdseq` and the request and response buffers become those of a start-depth command, otherwise they are unchanged |
| Kinect2.Sd.StopN | kinect2.c:532-555 | on the depth interface `cmdseq` and the request and response buffers become those of a stop-depth command, otherwise they are unchanged |
| Kinect2.Sd.PrivateIoctl | kinect2.c:575-626 | a bad index or length is refused with no allocation, no transport call and no state change; a failed allocation gives `-ENOMEM`; otherwise one read-data-page command is sent, and anything but a reply of the page's length, or a failed copy, gives `-EFAULT` |

## Left out

- The color streaming task (`kinect2_dostream`, `bulk_pkt`) and the work-queue
  handling of start, stop and `sd_stop0` are not modelled. They are kernel
  concurrency and URB management. The color framer is modelled on the packets
  that task delivers.
- `get_iso_max_packet_size` and `set_isochronous_delay` are not modelled; they
  query or configure USB descriptors. `Sd.Config` takes the packet size as a
  parameter.
- V4L2 and gspca registration (`sd_desc`, the device table, probe, the
  `ioctl_ops` copy in `sd_config`, the camera modes) is not modelled. It is
  static configuration with no behaviour to prove.
- `usb_bulk_msg` is the `Transfer` sequence. A failed read is taken to leave
  the reply and response buffers as they were; bytes a failed transfer may
  have written are not modelled. Timeouts are not modelled.
- `kmalloc` and `copy_to_user` are the booleans `allocOk` and `copyOk`. The
  page read is returned as a value, not copied into user memory.
- FrameSink.Add: models `gspca_frame_add` as its packet-type rules alone, with
  a frame buffer always queued and no overflow. gspca drops a FIRST when no
  buffer is queued and marks an oversized frame discarded; neither is modelled.
  When that happens gspca's `image_len` stays at its old value, so on the
  color interface a dropped FIRST leaves it at 0, and the driver checks the
  magic again on the next packets (kinect2.c:214), where the model instead
  tags them INTER.
- DepthFramer.DepthScan: a packet that is neither of the nominal size nor at
  least a footer long is excluded by `Readable`. For such a packet the code
  reads the footer from before the start of the packet (kinect2.c:236), which
  has no defined value. `Kinect2.Sd.DepthPktScan` and `Kinect2.Sd.PktScan`
  carry the same restriction.
- Segment lengths and the image length are unbounded naturals. The sizes of
  `struct kinect2_color_camera_param`, `struct kinect2_depth_camera_param`,
  `struct kinect2_p0table` and the constant `KINECT2_DEPTH_IMAGE_SIZE` come
  from kinect2.h, which is not part of this model. They are left as
  unspecified constants, and no proof depends on their values.
- The layouts of `struct kinect2_color_header` and
  `struct kinect2_depth_footer` also come from kinect2.h. The model assumes
  the magic is the second header word, and that the footer is 38 words with
  the marker at word 0, the sub-sequence at word 4 and the length at word 5.
- The header and footer fields are compared as raw host words. The model
  decodes them little-endian, which matches the x86 and ARM hosts the sensor
  is used with. The color magic is byte-order free
  (`ColorFramer.HeaderOkIsByteOrderFree`).
- Kinect2.Sd.Start: the return value of the start-depth command is logged and
  ignored by the driver, so the contract states only its effect on the session, not the value it returned.
  The color interface's work-queue start is not modelled.
- Kinect2.Sd.StopN: the color interface's `shutdown` flag belongs to the
  streaming task and is not modelled.
- Debug logging (`PDEBUG`, `CHECK`) has no effect on state and is not
  modelled.
