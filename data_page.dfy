/**
 * The private ioctl that reads a calibration data page from the device
 * (`sd_private_ioctl`): the ioctl number selects one of three pages, and the
 * caller must declare exactly that page's length. Both are checked before
 * any allocation or transport call.
 */
module DataPage {

  import opened Bytes

  /** `BASE_VIDIOC_PRIVATE`: the first driver-private V4L2 ioctl number. */
  const BASE_VIDIOC_PRIVATE := 192

  /** Linux error numbers. */
  const ENOMEM := 12
  const EFAULT := 14
  const EINVAL := 22
  const EOPNOTSUPP := 95

  /**
   * The sizes of the page structs declared in kinect2.h, which is not part
   * of this model; no proof here depends on their values.
   */
  const COLOR_CAMERA_PARAM_SIZE: u32
  const DEPTH_CAMERA_PARAM_SIZE: u32
  const P0TABLE_SIZE: u32

  /** A table entry: the page identifier sent to the device and the page's length. */
  datatype Page = Page(id: u32, len: u32)

  /** The page table, indexed by ioctl number minus BASE_VIDIOC_PRIVATE. */
  const PAGES: seq<Page> := [
    Page(0x04, COLOR_CAMERA_PARAM_SIZE),
    Page(0x03, DEPTH_CAMERA_PARAM_SIZE),
    Page(0x02, P0TABLE_SIZE)
  ]

  /** `_IOC_NR(cmd)`: the low eight bits of an ioctl command. */
  function IocNr(cmd: u32): (nr: nat)
    ensures nr < 0x100
    // cmd and nr agree in their low eight bits
    ensures (cmd - nr) % 0x100 == 0
  {
    cmd % 0x100
  }

  datatype Checked = Accepted(page: Page) | Rejected(error: int)

  /** The index and length checks that open `sd_private_ioctl`. */
  function CheckRequest(cmd: u32, reqLen: int): (r: Checked)
    // only the three private numbers are served, each by its own page
    ensures r.Accepted? ==>
      || (IocNr(cmd) == 192 && r.page == Page(0x04, COLOR_CAMERA_PARAM_SIZE))
      || (IocNr(cmd) == 193 && r.page == Page(0x03, DEPTH_CAMERA_PARAM_SIZE))
      || (IocNr(cmd) == 194 && r.page == Page(0x02, P0TABLE_SIZE))
    // and only to a caller that declared that page's exact length
    ensures r.Accepted? ==> reqLen == r.page.len
    // any other number is not supported
    ensures !(192 <= IocNr(cmd) <= 194) ==> r == Rejected(-EOPNOTSUPP)
    // a supported number with any other length is invalid
    ensures 192 <= IocNr(cmd) <= 194 ==>
      (r.Accepted? <==> reqLen == PAGES[IocNr(cmd) - 192].len)
    ensures 192 <= IocNr(cmd) <= 194 && reqLen != PAGES[IocNr(cmd) - 192].len ==> r == Rejected(-EINVAL)
    ensures r.Rejected? ==> r.error == -EOPNOTSUPP || r.error == -EINVAL
  {
    var num := IocNr(cmd) - BASE_VIDIOC_PRIVATE;
    if num < 0 || |PAGES| <= num then Rejected(-EOPNOTSUPP)
    else if reqLen != PAGES[num].len then Rejected(-EINVAL)
    else Accepted(PAGES[num])
  }
}
