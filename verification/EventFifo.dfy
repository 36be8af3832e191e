/** The byte queue of /dev/miev and the functions that fill and drain it. */
module EventFifo {
  import opened Machine
  import opened Limits

  /** kfifo_in: the largest prefix of buf that fits, and its length. */
  function KfifoIn(fifo: string, buf: string): (string, nat)
    requires |fifo| <= FIFO_SIZE
  {
    var copied := Min(|buf|, FIFO_SIZE - |fifo|);
    (fifo + buf[..copied], copied)
  }

  /** kfifo_to_user: at most count bytes from the front, and what stays. */
  function KfifoOut(fifo: string, count: nat): (string, string) {
    var copied := Min(|fifo|, count);
    (fifo[..copied], fifo[copied..])
  }

  datatype ReadOutcome = Delivered(bytes: string) | Failed(code: int) | Sleeps

  class MievDevice {
    var fifo: string
    /** Calls of wake_up_interruptible so far. */
    var wakeups: nat

    constructor ()
      ensures Valid() && fifo == "" && wakeups == 0
    {
      fifo, wakeups := "", 0;
    }

    ghost predicate Valid()
      reads this
    {
      |fifo| <= FIFO_SIZE
    }

    /** The locked section of write_buf_inner and the wake-up after it. A message that does
        not fit leaves its prefix behind, reports -ENOSPC and wakes nobody. */
    method Insert(buf: string) returns (ret: int)
      requires Valid()
      modifies this
      ensures Valid()
      ensures ret == 0 <==> 0 < |buf| <= FIFO_SIZE - old(|fifo|)
      ensures ret == 0 ==> fifo == old(fifo) + buf && wakeups == old(wakeups) + 1
      ensures ret != 0 ==> wakeups == old(wakeups)
      ensures ret != 0 ==> ret == if buf == "" then -EINVAL else -ENOSPC
      ensures ret == -EINVAL ==> fifo == old(fifo)
      ensures ret == -ENOSPC ==> |fifo| == FIFO_SIZE && old(fifo) <= fifo <= old(fifo) + buf
    {
      if |buf| == 0 {
        return -EINVAL;
      }
      var (contents, copied) := KfifoIn(fifo, buf);
      fifo := contents;
      if copied != |buf| {
        assert buf == buf[..copied] + buf[copied..];
        return -ENOSPC;
      }
      wakeups := wakeups + 1;
      return 0;
    }
  }

  /** write_buf_inner: without a device it fails before anything happens. */
  method WriteBufInner(dev: MievDevice?, buf: string) returns (ret: int)
    requires dev != null ==> dev.Valid()
    modifies dev
    ensures dev == null ==> ret == -EINVAL
    ensures dev != null ==> dev.Valid()
    ensures dev != null ==> (ret == 0 <==> 0 < |buf| <= FIFO_SIZE - old(|dev.fifo|))
    ensures dev != null && ret == 0 ==> dev.fifo == old(dev.fifo) + buf
    ensures dev != null && ret != 0 ==> ret == if buf == "" then -EINVAL else -ENOSPC
    ensures dev != null && ret == -EINVAL ==> dev.fifo == old(dev.fifo)
    ensures dev != null && ret == -ENOSPC ==>
              |dev.fifo| == FIFO_SIZE && old(dev.fifo) <= dev.fifo <= old(dev.fifo) + buf
    ensures dev != null ==> dev.wakeups == old(dev.wakeups) + if ret == 0 then 1 else 0
  {
    if dev == null {
      return -EINVAL;
    }
    ret := dev.Insert(buf);
  }
  /** miev_write. The allocation may fail and the copy from user space may fault; without a
      device a write fails only when it comes to inserting. */
  method MievWrite(dev: MievDevice?, buf: string, haveBuffer: bool, userCopied: bool) returns (ret: int)
    requires dev != null ==> dev.Valid()
    modifies dev
    ensures dev != null ==> dev.Valid()
    ensures |buf| == 0 ==> ret == 0
    ensures |buf| > MAX_EVENT_SIZE ==> ret == -EINVAL
    ensures 0 < |buf| <= MAX_EVENT_SIZE && !haveBuffer ==> ret == -ENOMEM
    ensures 0 < |buf| <= MAX_EVENT_SIZE && haveBuffer && !userCopied ==> ret == -EFAULT
    ensures 0 < |buf| <= MAX_EVENT_SIZE && haveBuffer && userCopied ==>
              ret == if dev == null then -EINVAL
                     else if |buf| <= FIFO_SIZE - old(|dev.fifo|) then |buf| else -ENOSPC
    ensures dev != null && ret > 0 ==> dev.fifo == old(dev.fifo) + buf
    ensures dev != null && ret == -ENOSPC ==>
              |dev.fifo| == FIFO_SIZE && old(dev.fifo) <= dev.fifo < old(dev.fifo) + buf
    ensures dev != null && ret <= 0 && ret != -ENOSPC ==> dev.fifo == old(dev.fifo)
    ensures dev != null ==> dev.wakeups == old(dev.wakeups) + if ret > 0 then 1 else 0
  {
    if |buf| == 0 {
      return 0;
    }
    if |buf| > MAX_EVENT_SIZE {
      return -EINVAL;
    }
    if !haveBuffer {
      return -ENOMEM;
    }
    if !userCopied {
      return -EFAULT;
    }
    ret := WriteBufInner(dev, buf);
    if ret == 0 {
      ret := |buf|;
    }
  }

  /** miev_read as far as it runs without interference: on an empty queue it refuses or goes
      to sleep, otherwise it takes the longest prefix asked for. */
  method MievRead(dev: MievDevice?, count: nat, nonblock: bool) returns (r: ReadOutcome)
    requires dev != null ==> dev.Valid()
    modifies dev
    ensures dev == null ==> r == Failed(-ENODEV)
    ensures dev != null ==> dev.Valid() && dev.wakeups == old(dev.wakeups)
    ensures dev != null && old(dev.fifo) == "" ==>
              r == (if nonblock then Failed(-EAGAIN) else Sleeps) && dev.fifo == ""
    ensures dev != null && old(dev.fifo) != "" ==>
              && r.Delivered? && r.bytes + dev.fifo == old(dev.fifo)
              && |r.bytes| == Min(count, old(|dev.fifo|))
  {
    if dev == null {
      return Failed(-ENODEV);
    }
    if |dev.fifo| == 0 {
      return if nonblock then Failed(-EAGAIN) else Sleeps;
    }
    var (taken, rest) := KfifoOut(dev.fifo, count);
    dev.fifo := rest;
    return Delivered(taken);
  }
}
