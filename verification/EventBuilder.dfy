/** The event object: a buffer of 2048 bytes that the adds fill in place. */
module EventBuilder {
  import opened Machine
  import opened Limits
  import opened EventText
  import opened EventFifo

  /** scnprintf(buf + off, size, "%s", text), where size is the room from off to the end of
      buf: writes what fits and a NUL, and returns the number of characters written. */
  method Scnprintf(buf: array<char>, off: nat, text: string) returns (ret: nat)
    requires off < buf.Length
    modifies buf
    ensures ret == Min(|text|, buf.Length - off - 1)
    ensures buf[..off + ret] == old(buf[..off]) + text[..ret] && buf[off + ret] == '\0'
    ensures buf[off + ret + 1..] == old(buf[off + ret + 1..])
  {
    ret := 0;
    while ret < |text| && ret < buf.Length - off - 1
      invariant 0 <= ret <= |text| && ret <= buf.Length - off - 1
      invariant buf[..off + ret] == old(buf[..off]) + text[..ret]
      invariant forall j | off + ret <= j < buf.Length :: buf[j] == old(buf[j])
    {
      buf[off + ret] := text[ret];
      ret := ret + 1;
    }
    buf[off + ret] := '\0';
  }

  class MiEvent {
    var eventId: s32
    var paraCnt: nat
    var usedSize: nat
    var msg: array<char>

    /** The used part always ends with a NUL inside the buffer. */
    ghost predicate Valid()
      reads this, msg
    {
      msg.Length == MAX_EVENT_SIZE && usedSize < MAX_EVENT_SIZE && msg[usedSize] == '\0'
    }

    ghost function View(): (e: Event)
      requires Valid()
      reads this, msg
      ensures InBuffer(e)
    {
      Event(msg[..usedSize], paraCnt)
    }

    /** cdev_tevent_alloc once both allocations have succeeded. */
    constructor (id: u32, time: s64)
      ensures Valid() && fresh(msg) && View() == Start(id, time) && eventId == AsInt(id)
    {
      eventId := AsInt(id);
      paraCnt, usedSize := 0, 0;
      msg := new char[MAX_EVENT_SIZE](_ => '\0');
      new;
      HeaderBound(id, time);
      var ret := Scnprintf(msg, 0, Header(id, time));
      assert 0 < ret < MAX_EVENT_SIZE;
      usedSize := ret;
    }

    /** The common tail of the adds: print, check, count. */
    method AppendText(text: string) returns (ret: int)
      requires Valid() && text != ""
      modifies this, msg
      ensures Valid() && msg == old(msg) && eventId == old(eventId)
      ensures var e := old(View());
              if |e.msg| == MAX_EVENT_SIZE - 1 then ret == -ENOSPC && View() == e
              else ret == 0 && View() == Event(Print(e.msg, text), e.paraCnt + 1)
    {
      var written := Scnprintf(msg, usedSize, text);
      if written <= 0 || written >= MAX_EVENT_SIZE - usedSize {
        return -ENOSPC;
      }
      usedSize := usedSize + written;
      paraCnt := paraCnt + 1;
      return 0;
    }

    method Append(p: Param) returns (ret: int)
      requires Valid() && paraCnt < MAX_PARAMS && Acceptable(p)
      modifies this, msg
      ensures Valid() && msg == old(msg) && eventId == old(eventId)
      ensures (View(), ret) == Add(old(View()), p)
    {
      ret := AppendText(Piece(paraCnt, p));
    }

    /** cdev_tevent_add_int; None stands for a NULL key. */
    method AddInt(key: Option<string>, value: s64) returns (ret: int)
      requires Valid()
      modifies this, msg
      ensures Valid() && msg == old(msg) && eventId == old(eventId)
      ensures key.None? ==> ret == -EINVAL && View() == old(View())
      ensures key.Some? ==> (View(), ret) == Add(old(View()), IntParam(key.value, value))
    {
      if key.None? {
        return -EINVAL;
      }
      if paraCnt >= MAX_PARAMS {
        return -ENOSPC;
      }
      if |key.value| >= MAX_PARAM_NAME {
        return -EINVAL;
      }
      ret := Append(IntParam(key.value, value));
    }

    /** cdev_tevent_add_str; None stands for a NULL key or value. */
    method AddStr(key: Option<string>, value: Option<string>) returns (ret: int)
      requires Valid()
      modifies this, msg
      ensures Valid() && msg == old(msg) && eventId == old(eventId)
      ensures key.None? || value.None? ==> ret == -EINVAL && View() == old(View())
      ensures key.Some? && value.Some? ==> (View(), ret) == Add(old(View()), StrParam(key.value, value.value))
    {
      if key.None? || value.None? {
        return -EINVAL;
      }
      if paraCnt >= MAX_PARAMS {
        return -ENOSPC;
      }
      if |key.value| >= MAX_PARAM_NAME || |value.value| >= MAX_PARAM_STRING {
        return -EINVAL;
      }
      ret := Append(StrParam(key.value, value.value));
    }

    /** cdev_tevent_write: the footer, then the hand-over to the queue of the device, if
        there is one. Without room for the footer nothing happens at all. */
    method Write(dev: MievDevice?) returns (ret: int)
      requires Valid() && (dev != null ==> dev.Valid())
      modifies this, msg, dev
      ensures Valid() && msg == old(msg) && eventId == old(eventId)
      ensures dev != null ==> dev.Valid()
      ensures Finish(old(View())).None? ==> ret == -ENOSPC && View() == old(View())
      ensures Finish(old(View())).Some? ==> View() == Finish(old(View())).value
      ensures Finish(old(View())).Some? && dev == null ==> ret == -EINVAL
      ensures dev != null && Finish(old(View())).None? ==> dev.fifo == old(dev.fifo)
      ensures dev != null && Finish(old(View())).Some? ==>
        if |View().msg| <= FIFO_SIZE - old(|dev.fifo|)
        then ret == 0 && dev.fifo == old(dev.fifo) + View().msg
        else ret == -ENOSPC && old(dev.fifo) <= dev.fifo < old(dev.fifo) + View().msg
    {
      var written := Scnprintf(msg, usedSize, "}\n");
      if written <= 0 || written >= MAX_EVENT_SIZE - usedSize {
        return -ENOSPC;
      }
      usedSize := usedSize + written;
      ret := WriteBufInner(dev, msg[..usedSize]);
    }
  }

  /** cdev_tevent_alloc: NULL when either allocation fails; the header always fits. */
  method AllocEvent(id: u32, time: s64, haveEvent: bool, haveBuffer: bool) returns (event: MiEvent?)
    ensures event != null <==> haveEvent && haveBuffer
    ensures event != null ==> fresh(event) && event.Valid() && fresh(event.msg)
    ensures event != null ==> event.View() == Start(id, time) && event.View().msg == Header(id, time)
  {
    if !haveEvent || !haveBuffer {
      return null;
    }
    HeaderBound(id, time);
    event := new MiEvent(id, time);
  }
}
