/** The exchanges scsi_meta.py drives against the module-global device `dev` and its
    bulk endpoints `ep_in` and `ep_out`: the Command Block Wrapper to OUT, the data phase
    from IN, then a status read from IN that is never decoded. */
module BulkOnly {
  import opened Wrappers
  import opened ByteCodec
  import opened CommandBlock
  import opened ScsiData

  /** One call into the USB library, as the device sees it. */
  datatype Event =
    | Write(ep: Byte, bytes: seq<Byte>)
    | Read(ep: Byte, length: nat)
    | ClearHalt(ep: Byte)

  /** How the device answers one call: it completes the transfer (for a read, sending
      `data`; for a write or a clear-halt, `data` is not looked at), or the library raises
      usb.core.USBError (a stall, a timeout, a disconnect). */
  datatype Reply = Transfer(data: seq<Byte>) | Stall

  /** The answer to the k-th call; a device that has nothing more to say times out. */
  function ReplyAt(rs: seq<Reply>, k: nat): Reply
  {
    if k < |rs| then rs[k] else Stall
  }

  function Drop(rs: seq<Reply>, k: nat): seq<Reply>
  {
    if k <= |rs| then rs[k..] else []
  }

  /** The next answer after `j` calls is the `j`-th, and taking it leaves `j + 1` used. */
  lemma DropNext(rs: seq<Reply>, j: nat)
    ensures ReplyAt(Drop(rs, j), 0) == ReplyAt(rs, j)
    ensures Drop(Drop(rs, j), 1) == Drop(rs, j + 1)
  {
  }

  /** What `dev.read(ep, n)` hands back against answer `r`: everything the device sent,
      or None when the call raises, because the device stalled or because it sent more
      than the `n` bytes asked for (libusb reports an overflow, which pyusb raises as
      usb.core.USBError). A read never truncates. */
  function Received(r: Reply, n: nat): (d: Option<seq<Byte>>)
    ensures d.Some? <==> r.Transfer? && |r.data| <= n
    ensures d.Some? ==> d.value == r.data && |d.value| <= n
  {
    if r.Transfer? && |r.data| <= n then Some(r.data) else None
  }

  /** Why a command produced no record. */
  datatype Failure =
    | UsbError       // usb.core.USBError out of write, read or clear_halt
    | ShortData      // IndexError or struct.error while decoding the data phase
    | SerialUnbound  // the serial-number record names `serial`, never assigned

  /** The opened device with its two bulk endpoint addresses. `trace` is every call made
      so far; `replies` is what the device will answer to the calls still to come. */
  class Device {
    const epIn: Byte
    const epOut: Byte
    var trace: seq<Event>
    var replies: seq<Reply>

    constructor (epIn: Byte, epOut: Byte, replies: seq<Reply>)
      ensures this.epIn == epIn && this.epOut == epOut
      ensures trace == [] && this.replies == replies
    {
      this.epIn := epIn;
      this.epOut := epOut;
      trace := [];
      this.replies := replies;
    }

    /** Takes the answer to the next call off the script. */
    method Next() returns (r: Reply)
      modifies this`replies
      ensures r == ReplyAt(old(replies), 0)
      ensures replies == Drop(old(replies), 1)
    {
      if replies == [] {
        r := Stall;
      } else {
        r := replies[0];
        replies := replies[1..];
      }
    }

    /** `dev.write(ep, bytes)`: true unless it raises. */
    method Write(ep: Byte, bytes: seq<Byte>) returns (ok: bool)
      modifies this
      ensures trace == old(trace) + [Event.Write(ep, bytes)]
      ensures replies == Drop(old(replies), 1)
      ensures ok == ReplyAt(old(replies), 0).Transfer?
    {
      trace := trace + [Event.Write(ep, bytes)];
      var r := Next();
      ok := r.Transfer?;
    }

    /** `dev.read(ep, n)`: the bytes received, or None when it raises. */
    method Read(ep: Byte, n: nat) returns (data: Option<seq<Byte>>)
      modifies this
      ensures trace == old(trace) + [Event.Read(ep, n)]
      ensures replies == Drop(old(replies), 1)
      ensures data == Received(ReplyAt(old(replies), 0), n)
    {
      trace := trace + [Event.Read(ep, n)];
      var r := Next();
      data := Received(r, n);
    }

    /** `dev.clear_halt(ep)`: true unless it raises. */
    method ClearHalt(ep: Byte) returns (ok: bool)
      modifies this
      ensures trace == old(trace) + [Event.ClearHalt(ep)]
      ensures replies == Drop(old(replies), 1)
      ensures ok == ReplyAt(old(replies), 0).Transfer?
    {
      trace := trace + [Event.ClearHalt(ep)];
      var r := Next();
      ok := r.Transfer?;
    }
  }

  // ---------------------------------------------------------------------------
  // The shape of one exchange

  /** Every call one exchange can make, in the order it makes them: the wrapper to OUT,
      the data phase from IN, the status from IN, then clearing the halt on IN and on OUT. */
  function Script(epIn: Byte, epOut: Byte, cbw: seq<Byte>, dataLength: nat, statusLength: nat)
    : (s: seq<Event>)
    ensures |s| == 5
  {
    [Event.Write(epOut, cbw), Event.Read(epIn, dataLength), Event.Read(epIn, statusLength),
     Event.ClearHalt(epIn), Event.ClearHalt(epOut)]
  }

  /** How many calls of the script an exchange makes against replies `rs`. A failed
      write or data read ends it; so does a data phase too short to decode, before any
      status read; a status read that raises is followed by the two clear-halts only for
      the INQUIRY commands (`recover`), and a failing first clear-halt skips the second. */
  function Steps(rs: seq<Reply>, dataLength: nat, minLength: nat, statusLength: nat, recover: bool)
    : (k: nat)
    ensures 1 <= k <= 5
  {
    if ReplyAt(rs, 0).Stall? then 1
    else if Received(ReplyAt(rs, 1), dataLength).None? || |ReplyAt(rs, 1).data| < minLength then 2
    else if Received(ReplyAt(rs, 2), statusLength).Some? || !recover then 3
    else if ReplyAt(rs, 3).Stall? then 4
    else 5
  }

  /** What an exchange hands to the decoder: the data-phase bytes, whatever the status
      read returned, or why there are none. */
  function Outcome(rs: seq<Reply>, dataLength: nat, minLength: nat, statusLength: nat, recover: bool)
    : (r: Result<seq<Byte>, Failure>)
    ensures r.Ok? ==> && ReplyAt(rs, 0).Transfer? && ReplyAt(rs, 1).Transfer?
                      && r.value == ReplyAt(rs, 1).data && |r.value| <= dataLength
                      && (|| Received(ReplyAt(rs, 2), statusLength).Some?
                          || (recover && ReplyAt(rs, 3).Transfer? && ReplyAt(rs, 4).Transfer?))
    ensures (r.Err? && r.error.ShortData?) <==>
              && ReplyAt(rs, 0).Transfer? && ReplyAt(rs, 1).Transfer?
              && |ReplyAt(rs, 1).data| <= dataLength && |ReplyAt(rs, 1).data| < minLength
    ensures r.Err? ==> r.error.UsbError? || r.error.ShortData?
  {
    if ReplyAt(rs, 0).Stall? then Err(UsbError)
    else
      var data := Received(ReplyAt(rs, 1), dataLength);
      if data.None? then Err(UsbError)
      else if |data.value| < minLength then Err(ShortData)
      else if Received(ReplyAt(rs, 2), statusLength).Some? then Ok(data.value)
      else if recover && ReplyAt(rs, 3).Transfer? && ReplyAt(rs, 4).Transfer? then Ok(data.value)
      else Err(UsbError)
  }

  /** A successful exchange read the status exactly once, after the data phase, and
      returned the data phase itself. */
  lemma OutcomeOk(rs: seq<Reply>, dataLength: nat, minLength: nat, statusLength: nat, recover: bool)
    requires Outcome(rs, dataLength, minLength, statusLength, recover).Ok?
    ensures var k := Steps(rs, dataLength, minLength, statusLength, recover);
            k == 3 || (recover && k == 5 && Received(ReplyAt(rs, 2), statusLength).None?)
    ensures ReplyAt(rs, 1).Transfer?
    ensures Outcome(rs, dataLength, minLength, statusLength, recover).value == ReplyAt(rs, 1).data
    ensures minLength <= |Outcome(rs, dataLength, minLength, statusLength, recover).value| <= dataLength
  {
  }

  /** A device that answers the data phase with more bytes than were asked for makes the
      read raise: the exchange ends after two calls, with no data. */
  lemma OverlongDataFails(rs: seq<Reply>, dataLength: nat, minLength: nat, statusLength: nat, recover: bool)
    requires ReplyAt(rs, 1).Transfer? && dataLength < |ReplyAt(rs, 1).data|
    ensures Outcome(rs, dataLength, minLength, statusLength, recover).Err?
    ensures Outcome(rs, dataLength, minLength, statusLength, recover).error.UsbError?
    ensures Steps(rs, dataLength, minLength, statusLength, recover) <= 2
  {
  }

  /** The status bytes are never decoded: any two status answers that both complete give
      the same outcome. */
  lemma StatusNotDecoded(rs: seq<Reply>, status: seq<Byte>, dataLength: nat, minLength: nat,
                         statusLength: nat, recover: bool)
    requires 3 <= |rs| && rs[2].Transfer? && |rs[2].data| <= statusLength && |status| <= statusLength
    ensures Outcome(rs[2 := Transfer(status)], dataLength, minLength, statusLength, recover)
            == Outcome(rs, dataLength, minLength, statusLength, recover)
  {
  }

  /** A status read that raises on an INQUIRY is recovered from: once both halts are
      cleared the record is still produced from the same data phase. */
  lemma StallRecovered(rs: seq<Reply>, dataLength: nat, minLength: nat, statusLength: nat)
    requires 5 <= |rs| && rs[0].Transfer? && rs[1].Transfer? && rs[2].Stall?
    requires rs[3].Transfer? && rs[4].Transfer?
    requires minLength <= |rs[1].data| <= dataLength
    ensures Outcome(rs, dataLength, minLength, statusLength, true) == Ok(rs[1].data)
    ensures Steps(rs, dataLength, minLength, statusLength, true) == 5
    ensures Outcome(rs, dataLength, minLength, statusLength, false) == Err(UsbError)
  {
  }

  /** One exchange for wrapper `w`: pack it and write it to OUT, read
      `dCBWDataTransferLength` bytes from IN, stop if fewer than `minLength` came back
      (the decoder would raise), then read `statusLength` status bytes, clearing the halt
      on IN and then OUT if that read raises and `recover` is set. */
  method Transact(dev: Device, w: Wrapper, minLength: nat, statusLength: nat, recover: bool)
    returns (r: Result<seq<Byte>, Failure>)
    modifies dev
    ensures var rs := old(dev.replies);
            var k := Steps(rs, w.dataTransferLength, minLength, statusLength, recover);
            && dev.trace == old(dev.trace)
                 + Script(dev.epIn, dev.epOut, Encode(w), w.dataTransferLength, statusLength)[..k]
            && dev.replies == Drop(rs, k)
    ensures r == Outcome(old(dev.replies), w.dataTransferLength, minLength, statusLength, recover)
  {
    ghost var t0, rs := dev.trace, dev.replies;
    ghost var script := Script(dev.epIn, dev.epOut, Encode(w), w.dataTransferLength, statusLength);
    assert rs == Drop(rs, 0);
    var cbw := Pack(w);
    DropNext(rs, 0);
    var ok := dev.Write(dev.epOut, cbw);
    if !ok {
      return Err(UsbError);
    }
    DropNext(rs, 1);
    var data := dev.Read(dev.epIn, w.dataTransferLength);
    assert dev.trace == t0 + script[..2];
    if data.None? {
      return Err(UsbError);
    }
    if |data.value| < minLength {
      return Err(ShortData);
    }
    DropNext(rs, 2);
    var status := dev.Read(dev.epIn, statusLength);
    assert dev.trace == t0 + script[..3];
    if status.None? && recover {
      DropNext(rs, 3);
      ok := dev.ClearHalt(dev.epIn);
      assert dev.trace == t0 + script[..4];
      if !ok {
        return Err(UsbError);
      }
      DropNext(rs, 4);
      ok := dev.ClearHalt(dev.epOut);
      assert dev.trace == t0 + script[..5];
      if !ok {
        return Err(UsbError);
      }
    } else if status.None? {
      return Err(UsbError);
    }
    r := Ok(data.value);
  }

  // ---------------------------------------------------------------------------
  // The three commands

  /** The status lengths the script reads: 16 after an INQUIRY (more than a 13-byte
      Command Status Wrapper), 13 after READ CAPACITY. */
  const InquiryStatusLength := 16
  const ReadCapacityStatusLength := 13

  /** Inquiry1: standard INQUIRY, then SCSI version, vendor and product. */
  method Inquiry1(dev: Device) returns (r: Result<InquiryRecord, Failure>)
    modifies dev
    ensures var w := StandardInquiryWrapper();
            var k := Steps(old(dev.replies), 36, 3, InquiryStatusLength, true);
            && dev.trace == old(dev.trace) + Script(dev.epIn, dev.epOut, Encode(w), 36, InquiryStatusLength)[..k]
            && dev.replies == Drop(old(dev.replies), k)
    ensures var out := Outcome(old(dev.replies), 36, 3, InquiryStatusLength, true);
            && (out.Ok? ==> ParseInquiry(out.value).Ok? && r == Ok(ParseInquiry(out.value).value))
            && (out.Err? ==> r == Err(out.error))
  {
    var data := Transact(dev, StandardInquiryWrapper(), 3, InquiryStatusLength, true);
    if data.Err? {
      return Err(data.error);
    }
    var parsed := ParseInquiry(data.value);
    assert parsed.Ok?;
    r := Ok(parsed.value);
  }

  /** The record Inquiry2 builds. */
  datatype SerialRecord = SerialRecord(removable: string, serial: string)

  /** Inquiry2: INQUIRY for the Unit Serial Number page, then "Removable" and "Serial".
      When the page code is not 0x80 the record cannot be built, after the status read. */
  method Inquiry2(dev: Device) returns (r: Result<SerialRecord, Failure>)
    modifies dev
    ensures var w := SerialInquiryWrapper();
            var k := Steps(old(dev.replies), 24, 5, InquiryStatusLength, true);
            && dev.trace == old(dev.trace) + Script(dev.epIn, dev.epOut, Encode(w), 24, InquiryStatusLength)[..k]
            && dev.replies == Drop(old(dev.replies), k)
    ensures var out := Outcome(old(dev.replies), 24, 5, InquiryStatusLength, true);
            && (out.Err? ==> r == Err(out.error))
            && (out.Ok? ==>
                  var page := ParseSerialPage(out.value);
                  && page.Ok?
                  && (page.value.serial.None? ==> r == Err(SerialUnbound))
                  && (page.value.serial.Some? ==>
                        r == Ok(SerialRecord(if page.value.removable then "Yes" else "No",
                                             page.value.serial.value))))
    ensures r.Ok? ==> r.value.removable == "Yes"
  {
    var data := Transact(dev, SerialInquiryWrapper(), 5, InquiryStatusLength, true);
    if data.Err? {
      return Err(data.error);
    }
    var page := ParseSerialPage(data.value);
    assert page.Ok?;
    if page.value.serial.None? {
      return Err(SerialUnbound);
    }
    SerialImpliesRemovable(data.value);
    r := Ok(SerialRecord(if page.value.removable then "Yes" else "No", page.value.serial.value));
  }

  /** readcap: READ CAPACITY(10), then total blocks, block size and capacity in bytes. The
      status read is not guarded: if it raises, no record is produced. */
  method ReadCap(dev: Device) returns (r: Result<CapacityRecord, Failure>)
    modifies dev
    ensures var w := ReadCapacityWrapper();
            var k := Steps(old(dev.replies), 8, 8, ReadCapacityStatusLength, false);
            && dev.trace == old(dev.trace) + Script(dev.epIn, dev.epOut, Encode(w), 8, ReadCapacityStatusLength)[..k]
            && dev.replies == Drop(old(dev.replies), k)
    ensures var out := Outcome(old(dev.replies), 8, 8, ReadCapacityStatusLength, false);
            && (out.Ok? ==> ParseReadCapacity(out.value).Ok? && r == Ok(ParseReadCapacity(out.value).value))
            && (out.Err? ==> r == Err(out.error))
    ensures r.Ok? ==> |dev.trace| == |old(dev.trace)| + 3
  {
    ghost var rs := dev.replies;
    var data := Transact(dev, ReadCapacityWrapper(), 8, ReadCapacityStatusLength, false);
    if data.Err? {
      return Err(data.error);
    }
    OutcomeOk(rs, 8, 8, ReadCapacityStatusLength, false);
    var parsed := ParseReadCapacity(data.value);
    assert parsed.Ok?;
    r := Ok(parsed.value);
  }
}
