/** The wire records of a firmware transfer, and the device at the other end.

    The device follows the Transfer FW command of the CXL specification
    (section 8.2.9.3.2 of CXL 3.0): parts must arrive in order of their offset,
    and the part received last may be sent again, back to back. */
module FirmwareDevice {
  import opened Machine

  const BLOCK_SIZE := 128
  const BYTE_ALIGN := 128

  datatype Action = Initiate | Continue | End | Abort

  /** Which command carries the request: the standard Transfer FW, or one of the vendor opcodes. */
  datatype Channel = Standard | VendorFw | VendorOs

  datatype Request = Request(channel: Channel, action: Action, slot: nat, offset: nat, data: seq<byte>)

  /** One answer to a transfer command. The device may take a part and still
      report failure, but a success report means that it took the part. */
  datatype Reply = Reply(taken: bool, rc: int)
  type DeviceReply = r: Reply | r.rc == 0 ==> r.taken witness Reply(true, 0)

  datatype Event =
    | Sent(req: Request, reply: DeviceReply)
    | Polled(rc: int)

  datatype Stage = Idle | Loading | Loaded | Dropped

  /** `fault` records that a part was ever offered out of turn. */
  datatype Receiver = Receiver(image: seq<byte>, last: Option<Request>, stage: Stage, fault: bool)

  const POWERED_UP := Receiver([], None, Idle, false)

  predicate Repeats(d: Receiver, req: Request) {
    && d.last.Some?
    && d.last.value.(data := req.data) == req
    && BYTE_ALIGN * req.offset <= |d.image|
  }

  predicate InTurn(d: Receiver, req: Request) {
    || Repeats(d, req)
    || (req.action == Initiate && d.stage == Idle && req.offset == 0)
    || (req.action in {Continue, End} && d.stage == Loading && BYTE_ALIGN * req.offset == |d.image|)
  }

  /** A repeated part is written again over the bytes it brought the first time. */
  function Offer(d: Receiver, req: Request, taken: bool): Receiver {
    if req.action == Abort then
      if taken then Receiver([], None, Dropped, d.fault) else d
    else if !InTurn(d, req) then
      d.(fault := true)
    else if !taken then
      d
    else if Repeats(d, req) then
      d.(image := d.image[..BYTE_ALIGN * req.offset] + req.data)
    else
      Receiver(d.image + req.data, Some(req), if req.action == End then Loaded else Loading, d.fault)
  }

  /** The device after one more command; a status poll does not change it. */
  function DeviceStep(d: Receiver, e: Event): Receiver {
    match e
    case Sent(req, reply) => Offer(d, req, reply.taken)
    case Polled(_) => d
  }

  /** The device after it has seen the commands of a log. */
  function DeviceAfter(log: seq<Event>): Receiver {
    if log == [] then POWERED_UP
    else DeviceStep(DeviceAfter(log[..|log| - 1]), log[|log| - 1])
  }

  function Merge(requests: seq<Request>, e: Event): seq<Request> {
    match e
    case Sent(req, _) =>
      if requests != [] && requests[|requests| - 1] == req then requests else requests + [req]
    case Polled(_) => requests
  }

  /** The transfer requests of a log, with back-to-back repeats merged into one. */
  function Collapsed(log: seq<Event>): seq<Request> {
    if log == [] then []
    else Merge(Collapsed(log[..|log| - 1]), log[|log| - 1])
  }

  lemma LogGrows(log: seq<Event>, e: Event)
    ensures Collapsed(log + [e]) == Merge(Collapsed(log), e)
    ensures DeviceAfter(log + [e]) == DeviceStep(DeviceAfter(log), e)
  {
    assert (log + [e])[..|log + [e]| - 1] == log;
  }
}
