/** The firmware-update driver, cxl_cmd_update_device_fw. */
module FirmwareUpdate {
  import opened Machine
  import opened FirmwareDevice

  const MAX_RETRIES := 10
  const ENOENT := 2
  const ENOMEM := 12

  /** What a run is asked to do; `mock` asks for an abort after the first block. */
  datatype Params = Params(isOs: bool, hbo: bool, slot: nat, mock: bool)

  /** An answer to the background-status command: the transport's result and the status word. */
  datatype PollReply = PollReply(transport: int, status: bv64)

  /** Everything the driver cannot decide itself. The k-th command of the run is
      answered by send(k) or poll(k). */
  datatype Env = Env(
    opens: bool, statOk: bool, romAlloc: bool, readOk: bool,
    blockAlloc: nat -> bool, send: nat -> DeviceReply, poll: nat -> PollReply)

  const RUNNING_SHIFT := 23
  const RUNNING_MASK: bv64 := 0x80_0000

  /** The is_running field of the status. */
  function Running(status: bv64): bv64 {
    (status & RUNNING_MASK) >> RUNNING_SHIFT
  }

  /** Result of the background-status command: nonzero while the operation is running. */
  function HboStatus(p: PollReply): int {
    if p.transport != 0 then p.transport
    else if Running(p.status) != 0 then 1
    else 0
  }

  /** The field is a single bit, number 23, so it survives the store in a byte; and it does not
      depend on the opcode, the progress or the other fields of the word. */
  lemma RunningIsBit23(status: bv64, other: bv64)
    ensures Running(status) == 0 || Running(status) == 1
    ensures Running(status) == 1 <==> (status >> 23) % 2 == 1
    ensures Running((status & RUNNING_MASK) | (other & !RUNNING_MASK)) == Running(status)
  {
    assert (status >> 23) % 2 == (status >> 23) & 1;
  }

  /** The status came over and says that nothing is running. */
  predicate SaysIdle(p: PollReply) {
    p.transport == 0 && (p.status >> 23) % 2 == 0
  }

  /** The status command returns 0 for such an answer only; it hands on a failure of the transport
      and returns 1 for a running operation. */
  lemma StatusIsRead(p: PollReply)
    ensures HboStatus(p) == 0 <==> SaysIdle(p)
    ensures p.transport != 0 ==> HboStatus(p) == p.transport
    ensures p.transport == 0 && (p.status >> 23) % 2 == 1 ==> HboStatus(p) == 1
  {
    RunningIsBit23(p.status, 0);
    assert (p.status >> 23) % 2 == (p.status >> 23) & 1;
  }

  function ChannelOf(p: Params): Channel {
    if p.isOs then VendorOs else if p.hbo then VendorFw else Standard
  }

  // ----- cutting the image into blocks

  datatype Job = Job(channel: Channel, slot: nat, mock: bool, image: seq<byte>)

  function BlockCount(size: nat): nat {
    size / BLOCK_SIZE + (if size % BLOCK_SIZE != 0 then 1 else 0)
  }

  function BlockLength(size: nat, i: nat): nat {
    if i == BlockCount(size) - 1 && size % BLOCK_SIZE != 0 then size % BLOCK_SIZE else BLOCK_SIZE
  }

  /** The number of image bytes in the first i blocks. */
  function BytesBefore(size: nat, i: nat): nat {
    if BLOCK_SIZE * i < size then BLOCK_SIZE * i else size
  }

  /** The blocks are non-empty, at most 128 bytes long, and lie end to end. */
  lemma BlocksTile(size: nat, i: nat)
    requires i < BlockCount(size)
    ensures 0 < BlockLength(size, i) <= 128
    ensures BytesBefore(size, i) == 128 * i
    ensures BytesBefore(size, i) + BlockLength(size, i) == BytesBefore(size, i + 1)
    ensures BytesBefore(size, BlockCount(size)) == size && BlockCount(size) == (size + 127) / 128
  {
  }

  /** No 32-bit overflow in the driver's arithmetic, for every size an int can hold. */
  lemma BlockArithmeticFits(size: nat, i: nat)
    requires size < INT32_LIMIT && i < BlockCount(size)
    ensures i * 100 < INT32_LIMIT && 128 * i < INT32_LIMIT && BlockCount(size) < INT32_LIMIT
  {
  }

  function ActionOf(n: nat, i: nat): Action {
    if i == 0 then Initiate else if i == n - 1 then End else Continue
  }

  /** The request for block i; its offset counts units of 128 bytes. */
  function Part(job: Job, i: nat): Request
    requires i < BlockCount(|job.image|)
  {
    var size := |job.image|;
    BlocksTile(size, i);
    Request(job.channel, ActionOf(BlockCount(size), i), job.slot, i * (BLOCK_SIZE / BYTE_ALIGN),
            job.image[BLOCK_SIZE * i..BLOCK_SIZE * i + BlockLength(size, i)])
  }

  /** The abort request reuses the buffer of the current block. */
  function AbortOf(req: Request): Request {
    req.(action := Abort, offset := BLOCK_SIZE)
  }

  // ----- the run as a function of the environment

  datatype Phase = Phase(log: seq<Event>, ok: bool)

  /** Send a part until the device reports success or the retries are used up. */
  function SendPhase(env: Env, log: seq<Event>, req: Request, retries: nat): Phase
    requires retries <= MAX_RETRIES + 1
    decreases MAX_RETRIES + 1 - retries
  {
    var log' := log + [Sent(req, env.send(|log|))];
    if env.send(|log|).rc == 0 then Phase(log', true)
    else if retries > MAX_RETRIES then Phase(log', false)
    else SendPhase(env, log', req, retries + 1)
  }

  /** Poll the background status until it is 0 or the retries are used up. */
  function PollPhase(env: Env, log: seq<Event>, retries: nat): Phase
    requires retries <= MAX_RETRIES + 1
    decreases MAX_RETRIES + 1 - retries
  {
    var rc := HboStatus(env.poll(|log|));
    var log' := log + [Polled(rc)];
    if rc == 0 then Phase(log', true)
    else if retries > MAX_RETRIES then Phase(log', false)
    else PollPhase(env, log', retries + 1)
  }

  /** Send block i, then wait until the device is done with it. */
  function BlockPhase(env: Env, job: Job, log: seq<Event>, i: nat): Phase
    requires i < BlockCount(|job.image|)
  {
    var sent := SendPhase(env, log, Part(job, i), 0);
    if sent.ok then PollPhase(env, sent.log, 0) else sent
  }

  /** How the block loop ends; `block` is the block being handled at that time. */
  datatype Finish =
    | Completed(log: seq<Event>)
    | OutOfMemory(log: seq<Event>, block: nat)
    | Aborted(log: seq<Event>, block: nat, rc: int)

  function AbortRun(env: Env, job: Job, log: seq<Event>, i: nat): Finish
    requires i < BlockCount(|job.image|)
  {
    var reply := env.send(|log|);
    Aborted(log + [Sent(AbortOf(Part(job, i)), reply)], i, reply.rc)
  }

  /** Transfer block i and all later ones. */
  function Transfer(env: Env, job: Job, log: seq<Event>, i: nat): Finish
    requires i <= BlockCount(|job.image|)
    decreases BlockCount(|job.image|) - i
  {
    if i == BlockCount(|job.image|) then Completed(log)
    else if !env.blockAlloc(i) then OutOfMemory(log, i)
    else
      var done := BlockPhase(env, job, log, i);
      if !done.ok || job.mock then AbortRun(env, job, done.log, i)
      else Transfer(env, job, done.log, i + 1)
  }

  datatype Report =
    | Refused(rc: int)
    | Ran(job: Job, finish: Finish)
  {
    function Code(): int {
      match this
      case Refused(rc) => rc
      case Ran(_, Completed(_)) => 0
      case Ran(_, OutOfMemory(_, _)) => -ENOMEM
      case Ran(_, Aborted(_, _, rc)) => rc
    }

    function Log(): seq<Event> {
      if Refused? then [] else finish.log
    }
  }

  /** The whole call. The file size is held in a C int, so only its low 32 bits count. */
  function Update(env: Env, params: Params, file: seq<byte>): Report {
    var size := ToInt32(|file|);
    if !env.opens || !env.statOk then Refused(-ENOENT)
    else if size < 0 || !env.romAlloc then Refused(-ENOMEM)
    else if !env.readOk then Refused(-ENOENT)
    else
      var job := Job(ChannelOf(params), params.slot, params.mock, file[..size]);
      Ran(job, Transfer(env, job, [], 0))
  }

  // ----- progress lines

  datatype Line = Line(percent: nat, block: nat)

  /** The lines printed for the first i of n blocks. */
  function Progress(n: nat, i: nat): seq<Line>
    requires i <= n
  {
    if i == 0 then []
    else
      var before := Progress(n, i - 1);
      if (i - 1) * 100 / n >= 10 * |before| then before + [Line(10 * |before|, i - 1)] else before
  }

  /** The lines on the screen when the block loop ends. */
  ghost predicate LinesAt(job: Job, finish: Finish, lines: seq<Line>) {
    var n := BlockCount(|job.image|);
    if finish.Completed? then lines == Progress(n, n)
    else finish.block < n && lines == Progress(n, finish.block + 1)
  }

  // ----- the driver itself

  /** What the driver must give back: the open file, the image buffer, one request buffer a block. */
  datatype Handle = RomFile | RomBuffer | RequestBuffer(block: nat)

  class Updater {
    const env: Env
    var log: seq<Event>
    var lines: seq<Line>
    var live: set<Handle>
    var everHeld: set<Handle>

    constructor (env: Env)
      ensures this.env == env && log == [] && lines == [] && live == {} && everHeld == {}
    {
      this.env := env;
      log, lines, live, everHeld := [], [], {}, {};
    }

    /** Each handle is taken at most once in a run. */
    method Acquire(h: Handle)
      requires h !in everHeld
      modifies this`live, this`everHeld
      ensures live == old(live) + {h} && everHeld == old(everHeld) + {h}
    {
      live, everHeld := live + {h}, everHeld + {h};
    }

    /** Only a live handle may be freed or closed. */
    method Release(h: Handle)
      requires h in live
      modifies this`live
      ensures live == old(live) - {h}
    {
      live := live - {h};
    }

    /** Transfer FW or its vendor form, from a live request buffer. */
    method TransferFw(h: Handle, req: Request) returns (rc: int)
      requires h in live
      modifies this`log
      ensures log == old(log) + [Sent(req, env.send(|old(log)|))]
      ensures rc == env.send(|old(log)|).rc
    {
      var reply := env.send(|log|);
      log := log + [Sent(req, reply)];
      rc := reply.rc;
    }

    method GetHboStatus() returns (rc: int)
      modifies this`log
      ensures log == old(log) + [Polled(rc)]
      ensures rc == HboStatus(env.poll(|old(log)|))
    {
      var answer := env.poll(|log|);
      rc := answer.transport;
      if rc == 0 {
        var isRunning := (answer.status & RUNNING_MASK) >> RUNNING_SHIFT;
        if isRunning != 0 {
          rc := 1;
        }
      }
      log := log + [Polled(rc)];
    }

    /** The first send of a block and its retries. */
    method SendBlock(h: Handle, input: Request) returns (rc: int)
      requires h in live
      modifies this`log
      ensures SendPhase(env, old(log), input, 0) == Phase(log, rc == 0)
    {
      rc := TransferFw(h, input);
      var retryCount := 0;
      while rc != 0
        invariant 0 <= retryCount <= MAX_RETRIES + 1
        invariant SendPhase(env, old(log), input, 0) ==
                  if rc == 0 then Phase(log, true)
                  else if retryCount > MAX_RETRIES then Phase(log, false)
                  else SendPhase(env, log, input, retryCount + 1)
        decreases MAX_RETRIES + 1 - retryCount
      {
        if retryCount > MAX_RETRIES {
          return;
        }
        rc := TransferFw(h, input);
        retryCount := retryCount + 1;
      }
    }

    /** The first status poll after a block and its retries. */
    method AwaitBlock() returns (rc: int)
      modifies this`log
      ensures PollPhase(env, old(log), 0) == Phase(log, rc == 0)
    {
      rc := GetHboStatus();
      var retryCount := 0;
      while rc != 0
        invariant 0 <= retryCount <= MAX_RETRIES + 1
        invariant PollPhase(env, old(log), 0) ==
                  if rc == 0 then Phase(log, true)
                  else if retryCount > MAX_RETRIES then Phase(log, false)
                  else PollPhase(env, log, retryCount + 1)
        decreases MAX_RETRIES + 1 - retryCount
      {
        if retryCount > MAX_RETRIES {
          return;
        }
        rc := GetHboStatus();
        retryCount := retryCount + 1;
      }
    }

    /** One line at most for each block; `percent` is the next percentage to print. */
    method ReportProgress(n: nat, i: nat, percent: nat) returns (next: nat)
      requires i < n
      requires lines == Progress(n, i) && percent == 10 * |lines|
      modifies this`lines
      ensures lines == Progress(n, i + 1) && next == 10 * |lines|
    {
      next := percent;
      if i * 100 / n >= percent {
        lines := lines + [Line(percent, i)];
        next := percent + 10;
      }
    }

    /** Fill the request for block i from the image buffer. */
    method FillRequest(job: Job, i: nat) returns (input: Request)
      requires i < BlockCount(|job.image|)
      ensures input == Part(job, i)
    {
      var filesize := |job.image|;
      var numBlocks := BlockCount(filesize);
      var size := BLOCK_SIZE;
      if i == numBlocks - 1 && filesize % BLOCK_SIZE != 0 {
        size := filesize % BLOCK_SIZE;
      }
      BlocksTile(filesize, i);
      var action := if i == 0 then Initiate else if i == numBlocks - 1 then End else Continue;
      input := Request(job.channel, action, job.slot, i * (BLOCK_SIZE / BYTE_ALIGN),
                       job.image[BLOCK_SIZE * i..BLOCK_SIZE * i + size]);
    }

    method TransferBlock(h: Handle, job: Job, i: nat) returns (rc: int, input: Request)
      requires h in live && i < BlockCount(|job.image|)
      modifies this`log
      ensures input == Part(job, i)
      ensures BlockPhase(env, job, old(log), i) == Phase(log, rc == 0)
    {
      input := FillRequest(job, i);
      rc := SendBlock(h, input);
      if rc == 0 {
        rc := AwaitBlock();
      }
    }

    /** The block loop. It is left towards the abort path with the buffer of the
        current block still live, and in every other case with none. */
    method BlockLoop(job: Job, ghost finish: Finish) returns (rc: int, aborting: bool, i: nat, input: Request)
      requires log == [] && lines == [] && live == everHeld == {RomFile, RomBuffer}
      requires finish == Transfer(env, job, log, 0)
      modifies this
      ensures i <= BlockCount(|job.image|)
      ensures aborting ==>
                && i < BlockCount(|job.image|) && input == Part(job, i)
                && live == {RomFile, RomBuffer, RequestBuffer(i)}
                && finish == AbortRun(env, job, log, i)
      ensures !aborting ==>
                && live == {RomFile, RomBuffer}
                && (if rc == 0 then finish == Completed(log)
                    else rc == -ENOMEM && finish == OutOfMemory(log, i))
      ensures LinesAt(job, finish, lines)
    {
      hide BlockPhase;
      var numBlocks := BlockCount(|job.image|);
      rc, aborting, i := 0, false, 0;
      input := Request(job.channel, Initiate, job.slot, 0, []);
      var percentToPrint := 0;
      while i < numBlocks
        invariant 0 <= i <= numBlocks
        invariant rc == 0
        invariant live == {RomFile, RomBuffer}
        invariant forall k :: k >= i ==> RequestBuffer(k) !in everHeld
        invariant lines == Progress(numBlocks, i) && percentToPrint == 10 * |lines|
        invariant finish == Transfer(env, job, log, i)
      {
        percentToPrint := ReportProgress(numBlocks, i, percentToPrint);
        if !env.blockAlloc(i) {
          rc := -ENOMEM;
          return;
        }
        Acquire(RequestBuffer(i));
        rc, input := TransferBlock(RequestBuffer(i), job, i);
        if rc != 0 || job.mock {
          aborting := true;
          return;
        }
        Release(RequestBuffer(i));
        i := i + 1;
      }
    }

    /** The block loop, the abort path behind it, and the release of the request buffer. */
    method TransferBlocks(job: Job) returns (rc: int)
      requires log == [] && lines == [] && live == everHeld == {RomFile, RomBuffer}
      modifies this
      ensures var finish := Transfer(env, job, [], 0);
              log == finish.log && rc == Ran(job, finish).Code() && LinesAt(job, finish, lines)
      ensures live == {RomFile, RomBuffer}
    {
      var aborting, i, input;
      rc, aborting, i, input := BlockLoop(job, Transfer(env, job, [], 0));
      if aborting {
        input := input.(action := Abort, offset := BLOCK_SIZE);
        rc := TransferFw(RequestBuffer(i), input);
        Release(RequestBuffer(i));
      }
    }

    method UpdateDeviceFw(params: Params, file: seq<byte>) returns (rc: int)
      requires log == [] && lines == [] && live == {} && everHeld == {}
      modifies this
      ensures var report := Update(env, params, file);
              && log == report.Log()
              && rc == report.Code()
              && (if report.Refused? then lines == [] else LinesAt(report.job, report.finish, lines))
      ensures live == {}
    {
      if !env.opens {
        return -ENOENT;
      }
      Acquire(RomFile);
      if !env.statOk {
        Release(RomFile);
        return -ENOENT;
      }
      var filesize := ToInt32(|file|);
      if filesize < 0 || !env.romAlloc {
        Release(RomFile);
        return -ENOMEM;
      }
      Acquire(RomBuffer);
      if !env.readOk {
        Release(RomBuffer);
        Release(RomFile);
        return -ENOENT;
      }
      var channel := Standard;
      if params.isOs {
        channel := VendorOs;
      } else if params.hbo {
        channel := VendorFw;
      }
      rc := TransferBlocks(Job(channel, params.slot, params.mock, file[..filesize]));
      Release(RomBuffer);
      Release(RomFile);
    }
  }
}
