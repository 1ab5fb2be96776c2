/** What a caller of the firmware-update driver may rely on, and where it may not. */
module FirmwareResults {
  import opened Machine
  import opened FirmwareDevice
  import opened FirmwareUpdate
  import opened FirmwareSafety

  // ----- what is sent

  /** Every part with its action and its offset, in order, for one slot over one channel. */
  ghost predicate InWireOrder(job: Job, requests: seq<Request>) {
    var n := BlockCount(|job.image|);
    && |requests| <= n
    && forall k :: 0 <= k < |requests| ==>
         && requests[k].offset == k
         && requests[k].slot == job.slot && requests[k].channel == job.channel
         && requests[k].action == (if k == 0 then Initiate else if k == n - 1 then End else Continue)
  }

  /** Repeats apart, a run sends an initial stretch of the parts in order, and then at most
      one abort, which is the last command. */
  lemma TraceSafety(env: Env, job: Job)
    ensures var finish := Transfer(env, job, [], 0);
            var (log, n) := (finish.log, BlockCount(|job.image|));
            var sent := Collapsed(log);
            && Chained(job.mock, log)
            && (log != [] ==> log[0].Sent? && log[0].req.action == Initiate)
            && match finish {
                 case Completed(_) =>
                   && |sent| == n && InWireOrder(job, sent)
                   && (n > 0 ==> log != [] && log[|log| - 1] == Polled(0))
                 case OutOfMemory(_, i) =>
                   i < n && |sent| == i && InWireOrder(job, sent)
                 case Aborted(_, i, _) =>
                   && i < n && |sent| == i + 2 && InWireOrder(job, sent[..i + 1])
                   && sent[i + 1] == AbortOf(sent[i])
               }
  {
    hide SafeFinish, Chained, Transfer, Collapsed, Part, InWireOrder, AbortOf, BlockCount;
    RunIsSafe(env, job);
    RunExtends(env, job, [], 0);
    FinishTrace(job, Transfer(env, job, [], 0));
    if Transfer(env, job, [], 0).log != [] {
      FirstPart(job);
    }
  }

  lemma FinishTrace(job: Job, finish: Finish)
    requires SafeFinish(job, finish)
    ensures var (log, n) := (finish.log, BlockCount(|job.image|));
            var sent := Collapsed(log);
            && Chained(job.mock, log)
            && match finish {
                 case Completed(_) =>
                   && |sent| == n && InWireOrder(job, sent)
                   && (if n > 0 then log != [] && log[|log| - 1] == Polled(0) else log == [])
                 case OutOfMemory(_, i) =>
                   i < n && |sent| == i && InWireOrder(job, sent) && (i == 0 ==> log == [])
                 case Aborted(_, i, _) =>
                   && i < n && |sent| == i + 2 && InWireOrder(job, sent[..i + 1])
                   && sent[i + 1] == AbortOf(sent[i])
               }
  {
    hide HoldsBlocks, Chained, Collapsed, DeviceAfter, Part, Parts, InWireOrder, AbortOf, BlockCount, BlocksLoaded;
    match finish {
      case Completed(_) => PartsInWireOrder(job, BlockCount(|job.image|));
      case OutOfMemory(_, i) => PartsInWireOrder(job, i);
      case Aborted(log, i, _) =>
        PartsInWireOrder(job, i + 1);
        assert Collapsed(log)[..i + 1] == Parts(job, i + 1);
    }
  }

  lemma PartsInWireOrder(job: Job, i: nat)
    requires i <= BlockCount(|job.image|)
    ensures |Parts(job, i)| == i && InWireOrder(job, Parts(job, i))
    ensures i > 0 ==> Parts(job, i)[i - 1] == Part(job, i - 1)
  {
  }

  lemma FirstPart(job: Job)
    ensures BlockCount(|job.image|) > 0 ==> Part(job, 0).action == Initiate
  {
  }

  /** Every part has been sent by a completed run, and by an aborted run exactly when it gave up
      on the last block; so also by a mock run with a single block. */
  lemma EveryPartSent(env: Env, job: Job)
    ensures var finish := Transfer(env, job, [], 0);
            var (sent, n) := (Collapsed(finish.log), BlockCount(|job.image|));
            n <= |sent| && InWireOrder(job, sent[..n])
            <==> finish.Completed? || (finish.Aborted? && finish.block == n - 1)
  {
    hide Transfer, Collapsed, Chained, BlockCount;
    TraceSafety(env, job);
  }

  lemma {:induction false} SendPhaseExtends(env: Env, log: seq<Event>, req: Request, retries: nat)
    requires retries <= MAX_RETRIES + 1
    ensures var p := SendPhase(env, log, req, retries);
            && log + [Sent(req, env.send(|log|))] <= p.log
            && |p.log| <= |log| + MAX_RETRIES + 2 - retries
            && (!p.ok ==> |p.log| == |log| + MAX_RETRIES + 2 - retries)
            && (forall k :: |log| <= k < |p.log| ==>
                  && p.log[k] == Sent(req, env.send(k))
                  && (env.send(k).rc == 0 <==> p.ok && k == |p.log| - 1))
    decreases MAX_RETRIES + 1 - retries
  {
    if env.send(|log|).rc != 0 && retries <= MAX_RETRIES {
      SendPhaseExtends(env, log + [Sent(req, env.send(|log|))], req, retries + 1);
    }
  }

  lemma {:induction false} PollPhaseExtends(env: Env, log: seq<Event>, retries: nat)
    requires retries <= MAX_RETRIES + 1
    ensures var p := PollPhase(env, log, retries);
            && log + [Polled(HboStatus(env.poll(|log|)))] <= p.log
            && |p.log| <= |log| + MAX_RETRIES + 2 - retries
            && (!p.ok ==> |p.log| == |log| + MAX_RETRIES + 2 - retries)
            && (forall k :: |log| <= k < |p.log| ==>
                  && p.log[k] == Polled(HboStatus(env.poll(k)))
                  && (p.log[k].rc == 0 <==> p.ok && k == |p.log| - 1))
    decreases MAX_RETRIES + 1 - retries
  {
    var rc := HboStatus(env.poll(|log|));
    if rc != 0 && retries <= MAX_RETRIES {
      PollPhaseExtends(env, log + [Polled(rc)], retries + 1);
    }
  }

  lemma BlockPhaseExtends(env: Env, job: Job, log: seq<Event>, i: nat)
    requires i < BlockCount(|job.image|)
    ensures var p := BlockPhase(env, job, log, i);
            && log + [Sent(Part(job, i), env.send(|log|))] <= p.log
            && |p.log| <= |log| + 24
  {
    hide Part;
    SendPhaseExtends(env, log, Part(job, i), 0);
    PollPhaseExtends(env, SendPhase(env, log, Part(job, i), 0).log, 0);
  }

  /** Each block costs at most 24 commands: twelve sends and twelve polls. */
  lemma {:induction false} RunExtends(env: Env, job: Job, log: seq<Event>, i: nat)
    requires i <= BlockCount(|job.image|)
    ensures var log' := Transfer(env, job, log, i).log;
            && log <= log'
            && |log'| <= |log| + 24 * (BlockCount(|job.image|) - i) + 1
            && (i == 0 && |log'| > |log| ==> log'[|log|] == Sent(Part(job, 0), env.send(|log|)))
    decreases BlockCount(|job.image|) - i
  {
    hide BlockPhase, Part;
    if i < BlockCount(|job.image|) && env.blockAlloc(i) {
      BlockPhaseExtends(env, job, log, i);
      RunExtends(env, job, BlockPhase(env, job, log, i).log, i + 1);
    }
  }

  // ----- how long a run can be

  lemma CommandBound(env: Env, params: Params, file: seq<byte>)
    ensures |Update(env, params, file).Log()| <= 24 * BlockCount(|file|) + 1
  {
    hide Transfer;
    var report := Update(env, params, file);
    if report.Ran? {
      RunExtends(env, report.job, [], 0);
      assert BlockCount(|report.job.image|) <= BlockCount(|file|);
    }
  }

  /** A device that accepts every twelfth send, reports ready at every twelfth poll,
      and stays busy at the very last one. */
  function Sluggish(n: nat): Env {
    Env(true, true, true, true,
        i => true,
        k => if k % 24 == 11 then Reply(true, 0) else Reply(false, 1),
        k => if k % 24 == 23 && k != 24 * n - 1 then PollReply(0, 0) else PollReply(0, RUNNING_MASK))
  }

  lemma {:induction false} SluggishSends(n: nat, log: seq<Event>, req: Request, retries: nat)
    requires retries <= MAX_RETRIES + 1 && |log| % 24 == retries
    ensures var p := SendPhase(Sluggish(n), log, req, retries);
            p.ok && |p.log| == |log| + 12 - retries
    decreases MAX_RETRIES + 1 - retries
  {
    if retries <= MAX_RETRIES {
      SluggishSends(n, log + [Sent(req, Reply(false, 1))], req, retries + 1);
    }
  }

  lemma {:induction false} SluggishPolls(n: nat, log: seq<Event>, retries: nat)
    requires retries <= MAX_RETRIES + 1 && |log| % 24 == retries + 12
    ensures var p := PollPhase(Sluggish(n), log, retries);
            |p.log| == |log| + 12 - retries && (p.ok <==> |p.log| != 24 * n)
    decreases MAX_RETRIES + 1 - retries
  {
    if retries <= MAX_RETRIES {
      SluggishPolls(n, log + [Polled(1)], retries + 1);
    }
  }

  lemma {:induction false} SluggishRun(job: Job, log: seq<Event>, i: nat)
    requires i < BlockCount(|job.image|) && |log| == 24 * i && !job.mock
    ensures var n := BlockCount(|job.image|);
            |Transfer(Sluggish(n), job, log, i).log| == 24 * n + 1
    decreases BlockCount(|job.image|) - i
  {
    hide Part, SendPhase, PollPhase;
    var n := BlockCount(|job.image|);
    SluggishSends(n, log, Part(job, i), 0);
    SluggishPolls(n, SendPhase(Sluggish(n), log, Part(job, i), 0).log, 0);
    if i + 1 < n {
      SluggishRun(job, BlockPhase(Sluggish(n), job, log, i).log, i + 1);
    }
  }

  /** The bound is met for every image: the driver retries eleven times, one more than
      its max_retries constant and its message say. */
  lemma CommandBoundIsTight(job: Job)
    requires job.image != [] && !job.mock
    ensures exists env :: |Transfer(env, job, [], 0).log| == 24 * BlockCount(|job.image|) + 1
  {
    SluggishRun(job, [], 0);
  }

  // ----- what the device ends up with

  predicate AbortTaken(log: seq<Event>) {
    log != [] && log[|log| - 1].Sent? && log[|log| - 1].reply.taken
  }

  /** No run ever offers a part out of turn. A completed run leaves the device with every
      byte of the image, each exactly once, however often parts were repeated; every other
      run leaves it with whole blocks from the front of the image, or with nothing. */
  lemma ExactlyOnceAssembly(env: Env, job: Job)
    ensures var finish := Transfer(env, job, [], 0);
            var d := DeviceAfter(finish.log);
            && !d.fault
            && (finish.Completed? ==> d.image == job.image)
            && (finish.OutOfMemory? ==> d.image == BlocksLoaded(job, finish.block))
            && (finish.Aborted? ==>
                  if AbortTaken(finish.log) then d.image == [] && d.stage == Dropped
                  else d.image in {BlocksLoaded(job, finish.block), BlocksLoaded(job, finish.block + 1)})
  {
    hide Transfer, Chained, Collapsed, Part, Parts;
    RunIsSafe(env, job);
    assert BlocksLoaded(job, BlockCount(|job.image|)) == job.image by {
      if job.image != [] {
        BlocksTile(|job.image|, 0);
      }
    }
  }

  /** The device is told that the image is complete exactly when there are two blocks or
      more: a one-block image is only ever initiated, and an empty one not even that. */
  lemma TransferIsEnded(env: Env, job: Job)
    requires Transfer(env, job, [], 0).Completed?
    ensures DeviceAfter(Transfer(env, job, [], 0).log).stage ==
            (if |job.image| > 128 then Loaded else if |job.image| > 0 then Loading else Idle)
  {
    RunIsSafe(env, job);
  }

  /** The file size goes through a C int. So a completed run delivers the whole file if and
      only if the file is shorter than 2 GiB. */
  lemma WholeFileDelivered(env: Env, params: Params, file: seq<byte>)
    requires Update(env, params, file).Ran? && Update(env, params, file).finish.Completed?
    ensures DeviceAfter(Update(env, params, file).Log()).image == file <==> |file| < INT32_LIMIT
  {
    ExactlyOnceAssembly(env, Update(env, params, file).job);
  }

  function Healthy(): Env {
    Env(true, true, true, true, i => true, k => Reply(true, 0), k => PollReply(0, 0))
  }

  lemma OneByteTransfer(job: Job)
    requires |job.image| == 1 && !job.mock
    ensures Transfer(Healthy(), job, [], 0).Completed?
    ensures DeviceAfter(Transfer(Healthy(), job, [], 0).log).image == job.image
  {
    var log1 := [] + [Sent(Part(job, 0), Reply(true, 0))];
    assert SendPhase(Healthy(), [], Part(job, 0), 0) == Phase(log1, true);
    assert PollPhase(Healthy(), log1, 0) == Phase(log1 + [Polled(0)], true);
    ExactlyOnceAssembly(Healthy(), job);
  }

  lemma OneByteRemains()
    ensures ToInt32(WORD32 + 1) == 1
  {
  }

  /** A file of 4 GiB and one byte: the update sends that one byte and returns 0. */
  lemma HugeFileIsTruncated(file: seq<byte>, slot: nat)
    requires |file| == WORD32 + 1
    ensures var report := Update(Healthy(), Params(false, false, slot, false), file);
            report.Code() == 0 && DeviceAfter(report.Log()).image == file[..1] != file
  {
    hide Transfer, DeviceAfter, ToInt32;
    OneByteRemains();
    OneByteTransfer(Job(Standard, slot, false, file[..1]));
  }

  // ----- what the return code means

  ghost predicate SentAbort(log: seq<Event>) {
    exists k :: 0 <= k < |log| && log[k].Sent? && log[k].req.action == Abort
  }

  lemma AbortIsLastEvent(mock: bool, log: seq<Event>, k: nat)
    requires Chained(mock, log) && k < |log| && log[k].Sent? && log[k].req.action == Abort
    ensures k == |log| - 1
  {
    assert k + 1 < |log| ==> Follows(mock, log[(k + 1) - 1], log[k + 1]);
  }

  /** After a run that returned 0 the device holds the image if and only if no abort was sent:
      the result of a successful abort replaces the failure that led to it. */
  lemma ZeroMeansDeliveredUnlessAborted(env: Env, job: Job)
    requires Ran(job, Transfer(env, job, [], 0)).Code() == 0
    ensures var log := Transfer(env, job, [], 0).log;
            DeviceAfter(log).image == job.image <==> !SentAbort(log)
  {
    hide Transfer, DeviceAfter, Follows, HoldsBlocks, Collapsed;
    var finish := Transfer(env, job, [], 0);
    var log := finish.log;
    ExactlyOnceAssembly(env, job);
    RunIsSafe(env, job);
    if finish.Aborted? {
      assert log[|log| - 1].req.action == Abort by {
        AbortEndsLog(job, finish.block, log);
      }
    } else if SentAbort(log) {
      var k :| 0 <= k < |log| && log[k].Sent? && log[k].req.action == Abort;
      AbortIsLastEvent(job.mock, log, k);
      assert false;
    }
  }

  lemma AbortEndsLog(job: Job, i: nat, log: seq<Event>)
    requires AbortedAt(job, i, log)
    ensures log[|log| - 1].req.action == Abort && log[|log| - 1].req == AbortOf(Part(job, i))
  {
    var last := log[|log| - 1];
    var before := log[..|log| - 1];
    LogGrows(before, last);
    assert before + [last] == log;
    var c := Collapsed(log);
    assert c[|c| - 1] == AbortOf(Part(job, i));
  }

  /** The device took none of the parts that it was sent. */
  ghost predicate NothingTaken(log: seq<Event>) {
    forall k :: 0 <= k < |log| && log[k].Sent? && log[k].req.action != Abort ==> !log[k].reply.taken
  }

  /** A device that rejects every part but accepts the abort makes the update return 0. */
  lemma FailedUpdateReturnsZero(file: seq<byte>, params: Params)
    requires ToInt32(|file|) > 0
    ensures exists env ::
              var run := Update(env, params, file);
              && run.Code() == 0
              && run.Log() != [] && NothingTaken(run.Log())
              && DeviceAfter(run.Log()).image == []
  {
    var env := Healthy().(send := k => if k == 12 then Reply(true, 0) else Reply(false, 1));
    var job := Job(ChannelOf(params), params.slot, params.mock, file[..ToInt32(|file|)]);
    assert Update(env, params, file) == Ran(job, Transfer(env, job, [], 0));
    RejectedThroughout(env, [], Part(job, 0), 0);
    ExactlyOnceAssembly(env, job);
  }

  lemma {:induction false} RejectedThroughout(env: Env, log: seq<Event>, req: Request, retries: nat)
    requires retries <= MAX_RETRIES + 1 && |log| == retries && NothingTaken(log)
    requires forall k :: k != 12 ==> env.send(k) == Reply(false, 1)
    ensures var p := SendPhase(env, log, req, retries);
            !p.ok && |p.log| == 12 && NothingTaken(p.log)
    decreases MAX_RETRIES + 1 - retries
  {
    if retries <= MAX_RETRIES {
      RejectedThroughout(env, log + [Sent(req, Reply(false, 1))], req, retries + 1);
    }
  }

  /** A mock run never gets past the first block: its parts are Initiate alone, never the
      Continue that the option's help text announces, and then the abort. */
  lemma MockAbortsAfterInitiate(env: Env, job: Job)
    requires job.mock && job.image != []
    ensures var finish := Transfer(env, job, [], 0);
            Collapsed(finish.log) ==
              if env.blockAlloc(0) then [Part(job, 0), AbortOf(Part(job, 0))] else []
  {
    RunIsSafe(env, job);
    assert Parts(job, 1) == [Part(job, 0)];
  }

  /** Without mock, the abort comes only after twelve failures of the same command in a row. */
  lemma AbortNeedsTwelveFailures(env: Env, job: Job, log: seq<Event>, i: nat)
    requires i < BlockCount(|job.image|) && !BlockPhase(env, job, log, i).ok
    ensures var tail := BlockPhase(env, job, log, i).log;
            && |tail| >= 12
            && ((forall k :: |tail| - 12 <= k < |tail| ==>
                   tail[k].Sent? && tail[k].req == Part(job, i) && tail[k].reply.rc != 0)
                || (forall k :: |tail| - 12 <= k < |tail| ==> tail[k].Polled? && tail[k].rc != 0))
  {
    hide Part;
    SendPhaseExtends(env, log, Part(job, i), 0);
    PollPhaseExtends(env, SendPhase(env, log, Part(job, i), 0).log, 0);
  }

  /** One of the next twelve sends would succeed. */
  ghost predicate SendSucceedsSoon(env: Env, t: nat) {
    exists k :: t <= k < t + 12 && env.send(k).rc == 0
  }

  ghost predicate PollSucceedsSoon(env: Env, t: nat) {
    exists k :: t <= k < t + 12 && SaysIdle(env.poll(k))
  }

  /** A device that is never unresponsive for twelve commands in a row is always updated. */
  lemma {:induction false} ResponsiveDeviceIsUpdated(env: Env, job: Job, log: seq<Event>, i: nat)
    requires i <= BlockCount(|job.image|) && !job.mock
    requires forall k :: env.blockAlloc(k)
    requires forall t :: SendSucceedsSoon(env, t)
    requires forall t :: PollSucceedsSoon(env, t)
    ensures Transfer(env, job, log, i).Completed?
    decreases BlockCount(|job.image|) - i
  {
    hide BlockPhase, Part, SendPhase, SendSucceedsSoon, PollSucceedsSoon;
    if i < BlockCount(|job.image|) {
      BlockPhaseSucceeds(env, job, log, i);
      ResponsiveDeviceIsUpdated(env, job, BlockPhase(env, job, log, i).log, i + 1);
    }
  }

  lemma BlockPhaseSucceeds(env: Env, job: Job, log: seq<Event>, i: nat)
    requires i < BlockCount(|job.image|)
    requires SendSucceedsSoon(env, |log|)
    requires PollSucceedsSoon(env, |SendPhase(env, log, Part(job, i), 0).log|)
    ensures BlockPhase(env, job, log, i).ok
  {
    hide Part, SendPhase, PollPhase, HboStatus, SaysIdle;
    SendPhaseExtends(env, log, Part(job, i), 0);
    var t := |SendPhase(env, log, Part(job, i), 0).log|;
    PollPhaseExtends(env, SendPhase(env, log, Part(job, i), 0).log, 0);
    var k :| t <= k < t + 12 && SaysIdle(env.poll(k));
    StatusIsRead(env.poll(k));
  }

  // ----- progress lines

  /** Line j says 10j per cent. The lines come at increasing blocks, none claims more than
      the true share, and there are at most ten. */
  lemma {:induction false} ProgressLines(n: nat, i: nat)
    requires i <= n
    ensures var lines := Progress(n, i);
            && |lines| <= 10
            && (forall j :: 0 <= j < |lines| ==>
                  lines[j].percent == 10 * j && lines[j].block < i && 10 * j <= lines[j].block * 100 / n)
            && (forall j, k :: 0 <= j < k < |lines| ==> lines[j].block < lines[k].block)
  {
    if i > 0 {
      ProgressLines(n, i - 1);
      QuotientAtMost((i - 1) * 100, n, 99);
    }
  }

  lemma QuotientAtMost(x: nat, n: nat, q: nat)
    requires 0 < n && x < (q + 1) * n
    ensures x / n <= q
  {
    var d := x / n;
    assert d >= q + 1 ==> d * n >= (q + 1) * n;
  }

  lemma QuotientAtLeast(x: nat, n: nat, q: nat)
    requires 0 < n && q * n <= x
    ensures q <= x / n
  {
    var d := x / n;
    assert x < (d + 1) * n;
    assert d + 1 <= q ==> (d + 1) * n <= q * n;
  }

  /** With ten blocks or more, one block adds at most ten per cent. */
  lemma PercentStep(n: nat, i: nat)
    requires 10 <= n
    ensures (i + 1) * 100 / n <= i * 100 / n + 10
  {
    var q := i * 100 / n;
    assert i * 100 < (q + 1) * n;
    assert (q + 10 + 1) * n == (q + 1) * n + 10 * n;
    QuotientAtMost((i + 1) * 100, n, q + 10);
  }

  lemma {:induction false} ProgressKeepsUp(n: nat, i: nat)
    requires 10 <= n && 0 < i <= n
    ensures (i - 1) * 100 / n < 10 * |Progress(n, i)|
  {
    assert Progress(n, 0) == [];
    if i > 1 {
      ProgressKeepsUp(n, i - 1);
      PercentStep(n, i - 2);
    }
  }

  /** With ten blocks or more all ten lines come, and with fewer one for each block. */
  lemma TenLinesIffTenBlocks(n: nat)
    ensures |Progress(n, n)| == if n >= 10 then 10 else n
  {
    ProgressLines(n, n);
    if n >= 10 {
      ProgressKeepsUp(n, n);
      QuotientAtLeast((n - 1) * 100, n, 90);
    } else {
      OneLineABlock(n, n);
    }
  }

  lemma {:induction false} OneLineABlock(n: nat, i: nat)
    requires i <= n <= 10
    ensures |Progress(n, i)| == i
  {
    if i > 0 {
      OneLineABlock(n, i - 1);
      ShareOfFewBlocks(n, i - 1);
    }
  }

  /** The first line is on the screen however the run ends, if there is anything to send. */
  lemma FirstLineAlways(job: Job, finish: Finish, lines: seq<Line>)
    requires job.image != [] && LinesAt(job, finish, lines)
    ensures lines != [] && lines[0] == Line(0, 0)
  {
    var n := BlockCount(|job.image|);
    FirstLine(n, if finish.Completed? then n else finish.block + 1);
  }

  lemma {:induction false} FirstLine(n: nat, i: nat)
    requires 0 < i <= n
    ensures Progress(n, i) != [] && Progress(n, i)[0] == Line(0, 0)
  {
    assert Progress(n, 0) == [];
    if i > 1 {
      FirstLine(n, i - 1);
    }
  }

  lemma ShareOfFewBlocks(n: nat, i: nat)
    requires 0 < n <= 10
    ensures i * 100 / n >= 10 * i
  {
    assert 10 * i * n == i * (10 * n);
    assert i * (10 * n) <= i * 100;
    QuotientAtLeast(i * 100, n, 10 * i);
  }

  /** With ten blocks or more, each line comes as soon as its share is reached. */
  lemma {:induction false} LinesAreEarliest(n: nat, i: nat, j: nat)
    requires 10 <= n && i <= n && j < |Progress(n, i)|
    ensures var b := Progress(n, i)[j].block;
            b > 0 ==> (b - 1) * 100 / n < 10 * j
  {
    if i > 0 && j < |Progress(n, i - 1)| {
      LinesAreEarliest(n, i - 1, j);
    } else if i > 1 {
      ProgressKeepsUp(n, i - 1);
    }
  }
}
