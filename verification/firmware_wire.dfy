/** What goes over the wire in a firmware update, told by what was asked for and what came back. */
module FirmwareWire {
  import opened Machine
  import opened FirmwareDevice
  import opened FirmwareUpdate
  import opened FirmwareSafety
  import opened FirmwareResults

  // ----- answers

  /** The log holds the answers of the environment. */
  ghost predicate Answered(env: Env, log: seq<Event>) {
    forall k :: 0 <= k < |log| ==>
      match log[k]
      case Sent(_, reply) => reply == env.send(k)
      case Polled(rc) => rc == HboStatus(env.poll(k))
  }

  lemma SendPhaseAnswered(env: Env, log: seq<Event>, req: Request)
    requires Answered(env, log)
    ensures Answered(env, SendPhase(env, log, req, 0).log)
  {
    hide SendPhase;
    SendPhaseExtends(env, log, req, 0);
    var p := SendPhase(env, log, req, 0);
    assert forall k :: 0 <= k < |log| ==> p.log[k] == log[k];
  }

  lemma PollPhaseAnswered(env: Env, log: seq<Event>)
    requires Answered(env, log)
    ensures Answered(env, PollPhase(env, log, 0).log)
  {
    hide PollPhase, HboStatus;
    PollPhaseExtends(env, log, 0);
    var p := PollPhase(env, log, 0);
    assert forall k :: 0 <= k < |log| ==> p.log[k] == log[k];
  }

  lemma {:induction false} RunIsAnswered(env: Env, job: Job, log: seq<Event>, i: nat)
    requires i <= BlockCount(|job.image|) && Answered(env, log)
    ensures Answered(env, Transfer(env, job, log, i).log)
    decreases BlockCount(|job.image|) - i
  {
    hide SendPhase, PollPhase, Part, HboStatus;
    if i < BlockCount(|job.image|) && env.blockAlloc(i) {
      SendPhaseAnswered(env, log, Part(job, i));
      PollPhaseAnswered(env, SendPhase(env, log, Part(job, i), 0).log);
      var done := BlockPhase(env, job, log, i);
      if done.ok && !job.mock {
        RunIsAnswered(env, job, done.log, i + 1);
      }
    }
  }

  /** May e' be the command after e, when e was command k? A failed send is repeated or given up, a
      good one is followed by a poll; while the device does not say that it is idle it is polled
      again or given up, and only then the next part goes out, or the abort of a mock run. */
  ghost predicate DecidedBy(env: Env, mock: bool, k: nat, e: Event, e': Event) {
    match e
    case Sent(req, _) =>
      && req.action != Abort
      && (if env.send(k).rc == 0 then e'.Polled? else e'.Sent? && e'.req in {req, AbortOf(req)})
    case Polled(_) =>
      if SaysIdle(env.poll(k)) then e'.Sent? && (e'.req.action == Abort <==> mock)
      else e'.Polled? || (e'.Sent? && e'.req.action == Abort)
  }

  lemma StepIsDecided(env: Env, mock: bool, log: seq<Event>, k: nat)
    requires Answered(env, log) && Chained(mock, log) && k < |log| - 1
    ensures DecidedBy(env, mock, k, log[k], log[k + 1])
  {
    hide SaysIdle, HboStatus, AbortOf;
    StatusIsRead(env.poll(k));
    assert Follows(mock, log[(k + 1) - 1], log[k + 1]);
  }

  /** Each command of a run follows from the answer to the one before it, and a completed run ends
      with the device idle. */
  lemma AnswersDecide(env: Env, job: Job)
    ensures var finish := Transfer(env, job, [], 0);
            var log := finish.log;
            && (forall k {:trigger log[k]} :: 0 <= k < |log| - 1 ==> DecidedBy(env, job.mock, k, log[k], log[k + 1]))
            && (finish.Completed? && log != [] ==> log[|log| - 1].Polled? && SaysIdle(env.poll(|log| - 1)))
  {
    hide Transfer, HboStatus, SaysIdle, Collapsed, Chained, Answered, DecidedBy, HoldsBlocks, DeviceAfter, Parts;
    RunIsSafe(env, job);
    RunIsAnswered(env, job, [], 0) by {
      NothingAnswered(env);
    }
    var finish := Transfer(env, job, [], 0);
    var log := finish.log;
    forall k {:trigger log[k]} | 0 <= k < |log| - 1 ensures DecidedBy(env, job.mock, k, log[k], log[k + 1]) {
      StepIsDecided(env, job.mock, log, k);
    }
    if finish.Completed? && log != [] {
      AnswerAt(env, log, |log| - 1);
      StatusIsRead(env.poll(|log| - 1));
    }
  }

  lemma NothingAnswered(env: Env)
    ensures Answered(env, [])
  {
  }

  lemma AnswerAt(env: Env, log: seq<Event>, k: nat)
    requires Answered(env, log) && k < |log| && log[k].Polled?
    ensures log[k].rc == HboStatus(env.poll(k))
  {
    hide HboStatus;
  }

  /** Without mock, a run is aborted only after twelve failed sends of a part in a row, or twelve
      polls in a row to which the device did not say that it is idle. */
  lemma {:induction false} AbortedForAReason(env: Env, job: Job, log: seq<Event>, i: nat)
    requires i <= BlockCount(|job.image|) && !job.mock
    ensures var finish := Transfer(env, job, log, i);
            var n := |finish.log| - 1;
            finish.Aborted? ==>
              && n >= 12 && finish.block < BlockCount(|job.image|)
              && finish.log[n] == Sent(AbortOf(Part(job, finish.block)), env.send(n)) && finish.rc == env.send(n).rc
              && ((forall k :: n - 12 <= k < n ==>
                     finish.log[k] == Sent(Part(job, finish.block), env.send(k)) && env.send(k).rc != 0)
                  || (forall k :: n - 12 <= k < n ==> finish.log[k].Polled? && !SaysIdle(env.poll(k))))
    decreases BlockCount(|job.image|) - i
  {
    hide BlockPhase, Part, SaysIdle, AbortOf;
    if i < BlockCount(|job.image|) && env.blockAlloc(i) {
      var done := BlockPhase(env, job, log, i);
      if done.ok {
        AbortedForAReason(env, job, done.log, i + 1);
      } else {
        GivenUp(env, job, log, i);
      }
    }
  }

  lemma GivenUp(env: Env, job: Job, log: seq<Event>, i: nat)
    requires i < BlockCount(|job.image|) && !BlockPhase(env, job, log, i).ok
    ensures var tail := BlockPhase(env, job, log, i).log;
            var n := |tail|;
            && n >= 12
            && ((forall k :: n - 12 <= k < n ==> tail[k] == Sent(Part(job, i), env.send(k)) && env.send(k).rc != 0)
                || (forall k :: n - 12 <= k < n ==> tail[k].Polled? && !SaysIdle(env.poll(k))))
  {
    hide SendPhase, PollPhase, Part, HboStatus, SaysIdle;
    SendPhaseExtends(env, log, Part(job, i), 0);
    var sent := SendPhase(env, log, Part(job, i), 0);
    if sent.ok {
      PollPhaseExtends(env, sent.log, 0);
      var tail := PollPhase(env, sent.log, 0).log;
      forall k | |tail| - 12 <= k < |tail| ensures tail[k].Polled? && !SaysIdle(env.poll(k)) {
        StatusIsRead(env.poll(k));
      }
    }
  }

  // ----- requests

  /** Every request of a run is a part, or the abort that reuses one. */
  ghost predicate OnlyParts(job: Job, log: seq<Event>) {
    forall k :: 0 <= k < |log| && log[k].Sent? ==> IsPart(job, log[k].req)
  }

  ghost predicate IsPart(job: Job, req: Request) {
    exists b: nat :: b < BlockCount(|job.image|) && (req == Part(job, b) || req == AbortOf(Part(job, b)))
  }

  lemma BlockSendsItsPart(env: Env, job: Job, log: seq<Event>, i: nat)
    requires i < BlockCount(|job.image|) && OnlyParts(job, log)
    ensures OnlyParts(job, BlockPhase(env, job, log, i).log)
  {
    hide SendPhase, PollPhase, Part, HboStatus;
    SendPhaseExtends(env, log, Part(job, i), 0);
    var sent := SendPhase(env, log, Part(job, i), 0);
    assert IsPart(job, Part(job, i));
    forall k | 0 <= k < |sent.log| && sent.log[k].Sent? ensures IsPart(job, sent.log[k].req) {
      assert k < |log| ==> sent.log[k] == log[k];
    }
    if sent.ok {
      PollPhaseExtends(env, sent.log, 0);
      var p := PollPhase(env, sent.log, 0);
      forall k | 0 <= k < |p.log| && p.log[k].Sent? ensures IsPart(job, p.log[k].req) {
        assert k < |sent.log| ==> p.log[k] == sent.log[k];
      }
    }
  }

  lemma {:induction false} RunSendsParts(env: Env, job: Job, log: seq<Event>, i: nat)
    requires i <= BlockCount(|job.image|) && OnlyParts(job, log)
    ensures OnlyParts(job, Transfer(env, job, log, i).log)
    decreases BlockCount(|job.image|) - i
  {
    hide BlockPhase, Part, AbortOf;
    if i < BlockCount(|job.image|) && env.blockAlloc(i) {
      BlockSendsItsPart(env, job, log, i);
      var done := BlockPhase(env, job, log, i);
      if done.ok && !job.mock {
        RunSendsParts(env, job, done.log, i + 1);
      } else {
        assert IsPart(job, AbortOf(Part(job, i)));
      }
    }
  }

  /** The requests as they were asked for: over the channel and for the slot of the parameters,
      with the bytes of the file that belong to their offset, 128 at a time but for the last part.
      The abort has offset 128. */
  ghost predicate AskedFor(params: Params, file: seq<byte>, req: Request) {
    && req.channel == (if params.isOs then VendorOs else if params.hbo then VendorFw else Standard)
    && req.slot == params.slot
    && (req.action == Abort ==> req.offset == 128)
    && (req.action != Abort ==>
          && var from := 128 * req.offset;
             && from + |req.data| <= |file| && req.data == file[from..from + |req.data|]
             && 0 < |req.data| <= 128 && (|req.data| < 128 ==> from + |req.data| == ToInt32(|file|))
             && (req.action == Initiate <==> req.offset == 0)
             && (req.action == End <==> req.offset > 0 && from + |req.data| == ToInt32(|file|)))
  }

  lemma PartIsAskedFor(params: Params, file: seq<byte>, job: Job, b: nat)
    requires 0 <= ToInt32(|file|) && job.image == file[..ToInt32(|file|)]
    requires job.channel == (if params.isOs then VendorOs else if params.hbo then VendorFw else Standard)
    requires job.slot == params.slot
    requires b < BlockCount(|job.image|)
    ensures AskedFor(params, file, Part(job, b)) && AskedFor(params, file, AbortOf(Part(job, b)))
  {
    BlocksTile(|job.image|, b);
    LastBlock(|job.image|, b);
    var part := Part(job, b);
    assert part.data == file[128 * b..128 * b + |part.data|];
  }

  lemma LastBlock(size: nat, i: nat)
    requires i < BlockCount(size)
    ensures BLOCK_SIZE * i + BlockLength(size, i) == size <==> i == BlockCount(size) - 1
  {
  }

  lemma RequestsAreAskedFor(env: Env, params: Params, file: seq<byte>)
    ensures var log := Update(env, params, file).Log();
            forall k :: 0 <= k < |log| && log[k].Sent? ==> AskedFor(params, file, log[k].req)
  {
    hide Transfer, AskedFor, Part, AbortOf;
    var report := Update(env, params, file);
    if report.Ran? {
      RunSendsParts(env, report.job, [], 0);
      forall k | 0 <= k < |report.Log()| && report.Log()[k].Sent?
        ensures AskedFor(params, file, report.Log()[k].req)
      {
        var b: nat :| b < BlockCount(|report.job.image|)
                   && report.Log()[k].req in {Part(report.job, b), AbortOf(Part(report.job, b))};
        PartIsAskedFor(params, file, report.job, b);
      }
    }
  }

  // ----- return codes

  /** A run that was asked to mock never completes, unless there is nothing to send. */
  lemma MockNeverCompletes(env: Env, params: Params, file: seq<byte>)
    requires params.mock
    ensures var report := Update(env, params, file);
            report.Ran? && report.finish.Completed? ==> ToInt32(|file|) == 0 && report.Log() == []
  {
    hide BlockPhase, SendPhase;
  }

  /** The code of every run: -2 without a readable file, -12 without memory, 0 when all blocks are
      through, and the result of the abort otherwise. */
  lemma CodeOfUpdate(env: Env, params: Params, file: seq<byte>)
    ensures var report := Update(env, params, file);
            if !env.opens || !env.statOk then report.Code() == -2 && report.Log() == []
            else if ToInt32(|file|) < 0 || !env.romAlloc then report.Code() == -12 && report.Log() == []
            else if !env.readOk then report.Code() == -2 && report.Log() == []
            else
              && report.Ran?
              && (report.finish.Completed? ==> report.Code() == 0)
              && (report.finish.OutOfMemory? ==> report.Code() == -12 && !env.blockAlloc(report.finish.block))
              && (report.finish.Aborted? ==>
                    && report.Log() != []
                    && report.Code() == env.send(|report.Log()| - 1).rc)
  {
    hide BlockPhase;
    var report := Update(env, params, file);
    if report.Ran? {
      AbortAnswer(env, report.job, [], 0);
    }
  }

  lemma {:induction false} AbortAnswer(env: Env, job: Job, log: seq<Event>, i: nat)
    requires i <= BlockCount(|job.image|)
    ensures var finish := Transfer(env, job, log, i);
            && (finish.Aborted? ==> finish.log != [] && finish.rc == env.send(|finish.log| - 1).rc)
            && (finish.OutOfMemory? ==> !env.blockAlloc(finish.block))
    decreases BlockCount(|job.image|) - i
  {
    hide BlockPhase;
    if i < BlockCount(|job.image|) && env.blockAlloc(i) && BlockPhase(env, job, log, i).ok && !job.mock {
      AbortAnswer(env, job, BlockPhase(env, job, log, i).log, i + 1);
    }
  }
}
