/** What every run of the firmware-update driver keeps, whatever the device answers. */
module FirmwareSafety {
  import opened Machine
  import opened FirmwareDevice
  import opened FirmwareUpdate

  // ----- the rule that every two neighbouring commands of a run obey

  /** May e' come right after e? A failed send is followed by the same bytes again or
      by an abort of them; a good one by a poll; only a poll that returned 0 lets the
      next part go out (or the abort of a mock run); nothing follows an abort. */
  ghost predicate Follows(mock: bool, e: Event, e': Event) {
    match e
    case Sent(req, reply) =>
      && req.action != Abort
      && (if reply.rc == 0 then e'.Polled? else e'.Sent? && e'.req in {req, AbortOf(req)})
    case Polled(rc) =>
      if rc == 0 then e'.Sent? && (e'.req.action == Abort <==> mock)
      else e'.Polled? || (e'.Sent? && e'.req.action == Abort)
  }

  ghost predicate Chained(mock: bool, log: seq<Event>) {
    forall p :: 0 < p < |log| ==> Follows(mock, log[p - 1], log[p])
  }

  /** The requests for the first i blocks. */
  function Parts(job: Job, i: nat): seq<Request>
    requires i <= BlockCount(|job.image|)
  {
    seq(i, k requires 0 <= k < i => Part(job, k))
  }

  function BlocksLoaded(job: Job, i: nat): seq<byte> {
    job.image[..BytesBefore(|job.image|, i)]
  }

  /** The device has taken exactly the first i blocks. */
  ghost predicate HoldsBlocks(job: Job, i: nat, d: Receiver)
    requires i <= BlockCount(|job.image|)
  {
    && !d.fault
    && d.image == BlocksLoaded(job, i)
    && d.stage == (if i == 0 then Idle else if 2 <= i == BlockCount(|job.image|) then Loaded else Loading)
    && d.last == (if i == 0 then None else Some(Part(job, i - 1)))
  }

  lemma OfferNextBlock(job: Job, i: nat, d: Receiver, taken: bool)
    requires i < BlockCount(|job.image|) && HoldsBlocks(job, i, d)
    ensures HoldsBlocks(job, if taken then i + 1 else i, Offer(d, Part(job, i), taken))
  {
    BlocksTile(|job.image|, i);
    var req := Part(job, i);
    assert !Repeats(d, req);
    assert InTurn(d, req);
    assert BlocksLoaded(job, i) + req.data == BlocksLoaded(job, i + 1);
  }

  lemma OfferBlockAgain(job: Job, i: nat, d: Receiver, taken: bool)
    requires i < BlockCount(|job.image|) && HoldsBlocks(job, i + 1, d)
    ensures HoldsBlocks(job, i + 1, Offer(d, Part(job, i), taken))
  {
    BlocksTile(|job.image|, i);
    var req := Part(job, i);
    assert Repeats(d, req);
    assert d.image[..BYTE_ALIGN * req.offset] + req.data == d.image;
  }

  // ----- where a run can be between two commands

  /** Block i is next and nothing of it was sent. */
  ghost predicate Ready(job: Job, i: nat, log: seq<Event>) {
    && i <= BlockCount(|job.image|)
    && Chained(job.mock, log)
    && Collapsed(log) == Parts(job, i)
    && HoldsBlocks(job, i, DeviceAfter(log))
    && (if i == 0 then log == [] else log != [] && log[|log| - 1] == Polled(0))
  }

  /** Block i was sent and every answer so far was a failure. */
  ghost predicate Resending(job: Job, i: nat, log: seq<Event>) {
    && i < BlockCount(|job.image|)
    && Chained(job.mock, log)
    && Collapsed(log) == Parts(job, i + 1)
    && (HoldsBlocks(job, i, DeviceAfter(log)) || HoldsBlocks(job, i + 1, DeviceAfter(log)))
    && log != []
    && log[|log| - 1].Sent? && log[|log| - 1].req == Part(job, i) && log[|log| - 1].reply.rc != 0
  }

  /** Block i was accepted with a success report and the device is not known to be done with it. */
  ghost predicate Waiting(job: Job, i: nat, log: seq<Event>) {
    && i < BlockCount(|job.image|)
    && Chained(job.mock, log)
    && Collapsed(log) == Parts(job, i + 1)
    && HoldsBlocks(job, i + 1, DeviceAfter(log))
    && log != []
    && match log[|log| - 1] {
         case Sent(req, reply) => req == Part(job, i) && reply.rc == 0
         case Polled(rc) => rc != 0
       }
  }

  lemma ChainGrows(mock: bool, log: seq<Event>, e: Event)
    requires Chained(mock, log)
    requires log != [] ==> Follows(mock, log[|log| - 1], e)
    ensures Chained(mock, log + [e])
  {
    var log' := log + [e];
    forall p | 0 < p < |log'| ensures Follows(mock, log'[p - 1], log'[p]) {
      assert log'[p - 1] == log[p - 1];
      if p < |log| {
        assert log'[p] == log[p];
      }
    }
  }

  lemma PartsGrow(job: Job, i: nat)
    requires i < BlockCount(|job.image|)
    ensures Parts(job, i + 1) == Parts(job, i) + [Part(job, i)]
    ensures |Parts(job, i)| == i
    ensures i > 0 ==> Parts(job, i)[i - 1] != Part(job, i)
    ensures Part(job, i).action != Abort
  {
  }

  /** Block i may go out again, or for the first time. */
  ghost predicate MaySend(job: Job, i: nat, log: seq<Event>) {
    && i < BlockCount(|job.image|)
    && ((Ready(job, i, log) && (job.mock ==> i == 0)) || Resending(job, i, log))
  }

  lemma SendDevice(job: Job, i: nat, log: seq<Event>, reply: DeviceReply)
    requires MaySend(job, i, log)
    ensures var d := DeviceAfter(log + [Sent(Part(job, i), reply)]);
            HoldsBlocks(job, i + 1, d) || (!reply.taken && HoldsBlocks(job, i, d))
  {
    hide HoldsBlocks, Offer, Chained;
    LogGrows(log, Sent(Part(job, i), reply));
    if HoldsBlocks(job, i, DeviceAfter(log)) {
      OfferNextBlock(job, i, DeviceAfter(log), reply.taken);
    } else {
      OfferBlockAgain(job, i, DeviceAfter(log), reply.taken);
    }
  }

  lemma SendTrace(job: Job, i: nat, log: seq<Event>, reply: DeviceReply)
    requires MaySend(job, i, log)
    ensures Chained(job.mock, log + [Sent(Part(job, i), reply)])
    ensures Collapsed(log + [Sent(Part(job, i), reply)]) == Parts(job, i + 1)
  {
    hide HoldsBlocks, Part, Parts, BlockCount, Chained;
    LogGrows(log, Sent(Part(job, i), reply));
    PartsGrow(job, i);
    ChainGrows(job.mock, log, Sent(Part(job, i), reply));
  }

  /** One send of block i keeps the run on track. */
  lemma SendStep(job: Job, i: nat, log: seq<Event>, reply: DeviceReply)
    requires MaySend(job, i, log)
    ensures var log' := log + [Sent(Part(job, i), reply)];
            if reply.rc == 0 then Waiting(job, i, log') else Resending(job, i, log')
  {
    hide HoldsBlocks, Chained, Collapsed, DeviceAfter;
    SendDevice(job, i, log, reply);
    SendTrace(job, i, log, reply);
  }

  /** One poll after block i keeps the run on track. */
  lemma PollStep(job: Job, i: nat, log: seq<Event>, rc: int)
    requires Waiting(job, i, log)
    ensures var log' := log + [Polled(rc)];
            if rc == 0 then Ready(job, i + 1, log') else Waiting(job, i, log')
  {
    LogGrows(log, Polled(rc));
    ChainGrows(job.mock, log, Polled(rc));
  }

  /** The log of an aborted run. */
  ghost predicate AbortedAt(job: Job, i: nat, log: seq<Event>) {
    && i < BlockCount(|job.image|)
    && Chained(job.mock, log)
    && Collapsed(log) == Parts(job, i + 1) + [AbortOf(Part(job, i))]
    && !DeviceAfter(log).fault
    && log != [] && log[|log| - 1].Sent?
    && (if log[|log| - 1].reply.taken then DeviceAfter(log).image == [] && DeviceAfter(log).stage == Dropped
        else DeviceAfter(log).image in {BlocksLoaded(job, i), BlocksLoaded(job, i + 1)})
  }

  lemma AbortStep(job: Job, i: nat, log: seq<Event>, reply: DeviceReply)
    requires i < BlockCount(|job.image|) && log != []
    requires || Resending(job, i, log)
             || (Waiting(job, i, log) && log[|log| - 1].Polled?)
             || (Ready(job, i + 1, log) && job.mock)
    ensures AbortedAt(job, i, log + [Sent(AbortOf(Part(job, i)), reply)])
  {
    var e := Sent(AbortOf(Part(job, i)), reply);
    LogGrows(log, e);
    ChainGrows(job.mock, log, e);
  }

  lemma {:induction false} SendPhaseKeeps(env: Env, job: Job, i: nat, log: seq<Event>, retries: nat)
    requires retries <= MAX_RETRIES + 1
    requires MaySend(job, i, log)
    ensures var p := SendPhase(env, log, Part(job, i), retries);
            if p.ok then Waiting(job, i, p.log) else Resending(job, i, p.log)
    decreases MAX_RETRIES + 1 - retries
  {
    var reply := env.send(|log|);
    SendStep(job, i, log, reply);
    if reply.rc != 0 && retries <= MAX_RETRIES {
      SendPhaseKeeps(env, job, i, log + [Sent(Part(job, i), reply)], retries + 1);
    }
  }

  lemma {:induction false} PollPhaseKeeps(env: Env, job: Job, i: nat, log: seq<Event>, retries: nat)
    requires retries <= MAX_RETRIES + 1
    requires Waiting(job, i, log)
    ensures var p := PollPhase(env, log, retries);
            if p.ok then Ready(job, i + 1, p.log)
            else Waiting(job, i, p.log) && p.log[|p.log| - 1].Polled?
    decreases MAX_RETRIES + 1 - retries
  {
    hide Ready, Waiting;
    var rc := HboStatus(env.poll(|log|));
    PollStep(job, i, log, rc);
    if rc != 0 && retries <= MAX_RETRIES {
      PollPhaseKeeps(env, job, i, log + [Polled(rc)], retries + 1);
    }
  }

  lemma BlockPhaseKeeps(env: Env, job: Job, i: nat, log: seq<Event>)
    requires i < BlockCount(|job.image|)
    requires Ready(job, i, log) && (job.mock ==> i == 0)
    ensures var p := BlockPhase(env, job, log, i);
            && p.log != []
            && (if p.ok then Ready(job, i + 1, p.log)
                else Resending(job, i, p.log) || (Waiting(job, i, p.log) && p.log[|p.log| - 1].Polled?))
  {
    SendPhaseKeeps(env, job, i, log, 0);
    var sent := SendPhase(env, log, Part(job, i), 0);
    if sent.ok {
      PollPhaseKeeps(env, job, i, sent.log, 0);
    }
  }

  // ----- whole runs

  ghost predicate SafeFinish(job: Job, f: Finish) {
    match f
    case Completed(log) => Ready(job, BlockCount(|job.image|), log)
    case OutOfMemory(log, i) => i < BlockCount(|job.image|) && Ready(job, i, log)
    case Aborted(log, i, rc) => AbortedAt(job, i, log) && rc == log[|log| - 1].reply.rc
  }

  lemma {:induction false} TransferIsSafe(env: Env, job: Job, log: seq<Event>, i: nat)
    requires i <= BlockCount(|job.image|)
    requires Ready(job, i, log) && (job.mock ==> i == 0)
    ensures SafeFinish(job, Transfer(env, job, log, i))
    decreases BlockCount(|job.image|) - i
  {
    hide BlockPhase, Ready, Resending, Waiting, AbortedAt;
    if i < BlockCount(|job.image|) && env.blockAlloc(i) {
      BlockPhaseKeeps(env, job, i, log);
      var done := BlockPhase(env, job, log, i);
      if !done.ok || job.mock {
        AbortStep(job, i, done.log, env.send(|done.log|));
      } else {
        TransferIsSafe(env, job, done.log, i + 1);
      }
    }
  }

  lemma RunIsSafe(env: Env, job: Job)
    ensures SafeFinish(job, Transfer(env, job, [], 0))
  {
    assert Ready(job, 0, []) by {
      assert Parts(job, 0) == [];
    }
    TransferIsSafe(env, job, [], 0);
  }
}
