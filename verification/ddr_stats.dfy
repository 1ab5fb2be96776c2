/** The download of the DDR statistics in chunks, cxl_cmd_ddr_stats_get. */
module DdrStats {
  import opened Machine

  const MAX_TRANSFER := 16 * 1024
  const EBUSY := 16
  const ENOMEM := 12

  datatype Chunk = Chunk(offset: nat, size: nat)

  function ChunkSize(copied: nat, total: nat): nat
    requires copied < total
  {
    if total - copied < MAX_TRANSFER then total - copied else MAX_TRANSFER
  }

  /** The requests that are still to come when `copied` of `total` bytes are there. */
  function Chunks(copied: nat, total: nat): seq<Chunk>
    decreases total - copied
  {
    if copied >= total then []
    else
      var size := ChunkSize(copied, total);
      [Chunk(copied, size)] + Chunks(copied + size, total)
  }

  function ChunkCount(total: nat): nat {
    (total + MAX_TRANSFER - 1) / MAX_TRANSFER
  }

  /** The requests tile the stretch [copied, total): each starts where the one before it ends,
      none is empty or longer than 16384 bytes, and there are no more than needed. */
  lemma {:induction false} ChunksTile(i: nat, total: nat)
    requires i <= ChunkCount(total)
    ensures var chunks := Chunks(MAX_TRANSFER * i, total);
            && |chunks| == ChunkCount(total) - i == (total + 16383) / 16384 - i
            && forall k :: 0 <= k < |chunks| ==>
                 && chunks[k].offset == 16384 * (i + k)
                 && 0 < chunks[k].size <= 16384
                 && chunks[k].offset + chunks[k].size == (if k < |chunks| - 1 then chunks[k + 1].offset else total)
    decreases total - MAX_TRANSFER * i
  {
    if MAX_TRANSFER * i < total {
      var size := ChunkSize(MAX_TRANSFER * i, total);
      if size == MAX_TRANSFER {
        assert MAX_TRANSFER * i + size == MAX_TRANSFER * (i + 1);
        ChunksTile(i + 1, total);
      } else {
        assert Chunks(total, total) == [];
      }
    }
  }

  /** The chunk that brings byte p. */
  function ChunkOf(p: nat): nat {
    p / MAX_TRANSFER
  }

  lemma ChunkOfRange(k: nat, size: nat)
    requires size <= MAX_TRANSFER
    ensures forall p: nat :: MAX_TRANSFER * k <= p < MAX_TRANSFER * k + size ==> ChunkOf(p) == k
  {
  }

  /** The buffer after all chunks: a chunk whose command did not return 0 leaves its stretch of
      the buffer as the heap delivered it. */
  function Downloaded(total: nat, device: nat -> byte, reply: nat -> int, junk: nat -> byte): seq<byte> {
    seq(total, p requires 0 <= p => if reply(ChunkOf(p)) == 0 then device(p) else junk(p))
  }

  function DeviceBytes(total: nat, device: nat -> byte): seq<byte> {
    seq(total, p requires 0 <= p => device(p))
  }

  /** The statistics are right, whatever was in the heap, if and only if every command returned
      0. A positive return code is not enough for the driver to give up. */
  lemma RightIffAllChunksOk(total: nat, device: nat -> byte, reply: nat -> int)
    ensures (forall junk :: Downloaded(total, device, reply, junk) == DeviceBytes(total, device))
            <==> forall k :: 0 <= k < ChunkCount(total) ==> reply(k) == 0
  {
    if forall k :: 0 <= k < ChunkCount(total) ==> reply(k) == 0 {
      forall junk ensures Downloaded(total, device, reply, junk) == DeviceBytes(total, device) {
        assert forall p :: 0 <= p < total ==> ChunkOf(p) < ChunkCount(total);
      }
    } else {
      var k :| 0 <= k < ChunkCount(total) && reply(k) != 0;
      var p := MAX_TRANSFER * k;
      var junk := (q: nat) => (device(q) + 1) % 256;
      assert p < total && ChunkOf(p) == k;
      assert Downloaded(total, device, reply, junk)[p] != DeviceBytes(total, device)[p];
    }
  }

  /** The bytes that are downloaded cover the records that are displayed exactly when their size
      fits in an int: then record k of the buffer is record k of the device, also when it
      straddles chunks, and otherwise the last record is not there. */
  lemma RecordsAreIntact(size: nat, count: nat, device: nat -> byte, reply: nat -> int, junk: nat -> byte)
    requires var total := ToInt32(size * count);
             total >= 0 && forall i :: 0 <= i < ChunkCount(total) ==> reply(i) == 0
    ensures var shown := Downloaded(ToInt32(size * count), device, reply, junk);
            (forall k: nat :: k < count ==> IsRecord(shown, size, k, device)) <==> size * count < INT32_LIMIT
  {
    hide IsRecord;
    var total := ToInt32(size * count);
    var shown := Downloaded(total, device, reply, junk);
    forall k: nat | k < count && size * count < INT32_LIMIT ensures IsRecord(shown, size, k, device) {
      RecordInside(size, count, k);
      StretchIsIntact(total, size * k, size, device, reply, junk);
      RecordIs(shown, size, k, device);
    }
    if size * count >= INT32_LIMIT {
      if count == 0 {
        assert false;
      }
      RecordInside(size, count, count - 1);
      NoRecord(shown, size, count - 1, device);
    }
  }

  /** The counters of one loop, as the vendor packs them. */
  const RECORD_SIZE := 1376

  /** With 2^27 loops the size wraps around to 0: nothing is downloaded, not even record 0. */
  lemma NoRecordOfManyLoops(device: nat -> byte, reply: nat -> int, junk: nat -> byte)
    ensures ToInt32(RECORD_SIZE * 0x800_0000) == 0
    ensures !IsRecord(Downloaded(ToInt32(RECORD_SIZE * 0x800_0000), device, reply, junk), RECORD_SIZE, 0, device)
  {
    assert RECORD_SIZE * 0x800_0000 == 43 * WORD32;
  }

  /** The bytes hold the whole of record k. */
  ghost predicate IsRecord(bytes: seq<byte>, size: nat, k: nat, device: nat -> byte) {
    && size * k + size <= |bytes|
    && bytes[size * k..size * k + size] == seq(size, p requires 0 <= p => device(size * k + p))
  }

  lemma RecordIs(bytes: seq<byte>, size: nat, k: nat, device: nat -> byte)
    requires size * k + size <= |bytes|
    requires bytes[size * k..size * k + size] == seq(size, p requires 0 <= p => device(size * k + p))
    ensures IsRecord(bytes, size, k, device)
  {
  }

  lemma NoRecord(bytes: seq<byte>, size: nat, k: nat, device: nat -> byte)
    requires size * k + size > |bytes|
    ensures !IsRecord(bytes, size, k, device)
  {
  }

  lemma RecordInside(size: nat, count: nat, k: nat)
    requires k < count
    ensures size * k + size <= size * count
    ensures k == count - 1 ==> size * k + size == size * count
  {
    var later := count - 1 - k;
    assert size * count == size * (k + later + 1) == size * k + size * later + size;
    assert later == 0 ==> size * later == 0;
    if later > 0 {
      NotNegative(size, later);
    }
  }

  lemma NotNegative(x: nat, y: nat)
    ensures x * y >= 0
  {
  }

  lemma StretchIsIntact(total: nat, from: nat, size: nat, device: nat -> byte, reply: nat -> int, junk: nat -> byte)
    requires from + size <= total
    requires forall i :: 0 <= i < ChunkCount(total) ==> reply(i) == 0
    ensures Downloaded(total, device, reply, junk)[from..from + size]
            == seq(size, p requires 0 <= p => device(from + p))
  {
    RightIffAllChunksOk(total, device, reply);
    assert Downloaded(total, device, reply, junk) == DeviceBytes(total, device);
  }

  /** The answer to the status command. */
  datatype Status = Status(rc: int, running: bool, loopCount: nat)

  /** One chunk: the payload is copied only when the command returned 0. */
  method GetChunk(buf: array<byte>, req: Chunk, device: nat -> byte, rc: int)
    requires req.offset + req.size <= buf.Length
    modifies buf
    ensures forall p :: 0 <= p < buf.Length ==>
              buf[p] == if rc == 0 && req.offset <= p < req.offset + req.size then device(p) else old(buf[p])
  {
    if rc == 0 {
      forall p | req.offset <= p < req.offset + req.size {
        buf[p] := device(p);
      }
    }
  }

  /** The first chunk with a negative return code, if there is one. */
  ghost predicate FailsAt(reply: nat -> int, n: nat, k: nat) {
    k < n && reply(k) < 0 && forall i :: 0 <= i < k ==> reply(i) >= 0
  }

  ghost predicate NeverFails(reply: nat -> int, n: nat) {
    forall i :: 0 <= i < n ==> reply(i) >= 0
  }

  /** The k-th chunk command returns reply(k). The result `shown` is what goes to the display. */
  method DdrStatsGet(status: Status, recordSize: nat, allocOk: bool, device: nat -> byte,
                     reply: nat -> int, junk: nat -> byte)
    returns (rc: int, shown: Option<seq<byte>>, requests: seq<Chunk>)
    ensures status.rc != 0 ==> rc == status.rc && shown == None && requests == []
    ensures status.rc == 0 && status.running ==> rc == -16 && shown == None && requests == []
    ensures status.rc == 0 && !status.running ==>
              var total := ToInt32(recordSize * status.loopCount);
              if total < 0 || !allocOk then rc == -12 && shown == None && requests == []
              else
                var n := ChunkCount(total);
                && ((forall i :: 0 <= i < n ==> reply(i) >= 0) ==>
                      && requests == Chunks(0, total)
                      && rc == (if n == 0 then 0 else reply(n - 1))
                      && shown == Some(Downloaded(total, device, reply, junk)))
                && (forall k: nat :: k < n && reply(k) < 0 && (forall i :: 0 <= i < k ==> reply(i) >= 0) ==>
                      rc == reply(k) && shown == None && |requests| == k + 1 && requests <= Chunks(0, total))
  {
    rc, shown, requests := status.rc, None, [];
    if rc != 0 {
      return;
    }
    if status.running {
      return -EBUSY, None, [];
    }
    var totalBytes := ToInt32(recordSize * status.loopCount);
    if totalBytes < 0 || !allocOk {
      return -ENOMEM, None, [];
    }
    var buf := new byte[totalBytes](i => junk(i));
    ChunksTile(0, totalBytes);
    rc, requests := DownloadAll(buf, device, reply, junk);
    if rc >= 0 || requests == [] {
      shown := Some(buf[..]);
    }
  }

  /** The buffer when the first `copied` bytes have been asked for. */
  ghost predicate FilledTo(bytes: seq<byte>, copied: nat, device: nat -> byte, reply: nat -> int, junk: nat -> byte) {
    forall p :: 0 <= p < |bytes| ==>
      bytes[p] == if p < copied && reply(ChunkOf(p)) == 0 then device(p) else junk(p)
  }

  lemma FilledByChunk(before: seq<byte>, after: seq<byte>, k: nat, copied: nat, size: nat,
                      device: nat -> byte, reply: nat -> int, junk: nat -> byte)
    requires |before| == |after| && copied == MAX_TRANSFER * k && size <= MAX_TRANSFER
    requires FilledTo(before, copied, device, reply, junk)
    requires forall p :: 0 <= p < |after| ==>
               after[p] == if reply(k) == 0 && copied <= p < copied + size then device(p) else before[p]
    ensures FilledTo(after, copied + size, device, reply, junk)
  {
    hide ChunkOf;
    ChunkOfRange(k, size);
  }

  lemma FilledWhole(bytes: seq<byte>, device: nat -> byte, reply: nat -> int, junk: nat -> byte)
    requires FilledTo(bytes, |bytes|, device, reply, junk)
    ensures bytes == Downloaded(|bytes|, device, reply, junk)
  {
  }

  lemma NextChunk(requests: seq<Chunk>, copied: nat, size: nat, total: nat)
    requires requests + Chunks(copied, total) == Chunks(0, total)
    requires copied < total && size == ChunkSize(copied, total)
    ensures var all := requests + [Chunk(copied, size)];
            all + Chunks(copied + size, total) == Chunks(0, total) && all <= Chunks(0, total)
  {
    MovedOver(requests, Chunk(copied, size), Chunks(copied + size, total));
  }

  lemma MovedOver(done: seq<Chunk>, next: Chunk, rest: seq<Chunk>)
    ensures done + [next] + rest == done + ([next] + rest)
  {
  }

  /** The chunk loop: it stops early only at a negative return code. */
  method DownloadAll(buf: array<byte>, device: nat -> byte, reply: nat -> int, ghost junk: nat -> byte)
    returns (rc: int, requests: seq<Chunk>)
    requires forall p :: 0 <= p < buf.Length ==> buf[p] == junk(p)
    modifies buf
    ensures requests <= Chunks(0, buf.Length)
    ensures rc == (if requests == [] then 0 else reply(|requests| - 1))
    ensures NeverFails(reply, |requests|) ==>
              requests == Chunks(0, buf.Length) && buf[..] == Downloaded(buf.Length, device, reply, junk)
    ensures !NeverFails(reply, |requests|) ==> FailsAt(reply, |requests|, |requests| - 1)
  {
    hide ChunkOf, Chunks, FilledTo, Downloaded, NeverFails, FailsAt;
    var totalBytes := buf.Length;
    rc, requests := 0, [];
    var bytesCopied := 0;
    NothingFilled(buf[..], device, reply, junk);
    NothingFailed(reply);
    while bytesCopied < totalBytes
      invariant 0 <= bytesCopied <= totalBytes
      invariant requests <= Chunks(0, totalBytes)
      invariant requests + Chunks(bytesCopied, totalBytes) == Chunks(0, totalBytes)
      invariant bytesCopied == totalBytes || bytesCopied == MAX_TRANSFER * |requests|
      invariant rc == (if requests == [] then 0 else reply(|requests| - 1))
      invariant NeverFails(reply, |requests|)
      invariant FilledTo(buf[..], bytesCopied, device, reply, junk)
    {
      var k := |requests|;
      var bytesToCopy := if totalBytes - bytesCopied < MAX_TRANSFER then totalBytes - bytesCopied else MAX_TRANSFER;
      NextChunk(requests, bytesCopied, bytesToCopy, totalBytes);
      ghost var before := buf[..];
      requests := requests + [Chunk(bytesCopied, bytesToCopy)];
      rc := reply(k);
      FailsOrGoesOn(reply, k);
      GetChunk(buf, requests[k], device, rc);
      FilledByChunk(before, buf[..], k, bytesCopied, bytesToCopy, device, reply, junk);
      bytesCopied := bytesCopied + bytesToCopy;
      if rc < 0 {
        return;
      }
    }
    NoChunksLeft(totalBytes);
    FilledWhole(buf[..], device, reply, junk);
  }

  lemma NothingFailed(reply: nat -> int)
    ensures NeverFails(reply, 0)
  {
  }

  lemma FailsOrGoesOn(reply: nat -> int, k: nat)
    requires NeverFails(reply, k)
    ensures if reply(k) >= 0 then NeverFails(reply, k + 1)
            else FailsAt(reply, k + 1, k) && !NeverFails(reply, k + 1)
  {
  }

  lemma NothingFilled(bytes: seq<byte>, device: nat -> byte, reply: nat -> int, junk: nat -> byte)
    requires forall p :: 0 <= p < |bytes| ==> bytes[p] == junk(p)
    ensures FilledTo(bytes, 0, device, reply, junk)
  {
  }

  lemma NoChunksLeft(total: nat)
    ensures Chunks(total, total) == []
  {
  }
}
