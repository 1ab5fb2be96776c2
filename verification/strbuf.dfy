/** The growable byte buffer. */
module StringBuffer {
  import opened Machine

  // ----- growth policy

  /** alloc_nr, in the 64-bit arithmetic of size_t. */
  function AllocNr(x: nat): nat {
    (x + 16) % WORD64 * 3 % WORD64 / 2
  }

  /** The capacity after ALLOC_GROW asked for nr bytes. */
  function Grown(alloc: nat, nr: nat): nat {
    if nr <= alloc then alloc
    else if AllocNr(alloc) < nr then nr
    else AllocNr(alloc)
  }

  /** The capacity after a list of requests, the latest one last. */
  function Capacity(requests: seq<nat>): nat {
    if requests == [] then 0
    else Grown(Capacity(requests[..|requests| - 1]), requests[|requests| - 1])
  }

  /** The bytes that realloc has to move for these requests: a whole old buffer each time
      that the capacity changes. */
  function Moved(requests: seq<nat>): nat {
    if requests == [] then 0
    else
      var before := requests[..|requests| - 1];
      Moved(before) + if requests[|requests| - 1] > Capacity(before) then Capacity(before) else 0
  }

  function Largest(requests: seq<nat>): nat {
    if requests == [] then 0
    else
      var m := Largest(requests[..|requests| - 1]);
      if requests[|requests| - 1] > m then requests[|requests| - 1] else m
  }

  /** Beyond this capacity, (x + 16) * 3 no longer fits in 64 bits. */
  const WRAP_LIMIT := WORD64 / 3 - 16

  lemma AllocNrBounds(x: nat)
    ensures 2 * AllocNr(x) <= 3 * (x + 16)
    ensures x <= WRAP_LIMIT ==> 2 * AllocNr(x) + 1 >= 3 * (x + 16)
  {
  }

  /** The capacity suffices for every request and is at most linear in the largest. */
  lemma {:induction false} CapacityIsLinear(requests: seq<nat>)
    ensures Largest(requests) <= Capacity(requests)
    ensures 2 * Capacity(requests) <= 3 * (Largest(requests) + 16)
  {
    if requests != [] {
      var before := requests[..|requests| - 1];
      CapacityIsLinear(before);
      AllocNrBounds(Capacity(before));
    }
  }

  /** No request was served from a capacity so large that the growth rule wraps around. */
  ghost predicate NeverWraps(requests: seq<nat>) {
    forall k :: 0 <= k < |requests| && requests[k] > Capacity(requests[..k]) ==> Capacity(requests[..k]) <= WRAP_LIMIT
  }

  /** Growth is paid for: over such a list, the bytes moved are at most twice the capacity. */
  lemma {:induction false} MovedWithoutWrapping(requests: seq<nat>)
    requires NeverWraps(requests)
    ensures Moved(requests) <= 2 * Capacity(requests)
  {
    if requests != [] {
      var n := |requests| - 1;
      var before := requests[..n];
      assert NeverWraps(before) by {
        forall k | 0 <= k < n && before[k] > Capacity(before[..k]) ensures Capacity(before[..k]) <= WRAP_LIMIT {
          assert before[..k] == requests[..k] && before[k] == requests[k];
        }
      }
      MovedWithoutWrapping(before);
      AllocNrBounds(Capacity(before));
    }
  }

  lemma {:induction false} LargestIsLargest(requests: seq<nat>, k: nat)
    requires k < |requests|
    ensures requests[k] <= Largest(requests)
  {
    if k < |requests| - 1 {
      LargestIsLargest(requests[..|requests| - 1], k);
    }
  }

  /** A buffer that grows is smaller than what it is asked for; so small requests never wrap. */
  lemma SmallRequestsNeverWrap(requests: seq<nat>)
    requires Largest(requests) <= WRAP_LIMIT + 1
    ensures NeverWraps(requests)
  {
    forall k | 0 <= k < |requests| && requests[k] > Capacity(requests[..k])
      ensures Capacity(requests[..k]) <= WRAP_LIMIT
    {
      LargestIsLargest(requests, k);
    }
  }

  lemma Appended(requests: seq<nat>, nr: nat)
    ensures var all := requests + [nr];
            && Capacity(all) == Grown(Capacity(requests), nr)
            && Moved(all) == Moved(requests) + (if nr > Capacity(requests) then Capacity(requests) else 0)
            && Largest(all) == (if nr > Largest(requests) then nr else Largest(requests))
  {
    assert (requests + [nr])[..|requests|] == requests;
  }

  lemma NoRequests()
    ensures Capacity([]) == Moved([]) == Largest([]) == 0
  {
  }

  lemma GrowsAsAsked()
    ensures Grown(0, 2732850973882890000) == 2732850973882890000
    ensures Grown(2732850973882890000, 4099276460824344000) == 4099276460824344000
    ensures Grown(4099276460824344000, WRAP_LIMIT + 1) == WRAP_LIMIT + 1
    ensures Grown(WRAP_LIMIT + 1, WRAP_LIMIT + 2) == WRAP_LIMIT + 2
  {
  }

  /** Four requests, the last of which grows the buffer by one byte, move too much. */
  lemma WrappedGrowthIsNotAmortised()
    returns (requests: seq<nat>)
    ensures Largest(requests) == WRAP_LIMIT + 2 && Moved(requests) > 2 * Capacity(requests)
  {
    hide Capacity, Moved, Largest, Grown;
    var (a, b) := (2732850973882890000, 4099276460824344000);
    Appended([], a);
    Appended([a], b);
    Appended([a, b], WRAP_LIMIT + 1);
    Appended([a, b, WRAP_LIMIT + 1], WRAP_LIMIT + 2);
    assert [] + [a] == [a] && [a] + [b] == [a, b];
    assert [a, b] + [WRAP_LIMIT + 1] == [a, b, WRAP_LIMIT + 1];
    assert [a, b, WRAP_LIMIT + 1] + [WRAP_LIMIT + 2] == [a, b, WRAP_LIMIT + 1, WRAP_LIMIT + 2];
    assert Capacity([]) == Moved([]) == Largest([]) == 0 by {
      NoRequests();
    }
    assert Grown(0, a) == a && Grown(a, b) == b by {
      GrowsAsAsked();
    }
    assert Grown(b, WRAP_LIMIT + 1) == WRAP_LIMIT + 1 && Grown(WRAP_LIMIT + 1, WRAP_LIMIT + 2) == WRAP_LIMIT + 2 by {
      GrowsAsAsked();
    }
    return [a, b, WRAP_LIMIT + 1, WRAP_LIMIT + 2];
  }

  /** The growth policy is amortised, with a factor of two, exactly for requests up to
      WRAP_LIMIT + 1. */
  lemma GrowthIsAmortised(limit: nat)
    ensures (forall requests :: Largest(requests) <= limit ==> Moved(requests) <= 2 * Capacity(requests))
            <==> limit <= WRAP_LIMIT + 1
  {
    if limit <= WRAP_LIMIT + 1 {
      forall requests | Largest(requests) <= limit ensures Moved(requests) <= 2 * Capacity(requests) {
        SmallRequestsNeverWrap(requests);
        MovedWithoutWrapping(requests);
      }
    } else {
      var requests := WrappedGrowthIsNotAmortised();
      assert Largest(requests) <= limit;
    }
  }

  /** The test for "too much memory" in strbuf_grow. */
  function SumWraps(len: nat, extra: nat): bool {
    (len + extra + 1) % WORD64 <= len
  }

  /** The test fires exactly when the sum does not fit in a size_t. */
  lemma SumWrapsExactly(len: nat, extra: nat)
    requires len < WORD64 && extra < WORD64
    ensures SumWraps(len, extra) <==> len + extra + 1 >= WORD64
  {
  }

  // ----- the buffer

  /** The bytes with the data written over them from `to` on. */
  function Overwritten(bytes: seq<byte>, to: nat, data: seq<byte>): (r: seq<byte>)
    requires to + |data| <= |bytes|
    ensures |r| == |bytes|
  {
    bytes[..to] + data + bytes[to + |data|..]
  }

  /** memmove within a buffer; source and target may overlap. */
  method MoveWithin(buf: array<byte>, to: nat, from: nat, n: nat)
    requires to + n <= buf.Length && from + n <= buf.Length
    modifies buf
    ensures buf[..] == Overwritten(old(buf[..]), to, old(buf[from..from + n]))
  {
    forall i | 0 <= i < n {
      buf[to + i] := buf[from + i];
    }
  }

  method CopyTo(buf: array<byte>, to: nat, data: seq<byte>)
    requires to + |data| <= buf.Length
    modifies buf
    ensures buf[..] == Overwritten(old(buf[..]), to, data)
  {
    forall i | 0 <= i < |data| {
      buf[to + i] := data[i];
    }
  }

  /** Replace n bytes at pos by the data. */
  method ReplaceStretch(buf: array<byte>, len: nat, pos: nat, n: nat, data: seq<byte>)
    requires pos + n <= len <= buf.Length && len + |data| - n <= buf.Length
    modifies buf
    ensures buf[..len + |data| - n] == old(buf[..pos]) + data + old(buf[pos + n..len])
  {
    hide Overwritten;
    ghost var was := buf[..];
    MoveWithin(buf, pos + |data|, pos + n, len - pos - n);
    CopyTo(buf, pos, data);
    Stitched(was, pos, data, was[pos + n..len]);
    assert buf[..][..len + |data| - n] == buf[..len + |data| - n];
  }

  lemma Stitched(was: seq<byte>, pos: nat, data: seq<byte>, rest: seq<byte>)
    requires pos + |data| + |rest| <= |was|
    ensures Overwritten(Overwritten(was, pos + |data|, rest), pos, data)[..pos + |data| + |rest|]
            == was[..pos] + data + rest
  {
  }

  /** A block of the given size that begins with what was in the old one. */
  method Reallocate(buf: array<byte>, alloc: nat, size: nat, junk: nat -> byte) returns (bigger: array<byte>)
    requires alloc <= buf.Length && alloc < size
    ensures fresh(bigger) && bigger.Length == size
    ensures bigger[..alloc] == buf[..alloc]
    ensures forall i :: 0 <= i < alloc ==> bigger[i] == buf[i]
    ensures forall i :: alloc <= i < size ==> bigger[i] == junk(i)
  {
    bigger := new byte[size](i => junk(i));
    forall i | 0 <= i < alloc {
      bigger[i] := buf[i];
    }
  }

  lemma GrownFits(alloc: nat, nr: nat)
    requires alloc < WORD64 && nr < WORD64
    ensures nr <= Grown(alloc, nr) < WORD64
    ensures Grown(alloc, nr) == if nr <= alloc then alloc else if AllocNr(alloc) < nr then nr else AllocNr(alloc)
  {
  }

  class Strbuf {
    const slop: array<byte>   // the one NUL byte that all empty buffers share
    var alloc: nat
    var len: nat
    var buf: array<byte>
    ghost var requests: seq<nat>   // what was asked for since the buffer was last initialised
    ghost var moved: nat           // the bytes that realloc has copied since then

    ghost predicate Valid()
      reads this, slop, buf
    {
      && slop.Length == 1 && slop[0] == 0
      && alloc == Capacity(requests) && alloc < WORD64 && moved == Moved(requests)
      && (if alloc == 0 then buf == slop && len == 0
          else buf != slop && buf.Length == alloc && len < alloc)
    }

    ghost function Contents(): seq<byte>
      requires Valid()
      reads this, slop, buf
    {
      buf[..len]
    }

    /** The NUL byte behind the contents is in place. */
    ghost predicate Terminated()
      requires Valid()
      reads this, slop, buf
    {
      buf[len] == 0
    }

    /** STRBUF_INIT and strbuf_init without a hint. */
    constructor (slop: array<byte>)
      requires slop.Length == 1 && slop[0] == 0
      ensures Valid() && Terminated() && this.slop == slop
      ensures Contents() == [] && alloc == 0 && requests == [] && moved == 0
    {
      this.slop, alloc, len, buf, requests, moved := slop, 0, 0, slop, [], 0;
    }

    /** strbuf_grow. The heap hands out bytes with arbitrary contents, here `junk`. Returns
        false where the original dies. The NUL byte is kept, but a first allocation does not
        write it. */
    method Grow(extra: nat, junk: nat -> byte) returns (ok: bool)
      requires Valid() && extra < WORD64
      modifies this`alloc, this`buf, this`requests, this`moved
      ensures Valid() && len == old(len)
      ensures ok <==> old(len) + extra + 1 < WORD64
      ensures !ok ==> alloc == old(alloc) && buf == old(buf)
      ensures ok ==> alloc == Grown(old(alloc), len + extra + 1) && len + extra + 1 <= alloc
      ensures requests == if ok then old(requests) + [len + extra + 1] else old(requests)
      ensures moved == if buf == old(buf) then old(moved) else old(moved) + old(alloc)
      ensures buf == old(buf) || fresh(buf)
      ensures Contents() == old(Contents())
      ensures old(alloc) > 0 ==> buf[..old(alloc)] == old(buf[..alloc])
      ensures ok ==> (Terminated() <==> if old(alloc) > 0 then old(Terminated()) else junk(0) == 0)
    {
      hide Capacity, Moved, Grown, AllocNr, SumWraps;
      SumWrapsExactly(len, extra);
      if SumWraps(len, extra) {
        return false;
      }
      var nr := len + extra + 1;
      Appended(requests, nr);
      GrownFits(alloc, nr);
      requests := requests + [nr];
      if nr > alloc {
        var size := if AllocNr(alloc) < nr then nr else AllocNr(alloc);
        var bigger := Reallocate(buf, alloc, size, junk);
        moved := moved + alloc;
        alloc, buf := size, bigger;
      }
      return true;
    }

    /** strbuf_init: back to the empty buffer, with room for `hint` bytes. A hint of -1 becomes
        the largest size_t, for which growing dies. */
    method Init(hint: int, junk: nat -> byte) returns (ok: bool)
      requires Valid() && -INT64_LIMIT <= hint < INT64_LIMIT
      modifies this`alloc, this`len, this`buf, this`requests, this`moved
      ensures Valid() && Contents() == []
      ensures buf == slop || fresh(buf)
      ensures ok <==> hint != -1
      ensures hint == 0 ==> alloc == 0 && Terminated()
      ensures ok && hint != 0 ==> alloc > hint % WORD64 && (Terminated() <==> junk(0) == 0)
      ensures requests == (if ok && hint != 0 then [hint % WORD64 + 1] else []) && moved == 0
    {
      alloc, len, buf, requests, moved := 0, 0, slop, [], 0;
      ok := true;
      if hint != 0 {
        ok := Grow(hint % WORD64, junk);
      }
    }

    /** strbuf_setlen. Returns false where its assertion stops the program. */
    method SetLen(n: nat, junk: nat -> byte) returns (ok: bool)
      requires Valid() && n < WORD64
      modifies this, buf
      ensures Valid() && (buf == old(buf) || fresh(buf))
      ensures alloc == if old(alloc) == 0 then Grown(0, 1) else old(alloc)
      ensures requests == if old(alloc) == 0 then old(requests) + [1] else old(requests)
      ensures ok <==> n < alloc
      ensures !ok ==> Contents() == old(Contents())
      ensures ok ==> len == n && Terminated()
      ensures ok && n <= old(len) ==> Contents() == old(Contents())[..n]
      ensures ok && old(alloc) > 0 ==> Contents() == old(buf[..n])
    {
      hide Capacity, Moved, Grown, AllocNr;
      if alloc == 0 {
        var _ := Grow(0, junk);
      }
      if n >= alloc {
        return false;
      }
      len := n;
      buf[n] := 0;
      return true;
    }

    /** strbuf_addch; the int is cut down to a byte. */
    method AddCh(c: int, junk: nat -> byte) returns (ok: bool)
      requires Valid()
      modifies this, buf
      ensures Valid() && (buf == old(buf) || fresh(buf))
      ensures ok <==> old(len) + 2 < WORD64
      ensures Contents() == if ok then old(Contents()) + [c % 256] else old(Contents())
      ensures requests == if ok then old(requests) + [old(len) + 2] else old(requests)
      ensures ok ==> Terminated()
    {
      hide Capacity, Moved, Grown, AllocNr;
      ok := Grow(1, junk);
      if ok {
        buf[len] := c % 256;
        len := len + 1;
        buf[len] := 0;
      }
    }

    /** strbuf_add, for data that is not part of the buffer itself. */
    method Add(data: seq<byte>, junk: nat -> byte) returns (ok: bool)
      requires Valid() && |data| < WORD64
      modifies this, buf
      ensures Valid() && (buf == old(buf) || fresh(buf))
      ensures ok <==> old(len) + |data| + 1 < WORD64
      ensures Contents() == if ok then old(Contents()) + data else old(Contents())
      ensures requests == if ok then old(requests) + [old(len) + |data| + 1] else old(requests)
      ensures ok ==> Terminated()
    {
      hide Capacity, Moved, Grown, AllocNr;
      ok := Grow(|data|, junk);
      if ok {
        CopyTo(buf, len, data);
        assert buf[..len + |data|] == old(Contents()) + data;
        ok := SetLen(len + |data|, junk);
      }
    }

    /** The two moves of a splice, on the buffer in use, and the new length. */
    method MoveAndCopy(pos: nat, n: nat, data: seq<byte>, junk: nat -> byte)
      requires Valid() && alloc > 0 && pos + n <= len && len + |data| - n < alloc
      modifies this, buf
      ensures Valid() && Terminated() && (buf == old(buf) || fresh(buf))
      ensures Contents() == old(Contents())[..pos] + data + old(Contents())[pos + n..]
      ensures requests == old(requests)
    {
      hide Capacity, Moved, Grown, AllocNr;
      ghost var was := Contents();
      assert buf[..pos] == was[..pos] && buf[pos + n..len] == was[pos + n..];
      ReplaceStretch(buf, len, pos, n, data);
      var _ := SetLen(len + |data| - n, junk);
    }

    /** strbuf_splice: replace n bytes at pos by the data, with one overlapping move. */
    method Splice(pos: nat, n: nat, data: seq<byte>, junk: nat -> byte) returns (ok: bool)
      requires Valid() && pos < WORD64 && n < WORD64 && |data| < WORD64
      modifies this, buf
      ensures Valid() && (buf == old(buf) || fresh(buf))
      ensures ok <==> pos + n <= old(len) && (|data| >= n ==> old(len) + (|data| - n) + 1 < WORD64)
      ensures !ok ==> Contents() == old(Contents())
      ensures ok ==> Contents() == old(Contents())[..pos] + data + old(Contents())[pos + n..]
      ensures requests == if ok && |data| >= n then old(requests) + [old(len) + (|data| - n) + 1] else old(requests)
      ensures ok ==> Terminated()
    {
      hide Capacity, Moved, Grown, AllocNr;
      if (pos + n) % WORD64 < pos {
        return false;
      }
      if pos > len {
        return false;
      }
      if pos + n > len {
        return false;
      }
      ok := true;
      if |data| >= n {
        ok := Grow(|data| - n, junk);
      }
      if ok {
        MoveAndCopy(pos, n, data, junk);
      }
    }

    /** strbuf_remove. */
    method Remove(pos: nat, n: nat, junk: nat -> byte) returns (ok: bool)
      requires Valid() && pos < WORD64 && n < WORD64
      modifies this, buf
      ensures Valid() && (buf == old(buf) || fresh(buf))
      ensures ok <==> pos + n <= old(len)
      ensures Contents() == if ok then old(Contents())[..pos] + old(Contents())[pos + n..] else old(Contents())
      ensures requests == if ok && n == 0 then old(requests) + [old(len) + 1] else old(requests)
      ensures ok ==> Terminated()
    {
      hide Capacity, Moved, Grown, AllocNr;
      ghost var was := Contents();
      ok := Splice(pos, n, [], junk);
      if ok {
        assert was[..pos] + [] == was[..pos];
      }
    }

    /** strbuf_detach: hand over the bytes and leave an empty shell. */
    method Detach() returns (res: array?<byte>, size: nat)
      requires Valid()
      modifies this`alloc, this`len, this`buf, this`requests, this`moved
      ensures Valid() && Terminated() && alloc == 0 && Contents() == []
      ensures requests == [] && moved == 0
      ensures size == old(len)
      ensures res == null <==> old(alloc) == 0
      ensures res != null ==> res == old(buf) && res != buf && res[..size] == old(Contents())
    {
      res := if alloc > 0 then buf else null;
      size := len;
      var _ := Init(0, _ => 0);
    }

    /** strbuf_release: an empty buffer is left as it is. */
    method Release()
      requires Valid()
      modifies this`alloc, this`len, this`buf, this`requests, this`moved
      ensures Valid() && Terminated() && alloc == 0 && Contents() == []
    {
      if alloc > 0 {
        var _ := Init(0, _ => 0);
      }
    }

    /** After any sequence of operations: the bytes that realloc has copied so far are at most
        twice the capacity, and the capacity is at most linear in the largest request. */
    lemma GrowthBounds()
      requires Valid()
      ensures Largest(requests) <= WRAP_LIMIT + 1 ==> moved <= 2 * alloc
      ensures 2 * alloc <= 3 * (Largest(requests) + 16)
    {
      GrowthIsAmortised(WRAP_LIMIT + 1);
      CapacityIsLinear(requests);
    }
  }

  // ----- prefixes

  /** prefixcmp: 0 for a prefix, else the difference of the first two characters that differ.
      A string ends in NUL, which is smaller than every other character. */
  method PrefixCmp(str: string, prefix: string) returns (r: int)
    requires '\0' !in str && '\0' !in prefix
    ensures r == 0 <==> prefix <= str
    ensures r != 0 ==>
              exists k :: 0 <= k < |prefix| && k <= |str| && prefix[..k] == str[..k]
                && r == prefix[k] as int - (if k < |str| then str[k] as int else 0)
  {
    var i := 0;
    while i < |prefix|
      invariant 0 <= i <= |prefix| && i <= |str|
      invariant prefix[..i] == str[..i]
    {
      if i == |str| {
        return prefix[i] as int;
      }
      if str[i] != prefix[i] {
        return prefix[i] as int - str[i] as int;
      }
      i := i + 1;
    }
    return 0;
  }
}
