/** The body streamer (util/net/http_transport_win.cc:218-298): pull blocks
    of at most 32 KiB from the body source; in chunked mode write each one
    as a chunk frame, the empty block included (it is the last-chunk); in
    content-length mode write the raw bytes and skip empty writes. A body
    source error or a failed write ends the call at once. */
module BodyStreamer {
  import opened Base
  import opened Wire
  import opened ChunkFrame

  /** One `GetBytesBuffer` result: a block of bytes (the byte count is its
      length, 0 meaning end of body) or the error result -1. */
  datatype BodyRead = Block(data: seq<byte>) | ReadError

  /** What one pass over the body did: whether it succeeded, how many times
      the body source was read, the block behind every `WinHttpWriteData`
      call in order (a failing write included) and `total_written`. The
      buffers those calls were handed are `Writes` of the log. */
  datatype StreamLog = StreamLog(ok: bool, pulls: nat, sent: seq<seq<byte>>, totalWritten: nat)

  /** The body source honours the buffer size it is given. */
  predicate WellFormedSource(src: seq<BodyRead>)
  {
    forall i :: 0 <= i < |src| && src[i].Block? ==> |src[i].data| <= MaxBlock
  }

  /** The `i`-th read of a scripted body source; a finished script reads as
      end of body. */
  function Pull(src: seq<BodyRead>, i: nat): BodyRead
  {
    if i < |src| then src[i] else Block([])
  }

  /** A read that ends the loop: end of body or error. */
  predicate Stops(r: BodyRead)
  {
    r.ReadError? || |r.data| == 0
  }

  /** Index of the first read at or after `i` that ends the loop. */
  function StopFrom(src: seq<BodyRead>, i: nat): (e: nat)
    ensures i <= e
    ensures Stops(Pull(src, e))
    ensures forall j :: i <= j < e ==> !Stops(Pull(src, j))
    decreases |src| - i
  {
    if Stops(Pull(src, i)) then i else StopFrom(src, i + 1)
  }

  /** The data blocks read from index `i` up to the read that ends the loop. */
  function BlocksFrom(src: seq<BodyRead>, i: nat): (bs: seq<seq<byte>>)
    requires WellFormedSource(src)
    ensures Bounded(bs) && NonEmpty(bs)
    ensures |bs| == StopFrom(src, i) - i
    ensures forall j :: 0 <= j < |bs| ==> bs[j] == Pull(src, i + j).data
    decreases |src| - i
  {
    if Stops(Pull(src, i)) then [] else [Pull(src, i).data] + BlocksFrom(src, i + 1)
  }

  function StopIndex(src: seq<BodyRead>): nat
  {
    StopFrom(src, 0)
  }

  function Blocks(src: seq<BodyRead>): seq<seq<byte>>
    requires WellFormedSource(src)
  {
    BlocksFrom(src, 0)
  }

  /** The request body the source delivers before it signals its end. */
  function Body(src: seq<BodyRead>): seq<byte>
    requires WellFormedSource(src)
  {
    Concat(Blocks(src))
  }

  /** The write buffer for one block: its frame in chunked mode, the raw
      bytes otherwise. */
  function Encode(chunked: bool, data: seq<byte>): seq<byte>
    requires |data| <= MaxBlock
  {
    if chunked then Frame(data) else data
  }

  function EncodeAll(chunked: bool, blocks: seq<seq<byte>>): (r: seq<seq<byte>>)
    requires Bounded(blocks)
    ensures |r| == |blocks|
  {
    if chunked then Frames(blocks) else blocks
  }

  /** The buffers handed to `WinHttpWriteData` during a pass. */
  function Writes(chunked: bool, log: StreamLog): seq<seq<byte>>
    requires Bounded(log.sent)
  {
    EncodeAll(chunked, log.sent)
  }

  /** The number of bytes in the buffers for `blocks`. */
  function WireLength(chunked: bool, blocks: seq<seq<byte>>): nat
    requires Bounded(blocks)
  {
    if |blocks| == 0 then 0 else |Encode(chunked, blocks[0])| + WireLength(chunked, blocks[1..])
  }

  /** The blocks behind the writes a pass from read `i` makes when nothing
      fails: every data block and, in chunked mode, the empty block once the
      source reports the end of the body (its frame is the last-chunk). */
  function Planned(chunked: bool, src: seq<BodyRead>, i: nat): (p: seq<seq<byte>>)
    requires WellFormedSource(src)
    ensures Bounded(p)
  {
    BlocksFrom(src, i) + (if chunked && Pull(src, StopFrom(src, i)).Block? then [[]] else [])
  }

  /** Reference definition of the pass from read `i` on, one read per step;
      the write for read `i` is the `i`-th write of the call. A write of
      size 0 is skipped. */
  function StreamFrom(chunked: bool, src: seq<BodyRead>, writeOk: seq<bool>, i: nat): (r: StreamLog)
    requires WellFormedSource(src)
    ensures Bounded(r.sent)
    decreases |src| - i
  {
    match Pull(src, i)
    case ReadError => StreamLog(false, 1, [], 0)
    case Block(data) =>
      var size := |Encode(chunked, data)|;
      if size == 0 then StreamLog(true, 1, [], 0)
      else if !Succeeds(writeOk, i) then StreamLog(false, 1, [data], 0)
      else if |data| == 0 then StreamLog(true, 1, [data], size)
      else
        var rest := StreamFrom(chunked, src, writeOk, i + 1);
        StreamLog(rest.ok, rest.pulls + 1, [data] + rest.sent, rest.totalWritten + size)
  }

  function Stream(chunked: bool, src: seq<BodyRead>, writeOk: seq<bool>): (r: StreamLog)
    requires WellFormedSource(src)
    ensures Bounded(r.sent)
  {
    StreamFrom(chunked, src, writeOk, 0)
  }

  /** A log of `pulls` reads, the `sent` blocks and `total` bytes already
      done, followed by `rest`. */
  function Prepend(pulls: nat, sent: seq<seq<byte>>, total: nat, rest: StreamLog): StreamLog
  {
    StreamLog(rest.ok, pulls + rest.pulls, sent + rest.sent, total + rest.totalWritten)
  }

  /** The do-while loop of lines 220-294, over a scripted body source and
      scripted write results. It computes the reference `Stream`. */
  method StreamBody(chunked: bool, src: seq<BodyRead>, writeOk: seq<bool>) returns (log: StreamLog)
    requires WellFormedSource(src)
    ensures log == Stream(chunked, src, writeOk)
  {
    var pulls: nat := 0;
    var sent: seq<seq<byte>> := [];
    var total: nat := 0;
    while true
      invariant pulls <= StopIndex(src)
      invariant |sent| == pulls
      invariant Stream(chunked, src, writeOk) == Prepend(pulls, sent, total, StreamFrom(chunked, src, writeOk, pulls))
      decreases |src| - pulls
    {
      var r := Pull(src, pulls);
      if r.ReadError? {
        ErrorStep(chunked, src, writeOk, pulls, sent, total);
        return StreamLog(false, pulls + 1, sent, total);
      }
      var w := Encode(chunked, r.data);
      if |w| != 0 {
        if !Succeeds(writeOk, pulls) {
          WriteFailureStep(chunked, src, writeOk, pulls, sent, total);
          return StreamLog(false, pulls + 1, sent + [r.data], total);
        }
        if |r.data| != 0 {
          Advance(chunked, src, writeOk, pulls, sent, total);
        } else {
          EndStep(chunked, src, writeOk, pulls, sent, total);
        }
        sent := sent + [r.data];
        total := total + |w|;
      } else {
        EndStepNoWrite(chunked, src, writeOk, pulls, sent, total);
      }
      if |r.data| == 0 {
        return StreamLog(true, pulls + 1, sent, total);
      }
      pulls := pulls + 1;
    }
  }

  /** The loop steps of `StreamBody`, each stated on the log built so far:
      `sent` and `total` before read `i`, followed by the pass from read `i`. */
  lemma ErrorStep(chunked: bool, src: seq<BodyRead>, writeOk: seq<bool>, i: nat, sent: seq<seq<byte>>, total: nat)
    requires WellFormedSource(src) && Pull(src, i).ReadError?
    ensures Prepend(i, sent, total, StreamFrom(chunked, src, writeOk, i)) == StreamLog(false, i + 1, sent, total)
  {
    AppendNil(sent);
  }

  lemma WriteFailureStep(chunked: bool, src: seq<BodyRead>, writeOk: seq<bool>, i: nat, sent: seq<seq<byte>>, total: nat)
    requires WellFormedSource(src) && Pull(src, i).Block?
    requires |Encode(chunked, Pull(src, i).data)| != 0 && !Succeeds(writeOk, i)
    ensures Prepend(i, sent, total, StreamFrom(chunked, src, writeOk, i))
         == StreamLog(false, i + 1, sent + [Pull(src, i).data], total)
  {
  }

  lemma EndStep(chunked: bool, src: seq<BodyRead>, writeOk: seq<bool>, i: nat, sent: seq<seq<byte>>, total: nat)
    requires WellFormedSource(src) && Pull(src, i) == Block([])
    requires |Encode(chunked, [])| != 0 && Succeeds(writeOk, i)
    ensures Prepend(i, sent, total, StreamFrom(chunked, src, writeOk, i))
         == StreamLog(true, i + 1, sent + [[]], total + |Encode(chunked, [])|)
  {
  }

  lemma EndStepNoWrite(chunked: bool, src: seq<BodyRead>, writeOk: seq<bool>, i: nat, sent: seq<seq<byte>>, total: nat)
    requires WellFormedSource(src) && Pull(src, i).Block? && |Encode(chunked, Pull(src, i).data)| == 0
    ensures Pull(src, i) == Block([])
    ensures Prepend(i, sent, total, StreamFrom(chunked, src, writeOk, i)) == StreamLog(true, i + 1, sent, total)
  {
    AppendNil(sent);
  }

  lemma Advance(chunked: bool, src: seq<BodyRead>, writeOk: seq<bool>, i: nat, sent: seq<seq<byte>>, total: nat)
    requires WellFormedSource(src) && !Stops(Pull(src, i)) && Succeeds(writeOk, i)
    ensures Prepend(i, sent, total, StreamFrom(chunked, src, writeOk, i))
         == Prepend(i + 1, sent + [Pull(src, i).data], total + |Encode(chunked, Pull(src, i).data)|,
                    StreamFrom(chunked, src, writeOk, i + 1))
  {
    var data := Pull(src, i).data;
    var rest := StreamFrom(chunked, src, writeOk, i + 1);
    StreamStep(chunked, src, writeOk, i);
    SeqAssoc(sent, [data], rest.sent);
  }

  /** One step of a pass over a non-empty block whose write succeeds. */
  lemma StreamStep(chunked: bool, src: seq<BodyRead>, writeOk: seq<bool>, i: nat)
    requires WellFormedSource(src)
    requires !Stops(Pull(src, i)) && Succeeds(writeOk, i)
    ensures StopFrom(src, i) == StopFrom(src, i + 1)
    ensures Planned(chunked, src, i) == [Pull(src, i).data] + Planned(chunked, src, i + 1)
    ensures StreamFrom(chunked, src, writeOk, i) ==
      Prepend(1, [Pull(src, i).data], |Encode(chunked, Pull(src, i).data)|,
              StreamFrom(chunked, src, writeOk, i + 1))
  {
    var bs := BlocksFrom(src, i + 1);
    assert BlocksFrom(src, i) == [Pull(src, i).data] + bs;
  }

  /** The empty block, or a data block and the planned blocks after it. */
  lemma PlannedHead(chunked: bool, src: seq<BodyRead>, i: nat)
    requires WellFormedSource(src) && Pull(src, i).Block?
    ensures var data := Pull(src, i).data;
      && |Planned(chunked, src, i)| >= (if chunked || |data| > 0 then 1 else 0)
      && (chunked || |data| > 0 ==> Planned(chunked, src, i)[0] == data)
      && (|data| == 0 ==> Planned(chunked, src, i) == (if chunked then [[]] else []))
  {
    var data := Pull(src, i).data;
    if |data| == 0 {
      assert BlocksFrom(src, i) == [];
    } else {
      assert BlocksFrom(src, i)[0] == data;
    }
  }

  /** The writes of a pass from read `i` carry a prefix of the planned
      blocks, every one of them but the last succeeded, and the source was
      read at most once past the last data block. */
  lemma StreamFromPrefix(chunked: bool, src: seq<BodyRead>, writeOk: seq<bool>, i: nat)
    requires WellFormedSource(src)
    ensures var r := StreamFrom(chunked, src, writeOk, i);
      && r.sent <= Planned(chunked, src, i)
      && 1 <= r.pulls <= StopFrom(src, i) - i + 1
      && (forall k :: i <= k < i + |r.sent| - 1 ==> Succeeds(writeOk, k))
  {
    StreamFromWrites(chunked, src, writeOk, i);
    StreamFromPulls(chunked, src, writeOk, i);
    StreamFromEarlierWrites(chunked, src, writeOk, i);
  }

  lemma {:induction false} StreamFromWrites(chunked: bool, src: seq<BodyRead>, writeOk: seq<bool>, i: nat)
    requires WellFormedSource(src)
    ensures StreamFrom(chunked, src, writeOk, i).sent <= Planned(chunked, src, i)
    decreases |src| - i
  {
    if !Stops(Pull(src, i)) && Succeeds(writeOk, i) {
      StreamStep(chunked, src, writeOk, i);
      StreamFromWrites(chunked, src, writeOk, i + 1);
      PrefixCons(Pull(src, i).data, StreamFrom(chunked, src, writeOk, i + 1).sent, Planned(chunked, src, i + 1));
    } else {
      StreamFromLast(chunked, src, writeOk, i);
    }
  }

  lemma {:induction false} StreamFromPulls(chunked: bool, src: seq<BodyRead>, writeOk: seq<bool>, i: nat)
    requires WellFormedSource(src)
    ensures 1 <= StreamFrom(chunked, src, writeOk, i).pulls <= StopFrom(src, i) - i + 1
    decreases |src| - i
  {
    if !Stops(Pull(src, i)) && Succeeds(writeOk, i) {
      StreamStep(chunked, src, writeOk, i);
      StreamFromPulls(chunked, src, writeOk, i + 1);
    } else {
      StreamFromLast(chunked, src, writeOk, i);
    }
  }

  lemma {:induction false} StreamFromEarlierWrites(chunked: bool, src: seq<BodyRead>, writeOk: seq<bool>, i: nat)
    requires WellFormedSource(src)
    ensures var r := StreamFrom(chunked, src, writeOk, i);
      forall k :: i <= k < i + |r.sent| - 1 ==> Succeeds(writeOk, k)
    decreases |src| - i
  {
    if !Stops(Pull(src, i)) && Succeeds(writeOk, i) {
      StreamStep(chunked, src, writeOk, i);
      StreamFromEarlierWrites(chunked, src, writeOk, i + 1);
    } else {
      StreamFromLast(chunked, src, writeOk, i);
    }
  }

  /** A pass that ends at read `i` (end of body, error or failed write):
      one read, and at most one write, which carries the planned block. */
  lemma StreamFromLast(chunked: bool, src: seq<BodyRead>, writeOk: seq<bool>, i: nat)
    requires WellFormedSource(src)
    requires Stops(Pull(src, i)) || !Succeeds(writeOk, i)
    ensures var r := StreamFrom(chunked, src, writeOk, i);
      && r.pulls == 1
      && |r.sent| <= 1
      && r.sent <= Planned(chunked, src, i)
  {
    if Pull(src, i).Block? {
      PlannedHead(chunked, src, i);
    }
  }

  lemma PrefixCons(x: seq<byte>, a: seq<seq<byte>>, b: seq<seq<byte>>)
    requires a <= b
    ensures [x] + a <= [x] + b
  {
  }

  /** A successful pass from read `i` made all the planned writes, all of
      them succeeded, it read the source up to its end of body and
      `total_written` counts every written byte. */
  lemma StreamFromSucceeded(chunked: bool, src: seq<BodyRead>, writeOk: seq<bool>, i: nat)
    requires WellFormedSource(src)
    requires StreamFrom(chunked, src, writeOk, i).ok
    ensures var r := StreamFrom(chunked, src, writeOk, i);
      var p := Planned(chunked, src, i);
      && Pull(src, StopFrom(src, i)).Block?
      && r.sent == p
      && r.pulls == StopFrom(src, i) - i + 1
      && r.totalWritten == WireLength(chunked, p)
      && (forall k :: i <= k < i + |p| ==> Succeeds(writeOk, k))
  {
    SucceededSent(chunked, src, writeOk, i);
    SucceededTotal(chunked, src, writeOk, i);
    SucceededWrites(chunked, src, writeOk, i);
  }

  lemma {:induction false} SucceededSent(chunked: bool, src: seq<BodyRead>, writeOk: seq<bool>, i: nat)
    requires WellFormedSource(src)
    requires StreamFrom(chunked, src, writeOk, i).ok
    ensures Pull(src, StopFrom(src, i)).Block?
    ensures StreamFrom(chunked, src, writeOk, i).sent == Planned(chunked, src, i)
    ensures StreamFrom(chunked, src, writeOk, i).pulls == StopFrom(src, i) - i + 1
    decreases |src| - i
  {
    if |Pull(src, i).data| > 0 {
      SucceededSent(chunked, src, writeOk, i + 1);
      SentStep(chunked, src, writeOk, i);
    } else {
      SentEnd(chunked, src, writeOk, i);
    }
  }

  /** The step case of `SucceededSent`: from read `i + 1` to read `i`. */
  lemma SentStep(chunked: bool, src: seq<BodyRead>, writeOk: seq<bool>, i: nat)
    requires WellFormedSource(src)
    requires StreamFrom(chunked, src, writeOk, i).ok && |Pull(src, i).data| > 0
    requires Pull(src, StopFrom(src, i + 1)).Block?
    requires StreamFrom(chunked, src, writeOk, i + 1).sent == Planned(chunked, src, i + 1)
    requires StreamFrom(chunked, src, writeOk, i + 1).pulls == StopFrom(src, i + 1) - (i + 1) + 1
    ensures Pull(src, StopFrom(src, i)).Block?
    ensures StreamFrom(chunked, src, writeOk, i).sent == Planned(chunked, src, i)
    ensures StreamFrom(chunked, src, writeOk, i).pulls == StopFrom(src, i) - i + 1
  {
    StreamStep(chunked, src, writeOk, i);
  }

  /** The last read of a successful pass: the end of the body. */
  lemma SentEnd(chunked: bool, src: seq<BodyRead>, writeOk: seq<bool>, i: nat)
    requires WellFormedSource(src)
    requires StreamFrom(chunked, src, writeOk, i).ok && |Pull(src, i).data| == 0
    ensures StopFrom(src, i) == i && Pull(src, i) == Block([])
    ensures StreamFrom(chunked, src, writeOk, i).sent == Planned(chunked, src, i)
    ensures StreamFrom(chunked, src, writeOk, i).pulls == 1
    ensures StreamFrom(chunked, src, writeOk, i).totalWritten == WireLength(chunked, Planned(chunked, src, i))
  {
    PlannedHead(chunked, src, i);
    if chunked {
      assert Planned(chunked, src, i) == [[]];
      assert WireLength(chunked, [[]]) == |Frame([])| + WireLength(chunked, []);
    }
  }

  lemma {:induction false} SucceededTotal(chunked: bool, src: seq<BodyRead>, writeOk: seq<bool>, i: nat)
    requires WellFormedSource(src)
    requires StreamFrom(chunked, src, writeOk, i).ok
    ensures StreamFrom(chunked, src, writeOk, i).totalWritten == WireLength(chunked, Planned(chunked, src, i))
    decreases |src| - i
  {
    if |Pull(src, i).data| > 0 {
      SucceededTotal(chunked, src, writeOk, i + 1);
      TotalStep(chunked, src, writeOk, i);
    } else {
      SentEnd(chunked, src, writeOk, i);
    }
  }

  /** The step case of `SucceededTotal`. */
  lemma TotalStep(chunked: bool, src: seq<BodyRead>, writeOk: seq<bool>, i: nat)
    requires WellFormedSource(src)
    requires StreamFrom(chunked, src, writeOk, i).ok && |Pull(src, i).data| > 0
    requires StreamFrom(chunked, src, writeOk, i + 1).totalWritten == WireLength(chunked, Planned(chunked, src, i + 1))
    ensures StreamFrom(chunked, src, writeOk, i).totalWritten == WireLength(chunked, Planned(chunked, src, i))
  {
    var p := Planned(chunked, src, i);
    StreamStep(chunked, src, writeOk, i);
    assert p[1..] == Planned(chunked, src, i + 1);
  }

  lemma {:induction false} SucceededWrites(chunked: bool, src: seq<BodyRead>, writeOk: seq<bool>, i: nat)
    requires WellFormedSource(src)
    requires StreamFrom(chunked, src, writeOk, i).ok
    ensures forall k :: i <= k < i + |Planned(chunked, src, i)| ==> Succeeds(writeOk, k)
    decreases |src| - i
  {
    PlannedHead(chunked, src, i);
    if |Pull(src, i).data| > 0 {
      StreamStep(chunked, src, writeOk, i);
      SucceededWrites(chunked, src, writeOk, i + 1);
    }
  }

  /** How a failed pass from read `i` ended: on a body source error after
      all planned writes succeeded, or on a failing write, with no read
      after the one that produced it. */
  predicate FailedAsPlanned(chunked: bool, src: seq<BodyRead>, writeOk: seq<bool>, i: nat)
    requires WellFormedSource(src)
  {
    var r := StreamFrom(chunked, src, writeOk, i);
    var p := Planned(chunked, src, i);
    || (&& Pull(src, StopFrom(src, i)).ReadError?
        && r.sent == p
        && r.pulls == StopFrom(src, i) - i + 1
        && (forall k :: i <= k < i + |p| ==> Succeeds(writeOk, k)))
    || (|r.sent| >= 1 && r.pulls == |r.sent| && !Succeeds(writeOk, i + |r.sent| - 1))
  }

  lemma {:induction false} StreamFromFailed(chunked: bool, src: seq<BodyRead>, writeOk: seq<bool>, i: nat)
    requires WellFormedSource(src)
    requires !StreamFrom(chunked, src, writeOk, i).ok
    ensures FailedAsPlanned(chunked, src, writeOk, i)
    decreases |src| - i
  {
    if !Stops(Pull(src, i)) && Succeeds(writeOk, i) {
      StreamFromFailed(chunked, src, writeOk, i + 1);
      FailedStep(chunked, src, writeOk, i);
    } else {
      FailedEnd(chunked, src, writeOk, i);
    }
  }

  /** The step case of `StreamFromFailed`. */
  lemma FailedStep(chunked: bool, src: seq<BodyRead>, writeOk: seq<bool>, i: nat)
    requires WellFormedSource(src)
    requires !Stops(Pull(src, i)) && Succeeds(writeOk, i)
    requires FailedAsPlanned(chunked, src, writeOk, i + 1)
    ensures FailedAsPlanned(chunked, src, writeOk, i)
  {
    StreamStep(chunked, src, writeOk, i);
  }

  /** A failed pass that ends at read `i`. */
  lemma FailedEnd(chunked: bool, src: seq<BodyRead>, writeOk: seq<bool>, i: nat)
    requires WellFormedSource(src)
    requires !StreamFrom(chunked, src, writeOk, i).ok
    requires Stops(Pull(src, i)) || !Succeeds(writeOk, i)
    ensures FailedAsPlanned(chunked, src, writeOk, i)
  {
    if Pull(src, i).Block? {
      PlannedHead(chunked, src, i);
    } else {
      assert StopFrom(src, i) == i;
      assert Planned(chunked, src, i) == [];
    }
  }

  /** The three facts above, for a whole pass. */
  lemma StreamOutcome(chunked: bool, src: seq<BodyRead>, writeOk: seq<bool>)
    requires WellFormedSource(src)
    ensures var r := Stream(chunked, src, writeOk);
      var p := Planned(chunked, src, 0);
      var e := StopIndex(src);
      && r.sent <= p
      && 1 <= r.pulls <= e + 1
      && (forall k :: 0 <= k < |r.sent| - 1 ==> Succeeds(writeOk, k))
      && (r.ok ==> Pull(src, e).Block? && r.sent == p && r.pulls == e + 1 && r.totalWritten == WireLength(chunked, p))
      && (r.ok ==> forall k :: 0 <= k < |p| ==> Succeeds(writeOk, k))
      && (!r.ok ==>
            || (&& Pull(src, e).ReadError? && r.sent == p && r.pulls == e + 1
                && forall k :: 0 <= k < |p| ==> Succeeds(writeOk, k))
            || (|r.sent| >= 1 && r.pulls == |r.sent| && !Succeeds(writeOk, |r.sent| - 1)))
  {
    StreamFromPrefix(chunked, src, writeOk, 0);
    if Stream(chunked, src, writeOk).ok {
      StreamFromSucceeded(chunked, src, writeOk, 0);
    } else {
      StreamFromFailed(chunked, src, writeOk, 0);
    }
  }

  /** `WireLength` is the number of bytes the buffers hold together. */
  lemma {:induction false} WireLengthConcat(chunked: bool, blocks: seq<seq<byte>>)
    requires Bounded(blocks)
    ensures WireLength(chunked, blocks) == |Concat(EncodeAll(chunked, blocks))|
    decreases |blocks|
  {
    if |blocks| > 0 {
      var e := EncodeAll(chunked, blocks);
      WireLengthConcat(chunked, blocks[1..]);
      assert e[0] == Encode(chunked, blocks[0]) && e[1..] == EncodeAll(chunked, blocks[1..]) by {
        if chunked {
          assert Frames(blocks) == [Frame(blocks[0])] + Frames(blocks[1..]);
        }
      }
      ConcatCons(e);
    }
  }

  /** Which passes succeed: exactly those where the source ends with an end
      of body (not an error) and every planned write succeeds. */
  lemma StreamOkIff(chunked: bool, src: seq<BodyRead>, writeOk: seq<bool>)
    requires WellFormedSource(src)
    ensures Stream(chunked, src, writeOk).ok <==>
      Pull(src, StopIndex(src)).Block?
      && FirstFailure(writeOk, |Planned(chunked, src, 0)|) == |Planned(chunked, src, 0)|
  {
    StreamOutcome(chunked, src, writeOk);
    var r := Stream(chunked, src, writeOk);
    var n := |Planned(chunked, src, 0)|;
    if !r.ok && Pull(src, StopIndex(src)).Block? {
      assert !Succeeds(writeOk, |r.sent| - 1);
      assert |r.sent| <= n;
    }
  }

  /** Chunked mode, successful pass: the writes are the frames of the data
      blocks followed by the last-chunk, and decoding what was written gives
      back the blocks, hence the body. */
  lemma ChunkedRoundTrip(src: seq<BodyRead>, writeOk: seq<bool>)
    requires WellFormedSource(src)
    requires Stream(true, src, writeOk).ok
    ensures Writes(true, Stream(true, src, writeOk)) == Frames(Blocks(src)) + [LastChunk]
    ensures Deframe(Concat(Writes(true, Stream(true, src, writeOk)))) == Some(Blocks(src))
    ensures Concat(Deframe(Concat(Writes(true, Stream(true, src, writeOk)))).value) == Body(src)
  {
    StreamOutcome(true, src, writeOk);
    var bs := Blocks(src);
    FramesAppend(bs, [[]]);
    assert Frames([[]]) == [LastChunk] by {
      FrameLayout([]);
      assert Frames([[]]) == [Frame([])] + Frames([]);
    }
    ConcatSnoc(Frames(bs), LastChunk);
    DeframeFrames(bs);
  }

  /** In chunked mode the last-chunk is written at most once, only as the
      last write, and only after the source reported the end of the body;
      a successful pass always writes it. */
  lemma LastChunkOnceAndLast(src: seq<BodyRead>, writeOk: seq<bool>)
    requires WellFormedSource(src)
    ensures var w := Writes(true, Stream(true, src, writeOk));
      forall j :: 0 <= j < |w| && w[j] == LastChunk ==>
        j == |w| - 1 && Pull(src, StopIndex(src)) == Block([])
    ensures var w := Writes(true, Stream(true, src, writeOk));
      Stream(true, src, writeOk).ok ==> |w| >= 1 && w[|w| - 1] == LastChunk
  {
    StreamOutcome(true, src, writeOk);
    var sent := Stream(true, src, writeOk).sent;
    var p := Planned(true, src, 0);
    var w := Writes(true, Stream(true, src, writeOk));
    forall j | 0 <= j < |w| && w[j] == LastChunk
      ensures j == |w| - 1 && Pull(src, StopIndex(src)) == Block([])
    {
      FramesAt(sent, j);
      FrameLayout(sent[j]);
      assert p[j] == sent[j];
    }
    if Stream(true, src, writeOk).ok {
      FramesAt(sent, |sent| - 1);
      FrameLayout([]);
    }
  }

  /** Content-length mode, successful pass: only raw data is written, never
      an empty write, and `total_written` is the body length. */
  lemma ContentLengthRaw(src: seq<BodyRead>, writeOk: seq<bool>)
    requires WellFormedSource(src)
    requires Stream(false, src, writeOk).ok
    ensures Writes(false, Stream(false, src, writeOk)) == Blocks(src)
    ensures forall j :: 0 <= j < |Blocks(src)| ==> |Blocks(src)[j]| > 0
    ensures Concat(Writes(false, Stream(false, src, writeOk))) == Body(src)
    ensures Stream(false, src, writeOk).totalWritten == |Body(src)|
  {
    StreamOutcome(false, src, writeOk);
    assert Planned(false, src, 0) == Blocks(src) + [];
    WireLengthConcat(false, Blocks(src));
  }

  /** A body source error stops the pass: it fails, the source is not read
      again after the failing read, and no write is made for it or after
      it. */
  lemma BodyErrorFailsFast(chunked: bool, src: seq<BodyRead>, writeOk: seq<bool>)
    requires WellFormedSource(src)
    requires Pull(src, StopIndex(src)).ReadError?
    ensures !Stream(chunked, src, writeOk).ok
    ensures Stream(chunked, src, writeOk).pulls <= StopIndex(src) + 1
    ensures |Stream(chunked, src, writeOk).sent| <= StopIndex(src)
    ensures FirstFailure(writeOk, StopIndex(src)) == StopIndex(src) ==>
      Stream(chunked, src, writeOk).pulls == StopIndex(src) + 1
      && Stream(chunked, src, writeOk).sent == Blocks(src)
  {
    StreamOutcome(chunked, src, writeOk);
    assert Planned(chunked, src, 0) == Blocks(src) + [];
  }

  /** A failed write stops the pass: it fails, that write is the last one,
      and the source is not read after the read that produced it. */
  lemma WriteFailureFailsFast(chunked: bool, src: seq<BodyRead>, writeOk: seq<bool>)
    requires WellFormedSource(src)
    requires FirstFailure(writeOk, |Planned(chunked, src, 0)|) < |Planned(chunked, src, 0)|
    ensures !Stream(chunked, src, writeOk).ok
    ensures |Stream(chunked, src, writeOk).sent| == FirstFailure(writeOk, |Planned(chunked, src, 0)|) + 1
    ensures Stream(chunked, src, writeOk).pulls == |Stream(chunked, src, writeOk).sent|
  {
    StreamOutcome(chunked, src, writeOk);
  }
}
