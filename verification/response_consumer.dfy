/** The response consumer (util/net/http_transport_win.cc:319-344): only
    status 200 is success; when the caller wants the body, the output is
    cleared and every read is appended until a read returns no bytes. */
module ResponseConsumer {
  import opened Wire

  const SuccessStatus: nat := 200

  /** One `WinHttpReadData` call: the bytes read (none at the end of the
      response) or a failed call. */
  datatype ReadResult = Data(bytes: seq<byte>) | ReadFailure

  /** The `i`-th read of a scripted response; a finished script reads as the
      end of the response. */
  function ReadAt(replies: seq<ReadResult>, i: nat): ReadResult
  {
    if i < |replies| then replies[i] else Data([])
  }

  /** A read that ends the loop: no bytes, or a failure. */
  predicate Ends(r: ReadResult)
  {
    r.ReadFailure? || |r.bytes| == 0
  }

  /** Index of the first read at or after `i` that ends the loop. */
  function EndFrom(replies: seq<ReadResult>, i: nat): (e: nat)
    ensures i <= e
    ensures Ends(ReadAt(replies, e))
    ensures forall j :: i <= j < e ==> !Ends(ReadAt(replies, j))
    decreases |replies| - i
  {
    if Ends(ReadAt(replies, i)) then i else EndFrom(replies, i + 1)
  }

  function EndIndex(replies: seq<ReadResult>): nat
  {
    EndFrom(replies, 0)
  }

  function BytesOf(r: ReadResult): seq<byte>
  {
    if r.Data? then r.bytes else []
  }

  /** The bytes of the first `n` reads, in order. */
  function BytesBefore(replies: seq<ReadResult>, n: nat): seq<byte>
  {
    if n == 0 then [] else BytesBefore(replies, n - 1) + BytesOf(ReadAt(replies, n - 1))
  }

  /** The response body: everything read before the read that ends the loop. */
  function ResponseBytes(replies: seq<ReadResult>): seq<byte>
  {
    BytesBefore(replies, EndIndex(replies))
  }

  /** The read loop of lines 325-341. `body` is what `*response_body` holds
      afterwards: cleared, then every read appended; on a failed read it
      keeps what was read before. `calls` counts the `WinHttpReadData`
      calls. */
  method DrainResponse(replies: seq<ReadResult>) returns (ok: bool, body: seq<byte>, calls: nat)
    ensures calls == EndIndex(replies) + 1
    ensures body == ResponseBytes(replies)
    ensures ok <==> ReadAt(replies, EndIndex(replies)).Data?
  {
    body := [];
    calls := 0;
    while true
      invariant calls <= EndIndex(replies)
      invariant body == BytesBefore(replies, calls)
      decreases |replies| - calls
    {
      var r := ReadAt(replies, calls);
      calls := calls + 1;
      if r.ReadFailure? {
        return false, body, calls;
      }
      body := body + r.bytes;
      if |r.bytes| == 0 {
        assert body == BytesBefore(replies, calls - 1);
        return true, body, calls;
      }
    }
  }

  /** A response delivered as non-empty blocks and then the end: the body
      is the blocks laid end to end, read in one call per block plus one. */
  lemma {:induction false} ResponseOfBlocks(blocks: seq<seq<byte>>)
    requires forall i :: 0 <= i < |blocks| ==> |blocks[i]| > 0
    ensures var replies := seq(|blocks|, i requires 0 <= i < |blocks| => Data(blocks[i])) + [Data([])];
      EndIndex(replies) == |blocks| && ResponseBytes(replies) == Concat(blocks)
  {
    var replies := seq(|blocks|, i requires 0 <= i < |blocks| => Data(blocks[i])) + [Data([])];
    assert forall j :: 0 <= j < |blocks| ==> !Ends(ReadAt(replies, j));
    assert Ends(ReadAt(replies, |blocks|));
    EndIndexIsFirstEnd(replies, |blocks|);
    BytesBeforeBlocks(replies, blocks, |blocks|);
    assert blocks[..|blocks|] == blocks;
  }

  /** The end index is the first read that ends the loop. */
  lemma EndIndexIsFirstEnd(replies: seq<ReadResult>, e: nat)
    requires Ends(ReadAt(replies, e))
    requires forall j :: 0 <= j < e ==> !Ends(ReadAt(replies, j))
    ensures EndIndex(replies) == e
  {
  }

  lemma {:induction false} BytesBeforeBlocks(replies: seq<ReadResult>, blocks: seq<seq<byte>>, n: nat)
    requires n <= |blocks| <= |replies|
    requires forall j :: 0 <= j < |blocks| ==> replies[j] == Data(blocks[j])
    ensures BytesBefore(replies, n) == Concat(blocks[..n])
  {
    if n > 0 {
      BytesBeforeBlocks(replies, blocks, n - 1);
      assert blocks[..n] == blocks[..n - 1] + [blocks[n - 1]];
      ConcatSnoc(blocks[..n - 1], blocks[n - 1]);
    }
  }

  /** Reads scripted after the end of the response are never made and do
      not change the body. */
  lemma {:induction false} ReadsAfterEndIgnored(replies: seq<ReadResult>, more: seq<ReadResult>)
    requires EndIndex(replies) < |replies|
    ensures EndIndex(replies + more) == EndIndex(replies)
    ensures ResponseBytes(replies + more) == ResponseBytes(replies)
  {
    var e := EndIndex(replies);
    forall j | 0 <= j <= e
      ensures ReadAt(replies + more, j) == ReadAt(replies, j)
    {
    }
    EndIndexIsFirstEnd(replies + more, e);
    BytesBeforeAgree(replies, replies + more, e);
  }

  lemma {:induction false} BytesBeforeAgree(a: seq<ReadResult>, b: seq<ReadResult>, n: nat)
    requires forall j :: 0 <= j < n ==> ReadAt(a, j) == ReadAt(b, j)
    ensures BytesBefore(a, n) == BytesBefore(b, n)
  {
    if n > 0 {
      BytesBeforeAgree(a, b, n - 1);
    }
  }
}
