/** Chunk frames of the chunked transfer coding (section 4.1 of RFC 7230):
    `chunk-size CRLF chunk-data CRLF`, with the zero-size frame `0 CRLF CRLF`
    ending the body (util/net/http_transport_win.cc:244-273). A parser for
    the coding is the inverse that the framing is checked against. */
module ChunkFrame {
  import opened Base
  import opened Wire
  import opened ChunkHex

  /** Capacity of `buf.data`, the most a single body read may return. */
  const MaxBlock: nat := 32 * 1024
  /** `sizeof(buf)`: size field, two CRLFs and the data region, no padding. */
  const BufferSize: nat := FieldWidth + 2 + MaxBlock + 2

  /** The last-chunk with an empty trailer section. */
  const LastChunk: seq<byte> := [Zero, CR, LF, CR, LF]

  predicate Bounded(blocks: seq<seq<byte>>)
  {
    forall i :: 0 <= i < |blocks| ==> |blocks[i]| <= MaxBlock
  }

  predicate NonEmpty(blocks: seq<seq<byte>>)
  {
    forall i :: 0 <= i < |blocks| ==> |blocks[i]| > 0
  }

  /** The bytes of one `WinHttpWriteData` call in chunked mode: the trimmed
      size field, CRLF, the data, CRLF. */
  function Frame(data: seq<byte>): (r: seq<byte>)
    requires |data| <= MaxBlock
    ensures |r| >= 5
  {
    SizeField(|data|) + CRLF + data + CRLF
  }

  /** The frames of a list of blocks, in order. */
  function Frames(blocks: seq<seq<byte>>): (r: seq<seq<byte>>)
    requires Bounded(blocks)
    ensures |r| == |blocks|
  {
    if |blocks| == 0 then [] else [Frame(blocks[0])] + Frames(blocks[1..])
  }

  /** The `i`-th frame is the frame of the `i`-th block. */
  lemma {:induction false} FramesAt(blocks: seq<seq<byte>>, i: nat)
    requires Bounded(blocks) && i < |blocks|
    ensures Frames(blocks)[i] == Frame(blocks[i])
    decreases i
  {
    if i > 0 {
      FramesAt(blocks[1..], i - 1);
    }
  }

  /** The frames of two lists of blocks, one after the other. */
  lemma {:induction false} FramesAppend(a: seq<seq<byte>>, b: seq<seq<byte>>)
    requires Bounded(a) && Bounded(b)
    ensures Bounded(a + b)
    ensures Frames(a + b) == Frames(a) + Frames(b)
    decreases |a|
  {
    if |a| == 0 {
      assert a + b == b;
    } else {
      FramesAppend(a[1..], b);
      FramesAppendStep(a, b);
    }
  }

  /** The step of `FramesAppend`: the first block of `a` goes in front. */
  lemma FramesAppendStep(a: seq<seq<byte>>, b: seq<seq<byte>>)
    requires Bounded(a) && Bounded(b) && |a| > 0
    requires Frames(a[1..] + b) == Frames(a[1..]) + Frames(b)
    ensures Bounded(a + b)
    ensures Frames(a + b) == Frames(a) + Frames(b)
  {
    TailOfAppend(a, b);
    FramesUnfold(a + b);
    FramesUnfold(a);
    FramesSameHead(a, b);
    ConsThenAppend(Frames(a)[0], Frames(a + b), Frames(a[1..] + b), Frames(a), Frames(a[1..]), Frames(b));
  }

  /** The first frame, then the frames of the remaining blocks. */
  lemma FramesUnfold(blocks: seq<seq<byte>>)
    requires Bounded(blocks) && |blocks| > 0
    ensures Frames(blocks) == [Frames(blocks)[0]] + Frames(blocks[1..])
  {
  }

  lemma FramesSameHead(a: seq<seq<byte>>, b: seq<seq<byte>>)
    requires Bounded(a) && Bounded(b) && |a| > 0
    ensures Bounded(a + b)
    ensures Frames(a + b)[0] == Frames(a)[0]
  {
    assert (a + b)[0] == a[0];
  }

  /** `[x] + (s + t)` is `([x] + s) + t`, for named sequences. Stated over
      a type parameter so that the proof of `FramesAppendStep` can use it
      without the frames' contents in view: proving the same equation
      directly over lists of frames makes the solver compare the frames
      byte by byte. */
  lemma ConsThenAppend<T>(x: T, whole: seq<T>, tail: seq<T>, first: seq<T>, s: seq<T>, t: seq<T>)
    requires whole == [x] + tail && tail == s + t && first == [x] + s
    ensures whole == first + t
  {
  }

  /** Frame layout: the written region starts `size_len` bytes before
      `buf.crlf0`, holds `size_len + 2 + data_bytes + 2` bytes, and therefore
      always fits in `buf`; the empty block gives the last-chunk. */
  lemma FrameLayout(data: seq<byte>)
    requires |data| <= MaxBlock
    ensures var k := |SizeField(|data|)|;
      && 1 <= k <= FieldWidth
      && |Frame(data)| == k + 2 + |data| + 2
      && Frame(data)[k..k + 2] == CRLF
      && Frame(data)[k + 2..k + 2 + |data|] == data
      && Frame(data)[k + 2 + |data|..] == CRLF
    ensures 5 <= |Frame(data)| <= BufferSize
    ensures Frame(data) == LastChunk <==> |data| == 0
  {
    var h := SizeField(|data|);
    assert 1 <= |h| <= FieldWidth && (|data| == 0 ==> h == [Zero]) by {
      SizeFieldIsMinimalHex(|data|);
    }
    FrameSlices(h, data);
    if |data| == 0 {
      assert Frame(data) == [Zero] + CRLF + [] + CRLF;
    }
  }

  /** The parts of `h CRLF data CRLF` sit at their offsets. */
  lemma FrameSlices(h: seq<byte>, data: seq<byte>)
    ensures var f := h + CRLF + data + CRLF;
      && |f| == |h| + 2 + |data| + 2
      && f[..|h|] == h
      && f[|h|..|h| + 2] == CRLF
      && f[|h| + 2..|h| + 2 + |data|] == data
      && f[|h| + 2 + |data|..] == CRLF
  {
  }

  /** Number of leading hex digits of `s`. */
  function HexPrefixLen(s: seq<byte>): (k: nat)
    ensures k <= |s|
    ensures AllHex(s[..k])
    ensures k < |s| ==> !IsHexDigit(s[k])
  {
    if |s| == 0 || !IsHexDigit(s[0]) then 0
    else
      var k := 1 + HexPrefixLen(s[1..]);
      assert s[..k] == [s[0]] + s[1..][..k - 1];
      k
  }

  /** One decoded chunk: its data and the input after its closing CRLF. */
  datatype Parsed = Parsed(payload: seq<byte>, rest: seq<byte>)

  /** Decoder for one chunk at the start of `s`: hex size, CRLF, that many
      data bytes, CRLF. */
  function ParseChunk(s: seq<byte>): (r: Option<Parsed>)
    ensures r.Some? ==> |r.value.rest| < |s|
  {
    var k := HexPrefixLen(s);
    if k == 0 || |s| < k + 2 || s[k..k + 2] != CRLF then None
    else
      var size := FromHex(s[..k]);
      var body := s[k + 2..];
      if |body| < size + 2 || body[size..size + 2] != CRLF then None
      else Some(Parsed(body[..size], body[size + 2..]))
  }

  /** Decoder for a chunked body: the payloads of the chunks up to the
      last-chunk, which must close the input. `None` for anything that is
      not a well-formed chunked body. */
  function Deframe(s: seq<byte>): (r: Option<seq<seq<byte>>>)
    ensures r.Some? ==> NonEmpty(r.value)
    decreases |s|
  {
    match ParseChunk(s)
    case None => None
    case Some(p) =>
      if |p.payload| == 0 then (if |p.rest| == 0 then Some([]) else None)
      else
        match Deframe(p.rest)
        case None => None
        case Some(more) => Some([p.payload] + more)
  }

  /** The digits of a numeral stop at the CR that follows them. */
  lemma {:induction false} HexPrefixStops(h: seq<byte>, t: seq<byte>)
    requires AllHex(h)
    requires |t| > 0 && !IsHexDigit(t[0])
    ensures HexPrefixLen(h + t) == |h|
    decreases |h|
  {
    if |h| > 0 {
      assert (h + t)[1..] == h[1..] + t;
      HexPrefixStops(h[1..], t);
    } else {
      assert h + t == t;
    }
  }

  /** The data and the closing CRLF of a frame, followed by `rest`. */
  lemma SplitDataCrlf(data: seq<byte>, rest: seq<byte>)
    ensures var b := data + CRLF + rest;
      && |b| >= |data| + 2
      && b[..|data|] == data
      && b[|data|..|data| + 2] == CRLF
      && b[|data| + 2..] == rest
  {
  }

  /** The size digits and the first CRLF of a frame, followed by `body`. */
  lemma SplitSizeCrlf(h: seq<byte>, body: seq<byte>)
    ensures var s := h + (CRLF + body);
      && |s| >= |h| + 2
      && s[..|h|] == h
      && s[|h|..|h| + 2] == CRLF
      && s[|h| + 2..] == body
  {
    var s := h + (CRLF + body);
    assert s[|h|..] == CRLF + body;
    assert s[|h| + 2..] == (CRLF + body)[2..];
  }

  /** `ParseChunk` on an input whose size digits, CRLF and remainder are
      already known. */
  lemma ParseChunkWhen(s: seq<byte>, k: nat, data: seq<byte>, rest: seq<byte>)
    requires HexPrefixLen(s) == k >= 1
    requires |s| >= k + 2 && s[k..k + 2] == CRLF
    requires FromHex(s[..k]) == |data|
    requires s[k + 2..] == data + CRLF + rest
    ensures ParseChunk(s) == Some(Parsed(data, rest))
  {
    SplitDataCrlf(data, rest);
  }

  /** A frame followed by `rest`: its size digits end where its first CRLF
      starts, and the data, the closing CRLF and `rest` follow. */
  lemma FrameThenRest(data: seq<byte>, rest: seq<byte>)
    requires |data| <= MaxBlock
    ensures var s := Frame(data) + rest;
      var k := |SizeField(|data|)|;
      && HexPrefixLen(s) == k
      && |s| >= k + 2
      && s[..k] == SizeField(|data|)
      && s[k..k + 2] == CRLF
      && s[k + 2..] == data + CRLF + rest
  {
    var h := SizeField(|data|);
    FrameAsParts(data, rest);
    assert AllHex(h) by {
      SizeFieldIsMinimalHex(|data|);
    }
    SizeThenBody(h, data + CRLF + rest);
  }

  lemma FrameAsParts(data: seq<byte>, rest: seq<byte>)
    requires |data| <= MaxBlock
    ensures Frame(data) + rest == SizeField(|data|) + (CRLF + (data + CRLF + rest))
  {
  }

  /** Hex digits, CRLF, then `body`: the digits end at the CRLF. */
  lemma SizeThenBody(h: seq<byte>, body: seq<byte>)
    requires AllHex(h)
    ensures var s := h + (CRLF + body);
      && HexPrefixLen(s) == |h|
      && |s| >= |h| + 2
      && s[..|h|] == h
      && s[|h|..|h| + 2] == CRLF
      && s[|h| + 2..] == body
  {
    SplitSizeCrlf(h, body);
    HexPrefixStops(h, CRLF + body);
  }

  /** Decoding a frame in front of `rest` gives back its data and `rest`. */
  lemma ParseChunkOfFrame(data: seq<byte>, rest: seq<byte>)
    requires |data| <= MaxBlock
    ensures ParseChunk(Frame(data) + rest) == Some(Parsed(data, rest))
  {
    FrameThenRest(data, rest);
    SizeFieldIsMinimalHex(|data|);
    ParseChunkWhen(Frame(data) + rest, |SizeField(|data|)|, data, rest);
  }

  /** The last-chunk alone decodes to an empty body. */
  lemma DeframeLastChunk()
    ensures Deframe(LastChunk) == Some([])
  {
    FrameLayout([]);
    assert LastChunk == Frame([]) + [];
    ParseChunkOfFrame([], []);
  }

  /** A data frame in front of a decodable body adds its data in front. */
  lemma DeframeDataFrame(data: seq<byte>, tail: seq<byte>)
    requires 0 < |data| <= MaxBlock
    requires Deframe(tail).Some?
    ensures Deframe(Frame(data) + tail) == Some([data] + Deframe(tail).value)
  {
    ParseChunkOfFrame(data, tail);
  }

  /** Round trip: decoding the frames of non-empty blocks followed by the
      last-chunk gives back exactly those blocks. */
  lemma {:induction false} DeframeFrames(blocks: seq<seq<byte>>)
    requires Bounded(blocks) && NonEmpty(blocks)
    ensures Deframe(Concat(Frames(blocks)) + LastChunk) == Some(blocks)
    decreases |blocks|
  {
    if |blocks| == 0 {
      FramesOfNone(blocks);
      DeframeLastChunk();
    } else {
      var tail := Concat(Frames(blocks[1..])) + LastChunk;
      FramesStep(blocks);
      assert Deframe(tail) == Some(blocks[1..]) by {
        DeframeFrames(blocks[1..]);
      }
      DeframeDataFrame(blocks[0], tail);
      assert [blocks[0]] + blocks[1..] == blocks;
    }
  }

  /** No blocks: only the last-chunk is written. */
  lemma FramesOfNone(blocks: seq<seq<byte>>)
    requires |blocks| == 0
    ensures Concat(Frames(blocks)) + LastChunk == LastChunk
  {
    assert Frames(blocks) == [];
  }

  /** The first frame, then the frames of the remaining blocks. */
  lemma FramesStep(blocks: seq<seq<byte>>)
    requires Bounded(blocks) && |blocks| > 0
    ensures Concat(Frames(blocks)) + LastChunk
         == Frame(blocks[0]) + (Concat(Frames(blocks[1..])) + LastChunk)
  {
    var fs := Frames(blocks);
    var more := Frames(blocks[1..]);
    assert Concat(fs) == Frame(blocks[0]) + Concat(more) by {
      assert fs[1..] == more;
      ConcatCons(fs);
    }
    SeqAssoc(Frame(blocks[0]), Concat(more), LastChunk);
  }
}
