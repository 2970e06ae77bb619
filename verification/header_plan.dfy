/** Header planning and the choice of transfer mode
    (util/net/http_transport_win.cc:170-205): a `Content-Length` header with
    a value that parses as a size selects content-length mode and is left to
    WinHTTP; every other header is added as `Name: Value\r\n`; without a
    usable length the request is sent chunked and a
    `Transfer-Encoding: chunked` header is added after the caller's. */
module HeaderPlan {
  import opened Base

  datatype Header = Header(name: string, value: string)

  datatype TransferMode = ContentLength(length: nat) | Chunked

  /** The `dwTotalLength` passed to `WinHttpSendRequest`. */
  datatype DeclaredLength = IgnoreTotalLength | TotalLength(dword: nat)

  const ContentLengthName: string := "Content-Length"
  const TransferEncodingChunked: string := "Transfer-Encoding: chunked\r\n"

  /** Largest `size_t` (a 64-bit target). */
  const SizeMax: nat := 0xFFFF_FFFF_FFFF_FFFF
  /** Largest `DWORD`. */
  const DwordMax: nat := 0xFFFF_FFFF

  /** The header name is compared with `==`: exact and case-sensitive. */
  predicate IsContentLength(h: Header)
  {
    h.name == ContentLengthName
  }

  predicate IsDecimalDigit(c: char)
  {
    48 <= c as int <= 57
  }

  function DigitValue(c: char): nat
    requires IsDecimalDigit(c)
  {
    c as int - 48
  }

  function DecimalValue(s: string): nat
    requires forall i :: 0 <= i < |s| ==> IsDecimalDigit(s[i])
  {
    if |s| == 0 then 0
    else 10 * DecimalValue(s[..|s| - 1]) + DigitValue(s[|s| - 1])
  }

  /** `StringToSizeT`: a non-empty run of decimal digits whose value fits in
      a `size_t`. */
  function ParseSize(s: string): (r: Option<nat>)
    ensures r.Some? ==> r.value <= SizeMax
  {
    if |s| > 0 && (forall i :: 0 <= i < |s| ==> IsDecimalDigit(s[i])) && DecimalValue(s) <= SizeMax
    then Some(DecimalValue(s))
    else None
  }

  /** The wide string handed to `WinHttpAddRequestHeaders` for one header. */
  function HeaderLine(h: Header): string
  {
    h.name + ": " + h.value + "\r\n"
  }

  /** Value of the last `Content-Length` header, looking from the end. */
  function LastContentLength(headers: seq<Header>): Option<string>
  {
    if |headers| == 0 then None
    else if IsContentLength(headers[|headers| - 1]) then Some(headers[|headers| - 1].value)
    else LastContentLength(headers[..|headers| - 1])
  }

  /** The mode the headers ask for: content-length with the parsed value of
      the last `Content-Length` header, chunked when there is none or it
      does not parse. */
  function RequestedMode(headers: seq<Header>): TransferMode
  {
    match LastContentLength(headers)
    case None => Chunked
    case Some(v) =>
      match ParseSize(v)
      case None => Chunked
      case Some(n) => ContentLength(n)
  }

  /** The lines of the headers other than `Content-Length`, in order. */
  function ForwardedLines(headers: seq<Header>): seq<string>
  {
    if |headers| == 0 then []
    else
      var last := headers[|headers| - 1];
      ForwardedLines(headers[..|headers| - 1]) + (if IsContentLength(last) then [] else [HeaderLine(last)])
  }

  /** Every `WinHttpAddRequestHeaders` call the request needs, in order. */
  function PlannedAdds(headers: seq<Header>): seq<string>
  {
    ForwardedLines(headers) + (if RequestedMode(headers).Chunked? then [TransferEncodingChunked] else [])
  }

  /** Chunked mode, and a length that does not fit in a `DWORD`, are sent as
      `WINHTTP_IGNORE_REQUEST_TOTAL_LENGTH`. */
  function DeclaredFor(mode: TransferMode): (r: DeclaredLength)
    ensures r.TotalLength? <==> mode.ContentLength? && mode.length <= DwordMax
    ensures r.TotalLength? ==> r.dword == mode.length
  {
    match mode
    case Chunked => IgnoreTotalLength
    case ContentLength(n) => if n <= DwordMax then TotalLength(n) else IgnoreTotalLength
  }

  /** `i` is the position of the last `Content-Length` header. */
  predicate LastLengthAt(headers: seq<Header>, i: int)
  {
    0 <= i < |headers| && IsContentLength(headers[i])
    && forall j :: i < j < |headers| ==> !IsContentLength(headers[j])
  }

  /** Header names are distinct, as in the `std::map` the headers come in. */
  predicate DistinctNames(headers: seq<Header>)
  {
    forall i, j :: 0 <= i < j < |headers| ==> headers[i].name != headers[j].name
  }

  /** `LastContentLength` finds nothing only when there is no
      `Content-Length` header at all. */
  lemma {:induction false} LastContentLengthNone(headers: seq<Header>)
    ensures LastContentLength(headers).None? <==> forall i :: 0 <= i < |headers| ==> !IsContentLength(headers[i])
    decreases |headers|
  {
    if |headers| > 0 {
      var init := headers[..|headers| - 1];
      LastContentLengthNone(init);
      if !IsContentLength(headers[|headers| - 1]) {
        assert forall i :: 0 <= i < |init| ==> init[i] == headers[i];
      }
    }
  }

  /** `LastContentLength` finds the value at the last `Content-Length`
      position. */
  lemma {:induction false} LastContentLengthAt(headers: seq<Header>, i: int)
    requires LastLengthAt(headers, i)
    ensures LastContentLength(headers) == Some(headers[i].value)
    decreases |headers|
  {
    if i < |headers| - 1 {
      var init := headers[..|headers| - 1];
      assert LastLengthAt(init, i);
      LastContentLengthAt(init, i);
    }
  }

  /** The mode choice: chunked exactly when no last `Content-Length` header
      carries a parseable size; otherwise content-length with that size. */
  lemma ModeChoice(headers: seq<Header>)
    ensures RequestedMode(headers).Chunked? <==>
      !exists i :: LastLengthAt(headers, i) && ParseSize(headers[i].value).Some?
    ensures forall i :: LastLengthAt(headers, i) && ParseSize(headers[i].value).Some? ==>
      RequestedMode(headers) == ContentLength(ParseSize(headers[i].value).value)
  {
    LastContentLengthNone(headers);
    forall i | LastLengthAt(headers, i)
      ensures LastContentLength(headers) == Some(headers[i].value)
    {
      LastContentLengthAt(headers, i);
    }
    if LastContentLength(headers).Some? {
      var k :| 0 <= k < |headers| && IsContentLength(headers[k]);
      var i := LastIndex(headers, k);
      LastContentLengthAt(headers, i);
    }
  }

  /** The last `Content-Length` position at or after `k`. */
  function LastIndex(headers: seq<Header>, k: nat): (i: nat)
    requires k < |headers| && IsContentLength(headers[k])
    ensures LastLengthAt(headers, i) && k <= i
    decreases |headers| - k
  {
    if exists j :: k < j < |headers| && IsContentLength(headers[j]) then
      var j :| k < j < |headers| && IsContentLength(headers[j]);
      LastIndex(headers, j)
    else k
  }

  /** With distinct names (one header per name), chunked mode is chosen
      exactly when no `Content-Length` header parses as a size. */
  lemma ModeChoiceDistinct(headers: seq<Header>)
    requires DistinctNames(headers)
    ensures RequestedMode(headers).Chunked? <==>
      forall i :: 0 <= i < |headers| && IsContentLength(headers[i]) ==> ParseSize(headers[i].value).None?
  {
    ModeChoice(headers);
    forall i | 0 <= i < |headers| && IsContentLength(headers[i])
      ensures LastLengthAt(headers, i)
    {
    }
  }

  /** Forwarding preserves order: the lines of a concatenation are the lines
      of its parts, one after the other. */
  lemma {:induction false} ForwardedLinesAppend(a: seq<Header>, b: seq<Header>)
    ensures ForwardedLines(a + b) == ForwardedLines(a) + ForwardedLines(b)
    decreases |b|
  {
    if |b| == 0 {
      assert a + b == a;
    } else {
      var init := b[..|b| - 1];
      assert (a + b)[..|a + b| - 1] == a + init;
      ForwardedLinesAppend(a, init);
    }
  }

  /** A `Content-Length` header is not forwarded as a line, wherever it
      stands; the headers around it keep their lines and their order. */
  lemma ForwardedLinesSkip(a: seq<Header>, h: Header, b: seq<Header>)
    requires IsContentLength(h)
    ensures ForwardedLines(a + [h] + b) == ForwardedLines(a) + ForwardedLines(b)
  {
    ForwardedLinesAppend(a + [h], b);
    ForwardedLinesAppend(a, [h]);
    assert [h][..0] == [];
    assert ForwardedLines([h]) == [];
    assert ForwardedLines(a) + [] == ForwardedLines(a);
  }

  /** Without `Content-Length`, every header is forwarded, in order. */
  lemma {:induction false} ForwardedLinesAll(headers: seq<Header>)
    requires forall i :: 0 <= i < |headers| ==> !IsContentLength(headers[i])
    ensures |ForwardedLines(headers)| == |headers|
    ensures forall i :: 0 <= i < |headers| ==> ForwardedLines(headers)[i] == HeaderLine(headers[i])
    decreases |headers|
  {
    if |headers| > 0 {
      ForwardedLinesAll(headers[..|headers| - 1]);
    }
  }

  /** The header loop and the `Transfer-Encoding` addition
      (lines 170-205). `addOk` scripts the answers of the successive
      `WinHttpAddRequestHeaders` calls; `added` is every line handed to it,
      the failing one included. */
  method AddRequestHeaders(headers: seq<Header>, addOk: seq<bool>)
    returns (ok: bool, mode: TransferMode, declared: DeclaredLength, added: seq<string>)
    ensures added <= PlannedAdds(headers)
    ensures ok <==> FirstFailure(addOk, |PlannedAdds(headers)|) == |PlannedAdds(headers)|
    ensures ok ==> added == PlannedAdds(headers)
    ensures ok ==> mode == RequestedMode(headers) && declared == DeclaredFor(mode)
    ensures !ok ==> |added| == FirstFailure(addOk, |PlannedAdds(headers)|) + 1
  {
    var chunked := true;
    var contentLength: nat := 0;
    added := [];
    mode := Chunked;
    declared := IgnoreTotalLength;
    var i := 0;
    while i < |headers|
      invariant 0 <= i <= |headers|
      invariant added == ForwardedLines(headers[..i])
      invariant forall k :: 0 <= k < |added| ==> Succeeds(addOk, k)
      invariant chunked <==> RequestedMode(headers[..i]).Chunked?
      invariant !chunked ==> RequestedMode(headers[..i]) == ContentLength(contentLength)
    {
      var h := headers[i];
      assert headers[..i + 1][..i] == headers[..i];
      if h.name == ContentLengthName {
        match ParseSize(h.value)
        case Some(n) =>
          chunked := false;
          contentLength := n;
        case None =>
          chunked := true;
      } else {
        added := added + [HeaderLine(h)];
        if !Succeeds(addOk, |added| - 1) {
          ForwardedLinesAppend(headers[..i + 1], headers[i + 1..]);
          assert headers[..i + 1] + headers[i + 1..] == headers;
          ok := false;
          return;
        }
      }
      i := i + 1;
    }
    assert headers[..i] == headers;
    if chunked {
      added := added + [TransferEncodingChunked];
      if !Succeeds(addOk, |added| - 1) {
        ok := false;
        return;
      }
      mode := Chunked;
    } else {
      mode := ContentLength(contentLength);
    }
    declared := if chunked || contentLength > DwordMax then IgnoreTotalLength else TotalLength(contentLength);
    ok := true;
  }
}
