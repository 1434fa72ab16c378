/**
 * The incremental HTTP request reader of the ONLYOFFICE adapter
 * (adapters/onlyoffice/src/main.rs, read_request_inner).
 *
 * A connection delivers its bytes in chunks that the reader does not choose.
 * The head parser is a parameter: it sees the head's bytes and either refuses
 * them or gives the content length.
 */
module RequestReader {
  import opened Prelude

  const MAX_REQUEST_BYTES: nat := 65536
  const MAX_HEADER_BYTES: nat := 16384
  const CHUNK_BYTES: nat := 1024

  /** What parse_request_head makes of a head: no content length above half the request limit. */
  type HeadParser = f: seq<Byte> -> Option<nat> |
    forall head :: f(head).Some? ==> f(head).value <= MAX_REQUEST_BYTES / 2
    witness (_: seq<Byte>) => None

  datatype Request = Request(head: seq<Byte>, body: seq<Byte>)

  /** CR LF CR LF starts at i. */
  predicate BlankLineAt(s: seq<Byte>, i: nat) {
    i + 4 <= |s| && s[i] == 13 && s[i + 1] == 10 && s[i + 2] == 13 && s[i + 3] == 10
  }

  lemma BlankLineIff(s: seq<Byte>, i: nat)
    ensures BlankLineAt(s, i) <==> i + 4 <= |s| && s[i..i + 4] == Ascii("\r\n\r\n")
  {
    assert Ascii("\r\n\r\n") == [13, 10, 13, 10];
    if i + 4 <= |s| { assert s[i..i + 4] == [s[i], s[i + 1], s[i + 2], s[i + 3]]; }
  }

  /** The first blank line, from position i on. */
  function FindFrom(s: seq<Byte>, i: nat): (r: Option<nat>)
    ensures r.Some? ==> i <= r.value && BlankLineAt(s, r.value)
    ensures forall j | i <= j && (r.Some? ==> j < r.value) :: !BlankLineAt(s, j)
    decreases |s| - i
  {
    if i + 4 > |s| then None else if BlankLineAt(s, i) then Some(i) else FindFrom(s, i + 1)
  }

  function Boundary(s: seq<Byte>): Option<nat> { FindFrom(s, 0) }

  /** The reference: a byte string that is exactly one request. */
  function Whole(s: seq<Byte>, parse: HeadParser): Option<Request> {
    match Boundary(s)
    case None => None
    case Some(b) =>
      var length := parse(s[..b]);
      if length.Some? && |s| == b + 4 + length.value then Some(Request(s[..b], s[b + 4..])) else None
  }

  /** The chunks of one read each: never empty, at most the size of the read buffer. */
  predicate Split(chunks: seq<seq<Byte>>) {
    forall i | 0 <= i < |chunks| :: 0 < |chunks[i]| <= CHUNK_BYTES
  }

  function Prefix(chunks: seq<seq<Byte>>, k: nat): seq<Byte>
    requires k <= |chunks|
  {
    Flatten(chunks[..k])
  }

  /** Chunk j was read, or would be next, while the head was still incomplete. */
  predicate Waiting(chunks: seq<seq<Byte>>, j: nat)
    requires j <= |chunks|
  {
    j == 0 || Boundary(Prefix(chunks, j - 1)).None?
  }

  /** The head was completed by chunk k or earlier before the header limit was exceeded. */
  predicate InTime(chunks: seq<seq<Byte>>, k: nat)
    requires k <= |chunks|
  {
    forall j | 0 <= j <= k && Waiting(chunks, j) :: |Prefix(chunks, j)| <= MAX_HEADER_BYTES
  }

  /** Some number of chunks is exactly one request, whose head was completed in time. */
  ghost predicate Reads(chunks: seq<seq<Byte>>, parse: HeadParser, request: Request) {
    exists k | 0 <= k <= |chunks| :: ReadsAt(chunks, parse, request, k)
  }

  predicate ReadsAt(chunks: seq<seq<Byte>>, parse: HeadParser, request: Request, k: nat)
    requires k <= |chunks|
  {
    Whole(Prefix(chunks, k), parse) == Some(request) && InTime(chunks, k)
  }

  // ---- Prefixes ------------------------------------------------------------------------

  lemma PrefixStep(chunks: seq<seq<Byte>>, k: nat)
    requires k < |chunks|
    ensures Prefix(chunks, k + 1) == Prefix(chunks, k) + chunks[k]
  {
    assert chunks[..k + 1] == chunks[..k] + [chunks[k]];
    FlattenAppend(chunks[..k], [chunks[k]]);
    FlattenOne(chunks[k]);
  }

  lemma {:induction false} PrefixGrows(chunks: seq<seq<Byte>>, j: nat, k: nat)
    requires j <= k <= |chunks| && Split(chunks)
    ensures Prefix(chunks, j) <= Prefix(chunks, k)
    ensures j < k ==> |Prefix(chunks, j)| < |Prefix(chunks, k)|
    decreases k
  {
    if j < k {
      PrefixGrows(chunks, j, k - 1);
      PrefixStep(chunks, k - 1);
    }
  }

  lemma BoundaryExtends(a: seq<Byte>, s: seq<Byte>)
    requires a <= s && Boundary(a).Some?
    ensures Boundary(s) == Boundary(a) && s[..Boundary(a).value] == a[..Boundary(a).value]
  {
    var b := Boundary(a).value;
    assert BlankLineAt(s, b);
    assert forall j | 0 <= j < b && BlankLineAt(s, j) :: BlankLineAt(a, j);
  }

  /** The chunk that completed the head. */
  lemma {:induction false} HeadCompletedAt(chunks: seq<seq<Byte>>, k: nat) returns (j: nat)
    requires k <= |chunks| && Boundary(Prefix(chunks, k)).Some?
    ensures j <= k && Waiting(chunks, j) && Boundary(Prefix(chunks, j)).Some?
    decreases k
  {
    if k == 0 || Boundary(Prefix(chunks, k - 1)).None? {
      j := k;
    } else {
      j := HeadCompletedAt(chunks, k - 1);
    }
  }

  /** Whatever arrives, a request that is read has at most 16 KiB of head and 32 KiB of body. */
  lemma ReadIsBounded(chunks: seq<seq<Byte>>, parse: HeadParser, request: Request)
    requires Split(chunks) && Reads(chunks, parse, request)
    ensures |request.head| + 4 <= 16_384 && |request.body| <= 32_768
    ensures parse(request.head) == Some(|request.body|)
    ensures request.head + Ascii("\r\n\r\n") + request.body <= Flatten(chunks)
    ensures forall i :: BlankLineAt(request.head + Ascii("\r\n\r\n"), i) ==> i == |request.head|
  {
    var k :| 0 <= k <= |chunks| && ReadsAt(chunks, parse, request, k);
    var j := HeadCompletedAt(chunks, k);
    PrefixGrows(chunks, j, k);
    BoundaryExtends(Prefix(chunks, j), Prefix(chunks, k));
    assert |Prefix(chunks, j)| <= MAX_HEADER_BYTES;
    PrefixGrows(chunks, k, |chunks|);
    assert chunks[..|chunks|] == chunks;
    WholeIsItsParts(Prefix(chunks, k), parse, request);
    OnlyBlankLine(Prefix(chunks, k), |request.head|);
  }

  lemma WholeIsItsParts(s: seq<Byte>, parse: HeadParser, request: Request)
    requires Whole(s, parse) == Some(request)
    ensures s == request.head + Ascii("\r\n\r\n") + request.body
    ensures parse(request.head) == Some(|request.body|) && Boundary(s) == Some(|request.head|)
  {
    var b := |request.head|;
    BlankLineIff(s, b);
    assert s == s[..b] + s[b..b + 4] + s[b + 4..];
  }

  lemma OnlyBlankLine(s: seq<Byte>, b: nat)
    requires Boundary(s) == Some(b)
    ensures var t := s[..b] + Ascii("\r\n\r\n"); forall i :: BlankLineAt(t, i) ==> i == b
  {
    var t := s[..b] + Ascii("\r\n\r\n");
    BlankLineIff(s, b);
    assert t == s[..b + 4];
    forall i | BlankLineAt(t, i) ensures i == b {
      assert BlankLineAt(s, i);
    }
  }

  // ---- The reader -------------------------------------------------------------------------

  /** The source's two loops; each iteration reads one chunk, and no chunk is left at the end of the stream. */
  method ReadRequest(chunks: seq<seq<Byte>>, parse: HeadParser) returns (r: Option<Request>)
    requires Split(chunks)
    ensures forall request :: r == Some(request) <==> Reads(chunks, parse, request)
  {
    var bytes: seq<Byte>, k, boundary := [], 0, None;
    while true
      invariant 0 <= k <= |chunks| && bytes == Prefix(chunks, k)
      invariant forall j | 0 <= j < k :: Boundary(Prefix(chunks, j)).None? && |Prefix(chunks, j)| <= MAX_HEADER_BYTES
      decreases |chunks| - k
    {
      if |bytes| > MAX_HEADER_BYTES {
        TooLate(chunks, parse, k);
        return None;
      }
      boundary := Boundary(bytes);
      if boundary.Some? { break; }
      if k == |chunks| || |bytes| + |chunks[k]| > MAX_REQUEST_BYTES { return None; }
      PrefixStep(chunks, k);
      bytes := bytes + chunks[k];
      k := k + 1;
    }
    r := ReadBody(chunks, parse, bytes, k, boundary.value);
  }

  /** The part after the head is complete, when k chunks were read. */
  method ReadBody(chunks: seq<seq<Byte>>, parse: HeadParser, head: seq<Byte>, first: nat, boundary: nat)
      returns (r: Option<Request>)
    requires Split(chunks) && first <= |chunks| && head == Prefix(chunks, first) && |head| <= MAX_HEADER_BYTES
    requires Boundary(head) == Some(boundary)
    requires forall j | 0 <= j < first :: Boundary(Prefix(chunks, j)).None? && |Prefix(chunks, j)| <= MAX_HEADER_BYTES
    ensures forall request :: r == Some(request) <==> Reads(chunks, parse, request)
  {
    HeadIsSettled(chunks, parse, first);
    var length := parse(head[..boundary]);
    if length.None? || length.value > MAX_REQUEST_BYTES - boundary - 4 { return None; }
    var total := boundary + 4 + length.value;
    var bytes, k := head, first;
    while |bytes| < total
      invariant first <= k <= |chunks| && bytes == Prefix(chunks, k)
      invariant forall j | first <= j < k :: |Prefix(chunks, j)| < total
      decreases |chunks| - k
    {
      if k == |chunks| || |bytes| + |chunks[k]| > total {
        NoChunkEndsAt(chunks, k, total);
        return None;
      }
      PrefixStep(chunks, k);
      bytes := bytes + chunks[k];
      k := k + 1;
    }
    if |bytes| != total {
      NoChunkEndsAt(chunks, k, total);
      return None;
    }
    PrefixGrows(chunks, first, k);
    r := Some(Request(bytes[..boundary], bytes[boundary + 4..]));
    assert ReadsAt(chunks, parse, r.value, k);
    forall i | 0 <= i <= |chunks| && Whole(Prefix(chunks, i), parse).Some? ensures i == k {
      if i > k { PrefixGrows(chunks, k, i); }
    }
  }

  /** Once a prefix without a head is over the header limit, nothing is read. */
  lemma TooLate(chunks: seq<seq<Byte>>, parse: HeadParser, k: nat)
    requires k <= |chunks| && |Prefix(chunks, k)| > MAX_HEADER_BYTES
    requires forall j | 0 <= j < k :: Boundary(Prefix(chunks, j)).None?
    ensures forall request :: !Reads(chunks, parse, request)
  {
    assert Waiting(chunks, k);
    forall request, i | 0 <= i <= |chunks| ensures !ReadsAt(chunks, parse, request, i) {
    }
  }

  /** Past the chunk that completes the head, the head and the total are fixed and in time. */
  lemma HeadIsSettled(chunks: seq<seq<Byte>>, parse: HeadParser, first: nat)
    requires Split(chunks) && first <= |chunks|
    requires Boundary(Prefix(chunks, first)).Some? && |Prefix(chunks, first)| <= MAX_HEADER_BYTES
    requires forall j | 0 <= j < first :: Boundary(Prefix(chunks, j)).None? && |Prefix(chunks, j)| <= MAX_HEADER_BYTES
    ensures var head := Prefix(chunks, first);
      var b := Boundary(head).value;
      && (forall i | first <= i <= |chunks| ::
            && InTime(chunks, i) && |head| <= |Prefix(chunks, i)|
            && Boundary(Prefix(chunks, i)) == Some(b) && Prefix(chunks, i)[..b] == head[..b])
      && (forall i | 0 <= i <= |chunks| && Whole(Prefix(chunks, i), parse).Some? ::
            && first <= i && parse(head[..b]).Some?
            && |Prefix(chunks, i)| == b + 4 + parse(head[..b]).value)
  {
    var head := Prefix(chunks, first);
    forall i | first <= i <= |chunks|
      ensures InTime(chunks, i) && |head| <= |Prefix(chunks, i)|
      ensures Boundary(Prefix(chunks, i)) == Boundary(head)
      ensures Prefix(chunks, i)[..Boundary(head).value] == head[..Boundary(head).value]
    {
      PrefixGrows(chunks, first, i);
      BoundaryExtends(head, Prefix(chunks, i));
      forall j | first < j <= i ensures !Waiting(chunks, j) {
        PrefixGrows(chunks, first, j - 1);
        BoundaryExtends(head, Prefix(chunks, j - 1));
      }
    }
  }

  lemma NoChunkEndsAt(chunks: seq<seq<Byte>>, k: nat, total: nat)
    requires Split(chunks) && k <= |chunks|
    requires |Prefix(chunks, k)| > total
          || (|Prefix(chunks, k)| < total && (k == |chunks| || |Prefix(chunks, k)| + |chunks[k]| > total))
    ensures forall i | k <= i <= |chunks| :: |Prefix(chunks, i)| != total
  {
    forall i | k < i <= |chunks| ensures |Prefix(chunks, i)| > total || |Prefix(chunks, k)| > total {
      PrefixStep(chunks, k);
      PrefixGrows(chunks, k + 1, i);
    }
    forall i | k <= i <= |chunks| ensures |Prefix(chunks, i)| != total {
      PrefixGrows(chunks, k, i);
    }
  }

  // ---- Segmentation ------------------------------------------------------------------------

  predicate SplitOf(chunks: seq<seq<Byte>>, stream: seq<Byte>) { Split(chunks) && Flatten(chunks) == stream }

  lemma PrefixOfStream(chunks: seq<seq<Byte>>, stream: seq<Byte>, k: nat)
    requires SplitOf(chunks, stream) && k <= |chunks|
    ensures Prefix(chunks, k) <= stream && Prefix(chunks, |chunks|) == stream
  {
    assert chunks[..|chunks|] == chunks;
    PrefixGrows(chunks, k, |chunks|);
  }

  /** A prefix of a stream holds the stream's head iff it is long enough. */
  lemma BoundaryOfPrefix(prefix: seq<Byte>, stream: seq<Byte>)
    requires prefix <= stream && Boundary(stream).Some?
    ensures Boundary(prefix) == if |prefix| >= Boundary(stream).value + 4 then Boundary(stream) else None
  {
    var b := Boundary(stream).value;
    assert forall j: nat :: BlankLineAt(prefix, j) ==> BlankLineAt(stream, j);
    if |prefix| >= b + 4 { assert BlankLineAt(prefix, b); }
  }

  /** The most bytes that can have arrived when the head is found complete. */
  function LatestHead(stream: seq<Byte>): nat
    requires Boundary(stream).Some?
  {
    var most := Boundary(stream).value + 3 + CHUNK_BYTES;
    if |stream| < most then |stream| else most
  }

  lemma EarlyHeadIsRead(stream: seq<Byte>, chunks: seq<seq<Byte>>, parse: HeadParser, request: Request)
    requires Whole(stream, parse) == Some(request) && SplitOf(chunks, stream)
    requires LatestHead(stream) <= MAX_HEADER_BYTES
    ensures Reads(chunks, parse, request)
  {
    var n := |chunks|;
    PrefixOfStream(chunks, stream, n);
    forall j | 0 <= j <= n && Waiting(chunks, j) ensures |Prefix(chunks, j)| <= MAX_HEADER_BYTES {
      PrefixOfStream(chunks, stream, j);
      if j > 0 {
        PrefixOfStream(chunks, stream, j - 1);
        BoundaryOfPrefix(Prefix(chunks, j - 1), stream);
        PrefixStep(chunks, j - 1);
      } else {
        assert chunks[..0] == [];
      }
    }
    assert ReadsAt(chunks, parse, request, n);
  }

  lemma {:induction false} FirstComplete(chunks: seq<seq<Byte>>, k: nat) returns (j: nat)
    requires k <= |chunks| && Boundary(Prefix(chunks, k)).Some?
    ensures j <= k && Waiting(chunks, j) && Boundary(Prefix(chunks, j)).Some?
    decreases k
  {
    if k > 0 && Boundary(Prefix(chunks, k - 1)).Some? {
      j := FirstComplete(chunks, k - 1);
    } else {
      j := k;
    }
  }

  lemma LateHeadIsNotRead(stream: seq<Byte>, chunks: seq<seq<Byte>>, parse: HeadParser, request: Request)
    requires Boundary(stream).Some? && SplitOf(chunks, stream)
    requires Boundary(stream).value + 4 > MAX_HEADER_BYTES
    ensures !Reads(chunks, parse, request)
  {
    forall k | 0 <= k <= |chunks| ensures !ReadsAt(chunks, parse, request, k) {
      if Boundary(Prefix(chunks, k)).Some? {
        var j := FirstComplete(chunks, k);
        PrefixOfStream(chunks, stream, j);
        BoundaryOfPrefix(Prefix(chunks, j), stream);
      }
    }
  }

  /** One byte per read. */
  function Singles(s: seq<Byte>): seq<seq<Byte>> { seq(|s|, i requires 0 <= i < |s| => [s[i]]) }

  lemma {:induction false} SinglesFlatten(s: seq<Byte>)
    ensures SplitOf(Singles(s), s)
    decreases |s|
  {
    if s != [] {
      var last := |s| - 1;
      assert Singles(s) == Singles(s[..last]) + [[s[last]]];
      SinglesFlatten(s[..last]);
      FlattenAppend(Singles(s[..last]), [[s[last]]]);
      FlattenOne([s[last]]);
    }
  }

  lemma SinglesPrefix(s: seq<Byte>, k: nat)
    requires k <= |s|
    ensures Prefix(Singles(s), k) == s[..k]
  {
    assert Singles(s)[..k] == Singles(s[..k]);
    SinglesFlatten(s[..k]);
  }

  lemma SinglesAreRead(stream: seq<Byte>, parse: HeadParser, request: Request)
    requires Whole(stream, parse) == Some(request) && Boundary(stream).value + 4 <= MAX_HEADER_BYTES
    ensures Reads(Singles(stream), parse, request)
  {
    var chunks := Singles(stream);
    SinglesFlatten(stream);
    SinglesPrefix(stream, |stream|);
    assert stream[..|stream|] == stream;
    forall j | 0 <= j <= |chunks| && Waiting(chunks, j) ensures |Prefix(chunks, j)| <= MAX_HEADER_BYTES {
      SinglesPrefix(stream, j);
      if j > 0 {
        SinglesPrefix(stream, j - 1);
        BoundaryOfPrefix(stream[..j - 1], stream);
      }
    }
    assert ReadsAt(chunks, parse, request, |chunks|);
  }

  /** All but the head's last byte in single reads, then as much as one read takes. */
  function Surge(stream: seq<Byte>): seq<seq<Byte>>
    requires Boundary(stream).Some?
  {
    var b, n := Boundary(stream).value, LatestHead(stream);
    Singles(stream[..b + 3]) + ([stream[b + 3..n]] + Singles(stream[n..]))
  }

  lemma SurgeIsSplit(stream: seq<Byte>)
    requires Boundary(stream).Some?
    ensures SplitOf(Surge(stream), stream)
    ensures var b := Boundary(stream).value;
      && b + 4 <= |Surge(stream)|
      && Prefix(Surge(stream), b + 3) == stream[..b + 3]
      && Prefix(Surge(stream), b + 4) == stream[..LatestHead(stream)]
  {
    var b, n := Boundary(stream).value, LatestHead(stream);
    var front, middle, back := stream[..b + 3], stream[b + 3..n], stream[n..];
    SinglesFlatten(front);
    SinglesFlatten(back);
    FlattenOne(middle);
    FlattenAppend([middle], Singles(back));
    FlattenAppend(Singles(front), [middle] + Singles(back));
    assert front + (middle + back) == stream;
    var chunks := Surge(stream);
    assert chunks[..b + 3] == Singles(front);
    assert chunks[b + 3] == middle;
    PrefixStep(chunks, b + 3);
    assert front + middle == stream[..n];
  }

  lemma SurgeIsNotRead(stream: seq<Byte>, parse: HeadParser, request: Request)
    requires Boundary(stream).Some? && LatestHead(stream) > MAX_HEADER_BYTES
    ensures !Reads(Surge(stream), parse, request)
  {
    var b, chunks := Boundary(stream).value, Surge(stream);
    SurgeIsSplit(stream);
    forall j | 0 <= j < b + 4 ensures Boundary(Prefix(chunks, j)).None? {
      PrefixOfStream(chunks, stream, j);
      PrefixGrows(chunks, j, b + 3);
      BoundaryOfPrefix(Prefix(chunks, j), stream);
    }
    TooLate(chunks, parse, b + 4);
  }

  /**
   * A stream that is exactly one request is read from every segmentation iff its
   * head cannot be found complete beyond the header limit, and from none iff its
   * head is itself beyond the limit; in between the result depends on the segmentation.
   */
  lemma SegmentationIff(stream: seq<Byte>, parse: HeadParser, request: Request)
    requires Whole(stream, parse) == Some(request)
    ensures (forall chunks | SplitOf(chunks, stream) :: Reads(chunks, parse, request))
      <==> LatestHead(stream) <= MAX_HEADER_BYTES
    ensures (forall chunks | SplitOf(chunks, stream) :: !Reads(chunks, parse, request))
      <==> Boundary(stream).value + 4 > MAX_HEADER_BYTES
  {
    if LatestHead(stream) <= MAX_HEADER_BYTES {
      forall chunks | SplitOf(chunks, stream) ensures Reads(chunks, parse, request) {
        EarlyHeadIsRead(stream, chunks, parse, request);
      }
    } else {
      SurgeIsSplit(stream);
      SurgeIsNotRead(stream, parse, request);
    }
    if Boundary(stream).value + 4 > MAX_HEADER_BYTES {
      forall chunks | SplitOf(chunks, stream) ensures !Reads(chunks, parse, request) {
        LateHeadIsNotRead(stream, chunks, parse, request);
      }
    } else {
      SinglesFlatten(stream);
      SinglesAreRead(stream, parse, request);
    }
  }

  /** In particular a head that ends at or before byte 15357 never makes the result depend on the segmentation. */
  lemma ShortHeadIsAlwaysRead(stream: seq<Byte>, chunks: seq<seq<Byte>>, parse: HeadParser, request: Request)
    requires Whole(stream, parse) == Some(request) && SplitOf(chunks, stream)
    requires Boundary(stream).value <= 15357
    ensures Reads(chunks, parse, request)
  {
    EarlyHeadIsRead(stream, chunks, parse, request);
  }

  /** A stream starts with at most one request. */
  lemma OneRequest(a: seq<Byte>, b: seq<Byte>, s: seq<Byte>, parse: HeadParser)
    requires a <= s && b <= s && Whole(a, parse).Some? && Whole(b, parse).Some?
    ensures a == b
  {
    BoundaryExtends(a, s);
    BoundaryExtends(b, s);
    assert a == s[..|a|] && b == s[..|b|];
  }

  /**
   * Bytes behind a request do not get it rejected, as is promised, iff a read ends
   * exactly where the request ends and its head was complete in time; nothing else is
   * ever read from such a stream.
   */
  lemma PipelinedBytes(stream: seq<Byte>, extra: seq<Byte>, chunks: seq<seq<Byte>>,
                       parse: HeadParser, request: Request)
    requires Whole(stream, parse) == Some(request) && SplitOf(chunks, stream + extra)
    ensures Reads(chunks, parse, request)
      <==> exists k | 0 <= k <= |chunks| :: Prefix(chunks, k) == stream && InTime(chunks, k)
    ensures forall q | q != request :: !Reads(chunks, parse, q)
  {
    forall q, k | 0 <= k <= |chunks| && ReadsAt(chunks, parse, q, k)
      ensures q == request && Prefix(chunks, k) == stream
    {
      PrefixOfStream(chunks, stream + extra, k);
      OneRequest(Prefix(chunks, k), stream, stream + extra, parse);
    }
    forall k | 0 <= k <= |chunks| && Prefix(chunks, k) == stream && InTime(chunks, k)
      ensures Reads(chunks, parse, request)
    {
      assert ReadsAt(chunks, parse, request, k);
    }
  }

  /** The same short stream, read and rejected. */
  lemma PipelinedEitherWay(stream: seq<Byte>, extra: seq<Byte>, parse: HeadParser, request: Request)
    requires Whole(stream, parse) == Some(request) && Boundary(stream).value <= 15357
    requires 0 < |extra| <= CHUNK_BYTES && |stream| + |extra| <= CHUNK_BYTES
    ensures Reads([stream, extra], parse, request)
    ensures forall q :: !Reads([stream + extra], parse, q)
  {
    var two, one := [stream, extra], [stream + extra];
    assert two[..0] == [] && two[..1] == [stream] && two[..2] == two;
    FlattenOne(stream);
    assert Waiting(two, 0) && ReadsAt(two, parse, request, 1);
    assert one[..0] == [] && one[..1] == one;
    FlattenOne(stream + extra);
    assert Prefix(one, 1) == stream + extra;
    BoundaryExtends(stream, stream + extra);
    forall q, k | 0 <= k <= 1 ensures !ReadsAt(one, parse, q, k) {
      assert k == 0 ==> Prefix(one, k) == [];
    }
  }
}
