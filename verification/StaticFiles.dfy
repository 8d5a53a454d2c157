/** Answering a GET or HEAD request with a file, or with a range of it. */
module StaticFiles {
  import opened Wrappers
  import opened Strings
  import opened Decimal
  import opened ByteRange
  import opened FileBody

  datatype Status = Ok | PartialContent | RangeNotSatisfiable | NotModified

  /** The parts of the response that depend on the range; `sendsBody` tells whether the
      file's body goes with it. */
  datatype Reply = Reply(
    status: Status,
    contentRange: Option<string>,
    contentLength: Option<u64>,
    sendsBody: bool)

  /** Range requests: the field may be absent. */
  method RequestRanges(size: u64, field: Option<string>) returns (status: Field, ranges: seq<Range>)
    ensures ranges == if field.Some? then RangesOf(size, field.value) else []
    ensures status == if field.None? then Absent else if ranges == [] then Invalid else Present
  {
    ranges := [];
    if field.None? {
      return Absent, ranges;
    }
    status, ranges := ParseByteRanges(size, field.value);
  }

  /** The announced range are positions of the file, the announced length is the number of
      positions, and the body is set to exactly these. */
  ghost predicate HonestRange(reply: Reply, body: Body)
    reads body
  {
    exists r: Range ::
      && r.start <= r.end < body.size
      && reply.contentRange == Some("bytes " + PrintRange(r) + "/" + Print(body.size))
      && reply.contentLength == Some(r.end - r.start + 1)
      && body.first == r.start && body.last == r.end + 1
  }

  /** The whole file is announced, and sent unless only the header is wanted. */
  ghost predicate WholeFile(reply: Reply, body: Body)
    reads body
  {
    && reply.contentRange == None && reply.contentLength == Some(body.size)
    && body.first == 0 && body.last == body.size
  }

  /** Answers with a freshly opened file.  The announced length is always that of the stretch
      to be sent.  For a file that is not empty every answer is honest.  For an empty one, a
      range that parses is announced although no position of the file is in it. */
  method GetFile(body: Body, head: bool, range: Option<string>, modifiedSince: bool) returns (reply: Reply)
    requires body.size == |body.file| && body.first == 0 && body.last == body.size
    modifies body
    ensures reply.contentLength.Some? ==> reply.contentLength.value == body.Length()
    ensures reply.contentLength.None? ==> !reply.sendsBody
    ensures range.Some? && RangesOf(body.size, range.value) != [] ==>
              var r := RangesOf(body.size, range.value)[0];
              && body.first == r.start && body.last == Wrap(r.end + 1)
              && reply.contentRange == Some("bytes " + PrintRange(r) + "/" + Print(body.size))
    ensures range.None? ==>
              && WholeFile(reply, body)
              && reply.status == (if !head && modifiedSince then NotModified else Ok)
              && reply.sendsBody == (!head && !modifiedSince)
    ensures range.Some? && RangesOf(body.size, range.value) == [] ==>
              reply == Reply(RangeNotSatisfiable, Some("bytes */" + Print(body.size)), None, false)
    ensures range.Some? && RangesOf(body.size, range.value) != [] ==>
              && reply.status == PartialContent && reply.sendsBody == !head
              && (HonestRange(reply, body) <==> body.size > 0)
    ensures range.Some? && RangesOf(body.size, range.value) != [] && body.size > 0 ==>
              var r := RangesOf(body.size, range.value)[0];
              r.start <= r.end < body.size && body.first == r.start && body.last == r.end + 1
  {
    hide RangesOf, PrintRange, Print;
    var size: u64 := body.size;
    var status, ranges := RequestRanges(size, range);
    var contentRange := None;
    var result := Ok;
    if status != Absent {
      if status == Invalid {
        return Reply(RangeNotSatisfiable, Some("bytes */" + Print(size)), None, false);
      }
      result := PartialContent;
      contentRange := Some("bytes " + PrintRange(ranges[0]) + "/" + Print(size));
      if size > 0 {
        RangesInFile(size, range.value);
      }
      size := SelectRange(body, ranges[0]);
    }
    reply := Reply(result, contentRange, Some(size), !head);
    if head {
      return;
    }
    if status != Present && modifiedSince {
      reply := Reply(NotModified, contentRange, Some(size), false);
    }
  }

  /** Sets the body to the range; tells its length, in 64-bit arithmetic. */
  method SelectRange(body: Body, r: Range) returns (length: u64)
    modifies body
    ensures body.first == r.start && body.last == Wrap(r.end + 1) && length == body.Length()
    ensures r.start <= r.end < body.size ==> body.last == r.end + 1 && length == r.end - r.start + 1
  {
    length := Wrap(r.end - r.start + 1);
    body.Fragment(r.start, Wrap(r.end + 1));
  }

  lemma RangesInFile(size: u64, header: string)
    requires size > 0 && RangesOf(size, header) != []
    ensures var r := RangesOf(size, header)[0]; r.start <= r.end < size
  {
    var eq := IndexOf(header, '=');
    RangesLieInFile(size, Items(header[eq + 1..]));
  }

  lemma RangeIsOrdered(size: u64, header: string)
    requires RangesOf(size, header) != []
    ensures var r := RangesOf(size, header)[0]; r.start <= r.end
  {
    var eq := IndexOf(header, '=');
    RangesAreOrdered(size, Items(header[eq + 1..]));
  }

  /** No position lies in an empty file, so only an answer that announces nothing can be kept:
      without a range, with none that parses, or with the one whose length wraps around to 0. */
  predicate EmptyIsServed(range: Option<string>) {
    || range.None?
    || RangesOf(0, range.value) == []
    || RangesOf(0, range.value)[0] == Range(0, U64 - 1)
  }

  /** The bytes a response to a range request sends: those of the first range. */
  function RequestedBytes(content: File, header: string): Bytes
    requires |content| > 0
  {
    if RangesOf(|content|, header) == [] then []
    else
      RangesInFile(|content|, header);
      var r := RangesOf(|content|, header)[0];
      content[r.start..r.end + 1]
  }

  /** `bytes=n-` requests the bytes from `n` on, `bytes=-m` the last `m`, `bytes=n-m` those from `n`
      to `m` or to the end. */
  lemma RequestRules(content: File, n: u64, m: u64)
    requires |content| > 0
    ensures var size := |content|;
            && RequestedBytes(content, "bytes=" + (Print(n) + "-")) == (if n < size then content[n..] else [])
            && RequestedBytes(content, "bytes=" + ("-" + Print(m))) ==
               (if 1 <= m <= size then content[size - m..] else [])
            && RequestedBytes(content, "bytes=" + (Print(n) + ("-" + Print(m)))) ==
               (if n <= m && n < size then content[n..if m < size then m + 1 else size] else [])
  {
    hide RangesOf, Print;
    HeaderRules(|content|, n, m);
  }

  /** Announced equals delivered: when the body of a response has been served to its end, its
      bytes are as many as announced, and they are exactly the announced stretch of the file.
      As long as the operating system grants bytes it is served to its end, except for an empty
      file of which a range is announced. */
  method Respond(content: File, range: Option<string>, modifiedSince: bool, answers: nat -> Answer)
    returns (reply: Reply, bytes: Bytes, complete: bool)
    ensures reply.sendsBody ==> reply.contentLength.Some? && |bytes| <= reply.contentLength.value
    ensures reply.sendsBody ==> (complete <==> |bytes| == reply.contentLength.value)
    ensures reply.sendsBody && complete && reply.status == Ok ==> bytes == content
    ensures reply.sendsBody && complete && reply.status == PartialContent && |content| > 0 ==>
              && range.Some? && RangesOf(|content|, range.value) != []
              && var r := RangesOf(|content|, range.value)[0];
                 && r.start <= r.end < |content|
                 && reply.contentRange == Some("bytes " + PrintRange(r) + "/" + Print(|content|))
                 && bytes == content[r.start..r.end + 1] == RequestedBytes(content, range.value)
    ensures |content| == 0 ==> bytes == []
    ensures (forall k :: answers(k).Granted? && answers(k).n > 0) ==>
              (complete <==> |content| > 0 || EmptyIsServed(range))
  {
    hide RangesOf, PrintRange, Print;
    var body := new Body.Open(content);
    reply := GetFile(body, false, range, modifiedSince);
    if range.Some? && RangesOf(|content|, range.value) != [] {
      RangeIsOrdered(|content|, range.value);
      EmptyStretch(RangesOf(|content|, range.value)[0]);
    }
    bytes, complete := [], true;
    if reply.sendsBody {
      var chunks: seq<Bytes>;
      chunks, complete := Serve(body, answers);
      bytes := Concat(chunks);
      if bytes != [] {
        SomeChunk(chunks);
      }
    }
  }

  lemma SomeChunk(chunks: seq<Bytes>)
    requires Concat(chunks) != []
    ensures chunks != []
  {
  }

  /** The stretch of a range is empty only if the range is everything a number can count. */
  lemma EmptyStretch(r: Range)
    ensures r.start <= r.end ==> (Wrap(r.end + 1) == r.start <==> r == Range(0, U64 - 1))
  {
  }

  /** So of an empty file the range `bytes=5-` is announced as 2^64 - 5 bytes, none of which is
      ever delivered, while `bytes=0-` is answered with no bytes. */
  lemma EmptyFileWitness(n: u64)
    ensures RangesOf(0, "bytes=" + (Print(n) + "-")) == [Range(n, U64 - 1)]
    ensures Wrap(U64 - 1 - n + 1) == if n == 0 then 0 else U64 - n
    ensures EmptyIsServed(Some("bytes=" + (Print(n) + "-"))) <==> n == 0
  {
    hide RangesOf, RangeOf, Print, Trim;
    var item := Print(n) + "-";
    assert item == Print(n) + "-" + "";
    EmptyFileHasRanges(n);
    PrintedSides(n, 0);
    SingleItem(0, item);
  }
}
