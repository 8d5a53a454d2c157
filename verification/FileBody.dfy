/** The body of a file response: a stretch of a file, read in pieces of at most 4096 bytes. */
module FileBody {
  import opened Decimal

  type Bytes = seq<bv8>

  /** Files are no longer than a 64-bit number can tell. */
  type File = content: Bytes | |content| < U64

  const BUFFER_SIZE := 4096

  class Body {
    const file: File
    const size: u64
    var first: u64
    var last: u64

    /** Opens a file; the stretch is the whole of it. */
    constructor Open(content: File)
      ensures file == content && size == |content| && first == 0 && last == |content|
    {
      file, size := content, |content|;
      first, last := 0, |content|;
    }

    /** Selects the stretch from `start` up to, not including, `end`. */
    method Fragment(start: u64, end: u64)
      modifies this
      ensures first == start && last == end
    {
      first, last := start, end;
    }

    predicate InFile()
      reads this
    {
      first <= last <= |file|
    }

    /** The length of the stretch in 64-bit arithmetic: an end before the start wraps around. */
    function Length(): u64
      reads this
    {
      Wrap(last - first)
    }
  }

  /** What the writer hands out: a chunk, telling whether more is to come, or nothing. */
  datatype Piece = Chunk(data: Bytes, more: bool) | End | ShortRead | Failed

  /** What the operating system does with one request: it may fail, and it may read fewer
      bytes than it was asked for. */
  datatype Answer = SeekError | ReadError | Granted(n: nat)

  function Least(a: nat, b: nat, c: nat): (n: nat)
    ensures n <= a && n <= b && n <= c && (n == a || n == b || n == c)
  {
    if a <= b && a <= c then a else if b <= c then b else c
  }

  class Writer {
    const body: Body
    var pos: u64
    var remain: u64
    const buf: array<bv8>

    ghost predicate Valid()
      reads this, body
    {
      && Wrap(pos + remain) == body.last
      && buf.Length == BUFFER_SIZE
    }

    constructor (b: Body)
      ensures Valid() && fresh(buf) && body == b && pos == b.first && remain == b.Length()
    {
      WrapBack(b.first, b.last);
      body := b;
      pos := b.first;
      remain := Wrap(b.last - b.first);
      buf := new bv8[BUFFER_SIZE];
    }

    /** The file's part in a read: at most what was asked for and what is there. */
    method ReadFile(amount: nat, granted: nat) returns (nread: nat)
      requires amount <= buf.Length
      modifies buf
      ensures nread <= amount && nread <= granted
      ensures nread == 0 || (pos + nread <= |body.file| && buf[..nread] == body.file[pos..pos + nread])
      ensures nread == Least(granted, amount, if pos < |body.file| then |body.file| - pos else 0)
    {
      nread := if granted < amount then granted else amount;
      if pos >= |body.file| {
        nread := 0;
      } else if nread > |body.file| - pos {
        nread := |body.file| - pos;
      }
      for i := 0 to nread
        invariant forall k :: 0 <= k < i ==> buf[k] == body.file[pos + k]
      {
        buf[i] := body.file[pos + i];
      }
    }

    method Get(answer: Answer) returns (piece: Piece)
      requires Valid()
      modifies this, buf
      ensures Valid()
      ensures piece.End? <==> old(remain) == 0
      ensures !piece.Chunk? ==> pos == old(pos) && remain == old(remain)
      ensures piece.Chunk? ==> answer.Granted? && old(pos) < |body.file|
      ensures piece.Chunk? ==>
                && |piece.data| == Least(answer.n, Least(old(remain), 4096, 4096), |body.file| - old(pos)) > 0
                && pos == old(pos) + |piece.data| && remain == old(remain) - |piece.data|
                && pos <= |body.file| && piece.data == body.file[old(pos)..pos]
                && (piece.more <==> remain > 0)
      ensures old(remain) > 0 && old(pos) < |body.file| && answer.Granted? && answer.n > 0 ==> piece.Chunk?
      ensures answer.Granted? ==> !piece.Failed?
    {
      hide Wrap;
      var amount := if remain > BUFFER_SIZE then BUFFER_SIZE else remain;
      if amount == 0 {
        return End;
      }
      if !answer.Granted? {
        return Failed;
      }
      var nread := ReadFile(amount, answer.n);
      if nread == 0 {
        return ShortRead;
      }
      WrapSmall(pos + nread);
      pos := Wrap(pos + nread);
      remain := remain - nread;
      piece := Chunk(buf[..nread], remain > 0);
    }
  }

  function Concat(chunks: seq<Bytes>): Bytes {
    if chunks == [] then [] else Concat(chunks[..|chunks| - 1]) + chunks[|chunks| - 1]
  }

  lemma NoChunks()
    ensures Concat([]) == []
  {
  }

  lemma ConcatSnoc(chunks: seq<Bytes>, chunk: Bytes)
    ensures Concat(chunks + [chunk]) == Concat(chunks) + chunk
  {
    assert (chunks + [chunk])[..|chunks|] == chunks;
  }

  /** A start and the length from there lead back to the end. */
  lemma WrapBack(a: u64, b: u64)
    ensures Wrap(a + Wrap(b - a)) == b
  {
    WrapDifference(a, b);
  }

  /** Takes pieces until there are no more, whatever the operating system answers.  What was
      taken is always a beginning of the selected stretch; it is all of it exactly when the
      last piece said that nothing more was to come.  If the operating system keeps granting
      bytes, that happens exactly when the stretch is empty or lies in the file. */
  method Serve(body: Body, answers: nat -> Answer) returns (chunks: seq<Bytes>, complete: bool)
    ensures forall i :: 0 <= i < |chunks| ==> 0 < |chunks[i]| <= 4096
    ensures |Concat(chunks)| <= body.Length()
    ensures chunks != [] ==>
              && body.first + |Concat(chunks)| <= |body.file|
              && Concat(chunks) == body.file[body.first..body.first + |Concat(chunks)|]
    ensures complete <==> |Concat(chunks)| == body.Length()
    ensures complete ==> body.first == body.last || body.InFile()
    ensures (forall k :: answers(k).Granted? && answers(k).n > 0) ==>
              (complete <==> body.first == body.last || body.InFile())
  {
    hide Concat, Wrap, Least;
    chunks, complete := [], false;
    NoChunks();
    WrapDifference(body.first, body.last);
    var writer := new Writer(body);
    var more := true;
    while more
      invariant writer.Valid() && fresh(writer) && fresh(writer.buf) && writer.body == body
      invariant body.first == old(body.first) && body.last == old(body.last)
      invariant writer.pos == body.first + |Concat(chunks)| && writer.remain == body.Length() - |Concat(chunks)|
      invariant forall i :: 0 <= i < |chunks| ==> 0 < |chunks[i]| <= BUFFER_SIZE
      invariant chunks == [] ==> Concat(chunks) == []
      invariant chunks != [] ==> writer.pos <= |body.file| && Concat(chunks) == body.file[body.first..writer.pos]
      invariant !more ==> writer.remain == 0
      decreases more, writer.remain
    {
      var before := writer.pos;
      var piece := writer.Get(answers(|chunks|));
      match piece
      case Chunk(data, again) =>
        ConcatSnoc(chunks, data);
        Extend(body.file, body.first, before, writer.pos);
        chunks := chunks + [data];
        more := again;
      case End => more := false;
      case ShortRead => return;
      case Failed => return;
    }
    complete := true;
  }

  lemma Extend(file: Bytes, a: nat, b: nat, c: nat)
    requires a <= b <= c <= |file|
    ensures file[a..b] + file[b..c] == file[a..c]
  {
  }
}
