/** The pipelined HTTP session: a read and a write that may both be in flight, and a
    bounded queue of responses.  Every completion handler runs to its end before the next
    one starts, because a connection has its own strand; a run is therefore a sequence of
    completions.  Responses go out in request order (section 9.3.2 of RFC 9112). */
module HttpSession {
  import opened Sequences

  const LIMIT := 8

  /** A response; `needEof` says that the connection ends after it. */
  datatype Response = Response(id: nat, needEof: bool)

  /** The completions the network can deliver.  `Request` is a request that was read,
      with the one response its handler sends before it returns. */
  datatype Event =
    | Request(response: Response)
    | EndOfStream
    | ReadError
    | WriteDone
    | WriteError

  /** Whether responses can still be written: until a write fails, or one that ends the
      connection has been written. */
  datatype WriteSide = Open | Failed | Closed

  /** The session as seen from outside: the queue, the operations in flight, and what has
      happened so far.  `produced` and `written` list responses in the order they were
      sent by handlers and completely written out.  `shut` says that the sending side of the
      socket has been shut down, and `late` that the write in flight was started after that. */
  datatype State = State(
    items: seq<Response>,
    reading: nat,
    writing: nat,
    produced: seq<Response>,
    written: seq<Response>,
    readsStarted: nat,
    writesStarted: nat,
    readEnded: bool,
    writeSide: WriteSide,
    shut: bool,
    late: bool)

  const IDLE := State([], 0, 0, [], [], 0, 0, false, Open, false, false)

  // ----- the session -----

  class Session {
    var items: seq<Response>

    // What the network holds for us, and the history of the run.
    ghost var reading: nat
    ghost var writing: nat
    ghost var produced: seq<Response>
    ghost var written: seq<Response>
    ghost var readsStarted: nat
    ghost var writesStarted: nat
    ghost var readEnded: bool
    ghost var writeSide: WriteSide
    ghost var shut: bool
    ghost var late: bool

    ghost function Now(): State
      reads this
    {
      State(items, reading, writing, produced, written, readsStarted, writesStarted, readEnded, writeSide, shut, late)
    }

    constructor ()
      ensures Now() == IDLE
    {
      items := [];
      reading, writing, produced, written := 0, 0, [], [];
      readsStarted, writesStarted, readEnded, writeSide := 0, 0, false, Open;
      shut, late := false, false;
    }

    predicate IsFull()
      reads this
    {
      |items| >= LIMIT
    }

    method Run()
      requires Now() == IDLE
      modifies this
      ensures Now() == STARTED && Consistent(Now())
    {
      DoRead();
    }

    method DoRead()
      modifies this`reading, this`readsStarted
      ensures reading == old(reading) + 1 && readsStarted == old(readsStarted) + 1
    {
      reading, readsStarted := reading + 1, readsStarted + 1;
    }

    /** Starts writing the response at the front of the queue. */
    method StartWrite()
      requires items != []
      modifies this`writing, this`writesStarted, this`late
      ensures writing == old(writing) + 1 && writesStarted == old(writesStarted) + 1 && late == shut
    {
      writing, writesStarted, late := writing + 1, writesStarted + 1, shut;
    }

    method Send(msg: Response)
      modifies this`items, this`writing, this`writesStarted, this`late, this`produced
      ensures items == old(items) + [msg] && produced == old(produced) + [msg]
      ensures late == if |items| == 1 then shut else old(late)
      ensures writing == old(writing) + (if |items| == 1 then 1 else 0)
      ensures writesStarted == old(writesStarted) + (if |items| == 1 then 1 else 0)
    {
      items := items + [msg];
      produced := produced + [msg];
      if |items| == 1 {
        StartWrite();
      }
    }

    /** Takes the written response off the queue and starts the next; tells whether the
        queue was full. */
    method QueueOnWrite() returns (wasFull: bool)
      requires items != []
      modifies this`items, this`writing, this`writesStarted, this`late
      ensures late == if items == [] then old(late) else shut
      ensures wasFull == (|old(items)| >= LIMIT) && items == old(items)[1..]
      ensures writing == old(writing) + (if items == [] then 0 else 1)
      ensures writesStarted == old(writesStarted) + (if items == [] then 0 else 1)
    {
      wasFull := IsFull();
      items := items[1..];
      if items != [] {
        StartWrite();
      }
    }

    /** A read completed: with a request and the response of its handler, or without. */
    method OnRead(e: Event)
      requires Consistent(Now()) && (e.Request? || e.EndOfStream? || e.ReadError?) && Enabled(Now(), e)
      modifies this
      ensures Consistent(Now()) && Now() == Step(old(Now()), e)
    {
      hide Accounted, Unwritten;
      StepKeepsConsistent(Now(), e);
      reading := reading - 1;
      if e.EndOfStream? {
        DoClose();
        readEnded := true;
        return;
      }
      if e.ReadError? {
        readEnded := true;
        return;
      }
      Send(e.response);
      if !IsFull() {
        DoRead();
      }
    }

    /** The write of the front response completed. */
    method OnWrite(e: Event)
      requires Consistent(Now()) && (e.WriteDone? || e.WriteError?) && Enabled(Now(), e)
      modifies this
      ensures Consistent(Now()) && Now() == Step(old(Now()), e)
    {
      hide Accounted, Unwritten;
      StepKeepsConsistent(Now(), e);
      var close := items[0].needEof;
      writing := writing - 1;
      if e.WriteError? {
        writeSide := Failed;
        return;
      }
      written := written + [items[0]];
      if close {
        DoClose();
        writeSide := Closed;
        return;
      }
      var wasFull := QueueOnWrite();
      if wasFull {
        DoRead();
      }
    }

    /** Shuts down the sending side of the socket: no write started from now on can succeed. */
    method DoClose()
      modifies this`shut
      ensures shut
    {
      shut := true;
    }
  }

  // ----- the steps -----

  /** An operation completes only when it is in flight; and a write that was started after
      the sending side was shut down can only fail. */
  predicate Enabled(s: State, e: Event) {
    match e
    case WriteDone => s.writing > 0 && !s.late
    case WriteError => s.writing > 0
    case _ => s.reading > 0
  }

  const STARTED := IDLE.(reading := 1, readsStarted := 1)

  function StartRead(s: State): State {
    s.(reading := s.reading + 1, readsStarted := s.readsStarted + 1)
  }

  function StartWrite(s: State): State {
    s.(writing := s.writing + 1, writesStarted := s.writesStarted + 1, late := s.shut)
  }

  function Step(s: State, e: Event): State
    requires Enabled(s, e)
  {
    match e
    case EndOfStream => s.(reading := s.reading - 1, readEnded := true, shut := true)
    case ReadError => s.(reading := s.reading - 1, readEnded := true)
    case Request(r) =>
      var sent := s.(reading := s.reading - 1, items := s.items + [r], produced := s.produced + [r]);
      var busy := if |sent.items| == 1 then StartWrite(sent) else sent;
      if |busy.items| < LIMIT then StartRead(busy) else busy
    case WriteError => s.(writing := s.writing - 1, writeSide := Failed)
    case WriteDone =>
      if s.items == [] then s
      else
        var done := s.(writing := s.writing - 1, written := s.written + [s.items[0]]);
        if s.items[0].needEof then done.(writeSide := Closed, shut := true)
        else
          var shorter := done.(items := s.items[1..]);
          var busy := if shorter.items != [] then StartWrite(shorter) else shorter;
          if |s.items| >= LIMIT then StartRead(busy) else busy
  }

  /** Every completion of the run is of an operation in flight at its turn. */
  predicate Possible(s: State, run: seq<Event>)
    decreases |run|
  {
    run == [] || (Enabled(s, run[0]) && Possible(Step(s, run[0]), run[1..]))
  }

  function After(s: State, run: seq<Event>): State
    requires Possible(s, run)
    decreases |run|
  {
    if run == [] then s else After(Step(s, run[0]), run[1..])
  }

  lemma RunStep(s: State, e: Event, run: seq<Event>)
    ensures Possible(s, [e] + run) <==> Enabled(s, e) && Possible(Step(s, e), run)
    ensures Possible(s, [e] + run) ==> After(s, [e] + run) == After(Step(s, e), run)
  {
    assert ([e] + run)[1..] == run;
  }

  // ----- what every run keeps -----

  /** Queued responses not yet written; the one that closed the connection stays queued. */
  function Unwritten(s: State): seq<Response> {
    if s.writeSide.Closed? && s.items != [] then s.items[1..] else s.items
  }

  /** A read is in flight exactly when the queue has room, a write exactly when it is not
      empty, each as long as its side goes on; and the queue is bounded. */
  predicate InFlight(s: State) {
    && |s.items| <= LIMIT
    && s.reading == (if !s.readEnded && |s.items| < LIMIT then 1 else 0)
    && s.writing == (if s.writeSide.Open? && s.items != [] then 1 else 0)
    && (s.readEnded ==> |s.items| < LIMIT)
    && (!s.writeSide.Open? ==> s.items != [])
    && (s.shut ==> s.readEnded || s.writeSide.Closed?)
    && (s.late ==> s.shut)
  }

  /** What was written, then what waits, is what was produced; and only the last written
      response may have ended the connection. */
  predicate Accounted(s: State) {
    && s.produced == s.written + Unwritten(s)
    && (forall i :: 0 <= i < |s.written| && s.written[i].needEof ==>
          s.writeSide.Closed? && i == |s.written| - 1)
  }

  /** The state between two handlers. */
  predicate Consistent(s: State) {
    InFlight(s) && Accounted(s)
  }

  lemma StepKeepsInFlight(s: State, e: Event)
    requires InFlight(s) && Enabled(s, e)
    ensures InFlight(Step(s, e))
  {
  }

  /** What one step adds to what was produced, written and queued. */
  lemma StepAccounts(s: State, e: Event)
    requires InFlight(s) && Enabled(s, e)
    ensures var t := Step(s, e);
            && t.produced == (if e.Request? then s.produced + [e.response] else s.produced)
            && t.written == (if e.WriteDone? then s.written + [s.items[0]] else s.written)
            && Unwritten(t) == (if e.Request? then Unwritten(s) + [e.response]
                                else if e.WriteDone? then s.items[1..] else Unwritten(s))
  {
    if e.Request? && s.writeSide.Closed? {
      assert (s.items + [e.response])[1..] == s.items[1..] + [e.response];
    }
  }

  lemma StepKeepsConsistent(s: State, e: Event)
    requires Consistent(s) && Enabled(s, e)
    ensures Consistent(Step(s, e))
  {
    StepKeepsInFlight(s, e);
    StepAccounts(s, e);
    StepCloses(s, e);
    hide Step, InFlight, Enabled, Unwritten;
    if e.WriteDone? {
      assert s.items == [s.items[0]] + s.items[1..];
      Regroup(s.written, [s.items[0]], s.items[1..]);
    } else if e.Request? {
      Regroup(s.written, Unwritten(s), [e.response]);
    }
  }

  /** Only a write of a response that ends the connection closes the write side. */
  lemma StepCloses(s: State, e: Event)
    requires InFlight(s) && Enabled(s, e)
    ensures e.WriteDone? ==> s.writeSide.Open? && s.items != [] && Unwritten(s) == s.items
    ensures Step(s, e).writeSide.Closed? <==> if e.WriteDone? then s.items[0].needEof else s.writeSide.Closed?
  {
  }

  lemma {:induction false} RunKeepsConsistent(s: State, run: seq<Event>)
    requires Consistent(s) && Possible(s, run)
    ensures Consistent(After(s, run))
    decreases |run|
  {
    if run != [] {
      StepKeepsConsistent(s, run[0]);
      RunKeepsConsistent(Step(s, run[0]), run[1..]);
    }
  }

  /** The responses of a run's requests, in request order. */
  function Responses(run: seq<Event>): seq<Response> {
    if run == [] then []
    else (if run[0].Request? then [run[0].response] else []) + Responses(run[1..])
  }

  function WritesDone(run: seq<Event>): nat {
    if run == [] then 0 else (if run[0].WriteDone? then 1 else 0) + WritesDone(run[1..])
  }

  /** A run produces one response per request, in request order. */
  lemma {:induction false} RunProduces(s: State, run: seq<Event>)
    requires InFlight(s) && Possible(s, run)
    ensures After(s, run).produced == s.produced + Responses(run)
    decreases |run|
  {
    if run == [] {
      assert s.produced + [] == s.produced;
    } else {
      var t := Step(s, run[0]);
      StepKeepsInFlight(s, run[0]);
      StepAccounts(s, run[0]);
      RunProduces(t, run[1..]);
      assert After(s, run) == After(t, run[1..]);
      hide Step, InFlight, Possible, After;
      Regroup(s.produced, if run[0].Request? then [run[0].response] else [], Responses(run[1..]));
      assert t.produced == s.produced + if run[0].Request? then [run[0].response] else [];
    }
  }

  lemma Front(a: seq<Response>, b: seq<Response>)
    ensures a <= a + b
  {
  }

  lemma Longer(a: seq<Response>, b: seq<Response>, c: seq<Response>)
    requires a <= b <= c
    ensures a <= c
  {
    assert c[..|a|] == c[..|b|][..|a|];
  }

  /** Every completed write adds one written response. */
  lemma {:induction false} RunWrites(s: State, run: seq<Event>)
    requires InFlight(s) && Possible(s, run)
    ensures |After(s, run).written| == |s.written| + WritesDone(run)
    ensures s.written <= After(s, run).written
    decreases |run|
  {
    if run != [] {
      var t := Step(s, run[0]);
      StepKeepsInFlight(s, run[0]);
      StepAccounts(s, run[0]);
      RunWrites(t, run[1..]);
      Longer(s.written, t.written, After(t, run[1..]).written);
    }
  }

  /** Order over every run: what has been written is a prefix of the responses in request
      order, and what waits is the rest of them. */
  lemma PipeliningKeepsOrder(run: seq<Event>)
    requires Possible(STARTED, run)
    ensures var s := After(STARTED, run);
            && s.written + Unwritten(s) == Responses(run)
            && s.written <= Responses(run)
            && |s.items| <= 8 && s.reading <= 1 && s.writing <= 1
  {
    RunKeepsConsistent(STARTED, run);
    RunProduces(STARTED, run);
    var s := After(STARTED, run);
    hide Possible, After, Step, Responses, Unwritten;
    var none: seq<Response> := [];
    assert STARTED.produced == none && none + Responses(run) == Responses(run);
    Front(s.written, Unwritten(s));
  }

  /** No stall: in every reachable state whose sides are open, reading goes on exactly while
      there is room, and writing exactly while something is queued; until the sending side is
      shut down the write can succeed. */
  lemma NothingStalls(run: seq<Event>)
    requires Possible(STARTED, run)
    ensures var s := After(STARTED, run);
            && (!s.readEnded ==> (Enabled(s, ReadError) <==> |s.items| < 8))
            && (s.writeSide.Open? ==> (Enabled(s, WriteError) <==> s.items != []))
            && (s.writeSide.Open? && !s.shut ==> (Enabled(s, WriteDone) <==> s.items != []))
  {
    RunKeepsConsistent(STARTED, run);
  }

  /** A queued response is written after as many completed writes as its place in the queue
      demands, whatever else happens meanwhile. */
  lemma QueuedResponseFinishes(s: State, run: seq<Event>, place: nat)
    requires Consistent(s) && s.writeSide.Open? && place < |s.items|
    requires Possible(s, run) && WritesDone(run) > place
    ensures var t := After(s, run);
            |s.written| + place < |t.written| && t.written[|s.written| + place] == s.items[place]
  {
    RunProduces(s, run);
    RunWrites(s, run);
    RunKeepsConsistent(s, run);
    var t := After(s, run);
    assert t.produced == t.written + Unwritten(t) == s.written + s.items + Responses(run);
    assert t.written[|s.written| + place] == t.produced[|s.written| + place];
  }

  /** Requests one after the other, with nothing else in between. */
  function Requested(rs: seq<Response>): (run: seq<Event>)
    ensures |run| == |rs|
  {
    if rs == [] then [] else [Request(rs[0])] + Requested(rs[1..])
  }

  lemma {:induction false} ReadsWhileRoom(s: State, rs: seq<Response>)
    requires Consistent(s) && !s.readEnded && |s.items| + |rs| <= LIMIT
    ensures Possible(s, Requested(rs))
    ensures var t := After(s, Requested(rs));
            Consistent(t) && !t.readEnded && t.items == s.items + rs && t.written == s.written
    decreases |rs|
  {
    if rs == [] {
      assert s.items + [] == s.items;
    } else {
      var t := RequestStep(s, rs[0]);
      hide Step, Consistent, Possible, After, Enabled;
      ReadsWhileRoom(t, rs[1..]);
      RunStep(s, Request(rs[0]), Requested(rs[1..]));
      Regroup(s.items, [rs[0]], rs[1..]);
      assert rs == [rs[0]] + rs[1..];
    }
  }

  lemma RequestStep(s: State, r: Response) returns (t: State)
    requires Consistent(s) && !s.readEnded && |s.items| < LIMIT
    ensures Enabled(s, Request(r)) && t == Step(s, Request(r))
    ensures Consistent(t) && !t.readEnded && t.items == s.items + [r] && t.written == s.written
  {
    StepKeepsConsistent(s, Request(r));
    t := Step(s, Request(r));
  }

  /** Eight requests are read before any response is written, and a ninth is not: then nothing but
      the write can go on. */
  lemma EightAhead(rs: seq<Response>, e: Event)
    requires |rs| == 8
    ensures Possible(STARTED, Requested(rs)) && After(STARTED, Requested(rs)).items == rs
    ensures Enabled(After(STARTED, Requested(rs)), e) <==> e.WriteDone? || e.WriteError?
  {
    ReadsWhileRoom(STARTED, rs);
    var t := After(STARTED, Requested(rs));
    assert [] + rs == rs;
    EightAreOpen(rs, STARTED);
  }

  lemma {:induction false} EightAreOpen(rs: seq<Response>, s: State)
    requires Possible(s, Requested(rs)) && s.writeSide.Open? && !s.shut && !s.late
    ensures var t := After(s, Requested(rs)); t.writeSide.Open? && !t.shut && !t.late
    decreases |rs|
  {
    if rs != [] {
      RunStep(s, Request(rs[0]), Requested(rs[1..]));
      EightAreOpen(rs[1..], Step(s, Request(rs[0])));
    }
  }

  /** In every run at most eight more requests are read than responses written. */
  lemma NeverNineAhead(run: seq<Event>)
    requires Possible(STARTED, run)
    ensures |Responses(run)| - WritesDone(run) <= 8
  {
    PipeliningKeepsOrder(run);
    RunWrites(STARTED, run);
  }

  // ----- shutdown -----

  function Requests(run: seq<Event>): nat {
    |Responses(run)|
  }

  /** After a failed or closing write, no write is started again, nothing more is written,
      and at most seven more requests are handled before reading stops. */
  lemma {:induction false} WriteShutdownIsFinal(s: State, run: seq<Event>)
    requires Consistent(s) && !s.writeSide.Open? && Possible(s, run)
    ensures var t := After(s, run);
            && t.writesStarted == s.writesStarted && t.writing == 0
            && t.written == s.written && t.writeSide == s.writeSide
    ensures Requests(run) == |After(s, run).items| - |s.items| <= 7
    decreases |run|
  {
    if run == [] {
      assert Requests(run) == 0;
    } else {
      StepKeepsConsistent(s, run[0]);
      WriteShutdownIsFinal(Step(s, run[0]), run[1..]);
      RunKeepsConsistent(s, run);
    }
  }

  /** After the end of the stream or a read error, no read is started again and no request
      is handled. */
  lemma {:induction false} ReadShutdownIsFinal(s: State, run: seq<Event>)
    requires Consistent(s) && s.readEnded && Possible(s, run)
    ensures var t := After(s, run);
            t.readsStarted == s.readsStarted && t.reading == 0 && t.readEnded && Requests(run) == 0
    decreases |run|
  {
    if run != [] {
      StepKeepsConsistent(s, run[0]);
      ReadShutdownIsFinal(Step(s, run[0]), run[1..]);
    }
  }

  // ----- what can still be written -----

  /** While the sending side is open the queued responses can all be written, up to one that
      ends the connection. */
  lemma {:induction false} QueueDrains(s: State) returns (run: seq<Event>)
    requires Consistent(s) && s.writeSide.Open? && !s.shut
    ensures Possible(s, run) && forall i :: 0 <= i < |run| ==> run[i] == WriteDone
    ensures var t := After(s, run); Unwritten(t) == [] || t.writeSide.Closed?
    ensures NoneCloses(s.items) ==> Unwritten(After(s, run)) == []
    decreases |s.items|
  {
    if s.items == [] {
      run := [];
    } else {
      StepKeepsConsistent(s, WriteDone);
      var t := Step(s, WriteDone);
      var rest := [];
      if t.writeSide.Open? {
        rest := QueueDrains(t);
      }
      run := [WriteDone] + rest;
      assert run[1..] == rest;
    }
  }

  /** None but the last of these responses ends the connection. */
  predicate NoneCloses(items: seq<Response>) {
    forall i :: 0 <= i < |items| - 1 ==> !items[i].needEof
  }

  /** Nothing is lost for certain: no response waits behind one that ends the connection, and
      once the sending side is shut down, none waits behind the write in flight. */
  predicate CanDrain(s: State) {
    || Unwritten(s) == []
    || (s.writeSide.Open? && NoneCloses(s.items) && (s.shut ==> |s.items| == 1 && !s.late))
  }

  lemma LossIsForever(s: State, e: Event)
    requires Consistent(s) && Enabled(s, e) && !CanDrain(s)
    ensures !CanDrain(Step(s, e))
  {
    var t := Step(s, e);
    StepAccounts(s, e);
    if s.writeSide.Open? && !NoneCloses(s.items) {
      var i :| 0 <= i < |s.items| - 1 && s.items[i].needEof;
      if e.WriteDone? && i > 0 && !s.items[0].needEof {
        assert t.items[i - 1].needEof;
      } else if e.Request? {
        assert t.items[i].needEof;
      }
    }
  }

  lemma {:induction false} LossIsFinal(s: State, run: seq<Event>)
    requires Consistent(s) && Possible(s, run) && !CanDrain(s)
    ensures Unwritten(After(s, run)) != []
    decreases |run|
  {
    if run != [] {
      LossIsForever(s, run[0]);
      StepKeepsConsistent(s, run[0]);
      LossIsFinal(Step(s, run[0]), run[1..]);
    }
  }

  lemma Drain(s: State) returns (run: seq<Event>)
    requires Consistent(s) && CanDrain(s)
    ensures Possible(s, run) && Unwritten(After(s, run)) == []
  {
    if Unwritten(s) == [] {
      run := [];
    } else if s.shut {
      run := [WriteDone] + [];
      RunStep(s, WriteDone, []);
    } else {
      run := QueueDrains(s);
    }
  }

  /** Some run writes everything exactly when nothing is lost for certain. */
  lemma DrainsExactly(s: State)
    requires Consistent(s)
    ensures (exists run :: Possible(s, run) && Unwritten(After(s, run)) == []) <==> CanDrain(s)
  {
    if CanDrain(s) {
      var run := Drain(s);
      assert Possible(s, run) && Unwritten(After(s, run)) == [];
    } else {
      forall run | Possible(s, run)
        ensures Unwritten(After(s, run)) != []
      {
        LossIsFinal(s, run);
      }
    }
  }

  /** When a client ends its stream, everything can still be written exactly if at most one
      response is unwritten, because the sending side is shut down at once. */
  lemma EndOfStreamLoses(s: State)
    requires Consistent(s) && s.writeSide.Open? && Enabled(s, EndOfStream)
    ensures var t := Step(s, EndOfStream);
            (exists run :: Possible(t, run) && Unwritten(After(t, run)) == []) <==> |s.items| <= 1
  {
    StepKeepsConsistent(s, EndOfStream);
    DrainsExactly(Step(s, EndOfStream));
  }

  /** A read error shuts nothing down: what can be written after it is what could be before. */
  lemma ReadErrorLosesNothing(s: State)
    requires Consistent(s) && s.writeSide.Open? && Enabled(s, ReadError)
    ensures var t := Step(s, ReadError);
            (exists run :: Possible(t, run) && Unwritten(After(t, run)) == []) <==> NoneCloses(s.items)
  {
    StepKeepsConsistent(s, ReadError);
    DrainsExactly(Step(s, ReadError));
  }

  /** Once the sending side is shut down at most one more response is written: the one whose
      write was in flight. */
  lemma {:induction false} AtMostOneMore(s: State, run: seq<Event>)
    requires Consistent(s) && s.shut && Possible(s, run)
    ensures WritesDone(run) <= if s.writing > 0 && !s.late then 1 else 0
    ensures var t := After(s, run);
            t.written == s.written + if WritesDone(run) == 0 then [] else [s.items[0]]
    decreases |run|
  {
    if run != [] {
      StepKeepsConsistent(s, run[0]);
      StepAccounts(s, run[0]);
      AtMostOneMore(Step(s, run[0]), run[1..]);
    }
  }

  /** Two pipelined requests, then the end of the stream: of the two responses only the first
      may be written. */
  lemma HalfCloseWitness(a: Response, b: Response, run: seq<Event>)
    requires Possible(STARTED, [Request(a)] + ([Request(b)] + ([EndOfStream] + run)))
    ensures var t := After(STARTED, [Request(a)] + ([Request(b)] + ([EndOfStream] + run)));
            t.produced == [a, b] && t.written <= [a]
  {
    var s0 := STARTED;
    var s1 := Step(s0, Request(a));
    var s2 := Step(s1, Request(b));
    var s3 := Step(s2, EndOfStream);
    RunStep(s0, Request(a), [Request(b)] + ([EndOfStream] + run));
    RunStep(s1, Request(b), [EndOfStream] + run);
    RunStep(s2, EndOfStream, run);
    assert s3.items == [a, b] && s3.written == [] && s3.shut;
    AtMostOneMore(s3, run);
    ReadShutdownIsFinal(s3, run);
    RunProduces(s3, run);
  }
}
