/** The stream buffer over a TCP socket: nothing accepted is lost and nothing read is skipped. */
module StreamBuf {

  // ----- the write side as a state machine -----

  /** Bytes the socket has taken, the put area, the characters accepted from the writer, last_write_error. */
  datatype Out = Out(sent: seq<char>, pending: seq<char>, accepted: seq<char>, error: int)

  /** What the socket takes of a block when send returns `n`. */
  function Taken(data: seq<char>, n: int): (t: seq<char>)
    ensures t <= data
  {
    if n <= 0 then [] else if n >= |data| then data else data[..n]
  }

  predicate FlushOk(o: Out, n: int) {
    o.pending == [] || n == |o.pending|
  }

  /** flush: after anything but a complete send the whole put area stays. */
  function Flush(o: Out, n: int): Out {
    if o.pending == [] then o
    else if n == |o.pending| then Out(o.sent + o.pending, [], o.accepted, 0)
    else Out(o.sent + Taken(o.pending, n), o.pending, o.accepted, n)
  }

  predicate PutOk(o: Out, capacity: nat, n: int) {
    |o.pending| < capacity || FlushOk(o, n)
  }

  /** One character: into the put area, or after a flush when the area is full. */
  function Put(o: Out, capacity: nat, c: char, n: int): Out {
    if |o.pending| < capacity then Out(o.sent, o.pending + [c], o.accepted + [c], o.error)
    else
      var f := Flush(o, n);
      if FlushOk(o, n) then Out(f.sent, f.pending + [c], f.accepted + [c], f.error) else f
  }

  /** Each event carries what send returns, should the event call it. */
  datatype Event = PutChar(c: char, n: int) | FlushAll(n: int)

  function Step(o: Out, capacity: nat, e: Event): Out {
    match e
    case PutChar(c, n) => Put(o, capacity, c, n)
    case FlushAll(n) => Flush(o, n)
  }

  function Run(o: Out, capacity: nat, events: seq<Event>): Out
    decreases |events|
  {
    if events == [] then o else Run(Step(o, capacity, events[0]), capacity, events[1..])
  }

  predicate Sends(o: Out, capacity: nat, e: Event) {
    o.pending != [] && (e.FlushAll? || |o.pending| >= capacity)
  }

  /** What send returns over a run, call by call. */
  function SendResults(o: Out, capacity: nat, events: seq<Event>): seq<int>
    decreases |events|
  {
    if events == [] then []
    else (if Sends(o, capacity, events[0]) then [events[0].n] else [])
         + SendResults(Step(o, capacity, events[0]), capacity, events[1..])
  }

  /** Bytes that an event sends and that the put area keeps all the same: a partial send. */
  function Repeats(o: Out, capacity: nat, e: Event): nat {
    if Sends(o, capacity, e) && e.n != |o.pending| then |Taken(o.pending, e.n)| else 0
  }

  function AllRepeats(o: Out, capacity: nat, events: seq<Event>): nat
    decreases |events|
  {
    if events == [] then 0
    else Repeats(o, capacity, events[0]) + AllRepeats(Step(o, capacity, events[0]), capacity, events[1..])
  }

  /** The characters whose put reported success, in order. */
  function Reported(o: Out, capacity: nat, events: seq<Event>): seq<char>
    decreases |events|
  {
    if events == [] then []
    else
      (if events[0].PutChar? && PutOk(o, capacity, events[0].n) then [events[0].c] else [])
      + Reported(Step(o, capacity, events[0]), capacity, events[1..])
  }

  predicate Balanced(o: Out) {
    o.sent + o.pending == o.accepted
  }

  lemma StepBalance(o: Out, capacity: nat, e: Event)
    requires capacity > 0 && |o.pending| <= capacity
    ensures var r := Step(o, capacity, e);
            && |r.pending| <= capacity
            && |r.sent| + |r.pending| - |r.accepted| == |o.sent| + |o.pending| - |o.accepted| + Repeats(o, capacity, e)
            && (Balanced(o) && Repeats(o, capacity, e) == 0 ==> Balanced(r))
            && r.accepted == o.accepted + (if e.PutChar? && PutOk(o, capacity, e.n) then [e.c] else [])
  {
    var r := Step(o, capacity, e);
    assert o.accepted + [] == o.accepted;
    if Repeats(o, capacity, e) == 0 {
      assert Taken(o.pending, e.n) == [] ==> o.sent + Taken(o.pending, e.n) == o.sent;
      if e.PutChar? {
        assert o.sent + (o.pending + [e.c]) == o.sent + o.pending + [e.c];
        assert o.sent + o.pending + ([] + [e.c]) == o.sent + o.pending + [e.c];
      }
      assert o.sent + o.pending + [] == o.sent + o.pending;
    }
  }

  lemma {:induction false} RunBalance(o: Out, capacity: nat, events: seq<Event>)
    requires capacity > 0 && |o.pending| <= capacity
    ensures var r := Run(o, capacity, events);
            && |r.pending| <= capacity
            && |r.sent| + |r.pending| - |r.accepted| == |o.sent| + |o.pending| - |o.accepted| + AllRepeats(o, capacity, events)
            && (Balanced(o) && AllRepeats(o, capacity, events) == 0 ==> Balanced(r))
            && r.accepted == o.accepted + Reported(o, capacity, events)
    decreases |events|
  {
    if events == [] {
      assert o.accepted + [] == o.accepted;
    } else {
      var e := events[0];
      var s := Step(o, capacity, e);
      StepBalance(o, capacity, e);
      RunBalance(s, capacity, events[1..]);
      var first := if e.PutChar? && PutOk(o, capacity, e.n) then [e.c] else [];
      assert o.accepted + first + Reported(s, capacity, events[1..]) == o.accepted + (first + Reported(s, capacity, events[1..]));
    }
  }

  lemma {:induction false} RunCons(o: Out, capacity: nat, events: seq<Event>, k: nat)
    requires k < |events| && events != []
    ensures Run(o, capacity, events[..k + 1]) == Run(Step(o, capacity, events[0]), capacity, events[1..][..k])
  {
    assert events[..k + 1][1..] == events[1..][..k];
  }

  /** What holds of every event holds of the first and, from there, of the others. */
  lemma AtHead(o: Out, capacity: nat, events: seq<Event>, good: (Out, Event) -> bool)
    requires events != []
    ensures (forall k :: 0 <= k < |events| ==> good(Run(o, capacity, events[..k]), events[k]))
       <==> good(o, events[0])
            && var s, more := Step(o, capacity, events[0]), events[1..];
               forall k :: 0 <= k < |more| ==> good(Run(s, capacity, more[..k]), more[k])
  {
    var s, more := Step(o, capacity, events[0]), events[1..];
    assert events[..0] == [];
    if forall k :: 0 <= k < |events| ==> good(Run(o, capacity, events[..k]), events[k]) {
      assert good(Run(o, capacity, events[..0]), events[0]);
      forall k | 0 <= k < |more| ensures good(Run(s, capacity, more[..k]), more[k]) {
        RunCons(o, capacity, events, k);
        assert good(Run(o, capacity, events[..k + 1]), events[k + 1]);
      }
    }
    if good(o, events[0]) && forall k :: 0 <= k < |more| ==> good(Run(s, capacity, more[..k]), more[k]) {
      forall k | 0 <= k < |events| ensures good(Run(o, capacity, events[..k]), events[k]) {
        if k > 0 {
          RunCons(o, capacity, events, k - 1);
          assert good(Run(s, capacity, more[..k - 1]), more[k - 1]);
        }
      }
    }
  }

  lemma {:induction false} NothingRepeated(o: Out, capacity: nat, events: seq<Event>)
    ensures AllRepeats(o, capacity, events) == 0 <==>
            forall k :: 0 <= k < |events| ==>
              var s := Run(o, capacity, events[..k]);
              s.pending != [] && (events[k].FlushAll? || |s.pending| >= capacity)
              ==> events[k].n <= 0 || events[k].n == |s.pending|
    decreases |events|
  {
    if events != [] {
      AtHead(o, capacity, events, (s: Out, e: Event) =>
        s.pending != [] && (e.FlushAll? || |s.pending| >= capacity) ==> e.n <= 0 || e.n == |s.pending|);
      NothingRepeated(Step(o, capacity, events[0]), capacity, events[1..]);
    }
  }

  /**
    Over any run of puts and flushes with any results of send, the bytes taken by the socket
    followed by the put area are the characters reported as accepted, in order, exactly when every
    send took nothing or the whole put area. Otherwise the surplus is what partial sends have taken.
   */
  lemma WriteConservation(o: Out, capacity: nat, events: seq<Event>)
    requires capacity > 0 && |o.pending| <= capacity && o.sent + o.pending == o.accepted
    ensures var r := Run(o, capacity, events);
            && r.accepted == o.accepted + Reported(o, capacity, events)
            && |r.sent + r.pending| == |r.accepted| + AllRepeats(o, capacity, events)
            && (r.sent + r.pending == r.accepted <==>
                  forall k :: 0 <= k < |events| ==>
                    var s := Run(o, capacity, events[..k]);
                    s.pending != [] && (events[k].FlushAll? || |s.pending| >= capacity)
                    ==> events[k].n <= 0 || events[k].n == |s.pending|)
  {
    RunBalance(o, capacity, events);
    NothingRepeated(o, capacity, events);
  }

  /** The characters that a run tries to put. */
  function Offered(events: seq<Event>): seq<char>
    decreases |events|
  {
    if events == [] then [] else (if events[0].PutChar? then [events[0].c] else []) + Offered(events[1..])
  }

  lemma {:induction false} FewerReported(o: Out, capacity: nat, events: seq<Event>)
    ensures |Reported(o, capacity, events)| <= |Offered(events)|
    decreases |events|
  {
    if events != [] { FewerReported(Step(o, capacity, events[0]), capacity, events[1..]); }
  }

  /** Every character is accepted exactly when every put into a full area could send the whole area. */
  lemma {:induction false} AllReported(o: Out, capacity: nat, events: seq<Event>)
    requires capacity > 0
    ensures Reported(o, capacity, events) == Offered(events) <==>
            forall k :: 0 <= k < |events| ==>
              var s := Run(o, capacity, events[..k]);
              events[k].PutChar? && |s.pending| >= capacity ==> events[k].n == |s.pending|
    decreases |events|
  {
    if events != [] {
      var e, s, more := events[0], Step(o, capacity, events[0]), events[1..];
      AtHead(o, capacity, events, (s: Out, e: Event) => e.PutChar? && |s.pending| >= capacity ==> e.n == |s.pending|);
      AllReported(s, capacity, more);
      FewerReported(s, capacity, more);
      var first := if e.PutChar? then [e.c] else [];
      assert (first + Offered(more))[|first|..] == Offered(more) && (first + Reported(s, capacity, more))[|first|..] == Reported(s, capacity, more);
    }
  }

  /**
    When every send is complete, no character is refused, lost, repeated or reordered: the bytes taken
    by the socket followed by the put area grow by exactly the characters offered.
   */
  lemma CompleteSends(o: Out, capacity: nat, events: seq<Event>)
    requires capacity > 0 && |o.pending| <= capacity && o.sent + o.pending == o.accepted
    requires forall k :: 0 <= k < |events| ==>
               var s := Run(o, capacity, events[..k]);
               s.pending != [] && (events[k].FlushAll? || |s.pending| >= capacity) ==> events[k].n == |s.pending|
    ensures var r := Run(o, capacity, events);
            r.accepted == o.accepted + Offered(events) && r.sent + r.pending == o.sent + o.pending + Offered(events)
  {
    WriteConservation(o, capacity, events);
    AllReported(o, capacity, events);
  }

  lemma {:induction false} RunAppend(o: Out, capacity: nat, events: seq<Event>, e: Event)
    ensures Run(o, capacity, events + [e]) == Step(Run(o, capacity, events), capacity, e)
    ensures SendResults(o, capacity, events + [e])
         == SendResults(o, capacity, events) + if Sends(Run(o, capacity, events), capacity, e) then [e.n] else []
    decreases |events|
  {
    if events == [] {
      assert [] + [e] == [e] && [e][1..] == [];
    } else {
      assert (events + [e])[1..] == events[1..] + [e];
      RunAppend(Step(o, capacity, events[0]), capacity, events[1..], e);
    }
  }

  // ----- the read side as a state machine -----

  /** Bytes received from the socket, characters consumed by the reader, the get area, last_read_error. */
  datatype In = In(received: seq<char>, consumed: seq<char>, area: seq<char>, error: int)

  /** underflow with the block that recv delivers, empty when recv returns the error `n`. */
  function Underflow(i: In, block: seq<char>, n: int): In {
    if i.area != [] then i
    else if block == [] then In(i.received, i.consumed, i.area, n)
    else In(i.received + block, i.consumed, block, 0)
  }

  /** Reading one character past the fill. */
  function Bump(i: In, block: seq<char>, n: int): In {
    var f := Underflow(i, block, n);
    if f.area == [] then f else In(f.received, f.consumed + [f.area[0]], f.area[1..], f.error)
  }

  datatype ReadEvent = Peek(block: seq<char>, n: int) | Get(block: seq<char>, n: int)

  function ReadStep(i: In, e: ReadEvent): In {
    match e
    case Peek(b, n) => Underflow(i, b, n)
    case Get(b, n) => Bump(i, b, n)
  }

  function ReadRun(i: In, events: seq<ReadEvent>): In
    decreases |events|
  {
    if events == [] then i else ReadRun(ReadStep(i, events[0]), events[1..])
  }

  /** What recv returns over a run, call by call. */
  function RecvResults(i: In, events: seq<ReadEvent>): seq<int>
    decreases |events|
  {
    if events == [] then []
    else (if i.area == [] then [events[0].n] else []) + RecvResults(ReadStep(i, events[0]), events[1..])
  }

  lemma {:induction false} ReadRunAppend(i: In, events: seq<ReadEvent>, e: ReadEvent)
    ensures ReadRun(i, events + [e]) == ReadStep(ReadRun(i, events), e)
    ensures RecvResults(i, events + [e]) == RecvResults(i, events) + if ReadRun(i, events).area == [] then [e.n] else []
    decreases |events|
  {
    if events == [] {
      assert [] + [e] == [e] && [e][1..] == [];
    } else {
      assert (events + [e])[1..] == events[1..] + [e];
      ReadRunAppend(ReadStep(i, events[0]), events[1..], e);
    }
  }

  /**
    Over any run of reads, with any blocks, timeouts and closes, the bytes received are the
    characters consumed followed by the unread get area.
   */
  lemma {:induction false} ReadConservation(i: In, events: seq<ReadEvent>)
    requires i.received == i.consumed + i.area
    ensures var r := ReadRun(i, events); r.received == r.consumed + r.area
    decreases |events|
  {
    if events != [] {
      var e := events[0];
      var f := Underflow(i, e.block, e.n);
      assert i.consumed + [] == i.consumed;
      assert f.received == f.consumed + f.area;
      if e.Get? && f.area != [] {
        assert f.area == [f.area[0]] + f.area[1..];
        assert f.consumed + ([f.area[0]] + f.area[1..]) == f.consumed + [f.area[0]] + f.area[1..];
      }
      ReadConservation(ReadStep(i, e), events[1..]);
    }
  }

  /** Characters consumed once stay consumed, so nothing is read twice. */
  lemma {:induction false} ConsumedGrows(i: In, events: seq<ReadEvent>)
    ensures i.consumed <= ReadRun(i, events).consumed
    ensures i.received <= ReadRun(i, events).received
    decreases |events|
  {
    if events != [] { ConsumedGrows(ReadStep(i, events[0]), events[1..]); }
  }

  // ----- the socket and the buffer as objects -----

  const TCP_CLOSED: int := -1

  /** The peer side of a socket: send and recv return what the system decides, and each return is recorded. */
  class Wire {
    ghost var sent: seq<char>
    ghost var received: seq<char>
    ghost var sends: seq<int>
    ghost var recvs: seq<int>

    constructor ()
      ensures sent == [] && received == [] && sends == [] && recvs == []
    {
      sent, received, sends, recvs := [], [], [], [];
    }

    method Send(data: seq<char>) returns (n: int)
      modifies this`sent, this`sends
      ensures n <= |data| && sent == old(sent) + data[..if n > 0 then n else 0] && sends == old(sends) + [n]
    {
      n := *;
      if n > |data| { n := |data|; }
      sent, sends := sent + Taken(data, n), sends + [n];
    }

    /** recv of the TCP socket: an orderly close is reported as an error, never as 0. */
    method Recv(buffer: array<char>) returns (n: int)
      modifies this`received, this`recvs, buffer
      ensures n <= buffer.Length && n != 0 && recvs == old(recvs) + [n]
      ensures received == old(received) + if n > 0 then buffer[..n] else []
      ensures n <= 0 ==> buffer[..] == old(buffer[..])
    {
      n := *;
      if n > buffer.Length { n := buffer.Length; }
      if n == 0 {
        n := TCP_CLOSED;
      }
      if n > 0 {
        for i := 0 to n
          modifies buffer
        {
          buffer[i] := *;
        }
        received := received + buffer[..n];
      }
      recvs := recvs + [n];
    }
  }

  class Buffer {
    const wire: Wire
    const inputBuffer: array<char>
    const outputBuffer: array<char>
    var pptr: nat
    var gptr: nat
    var egptr: nat
    var lastReadError: int
    var lastWriteError: int
    ghost var accepted: seq<char>
    ghost var consumed: seq<char>

    ghost predicate Valid()
      reads this
    {
      && outputBuffer.Length > 0 && inputBuffer != outputBuffer
      && pptr <= outputBuffer.Length && gptr <= egptr <= inputBuffer.Length
    }

    ghost function NowOut(): Out
      requires Valid()
      reads this, wire, outputBuffer
    {
      Out(wire.sent, outputBuffer[..pptr], accepted, lastWriteError)
    }

    ghost function NowIn(): In
      requires Valid()
      reads this, wire, inputBuffer
    {
      In(wire.received, consumed, inputBuffer[gptr..egptr], lastReadError)
    }

    /** Both areas start empty; what the socket carried before counts as accepted and consumed. */
    constructor (socket: Wire, size: nat)
      requires 0 < size < 0x8000_0000
      ensures Valid() && wire == socket && fresh(inputBuffer) && fresh(outputBuffer)
      ensures outputBuffer.Length == size == inputBuffer.Length
      ensures pptr == 0 == gptr == egptr && lastReadError == 0 == lastWriteError
      ensures accepted == socket.sent && consumed == socket.received
      ensures NowOut() == Out(socket.sent, [], socket.sent, 0)
      ensures NowIn() == In(socket.received, socket.received, [], 0)
    {
      wire := socket;
      inputBuffer := new char[size](_ => '\0');
      outputBuffer := new char[size](_ => '\0');
      pptr, gptr, egptr, lastReadError, lastWriteError := 0, 0, 0, 0, 0;
      accepted, consumed := socket.sent, socket.received;
    }

    method FlushOut() returns (ok: bool, ghost n: int)
      requires Valid()
      modifies this`pptr, this`lastWriteError, wire`sent, wire`sends
      ensures Valid() && NowOut() == Flush(old(NowOut()), n) && ok == FlushOk(old(NowOut()), n)
      ensures wire.sends == old(wire.sends) + if old(pptr) == 0 then [] else [n]
      ensures ok <==> old(pptr) == 0 || n == old(pptr)
      ensures pptr == if ok then 0 else old(pptr)
      ensures lastWriteError == if old(pptr) == 0 then old(lastWriteError) else if ok then 0 else n
      ensures n <= old(pptr) && wire.sent == old(wire.sent) + outputBuffer[..if old(pptr) > 0 && n > 0 then n else 0]
    {
      n := 0;
      var size := pptr;
      if size > 0 {
        var m := wire.Send(outputBuffer[..pptr]);
        n := m;
        if m != size {
          lastWriteError := m;
          return false, n;
        }
        lastWriteError := 0;
      }
      pptr := 0;
      return true, n;
    }

    /** overflow with a character. */
    method Overflow(c: char) returns (ok: bool, ghost n: int)
      requires Valid()
      modifies this`pptr, this`lastWriteError, this`accepted, wire`sent, wire`sends, outputBuffer
      ensures Valid() && NowOut() == Put(old(NowOut()), outputBuffer.Length, c, n)
      ensures ok == PutOk(old(NowOut()), outputBuffer.Length, n)
      ensures wire.sends == old(wire.sends) + if old(pptr) < outputBuffer.Length then [] else [n]
      ensures ok <==> old(pptr) < outputBuffer.Length || n == outputBuffer.Length
      ensures pptr == if !ok then old(pptr) else if old(pptr) < outputBuffer.Length then old(pptr) + 1 else 1
      ensures outputBuffer[..pptr] == if ok then old(outputBuffer[..if pptr < outputBuffer.Length then pptr else 0]) + [c]
                                      else old(outputBuffer[..pptr])
      ensures accepted == old(accepted) + if ok then [c] else []
      ensures lastWriteError == if old(pptr) < outputBuffer.Length then old(lastWriteError) else if ok then 0 else n
      ensures n <= outputBuffer.Length
      ensures wire.sent == old(wire.sent)
                           + old(outputBuffer[..])[..if old(pptr) == outputBuffer.Length && n > 0 then n else 0]
    {
      n := 0;
      if pptr == outputBuffer.Length {
        ok, n := FlushOut();
        if !ok {
          return;
        }
      }
      ghost var before := outputBuffer[..pptr];
      outputBuffer[pptr] := c;
      pptr := pptr + 1;
      accepted := accepted + [c];
      assert outputBuffer[..pptr] == before + [c];
      ok := true;
    }

    /** overflow with end-of-file, and sync. */
    method Sync() returns (ok: bool, ghost n: int)
      requires Valid()
      modifies this`pptr, this`lastWriteError, wire`sent, wire`sends
      ensures Valid() && NowOut() == Flush(old(NowOut()), n) && ok == FlushOk(old(NowOut()), n)
      ensures wire.sends == old(wire.sends) + if old(pptr) == 0 then [] else [n]
      ensures ok <==> old(pptr) == 0 || n == old(pptr)
      ensures pptr == if ok then 0 else old(pptr)
      ensures lastWriteError == if old(pptr) == 0 then old(lastWriteError) else if ok then 0 else n
      ensures n <= old(pptr) && wire.sent == old(wire.sent) + outputBuffer[..if old(pptr) > 0 && n > 0 then n else 0]
    {
      ok, n := FlushOut();
    }

    /** The fast path of the standard stream in front of overflow. */
    method PutChar(c: char) returns (ok: bool, ghost n: int)
      requires Valid()
      modifies this`pptr, this`lastWriteError, this`accepted, wire`sent, wire`sends, outputBuffer
      ensures Valid() && NowOut() == Put(old(NowOut()), outputBuffer.Length, c, n)
      ensures ok == PutOk(old(NowOut()), outputBuffer.Length, n)
      ensures wire.sends == old(wire.sends) + if old(pptr) < outputBuffer.Length then [] else [n]
      ensures ok <==> old(pptr) < outputBuffer.Length || n == outputBuffer.Length
      ensures pptr == if !ok then old(pptr) else if old(pptr) < outputBuffer.Length then old(pptr) + 1 else 1
      ensures outputBuffer[..pptr] == if ok then old(outputBuffer[..if pptr < outputBuffer.Length then pptr else 0]) + [c]
                                      else old(outputBuffer[..pptr])
      ensures accepted == old(accepted) + if ok then [c] else []
      ensures lastWriteError == if old(pptr) < outputBuffer.Length then old(lastWriteError) else if ok then 0 else n
      ensures n <= outputBuffer.Length
      ensures wire.sent == old(wire.sent)
                           + old(outputBuffer[..])[..if old(pptr) == outputBuffer.Length && n > 0 then n else 0]
    {
      n := 0;
      if pptr < outputBuffer.Length {
        ghost var before := outputBuffer[..pptr];
        outputBuffer[pptr] := c;
        pptr := pptr + 1;
        accepted := accepted + [c];
        assert outputBuffer[..pptr] == before + [c];
        ok := true;
      } else {
        ok, n := Overflow(c);
      }
    }

    /** underflow: refills the get area only when it is empty. */
    method UnderflowIn() returns (more: bool, c: char, ghost block: seq<char>, ghost n: int)
      requires Valid()
      modifies this`gptr, this`egptr, this`lastReadError, wire`received, wire`recvs, inputBuffer
      ensures Valid() && NowIn() == Underflow(old(NowIn()), block, n) && more == (NowIn().area != [])
      ensures wire.recvs == old(wire.recvs) + if old(gptr) < old(egptr) then [] else [n]
      ensures n <= inputBuffer.Length && (more <==> old(gptr) < old(egptr) || n > 0)
      ensures more ==> gptr < egptr && c == inputBuffer[gptr]
      ensures old(gptr) < old(egptr) || n <= 0 ==>
                gptr == old(gptr) && egptr == old(egptr) && inputBuffer[..] == old(inputBuffer[..]) && wire.received == old(wire.received)
      ensures old(gptr) == old(egptr) && n > 0 ==>
                gptr == 0 && egptr == n && wire.received == old(wire.received) + inputBuffer[..n]
      ensures lastReadError == if old(gptr) < old(egptr) then old(lastReadError) else if n > 0 then 0 else n
    {
      block, n := [], 0;
      if gptr < egptr {
        return true, inputBuffer[gptr], block, n;
      }
      var m := wire.Recv(inputBuffer);
      n := m;
      if m <= 0 {
        lastReadError := m;
        return false, '\0', block, n;
      }
      lastReadError := 0;
      gptr, egptr := 0, m;
      block := inputBuffer[..m];
      return true, inputBuffer[gptr], block, n;
    }

    /** sbumpc: one character, consumed. */
    method GetChar() returns (more: bool, c: char, ghost block: seq<char>, ghost n: int)
      requires Valid()
      modifies this`gptr, this`egptr, this`lastReadError, this`consumed, wire`received, wire`recvs, inputBuffer
      ensures Valid() && NowIn() == Bump(old(NowIn()), block, n)
      ensures wire.recvs == old(wire.recvs) + if old(gptr) < old(egptr) then [] else [n]
      ensures n <= inputBuffer.Length && (more <==> old(gptr) < old(egptr) || n > 0)
      ensures more ==> c == if old(gptr) < old(egptr) then old(inputBuffer[gptr]) else inputBuffer[0]
      ensures consumed == old(consumed) + if more then [c] else []
      ensures gptr == if !more then old(gptr) else if old(gptr) < old(egptr) then old(gptr) + 1 else 1
      ensures egptr == if old(gptr) == old(egptr) && n > 0 then n else old(egptr)
      ensures wire.received == old(wire.received) + if old(gptr) == old(egptr) && n > 0 then inputBuffer[..n] else []
    {
      more, c, block, n := UnderflowIn();
      if more {
        consumed := consumed + [c];
        gptr := gptr + 1;
      }
    }

    /** One use of the buffer for writing, as an event. */
    method WriteStep() returns (ghost e: Event)
      requires Valid()
      modifies this`pptr, this`lastWriteError, this`accepted, wire`sent, wire`sends, outputBuffer
      ensures Valid() && NowOut() == Step(old(NowOut()), outputBuffer.Length, e) && NowIn() == old(NowIn())
      ensures wire.sends == old(wire.sends) + if Sends(old(NowOut()), outputBuffer.Length, e) then [e.n] else []
    {
      var ok;
      ghost var n;
      if {
        case true =>
          var c: char := *;
          ok, n := PutChar(c);
          e := Event.PutChar(c, n);
        case true =>
          var c: char := *;
          ok, n := Overflow(c);
          e := Event.PutChar(c, n);
        case true =>
          ok, n := FlushOut();
          e := FlushAll(n);
        case true =>
          ok, n := Sync();
          e := FlushAll(n);
      }
    }

    /** One use of the buffer for reading, as an event. */
    method ReadOne() returns (ghost e: ReadEvent)
      requires Valid()
      modifies this`gptr, this`egptr, this`lastReadError, this`consumed, wire`received, wire`recvs, inputBuffer
      ensures Valid() && NowIn() == ReadStep(old(NowIn()), e) && NowOut() == old(NowOut())
      ensures wire.recvs == old(wire.recvs) + if old(NowIn()).area == [] then [e.n] else []
    {
      var more, c;
      ghost var block, n;
      if * {
        more, c, block, n := UnderflowIn();
        e := Peek(block, n);
      } else {
        more, c, block, n := GetChar();
        e := Get(block, n);
      }
    }

    /**
      Any interleaving of puts, overflows, flushes, syncs, underflows and reads on one buffer is a run
      of the two machines, with the results that the socket has returned. So what is accepted is sent
      or pending, in order, exactly when no send was partial, and what is received is consumed or
      still to be read.
     */
    method AnyUse(steps: nat) returns (ghost outs: seq<Event>, ghost ins: seq<ReadEvent>)
      requires Valid() && wire.sent + outputBuffer[..pptr] == accepted
      requires wire.received == consumed + inputBuffer[gptr..egptr]
      modifies this, wire, inputBuffer, outputBuffer
      ensures Valid()
      ensures NowOut() == Run(old(NowOut()), outputBuffer.Length, outs)
      ensures wire.sends == old(wire.sends) + SendResults(old(NowOut()), outputBuffer.Length, outs)
      ensures NowIn() == ReadRun(old(NowIn()), ins)
      ensures wire.recvs == old(wire.recvs) + RecvResults(old(NowIn()), ins)
      ensures wire.sent + outputBuffer[..pptr] == accepted <==>
              forall k :: 0 <= k < |outs| ==>
                var s := Run(old(NowOut()), outputBuffer.Length, outs[..k]);
                s.pending != [] && (outs[k].FlushAll? || |s.pending| >= outputBuffer.Length)
                ==> outs[k].n <= 0 || outs[k].n == |s.pending|
      ensures wire.received == consumed + inputBuffer[gptr..egptr] && old(consumed) <= consumed
    {
      ghost var o, i := NowOut(), NowIn();
      outs, ins := [], [];
      assert wire.sends == old(wire.sends) + [] && wire.recvs == old(wire.recvs) + [];
      for step := 0 to steps
        invariant Valid()
        invariant NowOut() == Run(o, outputBuffer.Length, outs) && NowIn() == ReadRun(i, ins)
        invariant wire.sends == old(wire.sends) + SendResults(o, outputBuffer.Length, outs)
        invariant wire.recvs == old(wire.recvs) + RecvResults(i, ins)
      {
        if * {
          ghost var e := WriteStep();
          RunAppend(o, outputBuffer.Length, outs, e);
          outs := outs + [e];
        } else {
          ghost var e := ReadOne();
          ReadRunAppend(i, ins, e);
          ins := ins + [e];
        }
      }
      WriteConservation(o, outputBuffer.Length, outs);
      ReadConservation(i, ins);
      ConsumedGrows(i, ins);
    }
  }
}
