/** The socket lifecycle: who owns which descriptor, over open, close, accept, move and destruction. */
module Sockets {

  const INVALID: int := -1

  const NO_ERROR: int := 0
  const ERROR_ALREADY_OPENED: int := -2
  const ERROR_OPEN_FAILED: int := -3
  const ERROR_CLOSED_OR_NOT_OPEN: int := -4
  const ERROR_TIMEOUT: int := -5
  const ERROR_UNREACHABLE: int := -6
  const ERROR_NOT_ALLOWED: int := -7
  const ERROR_INVALID_ADDRESS: int := -8
  const ERROR_OTHER: int := -9

  const EBADF: int := 9
  const EWOULDBLOCK: int := 11
  const EADDRNOTAVAIL: int := 99
  const ECONNREFUSED: int := 111
  const EINPROGRESS: int := 115

  /** The longest single poll of a connection attempt, in milliseconds. */
  const CHUNK: nat := 500

  datatype State = Created | Prepared | Opened

  /** The error code that stands for an error of the system, on Linux. */
  function Translate(err: int): (code: int)
    ensures err == 11 ==> code == -5
    ensures err == 99 ==> code == -8
    ensures err == 111 ==> code == -6
    ensures err == 9 ==> code == -4
    ensures err > 0 && err !in {9, 11, 99, 111} ==> code == -9
  {
    if err == EWOULDBLOCK then ERROR_TIMEOUT
    else if err == EADDRNOTAVAIL then ERROR_INVALID_ADDRESS
    else if err == ECONNREFUSED then ERROR_UNREACHABLE
    else if err == EBADF then ERROR_CLOSED_OR_NOT_OPEN
    else if err > 0 then ERROR_OTHER
    else err
  }

  lemma {:induction false} UnusedExists(s: set<int>)
    ensures exists n :: n >= 0 && n !in s && forall m :: m in s ==> m < n
  {
    if !exists x :: x in s {
      assert 0 !in s;
    } else {
      var x :| x in s;
      UnusedExists(s - {x});
      var n :| n >= 0 && n !in s - {x} && forall m :: m in s - {x} ==> m < n;
      var k := if x < n then n else x + 1;
      assert forall m :: m in s ==> m == x || m in s - {x};
      assert k >= 0 && k !in s;
    }
  }

  // ----- the system -----

  /**
    What a program asked of the system: a descriptor and the one it got, a close, a request and its
    error (0 when granted), a poll of so many milliseconds and its answer.
   */
  datatype Call = Descriptor(fd: int) | Closed(fd: int) | Asked(err: nat) | Polled(ms: nat, rv: int, readable: bool)

  /** The descriptors open after the calls of `log`. */
  ghost function Held(log: seq<Call>): (h: set<int>)
    decreases |log|
  {
    if log == [] then {}
    else
      var h := Held(log[..|log| - 1]);
      match log[|log| - 1]
      case Descriptor(fd) => if fd == INVALID then h else h + {fd}
      case Closed(fd) => h - {fd}
      case _ => h
  }

  /** New descriptors were not open, and only open ones were closed. */
  ghost predicate Proper(log: seq<Call>)
    decreases |log|
  {
    log == [] ||
    var h := Held(log[..|log| - 1]);
    && Proper(log[..|log| - 1])
    && match log[|log| - 1]
       case Descriptor(fd) => fd == INVALID || (fd >= 0 && fd !in h)
       case Closed(fd) => fd in h
       case _ => true
  }

  lemma {:induction false} ProperPrefix(log: seq<Call>, k: nat)
    requires Proper(log) && k <= |log|
    ensures Proper(log[..k])
    decreases |log|
  {
    if k == |log| {
      assert log[..k] == log;
    } else {
      ProperPrefix(log[..|log| - 1], k);
      assert log[..|log| - 1][..k] == log[..k];
    }
  }

  /** A descriptor that is not open at `i` and is open at `j` was handed out in between. */
  lemma {:induction false} HandedOut(log: seq<Call>, i: nat, j: nat, fd: int)
    requires i <= j <= |log| && fd !in Held(log[..i]) && fd in Held(log[..j])
    ensures exists k :: i <= k < j && log[k] == Descriptor(fd)
    decreases j
  {
    assert i < j;
    assert log[..j][..j - 1] == log[..j - 1];
    if log[j - 1] != Descriptor(fd) {
      HandedOut(log, i, j - 1, fd);
    }
  }

  /** No descriptor is closed twice: between two closes of the same number the system handed it out again. */
  lemma ClosedOnce(log: seq<Call>, i: nat, j: nat)
    requires Proper(log) && i < j < |log| && log[i].Closed? && log[j] == log[i]
    ensures exists k :: i < k < j && log[k] == Descriptor(log[i].fd)
  {
    ProperPrefix(log, j + 1);
    assert log[..j + 1][..j] == log[..j];
    assert log[..i + 1][..i] == log[..i];
    HandedOut(log, i + 1, j, log[i].fd);
  }

  /** The system hands out descriptors that are not open and answers as it likes. */
  class Os {
    ghost var log: seq<Call>
    var open: set<int>

    /** The open descriptors are those of a proper log. */
    ghost predicate Consistent()
      reads this
    {
      open == Held(log) && Proper(log) && forall fd :: fd in open ==> fd >= 0
    }

    constructor ()
      ensures Consistent() && open == {} && log == []
    {
      open, log := {}, [];
    }

    /** socket() and accept(): a descriptor that was not open, or a failure. */
    method NewDescriptor() returns (fd: int)
      requires Consistent()
      modifies this
      ensures Consistent() && log == old(log) + [Descriptor(fd)]
      ensures fd == INVALID ==> open == old(open)
      ensures fd != INVALID ==> fd >= 0 && fd !in old(open) && open == old(open) + {fd}
    {
      if * {
        fd := INVALID;
      } else {
        UnusedExists(open);
        fd :| fd >= 0 && fd !in open;
        open := open + {fd};
      }
      log := log + [Descriptor(fd)];
      assert log[..|log| - 1] == old(log);
    }

    /** closesocket(): closing a descriptor that is not open is the error to be excluded. */
    method CloseSocket(fd: int)
      requires Consistent() && fd in open
      modifies this
      ensures Consistent() && log == old(log) + [Closed(fd)]
      ensures open == old(open) - {fd}
    {
      open := open - {fd};
      log := log + [Closed(fd)];
      assert log[..|log| - 1] == old(log);
    }

    /** setsockopt(), bind(), connect(), getsockopt() and listen(). */
    method Request() returns (err: nat)
      requires Consistent()
      modifies this`log
      ensures Consistent() && log == old(log) + [Asked(err)]
    {
      err := *;
      log := log + [Asked(err)];
      assert log[..|log| - 1] == old(log);
    }

    method Poll(ms: nat) returns (rv: int, readable: bool)
      requires Consistent()
      modifies this`log
      ensures Consistent() && log == old(log) + [Polled(ms, rv, readable)]
      ensures rv <= 0 ==> !readable
    {
      rv, readable := *, *;
      if rv <= 0 {
        readable := false;
      }
      log := log + [Polled(ms, rv, readable)];
      assert log[..|log| - 1] == old(log);
    }
  }

  // ----- the vector of accepted descriptors -----

  predicate NoRepeats(s: seq<int>) {
    forall i, j :: 0 <= i < j < |s| ==> s[i] != s[j]
  }

  /** `r` lists what `s` lists, except `x`. */
  ghost predicate Without(r: seq<int>, s: seq<int>, x: int) {
    NoRepeats(r) && forall y :: y in r <==> y in s && y != x
  }

  lemma EraseAt(s: seq<int>, k: nat)
    requires (forall i, j :: 0 <= i < j < |s| ==> s[i] != s[j]) && k < |s|
    ensures var r := s[..k] + s[k + 1..];
            (forall i, j :: 0 <= i < j < |r| ==> r[i] != r[j]) && forall y :: y in r <==> y in s && y != s[k]
  {
    var r := s[..k] + s[k + 1..];
    forall y ensures y in r <==> y in s && y != s[k] {
      if y in s && y != s[k] {
        var i :| 0 <= i < |s| && s[i] == y;
        assert if i < k then r[i] == y else r[i - 1] == y;
      }
    }
  }

  /** Closing the descriptors of a list in its order. */
  ghost function Closes(list: seq<int>): (calls: seq<Call>)
    ensures |calls| == |list| && forall i :: 0 <= i < |list| ==> calls[i] == Closed(list[i])
  {
    if list == [] then [] else Closes(list[..|list| - 1]) + [Closed(list[|list| - 1])]
  }

  // ----- connecting -----

  function Slice(left: nat): nat {
    if left > CHUNK then CHUNK else left
  }

  /** What is left of `timeout` after so many polls without an answer. */
  function Left(timeout: nat, polls: nat): nat {
    if polls * CHUNK >= timeout then 0 else timeout - polls * CHUNK
  }

  /** Polls of a connection attempt that nothing answered. */
  ghost function Quiet(timeout: nat, polls: nat): seq<Call> {
    if polls == 0 then [] else Quiet(timeout, polls - 1) + [Polled(Slice(Left(timeout, polls - 1)), 0, false)]
  }

  function TimePolled(calls: seq<Call>): nat {
    if calls == [] then 0
    else (if calls[|calls| - 1].Polled? then calls[|calls| - 1].ms else 0) + TimePolled(calls[..|calls| - 1])
  }

  /** Unanswered polls use up the time limit exactly, in slices of at most half a second. */
  lemma {:induction false} QuietTime(timeout: nat, polls: nat)
    ensures TimePolled(Quiet(timeout, polls)) + Left(timeout, polls) == timeout
    ensures forall i :: 0 <= i < |Quiet(timeout, polls)| ==> Quiet(timeout, polls)[i].Polled? && Quiet(timeout, polls)[i].ms <= CHUNK
  {
    if polls > 0 {
      QuietTime(timeout, polls - 1);
      assert Quiet(timeout, polls)[..|Quiet(timeout, polls)| - 1] == Quiet(timeout, polls - 1);
    }
  }

  /** A connection attempt: the immediate answer, and the polls while it is in progress. */
  datatype Attempt = Attempt(first: nat, polls: nat, answered: Call, last: nat)

  /** The attempt polls until something answers or the time is used up. */
  ghost predicate Attempted(a: Attempt, timeout: nat) {
    a.first == EINPROGRESS ==>
      if a.answered.Polled? then
        a.answered.rv != 0 && a.answered.ms == Slice(Left(timeout, a.polls)) > 0
      else
        a.answered == Asked(0) && Left(timeout, a.polls) == 0 && (a.polls > 0 ==> Left(timeout, a.polls - 1) > 0)
  }

  /** The error of an attempt: only a poll with an event asks for another answer than "in progress". */
  ghost function AttemptError(a: Attempt): nat {
    if a.first == EINPROGRESS && a.answered.Polled? && a.answered.rv > 0 then a.last else a.first
  }

  ghost function AnswerCalls(a: Attempt): seq<Call> {
    if !a.answered.Polled? then [] else [a.answered] + if a.answered.rv > 0 then [Asked(a.last)] else []
  }

  ghost function AttemptCalls(a: Attempt, timeout: nat): seq<Call> {
    [Asked(a.first)] + if a.first != EINPROGRESS then [] else Quiet(timeout, a.polls) + AnswerCalls(a)
  }

  lemma {:induction false} QuietAt(timeout: nat, polls: nat, i: nat)
    requires i < polls
    ensures |Quiet(timeout, polls)| == polls
    ensures Quiet(timeout, polls)[i] == Polled(Slice(Left(timeout, i)), 0, false)
  {
    QuietLength(timeout, polls);
    if i < polls - 1 {
      QuietAt(timeout, polls - 1, i);
      QuietLength(timeout, polls - 1);
    } else {
      QuietLength(timeout, polls - 1);
    }
  }

  lemma {:induction false} QuietLength(timeout: nat, polls: nat)
    ensures |Quiet(timeout, polls)| == polls
  {
    if polls > 0 { QuietLength(timeout, polls - 1); }
  }

  /**
    The calls of an attempt and its error, on the record: the error is the last answer of the system.
    Error 115 says that the connection is in progress. The attempt succeeds exactly when the first
    answer grants it, or it is in progress, a poll reports an event and the request that follows is
    granted. Polls take 500 ms, or what is left, and go on until one is answered or no time is left.
   */
  lemma AttemptExactly(a: Attempt, timeout: nat, c: seq<Call>)
    requires Attempted(a, timeout) && c == AttemptCalls(a, timeout)
    ensures c != [] && c[0].Asked? && (c[0].err != 115 ==> |c| == 1)
    ensures AttemptError(a) == if c[|c| - 1].Asked? then c[|c| - 1].err else 115
    ensures AttemptError(a) == 0 <==>
            || c[0].err == 0
            || (c[0].err == 115 && |c| >= 3 && c[|c| - 2].Polled? && c[|c| - 2].rv > 0 && c[|c| - 1] == Asked(0))
    ensures c[0].err == 115 ==>
              && (forall i :: 1 <= i < |c| && c[i].Polled? ==>
                    && 500 * (i - 1) < timeout
                    && c[i].ms == (if timeout - 500 * (i - 1) > 500 then 500 else timeout - 500 * (i - 1))
                    && (i < |c| - 2 ==> c[i].rv == 0)
                    && (i == |c| - 2 ==> if c[i + 1].Polled? then c[i].rv == 0 else c[i].rv > 0)
                    && (i == |c| - 1 ==> c[i].rv < 0 || (c[i].rv == 0 && 500 * i >= timeout)))
              && (forall i :: 1 <= i < |c| && !c[i].Polled? ==> i == |c| - 1 >= 2 && c[i].Asked? && c[i - 1].Polled?)
              && (|c| == 1 ==> timeout == 0)
  {
    if a.first == EINPROGRESS {
      var quiet, rest := Quiet(timeout, a.polls), AnswerCalls(a);
      QuietLength(timeout, a.polls);
      assert c == [Asked(a.first)] + (quiet + rest);
      forall i | 1 <= i < |c|
        ensures i <= a.polls ==> c[i] == Polled(Slice(Left(timeout, i - 1)), 0, false)
        ensures i > a.polls ==> c[i] == rest[i - 1 - a.polls]
      {
        if i <= a.polls { QuietAt(timeout, a.polls, i - 1); }
      }
    }
  }

  /** The system finally accepts exactly the attempts that end without an error; silence is an error. */
  lemma SilenceFails(a: Attempt, timeout: nat)
    requires Attempted(a, timeout) && a.first == EINPROGRESS && !a.answered.Polled?
    ensures AttemptError(a) == EINPROGRESS && TimePolled(AttemptCalls(a, timeout)) == timeout
  {
    QuietTime(timeout, a.polls);
    AfterAsked(a.first, Quiet(timeout, a.polls));
    assert AttemptCalls(a, timeout) == [Asked(a.first)] + Quiet(timeout, a.polls);
  }

  lemma {:induction false} AfterAsked(err: nat, calls: seq<Call>)
    ensures TimePolled([Asked(err)] + calls) == TimePolled(calls)
    decreases |calls|
  {
    if calls == [] {
      assert [Asked(err)][..0] == [] && [Asked(err)] + calls == [Asked(err)];
    } else {
      var init := calls[..|calls| - 1];
      assert ([Asked(err)] + calls)[..|calls|] == [Asked(err)] + init;
      AfterAsked(err, init);
    }
  }

  // ----- opening -----

  datatype Outcome = Outcome(result: int, state: State, sock: int, calls: seq<Call>)

  /** The descriptor and `n` granted options. */
  ghost function Granted(fd: int, n: nat): seq<Call> {
    if n == 0 then [Descriptor(fd)] else Granted(fd, n - 1) + [Asked(0)]
  }

  /** A server sets two options, a client one. */
  function Options(server: bool): nat {
    if server then 2 else 1
  }

  /** What the system answers: the descriptor, how many options it grants, the calls and the error that follow. */
  datatype Answers = Answers(fd: int, granted: nat, reach: seq<Call>, err: nat)

  /** After the options a server binds and a client connects. */
  ghost predicate Answered(server: bool, timeout: nat, a: Answers, attempt: Attempt) {
    && a.granted <= Options(server)
    && (a.granted < Options(server) ==> a.err > 0)
    && (a.granted == Options(server) ==>
          if server then a.reach == [Asked(a.err)]
          else Attempted(attempt, timeout) && a.reach == AttemptCalls(attempt, timeout) && a.err == AttemptError(attempt))
  }

  /**
    The base class open. A refused option leaves the socket prepared and returns the translated
    error; a refused bind or connection gives the descriptor back and returns one fixed code.
   */
  ghost function Opening(server: bool, a: Answers): Outcome {
    if a.fd == INVALID then Outcome(ERROR_OPEN_FAILED, Created, INVALID, Granted(a.fd, 0))
    else if a.granted < Options(server) then
      Outcome(Translate(a.err), Prepared, a.fd, Granted(a.fd, a.granted) + [Asked(a.err)])
    else if a.err != 0 then
      Outcome(ERROR_OPEN_FAILED, Created, INVALID, Granted(a.fd, a.granted) + a.reach + [Closed(a.fd)])
    else Outcome(NO_ERROR, Opened, a.fd, Granted(a.fd, a.granted) + a.reach)
  }

  /** The TCP open: a server that is bound also has to listen. */
  ghost function Listening(server: bool, o: Outcome, err: nat): Outcome {
    if !server || o.result != NO_ERROR then o
    else if err == 0 then o.(calls := o.calls + [Asked(0)])
    else Outcome(ERROR_OPEN_FAILED, Created, INVALID, o.calls + [Asked(err), Closed(o.sock)])
  }

  /**
    A connection that times out is reported as a failed open, and a refused option by the translated
    error of the system: neither is the code that the documentation of open names.
   */
  lemma OpenCodes(server: bool, timeout: nat, a: Answers, attempt: Attempt, err: nat)
    requires Answered(server, timeout, a, attempt) && a.fd != INVALID
    ensures var r := Listening(server, Opening(server, a), err).result;
            && (a.granted == Options(server) ==> r == NO_ERROR || r == ERROR_OPEN_FAILED)
            && (a.granted < Options(server) ==> r == Translate(a.err) && r != ERROR_NOT_ALLOWED && r != NO_ERROR)
  {}

  lemma {:induction false} GrantedIs(fd: int, n: nat)
    requires n <= 2
    ensures Granted(fd, n) == [Descriptor(fd)] + if n == 0 then [] else if n == 1 then [Asked(0)] else [Asked(0), Asked(0)]
  {
    if n > 0 { GrantedIs(fd, n - 1); }
  }

  /** The system granted all that was asked, or a poll with an event and a granted request followed "in progress". */
  ghost predicate AllGranted(server: bool, c: seq<Call>) {
    forall k :: 0 <= k < |c| && c[k].Asked? && c[k].err != 0 ==>
      !server && k == 2 && c[2].err == 115 && |c| >= 5 && c[|c| - 2].Polled? && c[|c| - 2].rv > 0 && c[|c| - 1].Asked?
  }

  lemma OptionRefused(server: bool, fd: int, n: nat, err: nat, c: seq<Call>)
    requires n < Options(server) && err > 0 && c == Granted(fd, n) + [Asked(err)]
    ensures |c| == n + 2 && c[0] == Descriptor(fd) && c[|c| - 1] == Asked(err) && !AllGranted(server, c)
    ensures forall k :: 1 <= k < |c| - 1 ==> c[k] == Asked(0)
  {
    GrantedIs(fd, n);
    assert c[|c| - 1].Asked? && c[|c| - 1].err != 0;
  }

  lemma AllGrantedServer(fd: int, c: seq<Call>, bound: nat, listened: nat)
    requires c == Granted(fd, 2) + [Asked(bound)] + (if bound != 0 then [Closed(fd)] else [Asked(listened)] + if listened != 0 then [Closed(fd)] else [])
    ensures AllGranted(true, c) <==> bound == 0 == listened
    ensures bound == 0 == listened ==> c == [Descriptor(fd), Asked(0), Asked(0), Asked(0), Asked(0)]
    ensures |c| >= 4 && c[0] == Descriptor(fd) && (bound != 0 || listened != 0 ==> c[|c| - 1] == Closed(fd))
  {
    GrantedIs(fd, 2);
    assert c[3] == Asked(bound);
    if bound == 0 { assert c[4] == Asked(listened); }
  }

  /** The calls `r` of an attempt that ends without an error, and those of one that fails. */
  lemma AllGrantedClient(fd: int, r: seq<Call>, c: seq<Call>, err: nat)
    requires c == Granted(fd, 1) + r + if err == 0 then [] else [Closed(fd)]
    requires r != [] && r[0].Asked? && (r[0].err != 115 ==> |r| == 1) && err == if r[|r| - 1].Asked? then r[|r| - 1].err else 115
    requires forall i :: 1 <= i < |r| && !r[i].Polled? ==> i == |r| - 1 >= 2 && r[i].Asked? && r[i - 1].Polled?
    requires forall i :: 1 <= i < |r| && r[i].Polled? && i == |r| - 2 ==> if r[i + 1].Polled? then r[i].rv == 0 else r[i].rv > 0
    ensures AllGranted(false, c) <==> err == 0
    ensures |c| >= 3 && c[0] == Descriptor(fd) && c[1] == Asked(0) && c[2] == r[0]
    ensures err != 0 ==> c[|c| - 1] == Closed(fd)
    ensures err == 0 && c[2].err == 0 ==> |c| == 3
  {
    GrantedIs(fd, 1);
    assert forall k :: 0 <= k < |r| ==> c[k + 2] == r[k];
    if err == 0 {
      forall k | 0 <= k < |c| && c[k].Asked? && c[k].err != 0
        ensures k == 2 && c[2].err == 115 && |c| >= 5 && c[|c| - 2].Polled? && c[|c| - 2].rv > 0 && c[|c| - 1].Asked?
      {
        assert k >= 2 && r[k - 2] == c[k];
        assert r[|r| - 1].Asked?;
      }
    } else if r[|r| - 1].Asked? {
      assert c[|r| + 1].Asked? && c[|r| + 1].err != 0 && c[|c| - 1] == Closed(fd);
    } else {
      assert c[2].Asked? && c[2].err != 0 && c[|c| - 1] == Closed(fd);
    }
  }

  /**
    An open that gets a descriptor, on the record of its calls. It reports success, and the socket is
    opened, exactly when the system granted all that was asked, but for the "in progress" of a client
    connection that a poll with an event and a granted request follow. A refused option leaves the
    descriptor with the socket, any other failure closes it, and nothing else is ever closed.
   */
  lemma OpenExactly(server: bool, timeout: nat, a: Answers, attempt: Attempt, err: nat, o: Outcome, c: seq<Call>)
    requires a.fd >= 0 && Answered(server, timeout, a, attempt) && o == Listening(server, Opening(server, a), err) && c == o.calls
    ensures |c| >= 2 && c[0] == Descriptor(a.fd)
    ensures o.result == 0 <==> o.state == Opened
    ensures o.result == 0 <==>
            forall k :: 0 <= k < |c| && c[k].Asked? && c[k].err != 0 ==>
              !server && k == 2 && c[2].err == 115 && |c| >= 5 && c[|c| - 2].Polled? && c[|c| - 2].rv > 0 && c[|c| - 1].Asked?
    ensures o.result == 0 ==>
            && o.sock == a.fd
            && (server ==> c == [Descriptor(a.fd), Asked(0), Asked(0), Asked(0), Asked(0)])
            && (!server ==> |c| >= 3 && c[1] == Asked(0) && c[2].Asked? && (c[2].err == 0 ==> |c| == 3))
    ensures o.result != 0 ==>
            if c[|c| - 1].Asked? then
              && |c| <= (if server then 3 else 2) && (forall k :: 1 <= k < |c| - 1 ==> c[k] == Asked(0))
              && o.state == Prepared && o.sock == a.fd && o.result == Translate(c[|c| - 1].err)
            else c[|c| - 1] == Closed(a.fd) && o.state == Created && o.sock == -1 && o.result == -3
  {
    assert AllGranted(server, c) || !AllGranted(server, c);
    if a.granted < Options(server) {
      OptionRefused(server, a.fd, a.granted, a.err, c);
    } else if server {
      assert a.err == 0 ==> Granted(a.fd, 2) + [Asked(0)] + [Asked(err), Closed(a.fd)] == Granted(a.fd, 2) + [Asked(0)] + ([Asked(err)] + [Closed(a.fd)]);
      AllGrantedServer(a.fd, c, a.err, err);
    } else {
      AttemptExactly(attempt, timeout, a.reach);
      assert a.err == 0 ==> c == Granted(a.fd, 1) + a.reach + [];
      AllGrantedClient(a.fd, a.reach, c, a.err);
    }
  }

  lemma Join(a: seq<Call>, b: seq<Call>, c: seq<Call>)
    ensures (a + b) + c == a + (b + c)
  {}

  // ----- sockets -----

  class Socket {
    const server: bool
    var state: State
    var sock: int
    var parent: Socket?
    var acceptClients: seq<int>

    constructor (isServer: bool)
      ensures server == isServer && state == Created && sock == INVALID && parent == null && acceptClients == []
    {
      server, state, sock, parent, acceptClients := isServer, Created, INVALID, null, [];
    }
  }

  /** All live socket objects of a program and the system under them. */
  class World {
    const os: Os
    var sockets: set<Socket>

    constructor ()
      ensures Valid() && sockets == {} && fresh(os) && os.log == [] && Leaked() == {}
    {
      os := new Os();
      sockets := {};
    }

    /** An open socket has a live server as its parent, or none. */
    ghost predicate SocketOk(s: Socket)
      reads this, os, sockets, s
    {
      && (s.state == Created <==> s.sock == INVALID)
      && (s.sock != INVALID ==> s.sock in os.open)
      && (s.parent != null ==> !s.server && s.parent.server && (s.state == Opened ==> s.parent in sockets))
      && (!s.server ==> s.acceptClients == [])
    }

    predicate LiveClient(c: Socket, v: Socket)
      reads c
    {
      c.parent == v && c.state == Opened
    }

    /** The list of a server names the descriptors of its live accepted clients, each once. */
    ghost predicate ListOk(v: Socket)
      reads this, sockets, v
    {
      && NoRepeats(v.acceptClients)
      && (forall c :: c in sockets && LiveClient(c, v) ==> c.sock in v.acceptClients)
      && (forall fd :: fd in v.acceptClients ==> exists c :: c in sockets && LiveClient(c, v) && c.sock == fd)
    }

    ghost predicate Valid()
      reads this, os, sockets
    {
      && os.Consistent()
      && (forall s :: s in sockets ==> SocketOk(s))
      && (forall s, t :: s in sockets && t in sockets && s != t && s.sock != INVALID ==> s.sock != t.sock)
      && (forall v :: v in sockets ==> ListOk(v))
    }

    /** Every socket that has a descriptor holds an open one. */
    ghost predicate DescriptorsOpen()
      reads this, os, sockets
    {
      forall t :: t in sockets && t.sock != INVALID ==> t.sock in os.open
    }

    ghost predicate Unowned(fd: int)
      reads this, sockets
    {
      forall s :: s in sockets ==> s.sock != fd
    }

    /** The open descriptors that no socket object owns any more. */
    ghost function Leaked(): (l: set<int>)
      reads this, os, sockets
    {
      set fd | fd in os.open && Unowned(fd)
    }

    /** No other socket object has changed. */
    twostate predicate SameOthers(s: Socket)
      reads this, sockets
    {
      forall t :: t in old(sockets) && t in sockets && t != s ==>
        t.state == old(t.state) && t.sock == old(t.sock) && t.parent == old(t.parent)
    }

    // ----- creation -----

    /** A socket object of either role. */
    method Create(isServer: bool) returns (s: Socket)
      requires Valid()
      modifies this`sockets
      ensures Valid() && fresh(s) && sockets == old(sockets) + {s} && Leaked() == old(Leaked())
      ensures s.server == isServer && s.state == Created && s.parent == null
    {
      s := new Socket(isServer);
      sockets := sockets + {s};
      ValidAfterCreate(s);
      LeakedWith(s);
    }

    twostate lemma ValidAfterCreate(new s: Socket)
      requires old(Valid()) && s !in old(sockets) && sockets == old(sockets) + {s} && os.open == old(os.open) && os.Consistent()
      requires s.state == Created && s.sock == INVALID && s.parent == null && s.acceptClients == []
      requires forall t :: t in old(sockets) ==>
                 t.state == old(t.state) && t.sock == old(t.sock) && t.parent == old(t.parent) && t.acceptClients == old(t.acceptClients)
      ensures Valid()
    {
      assert forall t :: t in old(sockets) ==> old(SocketOk(t)) && old(ListOk(t));
      forall u | u in sockets ensures ListOk(u) {
        forall c | c in sockets && LiveClient(c, u) ensures c.sock in u.acceptClients {
          assert old(LiveClient(c, u));
        }
        forall fd | fd in u.acceptClients ensures exists c :: c in sockets && LiveClient(c, u) && c.sock == fd {
          var c :| c in old(sockets) && old(LiveClient(c, u)) && old(c.sock) == fd;
          assert LiveClient(c, u);
        }
      }
    }

    /** A new socket object with a new descriptor or none leaks nothing. */
    twostate lemma LeakedWith(new s: Socket)
      requires sockets == old(sockets) + {s} && INVALID !in old(os.open)
      requires forall t :: t in old(sockets) ==> t.sock == old(t.sock)
      requires if s.sock == INVALID then os.open == old(os.open) else s.sock !in old(os.open) && os.open == old(os.open) + {s.sock}
      ensures Leaked() == old(Leaked())
    {
      forall fd | fd in old(os.open) ensures Unowned(fd) <==> old(Unowned(fd)) {
        if Unowned(fd) {
          forall t | t in old(sockets) ensures old(t.sock) != fd { assert t in sockets; }
        }
      }
      if s.sock != INVALID { assert !Unowned(s.sock) by { assert s in sockets; } }
    }

    // ----- closing -----

    /** The base class close: the descriptor goes back to the system unless there is none. */
    method CloseBase(s: Socket)
      requires os.Consistent() && (s.state != Created ==> s.sock in os.open)
      modifies s`state, s`sock, os
      ensures os.Consistent() && os.log == old(os.log) + if old(s.state) == Created then [] else [Closed(old(s.sock))]
      ensures s.state == Created
      ensures old(s.state) != Created ==> s.sock == INVALID && os.open == old(os.open) - {old(s.sock)}
      ensures old(s.state) == Created ==> s.sock == old(s.sock) && os.open == old(os.open)
    {
      if s.state != Created {
        s.state := Created;
        os.CloseSocket(s.sock);
        s.sock := INVALID;
      }
    }

    /** Closing `s` keeps the ownership, with its descriptor erased from the list that named it. */
    twostate lemma ValidAfterClose(s: Socket)
      requires old(Valid()) && sockets == old(sockets) && s in sockets && os.Consistent() && SameOthers(s)
      requires s.state == Created && s.sock == INVALID && s.parent == old(s.parent)
      requires os.open == old(os.open) - {old(s.sock)}
      requires forall v :: v in sockets ==>
                 if v == s.parent && old(s.state) == Opened then Without(v.acceptClients, old(v.acceptClients), old(s.sock))
                 else v.acceptClients == old(v.acceptClients)
      ensures Valid()
    {
      assert forall t :: t in sockets ==> old(SocketOk(t)) && old(ListOk(t));
      forall v | v in sockets ensures ListOk(v) {
        forall c | c in sockets && LiveClient(c, v) ensures c.sock in v.acceptClients {
          assert c != s && old(LiveClient(c, v));
        }
        forall fd | fd in v.acceptClients ensures exists c :: c in sockets && LiveClient(c, v) && c.sock == fd {
          assert fd in old(v.acceptClients);
          var c :| c in old(sockets) && old(LiveClient(c, v)) && old(c.sock) == fd;
          assert c != s;
          assert LiveClient(c, v);
        }
      }
    }

    twostate lemma LeakedAfterClose(s: Socket)
      requires old(Valid()) && sockets == old(sockets) && s in sockets && SameOthers(s)
      requires s.sock == INVALID && os.open == old(os.open) - {old(s.sock)}
      ensures Leaked() == old(Leaked())
    {
      forall fd | fd in old(os.open) && fd != old(s.sock) ensures Unowned(fd) <==> old(Unowned(fd)) {
        if Unowned(fd) {
          forall t | t in old(sockets) ensures old(t.sock) != fd { assert t != s ==> t.sock == old(t.sock); }
        }
        if old(Unowned(fd)) {
          forall t | t in sockets ensures t.sock != fd { assert t != s ==> t.sock == old(t.sock); }
        }
      }
    }

    /** Closing a socket, and taking an accepted one off its parent's list first. */
    method Close(s: Socket) returns (result: int)
      requires Valid() && s in sockets
      modifies sockets, os
      ensures Valid() && result == NO_ERROR && s.state == Created && s.parent == old(s.parent) && Leaked() == old(Leaked())
      ensures os.open == old(os.open) - {old(s.sock)}
      ensures os.log == old(os.log) + if old(s.state) == Created then [] else [Closed(old(s.sock))]
      ensures SameOthers(s) && forall t :: t in sockets && t != s.parent ==> t.acceptClients == old(t.acceptClients)
      ensures s.parent != null && s.parent in sockets ==>
                && (old(s.state) != Opened ==> s.parent.acceptClients == old(s.parent.acceptClients))
                && (old(s.state) == Opened ==>
                      forall fd :: fd in s.parent.acceptClients <==> fd in old(s.parent.acceptClients) && fd != old(s.sock))
    {
      assert SocketOk(s);
      if s.state == Opened && s.parent != null {
        assert ListOk(s.parent) && SocketOk(s.parent);
        EraseFromParent(s);
      }
      CloseBase(s);
      ValidAfterClose(s);
      LeakedAfterClose(s);
      return NO_ERROR;
    }

    /** The erasing loop of close. */
    method EraseFromParent(s: Socket)
      requires s.parent != null && s != s.parent && NoRepeats(s.parent.acceptClients)
      modifies s.parent`acceptClients
      ensures Without(s.parent.acceptClients, old(s.parent.acceptClients), s.sock)
      ensures forall fd :: fd in s.parent.acceptClients <==> fd in old(s.parent.acceptClients) && fd != s.sock
    {
      var p := s.parent;
      ghost var list := p.acceptClients;
      ghost var found := false;
      var i := 0;
      while i < |p.acceptClients|
        invariant i <= |p.acceptClients| + if found then 1 else 0
        invariant !found ==> p.acceptClients == list && s.sock !in list[..i]
        invariant found ==> Without(p.acceptClients, list, s.sock)
        decreases |p.acceptClients| - i
      {
        if p.acceptClients[i] == s.sock {
          assert p.acceptClients[i] in p.acceptClients;
          EraseAt(list, i);
          p.acceptClients := p.acceptClients[..i] + p.acceptClients[i + 1..];
          found := true;
        }
        i := i + 1;
      }
    }

    // ----- opening -----

    /** The socket options of open: address reuse for a server, the receive timeout for both roles. */
    method SetOptions(server: bool, ghost before: seq<Call>, ghost fd: int) returns (err: nat, ghost granted: nat)
      requires os.Consistent() && os.log == before + Granted(fd, 0)
      modifies os`log
      ensures os.Consistent() && granted <= Options(server) && (err == 0 <==> granted == Options(server))
      ensures os.log == before + if err == 0 then Granted(fd, granted) else Granted(fd, granted) + [Asked(err)]
    {
      granted := 0;
      if server {
        Join(before, Granted(fd, granted), [Asked(0)]);
        err := os.Request();
        Join(before, Granted(fd, 0), [Asked(err)]);
        if err != 0 {
          return;
        }
        granted := granted + 1;
      }
      err := os.Request();
      Join(before, Granted(fd, granted), [Asked(err)]);
      if err == 0 {
        granted := granted + 1;
      }
    }

    /** The polls of a connection attempt, in slices, until something answers or the time is used up. */
    method PollLoop(timeout: nat) returns (rv: int, ghost polls: nat, ghost answered: Call)
      requires os.Consistent()
      modifies os`log
      ensures os.Consistent()
      ensures if rv == 0 then Left(timeout, polls) == 0 && answered == Asked(0) && (polls > 0 ==> Left(timeout, polls - 1) > 0)
              else answered.Polled? && answered.rv == rv && answered.ms == Slice(Left(timeout, polls)) > 0
      ensures os.log == old(os.log) + Quiet(timeout, polls) + if rv == 0 then [] else [answered]
    {
      ghost var before := os.log;
      var remaining := timeout;
      var readable;
      rv, polls, answered := 0, 0, Asked(0);
      assert before + Quiet(timeout, 0) == before;
      while remaining > 0
        invariant os.Consistent() && remaining == Left(timeout, polls) && rv == 0 && answered == Asked(0)
        invariant polls > 0 ==> Left(timeout, polls - 1) > 0
        invariant os.log == before + Quiet(timeout, polls)
        decreases remaining
      {
        var chunk := Slice(remaining);
        rv, readable := os.Poll(chunk);
        if rv != 0 {
          answered := Polled(chunk, rv, readable);
          return;
        }
        Join(before, Quiet(timeout, polls), [Polled(chunk, rv, readable)]);
        remaining := remaining - chunk;
        polls := polls + 1;
      }
      assert os.log + [] == os.log;
    }

    /** _connect: not blocking, and polled while it is in progress. */
    method Connect(timeout: nat) returns (err: nat, ghost attempt: Attempt)
      requires os.Consistent()
      modifies os`log
      ensures os.Consistent() && Attempted(attempt, timeout) && err == AttemptError(attempt)
      ensures os.log == old(os.log) + AttemptCalls(attempt, timeout)
    {
      ghost var before := os.log;
      err := os.Request();
      attempt := Attempt(err, 0, Asked(0), 0);
      if err == EINPROGRESS {
        ghost var first := err;
        var rv;
        ghost var polls, answered;
        rv, polls, answered := PollLoop(timeout);
        attempt := Attempt(first, polls, answered, 0);
        if rv > 0 {
          err := os.Request();
          attempt := attempt.(last := err);
        }
        AttemptLog(before, attempt, timeout);
      }
    }

    lemma AttemptLog(before: seq<Call>, a: Attempt, timeout: nat)
      requires a.first == EINPROGRESS
      ensures var quiet := before + [Asked(a.first)] + Quiet(timeout, a.polls);
              before + AttemptCalls(a, timeout) ==
              if !a.answered.Polled? then quiet + []
              else if a.answered.rv > 0 then quiet + [a.answered] + [Asked(a.last)]
              else quiet + [a.answered]
    {
      var quiet := Quiet(timeout, a.polls);
      Join(before, [Asked(a.first)], quiet + AnswerCalls(a));
      Join(before + [Asked(a.first)], quiet, AnswerCalls(a));
      if a.answered.Polled? && a.answered.rv > 0 {
        Join(before + [Asked(a.first)] + quiet, [a.answered], [Asked(a.last)]);
      }
    }

    /** bind() for a server, the connection for a client. */
    method Reach(server: bool, timeout: nat) returns (err: nat, ghost reach: seq<Call>, ghost attempt: Attempt)
      requires os.Consistent()
      modifies os`log
      ensures os.Consistent() && os.log == old(os.log) + reach
      ensures if server then reach == [Asked(err)]
              else Attempted(attempt, timeout) && reach == AttemptCalls(attempt, timeout) && err == AttemptError(attempt)
    {
      if server {
        err := os.Request();
        reach, attempt := [Asked(err)], Attempt(0, 0, Asked(0), 0);
      } else {
        err, attempt := Connect(timeout);
        reach := AttemptCalls(attempt, timeout);
      }
    }

    /** The descriptors after an open: one more when the socket has got one. */
    ghost predicate OneMore(s: Socket, before: set<int>)
      reads this, os, s
    {
      if s.sock == INVALID then os.open == before
      else s.sock >= 0 && s.sock !in before && os.open == before + {s.sock}
    }

    lemma FourCalls(log: seq<Call>, a: seq<Call>, b: seq<Call>, c: seq<Call>)
      ensures log + a + b == log + (a + b) && log + a + b + c == log + (a + b + c)
    {}

    /** The base class open of a socket that is not open; `s` has no parent. */
    method OpenBase(s: Socket, timeout: nat) returns (result: int, ghost a: Answers, ghost attempt: Attempt)
      requires os.Consistent() && s.state != Opened
      modifies s`state, s`sock, os
      ensures os.Consistent() && OneMore(s, old(os.open)) && a.fd >= -1 && (a.fd >= 0 ==> Answered(s.server, timeout, a, attempt))
      ensures var o := Opening(s.server, a);
              result == o.result && s.state == o.state && s.sock == o.sock && os.log == old(os.log) + o.calls
    {
      ghost var before := os.log;
      s.state := Prepared;
      s.sock := os.NewDescriptor();
      if s.sock == INVALID {
        s.state := Created;
        a, attempt := Answers(INVALID, 0, [], 0), Attempt(0, 0, Asked(0), 0);
        result := ERROR_OPEN_FAILED;
        return;
      }
      result, a, attempt := Bring(s, timeout, before);
    }

    /** The options and the bind or connection of a prepared socket. */
    method Bring(s: Socket, timeout: nat, ghost before: seq<Call>)
      returns (result: int, ghost a: Answers, ghost attempt: Attempt)
      requires os.Consistent() && s.state == Prepared && s.sock in os.open && os.log == before + Granted(s.sock, 0)
      modifies s`state, s`sock, os
      ensures os.Consistent() && a.fd == old(s.sock) && Answered(s.server, timeout, a, attempt)
      ensures var o := Opening(s.server, a);
              result == o.result && s.state == o.state && s.sock == o.sock && os.log == before + o.calls
      ensures os.open == if s.sock == INVALID then old(os.open) - {old(s.sock)} else old(os.open)
    {
      ghost var fd, granted, reach := s.sock, 0, [];
      var err;
      attempt := Attempt(0, 0, Asked(0), 0);
      err, granted := SetOptions(s.server, before, fd);
      if err != 0 {
        a := Answers(fd, granted, [], err);
        result := Translate(err);
        return;
      }
      err, reach, attempt := Reach(s.server, timeout);
      a := Answers(fd, granted, reach, err);
      FourCalls(before, Granted(fd, granted), reach, [Closed(fd)]);
      if err != 0 {
        CloseBase(s);
        result := ERROR_OPEN_FAILED;
        return;
      }
      s.state := Opened;
      result := NO_ERROR;
    }

    /** The TCP open of a socket without a parent that is not open. */
    method OpenTcp(s: Socket, timeout: nat) returns (result: int, ghost a: Answers, ghost attempt: Attempt, ghost listenErr: nat)
      requires os.Consistent() && s.state != Opened
      modifies s`state, s`sock, os
      ensures os.Consistent() && OneMore(s, old(os.open)) && a.fd >= -1 && (a.fd >= 0 ==> Answered(s.server, timeout, a, attempt))
      ensures var o := Listening(s.server, Opening(s.server, a), listenErr);
              result == o.result && s.state == o.state && s.sock == o.sock && os.log == old(os.log) + o.calls
    {
      listenErr := 0;
      ghost var before := os.log;
      result, a, attempt := OpenBase(s, timeout);
      ghost var o := Opening(s.server, a);
      if result == NO_ERROR && s.server {
        var err := os.Request();
        listenErr := err;
        Join(before, o.calls, [Asked(err)]);
        if err != 0 {
          CloseBase(s);
          Join(before, o.calls + [Asked(err)], [Closed(o.sock)]);
          assert o.calls + [Asked(err)] + [Closed(o.sock)] == o.calls + [Asked(err), Closed(o.sock)];
          result := ERROR_OPEN_FAILED;
        }
      }
    }

    /** After an open, whatever its result, ownership still holds. */
    twostate lemma ValidAfterOpen(s: Socket)
      requires old(Valid()) && sockets == old(sockets) && s in sockets && s.parent == null == old(s.parent) && os.Consistent()
      requires SameOthers(s) && forall t :: t in sockets ==> t.acceptClients == old(t.acceptClients)
      requires (s.state == Created <==> s.sock == INVALID) && OneMore(s, old(os.open))
      ensures Valid()
    {
      assert forall t :: t in sockets ==> old(SocketOk(t)) && old(ListOk(t));
      forall v | v in sockets ensures ListOk(v) {
        forall c | c in sockets && LiveClient(c, v) ensures c.sock in v.acceptClients {
          assert c != s && old(LiveClient(c, v));
        }
        forall fd | fd in v.acceptClients ensures exists c :: c in sockets && LiveClient(c, v) && c.sock == fd {
          var c :| c in old(sockets) && old(LiveClient(c, v)) && old(c.sock) == fd;
          assert c != s;
          assert LiveClient(c, v);
        }
      }
    }

    /** An open leaks the descriptor of a socket that was left prepared, and nothing else. */
    twostate lemma LeakedAfterOpen(s: Socket)
      requires old(Valid()) && sockets == old(sockets) && s in sockets && old(s.state) != Opened
      requires SameOthers(s) && OneMore(s, old(os.open))
      ensures Leaked() == old(Leaked()) + if old(s.state) == Prepared then {old(s.sock)} else {}
    {
      assert old(SocketOk(s));
      forall fd | fd in old(os.open) ensures Unowned(fd) <==> old(Unowned(fd)) || fd == old(s.sock) {
        if Unowned(fd) && fd != old(s.sock) {
          forall t | t in old(sockets) ensures old(t.sock) != fd { assert t != s ==> t.sock == old(t.sock); }
        }
        if old(Unowned(fd)) || fd == old(s.sock) {
          forall t | t in sockets ensures t.sock != fd { assert t != s ==> t.sock == old(t.sock); }
        }
      }
      if s.sock != INVALID { assert !Unowned(s.sock); }
    }

    /**
      The TCP open: refused on accepted sockets and on open ones. Opening a prepared socket loses its
      old descriptor; no other open loses any.
     */
    method Open(s: Socket, timeout: nat) returns (result: int, ghost a: Answers, ghost attempt: Attempt, ghost listenErr: nat)
      requires Valid() && s in sockets
      modifies s`state, s`sock, os
      ensures Valid()
      ensures s.parent != null || old(s.state) == Opened ==>
                && result == (if s.parent != null then -7 else -2)
                && s.state == old(s.state) && s.sock == old(s.sock) && os.open == old(os.open) && os.log == old(os.log)
      ensures s.parent == null && old(s.state) != Opened ==>
                var o := Listening(s.server, Opening(s.server, a), listenErr);
                && a.fd >= -1 && (a.fd >= 0 ==> Answered(s.server, timeout, a, attempt))
                && result == o.result && s.state == o.state && s.sock == o.sock && os.log == old(os.log) + o.calls
      ensures s.parent == null && old(s.state) != Opened ==>
                var c := os.log[|old(os.log)|..];
                && c != [] && c[0].Descriptor? && (result == 0 <==> s.state == Opened)
                && (c[0].fd == -1 ==> |c| == 1 && result == -3 && s.state == Created && s.sock == -1)
                && (s.state == Opened <==> c[0].fd != -1 && forall k :: 0 <= k < |c| && c[k].Asked? && c[k].err != 0 ==>
                      && !s.server && k == 2 && c[2].err == 115
                      && |c| >= 5 && c[|c| - 2].Polled? && c[|c| - 2].rv > 0 && c[|c| - 1].Asked?)
      ensures Leaked() == old(Leaked()) + if s.parent == null && old(s.state) == Prepared then {old(s.sock)} else {}
    {
      a, attempt, listenErr := Answers(INVALID, 0, [], 0), Attempt(0, 0, Asked(0), 0), 0;
      if s.parent != null {
        result := ERROR_NOT_ALLOWED;
        return;
      }
      if s.state == Opened {
        result := ERROR_ALREADY_OPENED;
        return;
      }
      result, a, attempt, listenErr := OpenTcp(s, timeout);
      ghost var o := Listening(s.server, Opening(s.server, a), listenErr);
      assert os.log[|old(os.log)|..] == o.calls;
      if a.fd >= 0 { OpenExactly(s.server, timeout, a, attempt, listenErr, o, o.calls); }
      ValidAfterOpen(s);
      LeakedAfterOpen(s);
    }

    // ----- accepting -----

    /** Waiting for a connection: no descriptor when none comes in time or accept() fails. */
    method Incoming(ms: nat) returns (fd: int, peer: seq<int>, ghost rv: int, ghost readable: bool)
      requires os.Consistent()
      modifies os
      ensures os.Consistent()
      ensures os.log == old(os.log) + ([Polled(ms, rv, readable)] + if rv > 0 && readable then [Descriptor(fd)] else [])
      ensures fd != INVALID ==> rv > 0 && readable && peer != []
      ensures if fd == INVALID then os.open == old(os.open)
              else fd >= 0 && fd !in old(os.open) && os.open == old(os.open) + {fd}
    {
      fd, peer := INVALID, [];
      var answer, event := os.Poll(ms);
      rv, readable := answer, event;
      if answer > 0 && event {
        fd := os.NewDescriptor();
        if fd != INVALID {
          var port: nat := *;
          peer := [port];
        }
      }
    }

    /**
      Waiting `ms` milliseconds for a connection and wrapping its descriptor. `flag` and `from` are
      what the caller has in the two output places: a server that is not open leaves both as they are,
      so the flag tells the truth exactly when the server is open or the flag was false before.
     */
    method Accept(v: Socket, ms: nat, flag: bool, from: seq<int>)
      returns (client: Socket, success: bool, address: seq<int>, ghost rv: int, ghost readable: bool)
      requires Valid() && v in sockets && v.server
      modifies this`sockets, v`acceptClients, os
      ensures Valid() && fresh(client) && sockets == old(sockets) + {client} && !client.server && Leaked() == old(Leaked())
      ensures if client.sock == INVALID then
                client.state == Created && client.parent == null && v.acceptClients == old(v.acceptClients) && os.open == old(os.open)
              else
                && old(v.state) == Opened && client.state == Opened && client.parent == v && client.sock !in old(os.open)
                && v.acceptClients == old(v.acceptClients) + [client.sock] && os.open == old(os.open) + {client.sock}
      ensures old(v.state) != Opened ==> success == flag && address == from && client.sock == INVALID && os.log == old(os.log)
      ensures old(v.state) == Opened ==>
                && (success <==> client.sock != INVALID) && (success <==> address != [])
                && os.log == old(os.log) + ([Polled(ms, rv, readable)] + if rv > 0 && readable then [Descriptor(client.sock)] else [])
      ensures (success <==> client.sock != INVALID) <==> old(v.state) == Opened || !flag
      ensures client.sock == INVALID ==> (address == [] <==> old(v.state) == Opened || from == [])
    {
      client := new Socket(false);
      success, address, rv, readable := flag, from, 0, false;
      if v.state == Opened {
        var fd;
        fd, address, rv, readable := Incoming(ms);
        success := false;
        if fd != INVALID {
          client.sock := fd;
          client.state := Opened;
          client.parent := v;
          v.acceptClients := v.acceptClients + [fd];
          success := true;
        } else {
          address := [];
        }
      }
      sockets := sockets + {client};
      ValidAfterAccept(v, client);
      LeakedWith(client);
    }

    twostate lemma ValidAfterAccept(v: Socket, new client: Socket)
      requires old(Valid()) && v in old(sockets) && client !in old(sockets) && sockets == old(sockets) + {client} && os.Consistent()
      requires forall t :: t in old(sockets) ==> t.state == old(t.state) && t.sock == old(t.sock) && t.parent == old(t.parent)
      requires forall t :: t in old(sockets) && t != v ==> t.acceptClients == old(t.acceptClients)
      requires !client.server && client.acceptClients == []
      requires if client.sock == INVALID then
                 client.state == Created && client.parent == null && v.acceptClients == old(v.acceptClients) && os.open == old(os.open)
               else
                 && client.state == Opened && client.parent == v && v.server && client.sock >= 0 && client.sock !in old(os.open)
                 && os.open == old(os.open) + {client.sock} && v.acceptClients == old(v.acceptClients) + [client.sock]
      ensures Valid()
    {
      assert forall t :: t in old(sockets) ==> old(SocketOk(t)) && old(ListOk(t));
      forall fd | fd in old(v.acceptClients) ensures fd in old(os.open) {
        var c :| c in old(sockets) && old(LiveClient(c, v)) && old(c.sock) == fd;
        assert old(SocketOk(c));
      }
      assert client.sock != INVALID ==> client.sock !in old(v.acceptClients);
      forall u | u in sockets ensures ListOk(u) {
        forall c | c in sockets && LiveClient(c, u) ensures c.sock in u.acceptClients {
          assert c != client ==> old(LiveClient(c, u));
        }
        forall fd | fd in u.acceptClients ensures exists c :: c in sockets && LiveClient(c, u) && c.sock == fd {
          if fd == client.sock && u == v {
            assert LiveClient(client, u);
          } else {
            var c :| c in old(sockets) && old(LiveClient(c, u)) && old(c.sock) == fd;
            assert LiveClient(c, u);
          }
        }
      }
    }

    // ----- moving -----

    lemma Member(list: seq<int>)
      ensures list == [] || list[0] in list
    {}

    /** No live accepted client names `s` as its server. */
    predicate NoLiveClients(s: Socket)
      reads this, sockets
    {
      forall t :: t in sockets ==> !LiveClient(t, s)
    }

    lemma NoClients(v: Socket)
      requires ListOk(v)
      ensures NoLiveClients(v) <==> v.acceptClients == []
    {
      Member(v.acceptClients);
    }

    /**
      The move constructor: everything goes to a new object. The clients of a moved server keep
      pointing to the old object, so ownership holds afterwards exactly when no live client does.
     */
    method Move(other: Socket) returns (moved: Socket)
      requires Valid() && other in sockets
      modifies this`sockets, other
      ensures fresh(moved) && sockets == old(sockets) + {moved} && Leaked() == old(Leaked()) && os.log == old(os.log)
      ensures Valid() <==> old(forall t :: t in sockets ==> t.parent != other || t.state != Opened)
      ensures DescriptorsOpen()
      ensures moved.state == old(other.state) && moved.sock == old(other.sock) && moved.parent == old(other.parent)
      ensures moved.server == other.server && moved.acceptClients == old(other.acceptClients)
      ensures other.state == Created && other.sock == INVALID && other.parent == null && other.acceptClients == []
    {
      moved := new Socket(other.server);
      moved.state, moved.sock := other.state, other.sock;
      other.state, other.sock := Created, INVALID;
      moved.parent := other.parent;
      other.parent := null;
      moved.acceptClients := other.acceptClients;
      other.acceptClients := [];
      sockets := sockets + {moved};
      AfterMove(other, moved);
    }

    twostate lemma AfterMove(other: Socket, new moved: Socket)
      requires old(Valid()) && Moved(other, moved) && os.Consistent()
      requires forall t :: t in old(sockets) ==> old(t.parent) != moved
      ensures Leaked() == old(Leaked()) && DescriptorsOpen() && (Valid() <==> old(NoLiveClients(other)))
    {
      LeakedAfterMove(other, moved);
      assert forall t :: t in old(sockets) ==> old(SocketOk(t));
      assert old(ListOk(other));
      if old(NoLiveClients(other)) {
        ValidAfterMove(other, moved);
      } else {
        var c :| c in old(sockets) && old(LiveClient(c, other));
        assert old(c.sock) in old(other.acceptClients);
        OrphanedList(other, moved);
      }
    }

    /** Everything of `other` is now in `moved`. */
    twostate predicate Moved(other: Socket, new moved: Socket)
      reads this, os, sockets, other, moved
    {
      && other in old(sockets) && moved !in old(sockets) && sockets == old(sockets) + {moved} && os.open == old(os.open)
      && (forall t :: t in old(sockets) && t != other ==>
            t.state == old(t.state) && t.sock == old(t.sock) && t.parent == old(t.parent) && t.acceptClients == old(t.acceptClients))
      && moved.state == old(other.state) && moved.sock == old(other.sock) && moved.parent == old(other.parent)
      && moved.server == other.server && moved.acceptClients == old(other.acceptClients)
      && other.state == Created && other.sock == INVALID && other.parent == null && other.acceptClients == []
    }

    twostate lemma LeakedAfterMove(other: Socket, new moved: Socket)
      requires old(Valid()) && Moved(other, moved)
      ensures Leaked() == old(Leaked())
    {
      forall fd | fd in os.open ensures Unowned(fd) <==> old(Unowned(fd)) {
        if Unowned(fd) {
          forall t | t in old(sockets) ensures old(t.sock) != fd { assert (if t == other then moved else t).sock == old(t.sock); }
        }
        if old(Unowned(fd)) {
          forall t | t in sockets ensures t.sock != fd { assert t != other ==> t.sock == old((if t == moved then other else t).sock); }
        }
      }
    }

    /** The list of a moved server names clients of the old object. */
    twostate lemma OrphanedList(other: Socket, new moved: Socket)
      requires old(Valid()) && Moved(other, moved) && moved.acceptClients != []
      requires forall t :: t in old(sockets) ==> old(t.parent) != moved
      ensures !ListOk(moved)
    {
      var fd := moved.acceptClients[0];
      assert fd in moved.acceptClients;
      forall t | t in sockets ensures !LiveClient(t, moved) { assert t.parent != moved; }
    }

    twostate lemma ValidAfterMove(other: Socket, new moved: Socket)
      requires old(Valid()) && Moved(other, moved) && os.Consistent() && old(NoLiveClients(other))
      ensures Valid()
    {
      assert forall t :: t in old(sockets) ==> old(SocketOk(t)) && old(ListOk(t));
      forall u | u in sockets ensures ListOk(u) {
        forall c | c in sockets && LiveClient(c, u) ensures c.sock in u.acceptClients {
          assert old(LiveClient(if c == moved then other else c, u));
        }
        forall fd | fd in u.acceptClients ensures exists c :: c in sockets && LiveClient(c, u) && c.sock == fd {
          var c :| c in old(sockets) && old(LiveClient(c, u)) && old(c.sock) == fd;
          var d := if c == other then moved else c;
          assert d in sockets && LiveClient(d, u) && d.sock == fd;
        }
      }
    }

    // ----- destruction -----

    /**
      The destructor: a socket without a parent closes the descriptors it accepted, then its own.
      The other objects do not change, but for the list of an accepted socket's server. Afterwards
      ownership holds, and every socket that has a descriptor holds an open one, exactly when no live
      client of the destroyed socket is left.
     */
    method Destroy(s: Socket)
      requires Valid() && s in sockets
      modifies this`sockets, sockets, os
      ensures sockets == old(sockets) - {s} && Leaked() == old(Leaked())
      ensures SameOthers(s) && forall t :: t in sockets && t != old(s.parent) ==> t.acceptClients == old(t.acceptClients)
      ensures forall fd :: fd in os.open <==> fd in old(os.open) && fd != old(s.sock) && fd !in old(s.acceptClients)
      ensures os.log == old(os.log) + Closes(if old(s.parent) == null then old(s.acceptClients) else [])
                        + if old(s.state) == Created then [] else [Closed(old(s.sock))]
      ensures Valid() <==> old(forall t :: t in sockets ==> t.parent != s || t.state != Opened)
      ensures (forall t :: t in sockets && t.sock != -1 ==> t.sock in os.open) <==>
              old(forall t :: t in sockets ==> t.parent != s || t.state != Opened)
    {
      assert SocketOk(s) && ListOk(s);
      NoClients(s);
      AcceptedAreOpen(s);
      if s.parent == null {
        CloseAll(s.acceptClients);
        CloseBase(s);
      } else {
        var result := Close(s);
      }
      sockets := sockets - {s};
      LeakedAfterDestroy(s);
      if old(NoLiveClients(s)) { ValidAfterDestroy(s); } else { ClosedUnderClient(s); }
    }

    /** All that a destruction leaves behind. */
    twostate predicate Destroyed(s: Socket)
      reads this, os, sockets
    {
      && s in old(sockets) && sockets == old(sockets) - {s} && SameOthers(s)
      && (forall v :: v in sockets ==>
            if v == old(s.parent) && old(s.state) == Opened then Without(v.acceptClients, old(v.acceptClients), old(s.sock))
            else v.acceptClients == old(v.acceptClients))
      && (forall fd :: fd in os.open <==> fd in old(os.open) && fd != old(s.sock) && fd !in old(s.acceptClients))
    }

    twostate lemma LeakedAfterDestroy(s: Socket)
      requires old(Valid()) && Destroyed(s)
      ensures Leaked() == old(Leaked())
    {
      assert forall t :: t in old(sockets) ==> old(SocketOk(t));
      assert old(ListOk(s));
      forall fd | fd in old(s.acceptClients) ensures !old(Unowned(fd)) {
        var c :| c in old(sockets) && old(LiveClient(c, s)) && old(c.sock) == fd;
      }
      forall fd | fd in old(Leaked()) ensures fd in Leaked() {
        assert fd !in old(s.acceptClients) && fd != old(s.sock);
        forall t | t in sockets ensures t.sock != fd { assert t.sock == old(t.sock); }
      }
      forall fd | fd in Leaked() ensures fd in old(Leaked()) {
        forall t | t in old(sockets) ensures old(t.sock) != fd { assert t != s ==> t.sock == old(t.sock); }
      }
    }

    /** The list of the destroyed server names every live client, so their descriptors are closed. */
    twostate lemma ClosedUnderClient(s: Socket)
      requires old(Valid()) && Destroyed(s) && !old(NoLiveClients(s))
      ensures !DescriptorsOpen() && !Valid()
    {
      var c :| c in old(sockets) && old(LiveClient(c, s));
      assert old(SocketOk(c)) && old(ListOk(s)) && old(SocketOk(s));
      assert c.sock in old(s.acceptClients);
      assert !SocketOk(c);
    }

    twostate lemma ValidAfterDestroy(s: Socket)
      requires old(Valid()) && Destroyed(s) && os.Consistent() && old(NoLiveClients(s)) && old(s.acceptClients) == []
      ensures Valid() && DescriptorsOpen()
    {
      assert forall t :: t in old(sockets) ==> old(SocketOk(t)) && old(ListOk(t));
      forall t | t in sockets ensures SocketOk(t) {
        assert old(SocketOk(t)) && !old(LiveClient(t, s));
      }
      forall u | u in sockets ensures ListOk(u) {
        forall c | c in sockets && LiveClient(c, u) ensures c.sock in u.acceptClients {
          assert old(LiveClient(c, u)) && c != s;
        }
        forall fd | fd in u.acceptClients ensures exists c :: c in sockets && LiveClient(c, u) && c.sock == fd {
          assert fd in old(u.acceptClients);
          var c :| c in old(sockets) && old(LiveClient(c, u)) && old(c.sock) == fd;
          assert c != s;
          assert LiveClient(c, u);
        }
      }
    }

    lemma AcceptedAreOpen(s: Socket)
      requires Valid() && s in sockets
      ensures forall fd :: fd in s.acceptClients ==> fd in os.open && fd != s.sock
    {
      forall fd | fd in s.acceptClients ensures fd in os.open && fd != s.sock {
        assert ListOk(s);
        var c :| c in sockets && LiveClient(c, s) && c.sock == fd;
        assert SocketOk(c) && SocketOk(s);
      }
    }

    method CloseAll(list: seq<int>)
      requires os.Consistent() && NoRepeats(list) && forall fd :: fd in list ==> fd in os.open
      modifies os
      ensures os.Consistent() && os.log == old(os.log) + Closes(list)
      ensures forall fd :: fd in os.open <==> fd in old(os.open) && fd !in list
    {
      for i := 0 to |list|
        invariant os.Consistent() && os.log == old(os.log) + Closes(list[..i])
        invariant forall fd :: fd in os.open <==> fd in old(os.open) && fd !in list[..i]
      {
        assert list[i] in list && list[i] !in list[..i];
        os.CloseSocket(list[i]);
        assert list[..i + 1] == list[..i] + [list[i]];
        assert list[..i + 1][..i] == list[..i];
      }
      assert list[..|list|] == list;
    }

    // ----- whole histories -----

    /** What ownership means: every part of `Valid`, spelled out. */
    lemma Ownership()
      requires Valid()
      ensures forall s :: s in sockets ==> (s.state == Created <==> s.sock == -1)
      ensures forall s :: s in sockets && s.sock != -1 ==> s.sock in os.open
      ensures forall s, t :: s in sockets && t in sockets && s != t && s.sock != -1 ==> s.sock != t.sock
      ensures forall c :: c in sockets && c.state == Opened && c.parent != null ==>
                c.parent in sockets && c.parent.server && c.sock in c.parent.acceptClients
      ensures forall v, fd :: v in sockets && fd in v.acceptClients ==>
                exists c :: c in sockets && c.parent == v && c.state == Opened && c.sock == fd
      ensures forall v, i, j :: v in sockets && 0 <= i < j < |v.acceptClients| ==> v.acceptClients[i] != v.acceptClients[j]
      ensures os.open == Held(os.log) && Proper(os.log)
    {
      forall c | c in sockets && c.state == Opened && c.parent != null
        ensures c.parent in sockets && c.parent.server && c.sock in c.parent.acceptClients
      {
        assert SocketOk(c);
        assert ListOk(c.parent) && LiveClient(c, c.parent);
      }
      forall v, fd | v in sockets && fd in v.acceptClients
        ensures exists c :: c in sockets && c.parent == v && c.state == Opened && c.sock == fd
      {
        assert ListOk(v);
        var c :| c in sockets && LiveClient(c, v) && c.sock == fd;
      }
      forall v | v in sockets ensures NoRepeats(v.acceptClients) { assert ListOk(v); }
    }

    /** What is lost: the open descriptors of no socket object. */
    lemma Lost()
      ensures forall fd :: fd in Leaked() <==> fd in os.open && forall s :: s in sockets ==> s.sock != fd
      ensures Leaked() == {} <==> forall fd :: fd in os.open ==> exists s :: s in sockets && s.sock == fd
    {
      if Leaked() == {} {
        forall fd | fd in os.open ensures exists s :: s in sockets && s.sock == fd {
          assert fd !in Leaked();
          assert !Unowned(fd);
        }
      }
    }

    /**
      Any history of creations, opens, closes, accepts, moves and destructions, in which a server
      is moved or destroyed only when it has no live client, keeps the ownership of descriptors. A
      history that in addition never opens a prepared socket loses no descriptor.
     */
    method AnyHistory(steps: nat, careful: bool)
      requires Valid()
      modifies this`sockets, sockets, os
      ensures Valid() && fresh(sockets - old(sockets))
      ensures forall s :: s in sockets ==> (s.state == Created <==> s.sock == -1)
      ensures forall s :: s in sockets && s.sock != -1 ==> s.sock in os.open
      ensures forall s, t :: s in sockets && t in sockets && s != t && s.sock != -1 ==> s.sock != t.sock
      ensures forall c :: c in sockets && c.state == Opened && c.parent != null ==>
                c.parent in sockets && c.parent.server && c.sock in c.parent.acceptClients
      ensures forall v, fd :: v in sockets && fd in v.acceptClients ==>
                exists c :: c in sockets && c.parent == v && c.state == Opened && c.sock == fd
      ensures forall v, i, j :: v in sockets && 0 <= i < j < |v.acceptClients| ==> v.acceptClients[i] != v.acceptClients[j]
      ensures os.open == Held(os.log) && Proper(os.log)
      ensures careful && old(forall fd :: fd in os.open ==> exists s :: s in sockets && s.sock == fd) ==>
                forall fd :: fd in os.open ==> exists s :: s in sockets && s.sock == fd
    {
      Lost();
      for i := 0 to steps
        invariant Valid() && fresh(sockets - old(sockets))
        invariant old(Leaked()) <= Leaked() && (careful ==> Leaked() == old(Leaked()))
        modifies this`sockets, sockets, os
      {
        OneStep(careful);
      }
      Ownership();
      Lost();
    }

    method OneStep(careful: bool)
      requires Valid()
      modifies this`sockets, sockets, os
      ensures Valid() && fresh(sockets - old(sockets))
      ensures old(Leaked()) <= Leaked() && (careful ==> Leaked() == old(Leaked()))
    {
      var flag: bool := *;
      if sockets == {} {
        var s := Create(flag);
      } else {
        var s :| s in sockets;
        if {
          case true => var t := Create(flag);
          case !careful || s.state != Prepared => var r, a, attempt, e := Open(s, 5000);
          case true => var r := Close(s);
          case s.server => var c, ok, address, rv, readable := Accept(s, 1000, flag, []);
          case NoLiveClients(s) => var t := Move(s);
          case NoLiveClients(s) => Destroy(s);
        }
      }
    }
  }
}
