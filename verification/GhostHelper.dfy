/**
 The conversation between Bash and its private prediction helper
 (anduinos-bash-guess-command/native/anduinos_ghost.c): one request line, one reply line, a
 deadline, and a fresh process after every failure.

 The socket is a pair of byte streams: what the front end has sent to the present helper, and how
 much of the helper's output it has taken. The helper is assumed to answer every complete line it
 has been sent with one line, in order, where the answer may depend on all lines before; a request
 that was cut short and a reply that was not fetched stay in the streams. How many bytes a call
 moves, when it would block and when the deadline strikes is left open: each of those is an element
 of a script, and the deadline has passed when the script is used up.
 */
module GhostHelper {
  import opened Sequences
  import opened HexCodec

  type Line = seq<Byte>

  /** What the next system call does. */
  datatype Io = Moves(count: nat) | WouldBlock(ready: bool) | Breaks

  /** What an attempt to start a helper does. */
  datatype Spawn = Disabled | Unavailable | NoFork | NoFlags(child: int) | Started(socket: int, child: int)

  /** A reply that exchange has handed out: for which operation, and all the answering helper had been asked. */
  datatype Answer = Answer(operation: nat, asked: seq<Line>, reply: Line)

  /** Everything the shell may do with the helper. */
  datatype Operation =
    | Ask(message: Message, sends: seq<Io>, receives: seq<Io>)
    | Reconfigure
    | Startup
    | Suspend(exits: bool)

  class Frontend {
    const helper: seq<Line> -> Line
    var daemonFd: int
    var daemonPid: int
    /** The socket: the bytes sent to the present helper, and how many of its output have been taken. */
    var sent: seq<Byte>
    var taken: nat
    /** The requests the present helper has answered. */
    ghost var asked: seq<Line>
    /** Children that are not reaped yet, and the replies that were handed out. */
    ghost var children: set<int>
    ghost var answers: seq<Answer>

    ghost predicate Valid()
      reads this
    {
      Tended() && InStep()
    }

    /** Descriptor and process number belong together, and no other child is left. */
    ghost predicate Tended()
      reads this
    {
      && (if daemonFd >= 0 then daemonPid > 0 && children == {daemonPid}
          else daemonFd == -1 && daemonPid == -1 && children == {})
      && (forall i :: 0 <= i < |answers| ==> answers[i].asked != [] && answers[i].reply == helper(answers[i].asked))
    }

    /** Whole requests have been sent, and every byte of the replies to them has been taken. */
    ghost predicate InStep()
      reads this
    {
      && (daemonFd < 0 ==> asked == [])
      && AllLines(asked) && sent == Flat(asked) && taken == |Replies(helper, asked)|
    }

    constructor (helper: seq<Line> -> Line)
      ensures Valid() && daemonFd == -1 && answers == [] && this.helper == helper
    {
      this.helper := helper;
      daemonFd, daemonPid, sent, taken := -1, -1, [], 0;
      asked, children, answers := [], {}, [];
    }

    /** Descriptors and process numbers that the system hands out are valid, and the number is new. */
    ghost predicate Sane(how: Spawn)
      reads this
    {
      && (how.Started? ==> how.socket >= 0 && how.child > 0 && how.child !in children)
      && (how.NoFlags? ==> how.child > 0 && how.child !in children)
    }

    /** start_daemon: descriptor and process number are set together, or the child is gone again. */
    method StartDaemon(how: Spawn) returns (ok: bool)
      requires Valid() && (daemonFd < 0 ==> Sane(how))
      modifies this
      ensures Valid() && answers == old(answers)
      ensures ok <==> !how.Disabled? && (old(daemonFd) >= 0 || how.Started?)
      ensures old(daemonFd) >= 0 || !ok ==>
              daemonFd == old(daemonFd) && daemonPid == old(daemonPid) && asked == old(asked)
      ensures ok && old(daemonFd) < 0 ==> daemonFd == how.socket && daemonPid == how.child && asked == []
    {
      if how.Disabled? {
        return false;
      }
      if daemonFd >= 0 {
        return true;
      }
      match how
      case Started(socket, child) =>
        children := children + {child};
        daemonFd, daemonPid := socket, child;
        return true;
      case NoFlags(child) =>
        children := children + {child};
        Reap(child);
        return false;
      case Unavailable => return false;
      case NoFork => return false;
    }

    method Reap(pid: int)
      modifies this`children
      ensures children == old(children) - {pid}
    {
      children := children - {pid};
    }

    /** force_stop_daemon: no child is left behind. */
    method ForceStop()
      requires Tended()
      modifies this
      ensures Valid() && daemonFd == -1 && children == {} && answers == old(answers)
    {
      var pid := daemonPid;
      daemonFd, daemonPid := -1, -1;
      sent, taken, asked := [], 0, [];
      if pid > 0 {
        Reap(pid);
      }
    }

    /** graceful_stop_daemon: a helper that does not leave by itself is killed; either way it is reaped. */
    method GracefulStop(exits: bool)
      requires Valid()
      modifies this
      ensures Valid() && daemonFd == -1 && children == {} && answers == old(answers)
    {
      var pid, fd := daemonPid, daemonFd;
      daemonFd, daemonPid := -1, -1;
      sent, taken, asked := [], 0, [];
      if fd < 0 {
        return;
      }
      if exits {
        children := children - {pid};
      } else {
        Reap(pid);
      }
    }

    /** prewarm_fresh_daemon: whatever was pending in the old helper is gone with it. */
    method Prewarm(how: Spawn)
      requires Tended() && WellFormed(how)
      modifies this
      ensures Valid() && Replaced(how) && answers == old(answers)
    {
      ForceStop();
      var _ := StartDaemon(how);
    }

    /** The helper is a new one that was never asked anything, or there is none. */
    ghost predicate Replaced(how: Spawn)
      reads this
    {
      && asked == [] && sent == [] && taken == 0
      && if how.Started? then daemonFd == how.socket && daemonPid == how.child else daemonFd == -1
    }

    /** What the helper has answered, or will answer, and the front end has not taken. */
    ghost function Pending(): seq<Byte>
      requires taken <= |Output(helper, sent)|
      reads this
    {
      Output(helper, sent)[taken..]
    }

    /**
     exchange: it succeeds exactly when the helper can be had, takes the whole request and delivers
     the whole reply in time and in space; then the buffer holds the reply to this very request, as
     a terminated string. If no helper can be had nothing has changed; every other failure replaces it.
     */
    method Exchange(request: Line, response: array<Byte>, first: Spawn, sends: seq<Io>, receives: seq<Io>,
                    again: Spawn, ghost operation: nat)
      returns (ok: bool)
      requires Valid() && (daemonFd < 0 ==> Sane(first))
      requires WellFormed(again) && IsLine(request) && Orderly(helper)
      modifies this, response
      ensures Valid()
      ensures var before := if old(daemonFd) >= 0 then old(asked) else [];
              var reply := helper(before + [request]);
              && IsLine(reply)
              && (ok <==> && !first.Disabled? && (old(daemonFd) >= 0 || first.Started?)
                          && Sends(|request|, sends) && Arrives(reply, 0, response.Length, receives))
              && (ok ==> && asked == before + [request]
                         && |reply| < response.Length && response[..|reply|] == reply && response[|reply|] == 0
                         && answers == old(answers) + [Answer(operation, asked, reply)])
      ensures !ok ==> answers == old(answers)
      ensures !ok ==> if first.Disabled? || (old(daemonFd) < 0 && !first.Started?)
                      then daemonFd == old(daemonFd) && daemonPid == old(daemonPid) && asked == old(asked)
                      else Replaced(again)
    {
      ok := StartDaemon(first);
      if !ok {
        return;
      }
      ok := Converse(request, response, sends, receives, again, operation);
    }

    /** Lines 436-489: with a helper that is in step. */
    method Converse(request: Line, response: array<Byte>, sends: seq<Io>, receives: seq<Io>, again: Spawn,
                    ghost operation: nat)
      returns (ok: bool)
      requires Valid() && daemonFd >= 0 && WellFormed(again) && IsLine(request) && Orderly(helper)
      modifies this, response
      ensures Valid()
      ensures var reply := helper(old(asked) + [request]);
              && IsLine(reply)
              && (ok <==> Sends(|request|, sends) && Arrives(reply, 0, response.Length, receives))
              && (ok ==> && asked == old(asked) + [request]
                         && |reply| < response.Length && response[..|reply|] == reply && response[|reply|] == 0
                         && answers == old(answers) + [Answer(operation, asked, reply)])
      ensures !ok ==> answers == old(answers) && Replaced(again)
    {
      ghost var before := asked;
      ok := SendAll(request, sends);
      if !ok {
        Prewarm(again);
        return;
      }
      NextReply(helper, before, request);
      ok := Receive(response, receives);
      if !ok {
        Prewarm(again);
        return;
      }
      asked := before + [request];
      FlatSnoc(before, request);
      answers := answers + [Answer(operation, asked, helper(asked))];
    }

    /** The sending loop: the whole request has left, or some of it before the attempt is given up. */
    method SendAll(request: Line, script: seq<Io>) returns (ok: bool)
      modifies this`sent
      ensures ok == Sends(|request|, script)
      ensures ok ==> sent == old(sent) + request
      ensures exists k :: 0 <= k <= |request| && sent == old(sent) + request[..k]
    {
      var done, step := 0, 0;
      while done < |request|
        invariant 0 <= done <= |request| && 0 <= step <= |script|
        invariant sent == old(sent) + request[..done]
        invariant Sends(|request|, script) == Sends(|request| - done, script[step..])
        decreases |script| - step
      {
        if step == |script| {
          return false;
        }
        assert script[step..][1..] == script[step + 1..];
        match script[step] {
          case Moves(count) =>
            if count == 0 {
              return false;
            }
            var next := done + Min(count, |request| - done);
            assert request[..done] + request[done..next] == request[..next];
            sent := sent + request[done..next];
            done := next;
          case WouldBlock(ready) =>
            if !ready {
              return false;
            }
          case Breaks =>
            return false;
        }
        step := step + 1;
      }
      assert request[..done] == request;
      return true;
    }

    /** One recv: the next bytes of the helper's output go to the buffer. */
    method Take(response: array<Byte>, at: nat, count: nat)
      requires taken + count <= |Output(helper, sent)| && at + count <= response.Length
      modifies this`taken, response
      ensures taken == old(taken) + count
      ensures forall i :: 0 <= i < at ==> response[i] == old(response[i])
      ensures forall i :: at <= i < at + count ==> response[i] == Output(helper, sent)[old(taken) + (i - at)]
    {
      var bytes := Output(helper, sent)[taken..taken + count];
      forall i | 0 <= i < count {
        response[at + i] := bytes[i];
      }
      taken := taken + count;
    }

    /**
     The receiving loop. While one line is pending, it stops at the newline with nothing left to
     take, and writes at most up to the last byte of the buffer.
     */
    method Receive(response: array<Byte>, script: seq<Io>) returns (ok: bool)
      requires taken <= |Output(helper, sent)| && IsLine(Pending())
      modifies this`taken, response
      ensures ok == Arrives(old(Pending()), 0, response.Length, script)
      ensures ok ==> taken == |Output(helper, sent)|
      ensures ok ==> var reply := old(Pending());
                     |reply| < response.Length && response[..|reply|] == reply && response[|reply|] == 0
    {
      ghost var reply := Pending();
      ghost var first := taken;
      var used, step := 0, 0;
      while used + 1 < response.Length
        invariant 0 <= used < |reply| && 0 <= step <= |script|
        invariant taken == first + used && used <= response.Length
        invariant forall i :: 0 <= i < used ==> response[i] == reply[i]
        invariant Arrives(reply, 0, response.Length, script) == Arrives(reply, used, response.Length, script[step..])
        decreases |script| - step
      {
        if step == |script| {
          return false;
        }
        assert script[step..][1..] == script[step + 1..];
        match script[step] {
          case WouldBlock(ready) =>
            if !ready {
              return false;
            }
          case Breaks =>
            return false;
          case Moves(count) =>
            if count == 0 {
              return false;
            }
            var got := Min(count, Min(|Output(helper, sent)| - taken, response.Length - used - 1));
            Take(response, used, got);
            assert forall i :: used <= i < used + got ==> reply[i] == Output(helper, sent)[first + i];
            assert forall i :: 0 <= i < used + got ==> response[i] == reply[i];
            var newline := FindNewline(response, used, got);
            used := used + got;
            assert newline >= 0 <==> used == |reply|;
            if newline >= 0 {
              response[newline + 1] := 0;
              return true;
            }
            if used + 1 >= response.Length {
              return false;
            }
        }
        step := step + 1;
      }
      return false;
    }

    /**
     Any sequence of operations: every reply that was handed out answered the request of its own
     operation, none answered twice, and the only child left is the present helper.
     */
    method Run(operations: seq<Operation>, first: seq<Spawn>, again: seq<Spawn>)
      requires Valid() && |first| == |again| == |operations|
      requires Orderly(helper)
      requires forall i :: 0 <= i < |operations| ==> WellFormed(first[i]) && WellFormed(again[i])
      modifies this
      ensures Valid()
      ensures old(answers) <= answers
      ensures forall i :: |old(answers)| <= i < |answers| ==> OwnReply(answers[i], operations)
      ensures forall i, j :: |old(answers)| <= i < j < |answers| ==> answers[i].operation < answers[j].operation
      ensures children == if daemonFd >= 0 then {daemonPid} else {}
    {
      for i := 0 to |operations|
        invariant Valid() && old(answers) <= answers
        invariant forall k :: |old(answers)| <= k < |answers| ==>
                    OwnReply(answers[k], operations) && answers[k].operation < i
        invariant forall j, k :: |old(answers)| <= j < k < |answers| ==> answers[j].operation < answers[k].operation
      {
        Operate(operations[i], first[i], again[i], i);
      }
    }

    /** One operation: at most one reply is handed out, to its own request. */
    method Operate(operation: Operation, first: Spawn, again: Spawn, ghost i: nat)
      requires Valid() && Orderly(helper) && WellFormed(first) && WellFormed(again)
      modifies this
      ensures Valid() && old(answers) <= answers && |answers| <= |old(answers)| + 1
      ensures |answers| > |old(answers)| ==>
                && answers[|old(answers)|].operation == i
                && operation.Ask? && ReplyTo(answers[|old(answers)|], operation.message)
    {
      match operation
      case Ask(message, sends, receives) =>
        var request := Request(message);
        if request.Some? {
          TextIsLine(message);
          MessageReads(message);
          var response := new Byte[ReplyCapacity(message)];
          var _ := Exchange(request.value, response, first, sends, receives, again, i);
        }
      case Reconfigure =>
        if daemonFd >= 0 {
          ForceStop();
        }
        var _ := StartDaemon(first);
      case Startup =>
        var _ := StartDaemon(first);
      case Suspend(exits) =>
        GracefulStop(exits);
    }

    /**
     The reply is the helper's, and the last line it had been asked reads as this message. The reading
     stands under a quantifier so that it is not unfolded for every answer.
     */
    ghost predicate ReplyTo(a: Answer, message: Message) {
      && |a.asked| > 0 && a.reply == helper(a.asked)
      && (forall line :: line == a.asked[|a.asked| - 1] ==> ReadMessage(line) == Some(message))
    }

    ghost predicate OwnReply(a: Answer, operations: seq<Operation>) {
      && a.operation < |operations| && operations[a.operation].Ask?
      && ReplyTo(a, operations[a.operation].message)
    }
  }

  /** The helper answers whatever it is asked with one line. */
  ghost predicate Orderly(helper: seq<Line> -> Line) {
    forall lines :: IsLine(helper(lines))
  }

  // ---------------------------------------------------------------- the streams

  /** The length of the first line, or 0 when no line is complete. */
  function FirstLine(bytes: seq<Byte>): (n: nat)
    ensures n <= |bytes|
  {
    if bytes == [] then 0
    else if bytes[0] == 10 then 1
    else
      var rest := FirstLine(bytes[1..]);
      if rest == 0 then 0 else rest + 1
  }

  /** The complete lines of a stream. */
  function Lines(bytes: seq<Byte>): seq<Line>
    decreases |bytes|
  {
    var n := FirstLine(bytes);
    if n == 0 then [] else [bytes[..n]] + Lines(bytes[n..])
  }

  /** All replies to a list of requests, one after the other. */
  function Replies(helper: seq<Line> -> Line, asked: seq<Line>): seq<Byte>
    decreases |asked|
  {
    if asked == [] then [] else Replies(helper, asked[..|asked| - 1]) + helper(asked)
  }

  /** What a helper writes when it is sent these bytes. */
  function Output(helper: seq<Line> -> Line, bytes: seq<Byte>): seq<Byte> {
    Replies(helper, Lines(bytes))
  }

  ghost function Flat(lines: seq<Line>): seq<Byte> {
    if lines == [] then [] else lines[0] + Flat(lines[1..])
  }

  ghost predicate AllLines(lines: seq<Line>) {
    forall i :: 0 <= i < |lines| ==> IsLine(lines[i])
  }

  lemma {:induction false} FlatSnoc(lines: seq<Line>, line: Line)
    ensures Flat(lines + [line]) == Flat(lines) + line
  {
    if lines == [] {
      assert [line][1..] == [];
    } else {
      assert (lines + [line])[1..] == lines[1..] + [line];
      FlatSnoc(lines[1..], line);
    }
  }

  lemma {:induction false} FirstLineOf(line: Line, rest: seq<Byte>)
    requires IsLine(line)
    ensures FirstLine(line + rest) == |line|
    decreases |line|
  {
    assert (line + rest)[1..] == line[1..] + rest;
    if |line| > 1 {
      FirstLineOf(line[1..], rest);
    }
  }

  /** A stream of whole lines splits into just those lines. */
  lemma {:induction false} LinesOf(lines: seq<Line>)
    requires AllLines(lines)
    ensures Lines(Flat(lines)) == lines
  {
    if lines != [] {
      FirstLineOf(lines[0], Flat(lines[1..]));
      LinesOf(lines[1..]);
      assert Flat(lines)[|lines[0]|..] == Flat(lines[1..]);
    }
  }

  /** With everything before it answered and taken, what is pending is the reply to the request just sent. */
  lemma NextReply(helper: seq<Line> -> Line, before: seq<Line>, request: Line)
    requires AllLines(before) && IsLine(request)
    ensures Output(helper, Flat(before) + request) == Replies(helper, before) + helper(before + [request])
    ensures Output(helper, Flat(before)) == Replies(helper, before)
  {
    FlatSnoc(before, request);
    LinesOf(before);
    LinesOf(before + [request]);
    assert (before + [request])[..|before|] == before;
  }

  ghost predicate WellFormed(how: Spawn) {
    (how.Started? ==> how.socket >= 0 && how.child > 0) && (how.NoFlags? ==> how.child > 0)
  }

  /** Whether `n` bytes leave in time. */
  ghost predicate Sends(n: nat, script: seq<Io>)
    decreases |script|
  {
    n == 0 ||
    (script != [] &&
     match script[0]
     case Moves(count) => count > 0 && Sends(n - Min(count, n), script[1..])
     case WouldBlock(ready) => ready && Sends(n, script[1..])
     case Breaks => false)
  }

  /** Whether the rest of the reply arrives in time, and in a buffer of this capacity with its terminator. */
  ghost predicate Arrives(reply: Line, used: nat, capacity: nat, script: seq<Io>)
    requires used < |reply|
    decreases |script|
  {
    && used + 1 < capacity
    && script != []
    && match script[0]
       case Moves(count) =>
         var got := Min(count, Min(|reply| - used, capacity - used - 1));
         count > 0 && (used + got == |reply| || Arrives(reply, used + got, capacity, script[1..]))
       case WouldBlock(ready) => ready && Arrives(reply, used, capacity, script[1..])
       case Breaks => false
  }

  /** A call that moves something, or blocks and then becomes ready in time. */
  predicate Going(io: Io) {
    match io
    case Moves(count) => count > 0
    case WouldBlock(ready) => ready
    case Breaks => false
  }

  /** The bytes that a script can move at most. */
  function Volume(script: seq<Io>): nat {
    if script == [] then 0 else Volume(script[1..]) + if script[0].Moves? then script[0].count else 0
  }

  /** Calls that keep going move `n` bytes before the deadline. */
  ghost predicate Suffices(n: nat, script: seq<Io>, k: nat) {
    k <= |script| && (forall i :: 0 <= i < k ==> Going(script[i])) && Volume(script[..k]) >= n
  }

  /** Sending succeeds exactly if, before the first failing call, there is room for every byte. */
  lemma {:induction false} SendsIff(n: nat, script: seq<Io>)
    ensures Sends(n, script) <==> exists k: nat :: Suffices(n, script, k)
    decreases |script|
  {
    if n == 0 {
      assert Suffices(0, script, 0);
    } else if script != [] {
      var moved := if script[0].Moves? then Min(script[0].count, n) else 0;
      var left: nat, rest := n - moved, script[1..];
      SendsIff(left, rest);
      if Going(script[0]) && exists k: nat :: Suffices(left, rest, k) {
        var k: nat :| Suffices(left, rest, k);
        assert script[..k + 1][1..] == rest[..k];
        assert forall i :: 0 < i < k + 1 ==> script[i] == rest[i - 1];
        assert Suffices(n, script, k + 1);
      }
      if exists k: nat :: Suffices(n, script, k) {
        var k: nat :| Suffices(n, script, k);
        assert k > 0 && script[..k][1..] == rest[..k - 1];
        assert forall i :: 0 <= i < k - 1 ==> rest[i] == script[i + 1];
        assert Suffices(left, rest, k - 1);
      }
    }
  }

  /** A reply arrives exactly if it fits with its terminator and could have been sent by the same script. */
  lemma {:induction false} ArrivesIff(reply: Line, used: nat, capacity: nat, script: seq<Io>)
    requires used < |reply|
    ensures Arrives(reply, used, capacity, script) <==> |reply| < capacity && Sends(|reply| - used, script)
    decreases |script|
  {
    if used + 1 < capacity && script != [] {
      match script[0]
      case Moves(count) =>
        var got := Min(count, Min(|reply| - used, capacity - used - 1));
        if count > 0 && used + got < |reply| {
          ArrivesIff(reply, used + got, capacity, script[1..]);
        }
      case WouldBlock(ready) =>
        ArrivesIff(reply, used, capacity, script[1..]);
      case Breaks =>
    }
  }

  /** memchr for the end of a line. */
  method FindNewline(response: array<Byte>, from: nat, count: nat) returns (at: int)
    requires from + count <= response.Length
    ensures at == -1 || from <= at < from + count
    ensures at == -1 ==> forall i :: from <= i < from + count ==> response[i] != 10
    ensures at >= 0 ==> response[at] == 10 && forall i :: from <= i < at ==> response[i] != 10
  {
    for i := from to from + count
      invariant forall k :: from <= k < i ==> response[k] != 10
    {
      if response[i] == 10 {
        return i;
      }
    }
    return -1;
  }
}
