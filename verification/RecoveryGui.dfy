/**
 The controller of the recovery interface (anduinos-recovery-env/src/gui.c): one worker process,
 one dialog, and a catalogue on the heap that widgets point into.

 A pointer into the catalogue is a generation and an index; releasing the catalogue starts a new
 generation, so a pointer of an older one is dangling. Any enabled or disabled button may be
 pressed at any time, except that an open dialog takes all input, as its focus group and backdrop
 make it do.
 */
module RecoveryGui {
  import opened Sequences

  const MAX_RESPONSE := 16 * 1024 * 1024

  datatype Operation = List | Information | Create | Restore | Resume | Restart

  /** An element of the report's "deployments" array. */
  datatype Deployment = NotObject | Deployment(id: string, stateReady: bool, failureNull: bool)

  /** What the JSON parser makes of a response. */
  datatype Report =
    | Unreadable
    | Report(schemaOk: bool, deployments: Option<seq<Deployment>>, pending: bool)

  /** A slot of the catalogue; a slot whose element was no object stays empty and has no row. */
  datatype Snapshot = Empty | Snapshot(id: string, ready: bool)

  datatype Pointer = Pointer(generation: nat, index: nat)

  /** What the system makes of an attempt to start the helper. */
  datatype Launch = NoLog | NoPipe | NoFork | Launched(pid: int)

  /** One successful read from the pipe, and whether the buffer could grow. */
  datatype Chunk = Chunk(bytes: seq<Byte>, memory: bool)

  datatype Exit = Running | Exited(success: bool)

  /** What one poll finds: the clock, the pipe, the exit status, the rest of the pipe, and the next launch. */
  datatype Poll = Poll(elapsed: nat, first: seq<Chunk>, exit: Exit, rest: seq<Chunk>,
                       catalogueMemory: bool, launch: Launch)

  datatype Event =
    | PressRow(row: nat)
    | PressAccept(launch: Launch)
    | PressCancel
    | PressAction(op: Operation, launch: Launch)
    | PressDetails
    | Tick(poll: Poll)

  /** A helper that was started, and the newest accepted report at that time. */
  datatype Start = Start(op: Operation, id: string, newest: Option<Report>)

  datatype Signal = Signal(op: Operation, hard: bool)

  predicate HexDigit(c: char) {
    '0' <= c <= '9' || 'a' <= c <= 'f' || 'A' <= c <= 'F'
  }

  predicate UuidValid(s: string) {
    |s| == 36 && forall i :: 0 <= i < 36 ==>
      if i == 8 || i == 13 || i == 18 || i == 23 then s[i] == '-' else HexDigit(s[i])
  }

  /** snprintf into a buffer of 37 characters. */
  function Bounded(s: string): string {
    if |s| > 36 then s[..36] else s
  }

  function Slot(d: Deployment): Snapshot {
    match d
    case NotObject => Empty
    case Deployment(id, stateReady, failureNull) => Snapshot(id, UuidValid(id) && stateReady && failureNull)
  }

  /** The entry has the id of the element, and counts as ready exactly if the element is restorable. */
  ghost predicate Shows(entry: Snapshot, d: Deployment) {
    if d.NotObject? then entry == Empty else entry == Snapshot(d.id, Restorable(d))
  }

  function Slots(ds: seq<Deployment>): seq<Snapshot> {
    seq(|ds|, i requires 0 <= i < |ds| => Slot(ds[i]))
  }

  /** The report is a catalogue that may be offered for selection. */
  ghost predicate Offers(r: Option<Report>) {
    r.Some? && r.value.Report? && r.value.schemaOk && r.value.deployments.Some? && !r.value.pending
  }

  /** The element is an object that names a snapshot by a proper id, in state "ready" and without a failure. */
  ghost predicate Restorable(d: Deployment) {
    d.Deployment? && UuidValid(d.id) && d.stateReady && d.failureNull
  }

  /**
   The newest report has the supported schema and nothing pending, and one of its elements names `id`
   and is restorable.
   */
  ghost predicate Authorised(newest: Option<Report>, id: string) {
    && newest.Some? && newest.value.Report? && newest.value.schemaOk && newest.value.deployments.Some?
    && !newest.value.pending
    && exists i :: 0 <= i < |newest.value.deployments.value|
         && Restorable(newest.value.deployments.value[i]) && newest.value.deployments.value[i].id == id
  }

  ghost predicate Hexadecimal(s: string, n: nat) {
    |s| == n && forall i :: 0 <= i < n ==> HexDigit(s[i])
  }

  /** A proper id is five groups of hexadecimal digits, joined by dashes. */
  lemma UuidShape(s: string)
    ensures UuidValid(s) <==>
            exists a, b, c, d, e :: Hexadecimal(a, 8) && Hexadecimal(b, 4) && Hexadecimal(c, 4) && Hexadecimal(d, 4)
              && Hexadecimal(e, 12) && s == a + "-" + b + "-" + c + "-" + d + "-" + e
  {
    if UuidValid(s) {
      var a, b, c, d, e := s[..8], s[9..13], s[14..18], s[19..23], s[24..];
      assert Hexadecimal(a, 8) && Hexadecimal(b, 4) && Hexadecimal(c, 4) && Hexadecimal(d, 4) && Hexadecimal(e, 12);
      assert s == a + "-" + b + "-" + c + "-" + d + "-" + e;
    }
  }

  function Bytes(cs: seq<Chunk>): seq<Byte> {
    if cs == [] then [] else cs[0].bytes + Bytes(cs[1..])
  }

  lemma {:induction false} BytesSnoc(cs: seq<Chunk>, k: nat)
    requires k < |cs|
    ensures Bytes(cs[..k + 1]) == Bytes(cs[..k]) + cs[k].bytes
  {
    if k == 0 {
      assert cs[..1] == [cs[0]] && cs[..0] == [];
      assert Bytes(cs[..1]) == cs[0].bytes + Bytes([]);
    } else {
      assert cs[..k + 1][1..] == cs[1..][..k] && cs[..k][1..] == cs[1..][..k - 1];
      BytesSnoc(cs[1..], k - 1);
    }
  }

  class Gui {
    const parse: seq<Byte> -> Report
    var snapshots: seq<Snapshot>
    var generation: nat
    /** User data of the Roll Back buttons on the page, and of the dialog's accept button. */
    var rows: seq<Pointer>
    var dialog: Option<Pointer>
    var worker: int
    var operation: Operation
    var informationPage: bool
    var informationTimedOut: bool
    var response: seq<Byte>
    var responseOverflow: bool
    /** The newest report that replaced the catalogue; all output of the present helper. */
    ghost var newest: Option<Report>
    ghost var output: seq<Byte>
    ghost var starts: seq<Start>
    ghost var signals: seq<Signal>
    ghost var parsed: seq<seq<Byte>>

    ghost predicate Live(p: Pointer)
      reads this
    {
      p.generation == generation && p.index < |snapshots| && snapshots[p.index].Snapshot?
    }

    ghost predicate Valid()
      reads this
    {
      && worker >= 0
      && (dialog.Some? ==> worker == 0)
      && (forall i :: 0 <= i < |rows| ==> Live(rows[i]))
      && (rows != [] || dialog.Some? ==> Offers(newest) && snapshots == Slots(newest.value.deployments.value))
      && (dialog.Some? ==> Live(dialog.value) && snapshots[dialog.value.index].ready)
      && (worker != 0 && !responseOverflow ==> response == output)
      && |response| <= MAX_RESPONSE
      && (worker != 0 && informationTimedOut ==> operation == Information)
      && (worker != 0 && (operation == List || operation == Information) ==>
          informationPage == (operation == Information))
      && History()
    }

    /** What has happened so far was allowed. */
    ghost predicate History()
      reads this
    {
      && (forall i :: 0 <= i < |starts| && starts[i].op == Restore ==> Authorised(starts[i].newest, starts[i].id))
      && (forall i :: 0 <= i < |signals| ==> signals[i].op == Information)
    }

    constructor (parse: seq<Byte> -> Report, launch: Launch)
      ensures Valid() && starts <= [Start(List, "", None)] && signals == [] && parsed == []
    {
      this.parse := parse;
      snapshots, generation, rows, dialog := [], 0, [], None;
      worker, operation, informationPage, informationTimedOut := 0, List, false, false;
      response, responseOverflow := [], false;
      newest, output, starts, signals, parsed := None, [], [], [], [];
      new;
      StartAction(List, "", launch);
    }

    // -------------------------------------------------------------- pages and dialogs

    /** Building a page deletes the widgets of the previous one. */
    method NewPage()
      modifies this`rows
      ensures rows == []
    {
      rows := [];
    }

    method Failed()
      modifies this`rows
      ensures rows == []
    {
      NewPage();
    }

    method CloseDialog()
      modifies this`dialog
      ensures dialog == None
    {
      if dialog.None? {
        return;
      }
      dialog := None;
    }

    method FreeSnapshots()
      modifies this`snapshots, this`generation
      ensures snapshots == [] && generation == old(generation) + 1
    {
      generation := generation + 1;
      snapshots := [];
    }

    /** A dialog opens exactly for the row of a restorable element while no helper runs, and for that row. */
    method Confirm(row: nat)
      requires Valid() && dialog.None? && row < |rows|
      modifies this`dialog
      ensures Valid()
      ensures Offers(newest) && rows[row].index < |newest.value.deployments.value|
      ensures dialog == if Restorable(newest.value.deployments.value[rows[row].index]) && worker == 0
                        then Some(rows[row]) else None
    {
      assert Live(rows[row]);
      assert snapshots[rows[row].index] == Slot(newest.value.deployments.value[rows[row].index]);
      var snapshot := snapshots[rows[row].index];
      if !snapshot.ready || worker != 0 {
        return;
      }
      dialog := Some(rows[row]);
    }

    /** The copied identifier is never cut short, because a ready snapshot has one of 36 characters. */
    method Accept(launch: Launch)
      requires Valid() && dialog.Some?
      modifies this
      ensures Valid() && dialog.None?
      ensures launch.Launched? && launch.pid > 0 ==>
                && worker == launch.pid && operation == Restore
                && starts == old(starts) + [Start(Restore, old(snapshots)[old(dialog).value.index].id, old(newest))]
      ensures !(launch.Launched? && launch.pid > 0) ==> worker == 0 && starts == old(starts)
    {
      var id := snapshots[dialog.value.index].id;
      var identifier := Bounded(id);
      assert Slots(newest.value.deployments.value)[dialog.value.index] ==
          Slot(newest.value.deployments.value[dialog.value.index]);
      assert identifier == id;
      CloseDialog();
      StartAction(Restore, identifier, launch);
    }

    // -------------------------------------------------------------- the catalogue

    /** The report replaces the catalogue, or changes nothing but the page. */
    method Listed(report: Report, memory: bool)
      requires Valid() && report.Report? && worker == 0 && dialog.None?
      modifies this`rows, this`snapshots, this`generation, this`newest
      ensures Valid()
      ensures !report.schemaOk || report.deployments.None? ==> rows == [] && newest == old(newest)
      ensures report.schemaOk && report.deployments.Some? ==> newest == Some(report)
      ensures report.schemaOk && report.deployments.Some? && report.pending ==> rows == [] && snapshots == []
      ensures report.schemaOk && report.deployments.Some? && !report.pending && memory ==>
                && |snapshots| == |report.deployments.value|
                && (forall i :: 0 <= i < |snapshots| ==> Shows(snapshots[i], report.deployments.value[i]))
                && forall i: nat :: Pointer(generation, i) in rows <==> i < |snapshots| && snapshots[i].Snapshot?
    {
      if !report.schemaOk || report.deployments.None? {
        Failed();
        return;
      }
      FreeSnapshots();
      newest := Some(report);
      if report.pending {
        NewPage();
        return;
      }
      NewPage();
      if report.deployments.value != [] && !memory {
        Failed();
        return;
      }
      snapshots := Slots(report.deployments.value);
      for i := 0 to |snapshots|
        modifies this`rows
        invariant snapshots == Slots(report.deployments.value)
        invariant forall k :: 0 <= k < |rows| ==> Live(rows[k])
        invariant forall k: nat :: Pointer(generation, k) in rows <==> k < i && snapshots[k].Snapshot?
      {
        if snapshots[i].Snapshot? {
          rows := rows + [Pointer(generation, i)];
        }
      }
    }

    // -------------------------------------------------------------- the worker

    /** Lines 766-795: a busy page without a dialog, and nothing left of the previous response. */
    method Reset(op: Operation)
      requires Valid() && worker == 0
      modifies this`dialog, this`informationPage, this`rows, this`operation, this`informationTimedOut,
               this`response, this`responseOverflow, this`output
      ensures Valid()
      ensures dialog.None? && rows == [] && response == [] && output == [] && !responseOverflow
      ensures operation == op && !informationTimedOut
      ensures informationPage == if op == Information || op == List then op == Information else old(informationPage)
    {
      CloseDialog();
      if op == Information || op == List {
        informationPage := op == Information;
      }
      NewPage();
      operation := op;
      informationTimedOut := false;
      response, responseOverflow := [], false;
      output := [];
    }

    /**
     start_action: nothing while a helper runs; otherwise the page and the dialog go away, and either
     one helper runs with an empty response or the failure page shows.
     */
    method StartAction(op: Operation, id: string, launch: Launch)
      requires Valid()
      requires op == Restore && worker == 0 ==> Authorised(newest, id)
      modifies this
      ensures Valid()
      ensures newest == old(newest) && snapshots == old(snapshots) && generation == old(generation)
      ensures signals == old(signals) && parsed == old(parsed)
      ensures old(worker) != 0 ==> worker == old(worker) && starts == old(starts) && operation == old(operation)
      ensures old(worker) != 0 ==> dialog == old(dialog) && rows == old(rows)
      ensures old(worker) != 0 ==> response == old(response) && output == old(output)
      ensures old(worker) == 0 ==> dialog.None? && rows == [] && response == [] && output == [] && operation == op
      ensures old(worker) == 0 && launch.Launched? && launch.pid > 0 ==>
                worker == launch.pid && starts == old(starts) + [Start(op, id, newest)]
      ensures old(worker) == 0 && !(launch.Launched? && launch.pid > 0) ==> worker == 0 && starts == old(starts)
    {
      if worker != 0 {
        return;
      }
      Reset(op);
      if !launch.Launched? || launch.pid <= 0 {
        Failed();
        return;
      }
      worker := launch.pid;
      starts := starts + [Start(op, id, newest)];
    }

    /** Reading the pipe until it is empty. What no longer fits is dropped, and remembered as an overflow. */
    method Drain(chunks: seq<Chunk>)
      requires Valid() && worker != 0
      modifies this`response, this`responseOverflow, this`output
      ensures Valid()
      ensures output == old(output) + Bytes(chunks)
      ensures old(responseOverflow) ==> responseOverflow
    {
      for i := 0 to |chunks|
        invariant Valid() && (old(responseOverflow) ==> responseOverflow)
        invariant output == old(output) + Bytes(chunks[..i])
      {
        BytesSnoc(chunks, i);
        Append(chunks[i]);
      }
      assert chunks[..|chunks|] == chunks;
    }

    /** One read: what does not fit, or finds no memory, is dropped and noted. */
    method Append(chunk: Chunk)
      requires Valid() && worker != 0
      modifies this`response, this`responseOverflow, this`output
      ensures Valid() && output == old(output) + chunk.bytes
      ensures responseOverflow <==>
              old(responseOverflow) || |old(response)| + |chunk.bytes| > MAX_RESPONSE || !chunk.memory
    {
      output := output + chunk.bytes;
      if |response| + |chunk.bytes| > MAX_RESPONSE || !chunk.memory {
        responseOverflow := true;
      } else {
        response := response + chunk.bytes;
      }
    }

    /** Only a read-only inspection that is overdue is signalled, first gently. */
    method CheckDeadline(elapsed: nat)
      requires Valid() && worker != 0
      modifies this`informationTimedOut, this`signals
      ensures Valid()
      ensures operation != Information || elapsed <= 15000 ==>
                informationTimedOut == old(informationTimedOut) && signals == old(signals)
      ensures operation == Information && elapsed > 15000 ==>
                && informationTimedOut
                && signals == old(signals) + (if !old(informationTimedOut) then [Signal(Information, false)]
                                              else if elapsed > 17000 then [Signal(Information, true)] else [])
    {
      if operation == Information && elapsed > 15000 {
        if !informationTimedOut {
          signals := signals + [Signal(operation, false)];
          informationTimedOut := true;
        } else if elapsed > 17000 {
          signals := signals + [Signal(operation, true)];
        }
      }
    }

    /** What the interface does with a helper that has ended. */
    method Finish(success: bool, memory: bool, launch: Launch)
      requires Valid() && worker == 0 && dialog.None?
      requires !responseOverflow ==> response == output
      requires operation == List || operation == Information ==> informationPage == (operation == Information)
      modifies this
      ensures Valid() && dialog.None?
      ensures signals == old(signals)
      ensures parsed == old(parsed) ||
              (&& parsed == old(parsed) + [old(output)] && success
               && (old(operation) == List || old(operation) == Information))
      ensures worker != 0 ==> operation == List && starts == old(starts) + [Start(List, "", newest)]
      ensures worker == 0 ==> starts == old(starts)
      ensures newest == old(newest) || (old(operation) == List && newest == Some(parse(old(output))))
      ensures old(informationTimedOut) || old(responseOverflow) || !success ==>
                parsed == old(parsed) && newest == old(newest) && rows == [] && worker == 0
      ensures success && !old(informationTimedOut) && !old(responseOverflow) && old(operation) == List ==>
                && parsed == old(parsed) + [old(output)]
                && (Offers(Some(parse(old(output)))) && memory ==>
                      newest == Some(parse(old(output))) && snapshots == Slots(newest.value.deployments.value))
    {
      if informationTimedOut || responseOverflow || !success {
        Failed();
        return;
      }
      if operation == List || operation == Information {
        var report := parse(response);
        parsed := parsed + [response];
        if report.Unreadable? {
          Failed();
        } else if informationPage {
          NewPage();
        } else {
          Listed(report, memory);
        }
      } else if operation == Create {
        StartAction(List, "", launch);
      } else if operation != Restart {
        NewPage();
      }
    }

    /** One timer tick: every byte a parsed response contains came from the helper, and none is missing. */
    method PollWorker(poll: Poll)
      requires Valid()
      modifies this
      ensures Valid() && (old(dialog).None? ==> dialog.None?)
      ensures old(worker) == 0 ==> worker == 0 && dialog == old(dialog) && rows == old(rows) && starts == old(starts)
                                   && signals == old(signals) && parsed == old(parsed)
      ensures old(worker) != 0 && old(operation) != Information ==> signals == old(signals)
      ensures parsed == old(parsed) ||
              parsed == old(parsed) + [old(output) + Bytes(poll.first) + Bytes(poll.rest)]
      ensures starts == old(starts) || starts == old(starts) + [Start(List, "", newest)]
    {
      if worker == 0 {
        return;
      }
      CheckDeadline(poll.elapsed);
      Drain(poll.first);
      if poll.exit.Running? {
        return;
      }
      Drain(poll.rest);
      worker := 0;
      Finish(poll.exit.success, poll.catalogueMemory, poll.launch);
    }

    // -------------------------------------------------------------- events

    /** One turn of the event loop. While a dialog is open, only its buttons and the timer react. */
    method Dispatch(e: Event)
      requires Valid()
      modifies this
      ensures Valid() && old(starts) <= starts
      ensures old(worker) != 0 && !e.Tick? ==> worker == old(worker) && starts == old(starts) && signals == old(signals)
      ensures |starts| > |old(starts)| && starts[|old(starts)|].op == Restore ==>
                && e.PressAccept? && old(dialog).Some?
                && starts[|old(starts)|].id == old(snapshots)[old(dialog).value.index].id
    {
      match e
      case PressRow(row) =>
        if dialog.None? && row < |rows| {
          Confirm(row);
        }
      case PressAccept(launch) =>
        if dialog.Some? {
          Accept(launch);
        }
      case PressCancel =>
        CloseDialog();
      case PressAction(op, launch) =>
        if dialog.None? && op != Restore {
          StartAction(op, "", launch);
        }
      case PressDetails =>
        if dialog.None? {
          NewPage();
        }
      case Tick(poll) =>
        PollWorker(poll);
    }

    /**
     Every sequence of events keeps the invariant: an open dialog means no worker, rows and dialogs
     point into the present catalogue, each restore was authorised by the newest report at its start,
     and no helper but a read-only inspection was ever signalled.
     */
    method Run(events: seq<Event>)
      requires Valid()
      modifies this
      ensures Valid() && old(starts) <= starts
      ensures dialog.Some? ==> worker == 0 && Live(dialog.value)
      ensures forall i :: 0 <= i < |rows| ==> Live(rows[i])
      ensures forall i :: 0 <= i < |starts| && starts[i].op == Restore ==> Authorised(starts[i].newest, starts[i].id)
      ensures forall i :: 0 <= i < |signals| ==> signals[i].op == Information
    {
      for i := 0 to |events|
        invariant Valid() && old(starts) <= starts
      {
        Dispatch(events[i]);
      }
    }
  }
}
