/**
 Background work whose result is delivered only while it is the newest
 (anduinos-installer-beta/src/async_work.py), and the draft page that relies on it
 (anduinos-installer-beta/src/pages.py).

 Worker threads and the main loop interleave freely: a request that was started may complete at
 any later time, which queues its delivery, and queued deliveries run in any order.
 */
module LatestRequest {

  /** What work() returned, or the exception it raised. */
  datatype Outcome = Returned(value: string) | Raised(error: string)

  datatype Event =
    | Started(id: nat)
    | Invalidated
    | Activated
    | Called(id: nat, outcome: Outcome)

  /** An event that makes every earlier request stale. */
  predicate Supersedes(e: Event) {
    e.Started? || e.Invalidated?
  }

  /** The callback at `k` belongs to a start before it, and nothing in between made that start stale. */
  ghost predicate Justified(history: seq<Event>, k: nat)
    requires k < |history| && history[k].Called?
  {
    exists j :: 0 <= j < k && FreshSince(history, j, k) && history[j] == Started(history[k].id)
  }

  ghost predicate FreshSince(history: seq<Event>, j: nat, k: nat)
    requires k <= |history|
  {
    forall m :: j < m < k ==> !Supersedes(history[m])
  }

  ghost predicate CalledIn(history: seq<Event>, id: nat) {
    exists k :: 0 <= k < |history| && history[k].Called? && history[k].id == id
  }

  /** Every callback is justified, and no start is answered twice. */
  ghost predicate OnlyNewest(history: seq<Event>) {
    && (forall k :: 0 <= k < |history| && history[k].Called? ==> Justified(history, k))
    && (forall a, b :: 0 <= a < b < |history| && history[a].Called? && history[b].Called? ==>
          history[a].id != history[b].id)
  }

  lemma NewestSnoc(history: seq<Event>, e: Event)
    requires OnlyNewest(history)
    requires e.Called? ==> !CalledIn(history, e.id)
    requires e.Called? ==>
               exists j :: 0 <= j < |history| && FreshSince(history, j, |history|) && history[j] == Started(e.id)
    ensures OnlyNewest(history + [e])
  {
    var longer := history + [e];
    forall k | 0 <= k < |longer| && longer[k].Called?
      ensures Justified(longer, k)
    {
      var j: int;
      if k < |history| {
        assert Justified(history, k);
        j :| 0 <= j < k && FreshSince(history, j, k) && history[j] == Started(history[k].id);
      } else {
        j :| 0 <= j < |history| && FreshSince(history, j, |history|) && history[j] == Started(e.id);
      }
      assert FreshSince(longer, j, k) && longer[j] == Started(longer[k].id);
    }
  }

  class LatestBackgroundRequest {
    var requestId: nat
    var active: bool
    /** Requests whose worker has not finished, and finished ones whose delivery is queued. */
    var running: set<nat>
    var queued: map<nat, Outcome>
    ghost var history: seq<Event>
    /** Where in the history a pending request was started. */
    ghost var startAt: map<nat, nat>

    ghost predicate Pending(id: nat)
      reads this
    {
      id in running || id in queued
    }

    ghost predicate Valid()
      reads this
    {
      && OnlyNewest(history)
      && running !! queued.Keys
      && (forall id: nat :: Pending(id) ==>
            && 1 <= id <= requestId && id in startAt && startAt[id] < |history| && history[startAt[id]] == Started(id)
            && !CalledIn(history, id)
            && (id == requestId ==> FreshSince(history, startAt[id], |history|)))
      && (forall k :: 0 <= k < |history| && history[k].Called? ==> history[k].id <= requestId)
    }

    constructor ()
      ensures Valid() && history == [] && active && requestId == 0 && running == {} && queued == map[]
    {
      requestId, active := 0, true;
      running, queued := {}, map[];
      history, startAt := [], map[];
    }

    method Activate()
      requires Valid()
      modifies this`active, this`history
      ensures Valid() && active && history == old(history) + [Activated]
    {
      NewestSnoc(history, Activated);
      active := true;
      history := history + [Activated];
    }

    method Invalidate()
      requires Valid()
      modifies this`active, this`requestId, this`history
      ensures Valid() && !active && requestId == old(requestId) + 1 && history == old(history) + [Invalidated]
    {
      NewestSnoc(history, Invalidated);
      active := false;
      requestId := requestId + 1;
      history := history + [Invalidated];
    }

    method Start() returns (id: nat)
      requires Valid()
      modifies this
      ensures Valid() && active && id == requestId == old(requestId) + 1
      ensures running == old(running) + {id} && queued == old(queued) && history == old(history) + [Started(id)]
    {
      active := true;
      requestId := requestId + 1;
      id := requestId;
      NewestSnoc(history, Started(id));
      startAt := startAt[id := |history|];
      history := history + [Started(id)];
      running := running + {id};
    }

    /** The worker thread has finished: its delivery is scheduled once. */
    method WorkerDone(id: nat, outcome: Outcome)
      requires Valid() && id in running
      modifies this`running, this`queued
      ensures Valid() && running == old(running) - {id} && queued == old(queued)[id := outcome]
    {
      running := running - {id};
      queued := queued[id := outcome];
    }

    /** The main loop runs a queued delivery: the callback is called exactly if the request is the newest and active. */
    method Deliver(id: nat) returns (called: bool)
      requires Valid() && id in queued
      modifies this`queued, this`history
      ensures Valid() && queued == old(queued) - {id}
      ensures called <==> active && id == requestId
      ensures history == if called then old(history) + [Called(id, old(queued)[id])] else old(history)
    {
      var outcome := queued[id];
      queued := queued - {id};
      called := active && id == requestId;
      if called {
        NewestSnoc(history, Called(id, outcome));
        history := history + [Called(id, outcome)];
      }
    }
  }

  // ---------------------------------------------------------------- the draft page

  /**
   The steps of a page that edits a draft and inspects partitions in the background. `Reload` is the
   delivery of a storage workflow: it keeps the draft when that is the stored selection and still
   fits the disk, and otherwise assigns another one without superseding an inspection. Before the
   first delivery there is no draft, so nothing to edit and nothing to inspect.
   */
  datatype PageStep =
    | ReplaceDraft
    | Reload(kept: bool)
    | BeginResize
    | Finish(id: nat, outcome: Outcome)
    | Dispatch(id: nat)
    | Show
    | Hide

  /** A result that was shown: the draft when its inspection began and when it was shown, and those two steps. */
  datatype Shown = Shown(begun: nat, shown: nat, from: nat, at: nat)

  /** The draft was replaced by an edit, or assigned by a reload, strictly between two steps. */
  ghost predicate Edited(past: seq<PageStep>, from: nat, at: nat) {
    exists m :: from < m < at && m < |past| && past[m].ReplaceDraft?
  }

  ghost predicate Reassigned(past: seq<PageStep>, from: nat, at: nat) {
    exists m :: from < m < at && m < |past| && past[m] == Reload(false)
  }

  lemma IntervalSnoc(past: seq<PageStep>, step: PageStep, from: nat, at: nat)
    ensures at <= |past| ==> Edited(past + [step], from, at) == Edited(past, from, at)
    ensures at <= |past| ==> Reassigned(past + [step], from, at) == Reassigned(past, from, at)
    ensures from < |past| && !step.ReplaceDraft? ==>
              Edited(past + [step], from, |past| + 1) == Edited(past, from, |past|)
    ensures from < |past| && step != Reload(false) ==>
              Reassigned(past + [step], from, |past| + 1) == Reassigned(past, from, |past|)
    ensures from < |past| && step == Reload(false) ==> Reassigned(past + [step], from, |past| + 1)
  {
    var longer := past + [step];
    assert forall m :: 0 <= m < |past| ==> longer[m] == past[m];
    assert longer[|past|] == step;
  }

  class DraftPage {
    const requests: LatestBackgroundRequest
    /** Which draft the page shows; every change makes a new one. */
    var draft: nat
    /** Whether a draft has been loaded yet. */
    var loaded: bool
    /** For each request, the draft and the step it was begun on. */
    ghost var begunOn: map<nat, nat>
    ghost var begunAt: map<nat, nat>
    ghost var past: seq<PageStep>
    ghost var shown: seq<Shown>

    /** A pending inspection knows its draft, and if it may still report, what has happened to it. */
    ghost predicate Tracks(id: nat)
      reads this, requests
    {
      && id in begunOn && id in begunAt && begunAt[id] < |past| && begunOn[id] <= draft
      && (id == requests.requestId ==>
            && !Edited(past, begunAt[id], |past|)
            && (begunOn[id] == draft <==> !Reassigned(past, begunAt[id], |past|)))
    }

    /** A result is never shown on an edited draft, and on a changed one exactly after a reassigning reload. */
    ghost predicate Faithful(s: Shown)
      reads this
    {
      && s.from < s.at < |past| && past[s.from].BeginResize? && past[s.at].Dispatch?
      && !Edited(past, s.from, s.at)
      && (s.begun == s.shown <==> !Reassigned(past, s.from, s.at))
    }

    ghost predicate Valid()
      reads this, requests
    {
      && requests.Valid()
      && (!loaded ==> requests.running == {} && requests.queued == map[])
      && (forall id: nat :: requests.Pending(id) ==> Tracks(id) && past[begunAt[id]].BeginResize?)
      && (forall i :: 0 <= i < |shown| ==> Faithful(shown[i]))
    }

    constructor ()
      ensures Valid() && fresh(requests) && shown == [] && past == [] && !loaded
      ensures requests.active && requests.requestId == 0 && requests.running == {} && requests.queued == map[]
    {
      requests := new LatestBackgroundRequest();
      draft, loaded := 0, false;
      begunOn, begunAt, past, shown := map[], map[], [], [];
    }

    /** Time passes: what was known about every interval of the past stays known. */
    ghost method Record(step: PageStep)
      requires forall i :: 0 <= i < |shown| ==> Faithful(shown[i])
      modifies this`past
      ensures past == old(past) + [step]
      ensures forall i :: 0 <= i < |shown| ==> Faithful(shown[i])
      ensures forall from: nat, at: nat :: at <= |old(past)| ==>
                && Edited(past, from, at) == old(Edited(past, from, at))
                && Reassigned(past, from, at) == old(Reassigned(past, from, at))
      ensures forall from: nat :: from < |old(past)| && !step.ReplaceDraft? ==>
                Edited(past, from, |past|) == old(Edited(past, from, |past|))
      ensures forall from: nat :: from < |old(past)| ==>
                Reassigned(past, from, |past|) ==
                (step == PageStep.Reload(false) || old(Reassigned(past, from, |past|)))
    {
      forall from: nat, at: nat
        ensures at <= |past| ==> Edited(past + [step], from, at) == Edited(past, from, at)
        ensures at <= |past| ==> Reassigned(past + [step], from, at) == Reassigned(past, from, at)
        ensures from < |past| && !step.ReplaceDraft? ==>
                  Edited(past + [step], from, |past| + 1) == Edited(past, from, |past|)
        ensures from < |past| ==>
                  Reassigned(past + [step], from, |past| + 1) ==
                  (step == PageStep.Reload(false) || Reassigned(past, from, |past|))
      {
        IntervalSnoc(past, step, from, at);
      }
      past := past + [step];
    }

    /** _replace_draft */
    method ReplaceDraft()
      requires Valid() && loaded
      modifies this, requests
      ensures Valid() && loaded && draft == old(draft) + 1 && shown == old(shown) && !requests.active
      ensures past == old(past) + [PageStep.ReplaceDraft]
    {
      requests.Invalidate();
      draft := draft + 1;
      Record(PageStep.ReplaceDraft);
    }

    /** _apply_workflow: the draft is assigned, and no inspection is superseded. */
    method Reload(kept: bool)
      requires Valid()
      modifies this`draft, this`loaded, this`past
      ensures Valid() && loaded && shown == old(shown)
      ensures draft == if kept && old(loaded) then old(draft) else old(draft) + 1
      ensures past == old(past) + [PageStep.Reload(kept)]
    {
      if !kept || !loaded {
        draft := draft + 1;
      }
      loaded := true;
      Record(PageStep.Reload(kept));
    }

    /** _begin_partition_resize */
    method BeginResize() returns (id: nat)
      requires Valid() && loaded
      modifies this, requests
      ensures Valid() && loaded && draft == old(draft) && shown == old(shown)
      ensures id in requests.running && id == requests.requestId == old(requests.requestId) + 1 && requests.active
      ensures past == old(past) + [PageStep.BeginResize] && begunOn == old(begunOn)[id := draft]
    {
      id := requests.Start();
      begunOn, begunAt := begunOn[id := draft], begunAt[id := |past|];
      Record(PageStep.BeginResize);
    }

    /** A delivery runs: its result is shown on the present draft, or not at all. */
    method Dispatch(id: nat) returns (called: bool)
      requires Valid() && id in requests.queued
      modifies this, requests
      ensures Valid() && draft == old(draft) && loaded == old(loaded)
      ensures called <==> old(requests.active) && id == old(requests.requestId)
      ensures id in old(begunOn) && id in old(begunAt)
      ensures shown == if called then old(shown) + [Shown(old(begunOn)[id], draft, old(begunAt)[id], |old(past)|)]
                       else old(shown)
      ensures past == old(past) + [PageStep.Dispatch(id)]
    {
      assert requests.Pending(id);
      called := requests.Deliver(id);
      ghost var result := Shown(begunOn[id], draft, begunAt[id], |past|);
      Record(PageStep.Dispatch(id));
      if called {
        shown := shown + [result];
      }
    }

    /** The worker of an inspection ends, if it was running. */
    method FinishWorker(id: nat, outcome: Outcome)
      requires Valid()
      modifies this`past, requests
      ensures Valid() && past == old(past) + [Finish(id, outcome)]
      ensures requests.requestId == old(requests.requestId) && requests.active == old(requests.active)
      ensures old(id in requests.running) ==> id in requests.queued
    {
      if id in requests.running {
        requests.WorkerDone(id, outcome);
      }
      Record(Finish(id, outcome));
    }

    /** The page is mapped. */
    method Show()
      requires Valid()
      modifies this`past, requests
      ensures Valid() && requests.active && requests.requestId == old(requests.requestId)
      ensures past == old(past) + [PageStep.Show]
    {
      requests.Activate();
      Record(PageStep.Show);
    }

    /** The page is unmapped. */
    method Hide()
      requires Valid()
      modifies this`past, requests
      ensures Valid() && !requests.active && requests.requestId == old(requests.requestId) + 1
      ensures past == old(past) + [PageStep.Hide]
    {
      requests.Invalidate();
      Record(PageStep.Hide);
    }

    /**
     Under every interleaving: nothing is shown on a draft that was edited since its inspection
     began, and something is shown on a draft other than the one its inspection began on exactly if
     a reload has assigned a new draft in between.
     */
    method Run(steps: seq<PageStep>)
      requires Valid()
      modifies this, requests
      ensures Valid() && past == old(past) + steps
      ensures forall i :: 0 <= i < |shown| ==>
                && !Edited(past, shown[i].from, shown[i].at)
                && (shown[i].begun == shown[i].shown <==> !Reassigned(past, shown[i].from, shown[i].at))
      ensures OnlyNewest(requests.history)
    {
      for i := 0 to |steps|
        invariant Valid() && past == old(past) + steps[..i]
      {
        match steps[i]
        case ReplaceDraft =>
          if loaded {
            ReplaceDraft();
          } else {
            Record(steps[i]);
          }
        case Reload(kept) => Reload(kept);
        case BeginResize =>
          if loaded {
            var _ := BeginResize();
          } else {
            Record(steps[i]);
          }
        case Dispatch(id) =>
          if id in requests.queued {
            var _ := Dispatch(id);
          } else {
            Record(steps[i]);
          }
        case Finish(id, outcome) => FinishWorker(id, outcome);
        case Show => Show();
        case Hide => Hide();
      }
    }
  }

  /** A page that has been shown with a draft, left and shown again. */
  method ShownAgain() returns (page: DraftPage)
    ensures fresh(page) && fresh(page.requests)
    ensures page.Valid() && page.loaded && page.requests.requestId == 1 && page.shown == []
    ensures page.past == [Show, Reload(false), Hide, Show]
  {
    page := new DraftPage();
    page.Show();
    page.Reload(false);
    page.Hide();
    page.Show();
  }

  /**
   There, an inspection begun before the new workflow is delivered can be shown on the draft that the
   delivery assigns.
   */
  method StaleInspection() returns (page: DraftPage)
    ensures page.past == [Show, Reload(false), Hide, Show] +
                         [BeginResize, Finish(2, Returned("safe")), Reload(false), Dispatch(2)]
    ensures |page.shown| == 1 && page.shown[0].begun != page.shown[0].shown
  {
    page := ShownAgain();
    var id := page.BeginResize();
    page.FinishWorker(id, Returned("safe"));
    page.Reload(false);
    var _ := page.Dispatch(id);
  }
}
