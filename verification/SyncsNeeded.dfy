/**
 Both syncs of the deployment are needed. The protocol is run with one of them left out: the program
 goes on as before, and the states it has written so far stay at risk. Every such run that gets to
 the point the sync was to protect can lose power with a `current` that does not boot, and an
 undisturbed deployment gets there.
 */
module SyncsNeeded {
  import opened Sequences
  import opened DeployProtocol
  import opened DeploySafety
  import opened Deployment

  datatype Skip = Neither | First | Second

  ghost predicate Skipped(skip: Skip, ph: Phase) {
    (skip.First? && ph.MenuWritten?) || (skip.Second? && ph.Swapped?)
  }

  /** A step of the program without that sync. */
  ghost function Lax(skip: Skip, rd: Reader, binding: string, s: State, a: Action): State
    requires s.Alive() && Enabled(rd, binding, s, a)
  {
    var next := Apply(rd, binding, s, a);
    if a.Sync? && Skipped(skip, s.phase) then State(s.log, next.phase) else next
  }

  ghost function LaxRun(skip: Skip, rd: Reader, binding: string, start: State, acts: seq<Action>): (r: Option<State>)
    ensures start.Alive() && r.Some? ==> r.value.Alive()
    decreases |acts|
  {
    if acts == [] then Some(start)
    else
      var before := LaxRun(skip, rd, binding, start, acts[..|acts| - 1]);
      var a := acts[|acts| - 1];
      if before.Some? && before.value.Alive() && Enabled(rd, binding, before.value, a)
      then Some(Lax(skip, rd, binding, before.value, a)) else None
  }

  /** With neither sync left out, these are the runs of the protocol. */
  lemma {:induction false} NeitherIsRun(rd: Reader, binding: string, start: State, acts: seq<Action>)
    ensures LaxRun(Neither, rd, binding, start, acts) == Run(rd, binding, start, acts)
    decreases |acts|
  {
    if acts != [] {
      NeitherIsRun(rd, binding, start, acts[..|acts| - 1]);
    }
  }

  // ---------------------------------------------------------------- what every run keeps even so

  ghost predicate OrdinaryFs(fs: Fs) {
    Rooted(fs) && (CURRENT in fs ==> fs[CURRENT].Link? && Generated(fs[CURRENT].target))
  }

  ghost predicate OrdinaryAt(fs: Fs, ph: Phase) {
    && (InTry(ph) || ph.Ready? || ph.Pruning? || ph.Confirmed? ==> At(fs, Owned) == Some(Dir))
    && (InTry(ph) ==> Generated(ph.c) && At(fs, Entry(ph.c)) == Some(Dir))
    && (ph.Cleaning? ==> Generated(ph.c))
    && (ph.Swapped? ==> At(fs, CURRENT) == Some(Link(ph.c)))
    && (ph.Confirmed? || ph.Pruned? ==> CURRENT in fs && Familiar(fs))
    && (ph.Pruned? ==> forall n :: !Prunable(fs, n))
  }

  /** Without the first sync, some state at risk has nothing of the candidate. */
  ghost predicate Unsynced(log: seq<Fs>, ph: Phase) {
    InTry(ph) ==> forall f :: SomeState(log, Inner(ph.c, f), None)
  }

  ghost predicate LaxInv(skip: Skip, s: State) {
    && s.Alive()
    && (forall i :: 0 <= i < |s.log| ==> OrdinaryFs(s.log[i]))
    && OrdinaryAt(s.Live(), s.phase)
    && (skip.First? ==> Unsynced(s.log, s.phase))
  }

  lemma MoveOrdinary(fs: Fs, from: Path, to: Path)
    requires OrdinaryFs(fs) && from in fs && fs[from] != Dir && At(fs, to) != Some(Dir)
    requires from.Entry? && to.Entry? && from != to && from != CURRENT
    requires to == CURRENT ==> fs[from].Link? && Generated(fs[from].target)
    ensures OrdinaryFs(Moved(fs, from, to)) && ChangedAt(Moved(fs, from, to), fs, {from, to})
  {
  }

  /** The steps that write, move or remove something. */
  ghost predicate Writes(a: Action) {
    a.MakeOwned? || a.WriteTemp? || a.DropTemp? || a.ReplaceOwner? || a.Remove? || a.MakeCandidate? || a.CopyFile?
    || a.ReplaceMenu? || a.UnlinkNew? || a.LinkNew? || a.Swap?
  }

  lemma WriteOrdinary(rd: Reader, binding: string, s: State, a: Action)
    requires s.Alive() && OrdinaryFs(s.Live()) && OrdinaryAt(s.Live(), s.phase)
    requires Enabled(rd, binding, s, a) && Writes(a) && !a.Remove?
    ensures OrdinaryFs(Apply(rd, binding, s, a).Live())
    ensures OrdinaryAt(Apply(rd, binding, s, a).Live(), Apply(rd, binding, s, a).phase)
  {
    var fs := s.Live();
    if a.WriteTemp? || a.DropTemp? {
      OwnNamesTemp(a.name);
    } else if a.ReplaceOwner? || a.ReplaceMenu? {
      OwnNamesTemp(a.name);
      var to := if a.ReplaceOwner? then OWNER else MENU;
      MoveOrdinary(fs, Entry(a.name), to);
    } else if a.Swap? {
      OwnNames(s.phase.c);
      MoveOrdinary(fs, CURRENT_NEW, CURRENT);
    } else if a.UnlinkNew? || a.LinkNew? {
      assert !Generated("current.new");
    } else if a.MakeCandidate? || a.CopyFile? {
      OwnNames(if a.MakeCandidate? then a.name else s.phase.c);
    }
  }

  lemma RemoveKeepsOrdinary(rd: Reader, binding: string, s: State, p: Path)
    requires s.Alive() && OrdinaryFs(s.Live()) && OrdinaryAt(s.Live(), s.phase)
    requires Enabled(rd, binding, s, Remove(p))
    ensures OrdinaryFs(s.Live() - {p}) && OrdinaryAt(s.Live() - {p}, s.phase)
  {
  }

  /** Every step but power loss keeps the present state ordinary. */
  lemma StepOrdinary(skip: Skip, rd: Reader, binding: string, s: State, a: Action)
    requires LaxInv(skip, s) && Enabled(rd, binding, s, a) && !a.Crash?
    ensures OrdinaryFs(Apply(rd, binding, s, a).Live())
    ensures OrdinaryAt(Apply(rd, binding, s, a).Live(), Apply(rd, binding, s, a).phase)
  {
    var last := |s.log| - 1;
    assert OrdinaryFs(s.log[last]);
    if a.Remove? {
      RemoveKeepsOrdinary(rd, binding, s, a.p);
    } else if Writes(a) {
      WriteOrdinary(rd, binding, s, a);
    }
  }

  lemma CrashOrdinary(log: seq<Fs>, c: Fs)
    requires (forall i :: 0 <= i < |log| ==> OrdinaryFs(log[i])) && CrashImage(log, c)
    ensures OrdinaryFs(c)
  {
  }

  lemma LaxLog(skip: Skip, rd: Reader, binding: string, s: State, a: Action)
    requires s.Alive() && Enabled(rd, binding, s, a) && !a.Crash?
    ensures LogStep(s, Lax(skip, rd, binding, s, a))
    ensures Lax(skip, rd, binding, s, a).Live() == Apply(rd, binding, s, a).Live()
    ensures skip.First? && InTry(s.phase) && InTry(Apply(rd, binding, s, a).phase) ==>
              s.log <= Lax(skip, rd, binding, s, a).log && Apply(rd, binding, s, a).phase.c == s.phase.c
  {
    StepLog(rd, binding, s, a);
  }

  lemma StepUnsynced(rd: Reader, binding: string, s: State, a: Action)
    requires LaxInv(First, s) && Enabled(rd, binding, s, a) && !a.Crash?
    ensures Unsynced(Lax(First, rd, binding, s, a).log, Lax(First, rd, binding, s, a).phase)
  {
    var s', last := Lax(First, rd, binding, s, a), |s.log| - 1;
    LaxLog(First, rd, binding, s, a);
    if InTry(s'.phase) {
      forall f
        ensures SomeState(s'.log, Inner(s'.phase.c, f), None)
      {
        var i := last;
        if InTry(s.phase) {
          assert SomeState(s.log, Inner(s.phase.c, f), None);
          i :| 0 <= i < |s.log| && At(s.log[i], Inner(s.phase.c, f)) == None;
        } else {
          assert a.MakeCandidate? && OrdinaryFs(s.log[last]);
          assert Inner(a.name, f) in s.Live() ==> ParentIn(s.Live(), Inner(a.name, f));
        }
        assert At(s'.log[i], Inner(s'.phase.c, f)) == None;
      }
    }
  }

  lemma LaxKeeps(skip: Skip, rd: Reader, binding: string, s: State, a: Action)
    requires LaxInv(skip, s) && Enabled(rd, binding, s, a)
    ensures LaxInv(skip, Lax(skip, rd, binding, s, a))
  {
    if a.Crash? {
      CrashOrdinary(s.log, a.image);
      assert Lax(skip, rd, binding, s, a) == State([a.image], Idle);
    } else {
      StepOrdinary(skip, rd, binding, s, a);
      LaxLog(skip, rd, binding, s, a);
      LogOrdinary(s, Lax(skip, rd, binding, s, a));
      if skip.First? {
        StepUnsynced(rd, binding, s, a);
      }
    }
  }

  lemma LogOrdinary(s: State, s': State)
    requires s.Alive() && s'.Alive() && LogStep(s, s') && OrdinaryFs(s'.Live())
    requires forall i :: 0 <= i < |s.log| ==> OrdinaryFs(s.log[i])
    ensures forall i :: 0 <= i < |s'.log| ==> OrdinaryFs(s'.log[i])
  {
  }

  lemma {:induction false} LaxRunKeeps(skip: Skip, rd: Reader, binding: string, start: State, acts: seq<Action>)
    requires Fresh(start) && LaxRun(skip, rd, binding, start, acts).Some?
    ensures LaxInv(skip, LaxRun(skip, rd, binding, start, acts).value)
    decreases |acts|
  {
    if acts == [] {
      assert CURRENT !in start.log[0];
    } else {
      var front := acts[..|acts| - 1];
      LaxRunKeeps(skip, rd, binding, start, front);
      LaxKeeps(skip, rd, binding, LaxRun(skip, rd, binding, start, front).value, acts[|acts| - 1]);
    }
  }

  // ---------------------------------------------------------------- every run without a sync is exposed

  /** The image that has everything of the present but `p`. */
  lemma LosesOne(log: seq<Fs>, p: Path)
    requires |log| > 0 && Rooted(Present(log)) && SomeState(log, p, None)
    requires forall q :: q in Present(log) ==> Parent(q) != Some(p)
    ensures CrashImage(log, Present(log) - {p})
  {
  }

  /**
   Without the first sync, every run from an empty volume that has just moved `current`, whatever
   happened before, can lose power so that `current` selects the new payload and does not boot.
   */
  lemma FirstSyncNeeded(rd: Reader, binding: string, start: State, acts: seq<Action>) returns (disk: Fs)
    requires Fresh(start) && LaxRun(First, rd, binding, start, acts).Some?
    requires LaxRun(First, rd, binding, start, acts).value.phase.Swapped?
    ensures var s := LaxRun(First, rd, binding, start, acts).value;
            CrashImage(s.log, disk) && At(disk, CURRENT) == Some(Link(s.phase.c)) && !Boots(rd, disk)
  {
    LaxRunKeeps(First, rd, binding, start, acts);
    var s := LaxRun(First, rd, binding, start, acts).value;
    var last := |s.log| - 1;
    assert OrdinaryFs(s.log[last]);
    LosesOne(s.log, Inner(s.phase.c, "vmlinuz"));
    disk := s.Live() - {Inner(s.phase.c, "vmlinuz")};
  }

  /** The image that has everything of the present but an older selector. */
  lemma OlderSelector(log: seq<Fs>, n: string, i: nat)
    requires |log| > 0 && OrdinaryFs(Present(log)) && At(Present(log), Owned) == Some(Dir)
    requires i < |log| && At(log[i], CURRENT) == Some(Link(n)) && At(Present(log), CURRENT) != Some(Dir)
    ensures CrashImage(log, Present(log)[CURRENT := Link(n)])
  {
  }

  /**
   Without the second sync, every run from an empty volume that has just finished its last pruning
   can lose power so that any other payload selected since the last sync is selected again, and
   does not boot.
   */
  lemma SecondSyncNeeded(rd: Reader, binding: string, start: State, acts: seq<Action>, n: string, i: nat)
    returns (disk: Fs)
    requires Fresh(start) && LaxRun(Second, rd, binding, start, acts).Some?
    requires LaxRun(Second, rd, binding, start, acts).value.phase.Pruned?
    requires var s := LaxRun(Second, rd, binding, start, acts).value;
             i < |s.log| && At(s.log[i], CURRENT) == Some(Link(n)) != At(s.Live(), CURRENT)
    ensures var s := LaxRun(Second, rd, binding, start, acts).value;
            CrashImage(s.log, disk) && At(disk, CURRENT) == Some(Link(n)) && !Boots(rd, disk)
  {
    LaxRunKeeps(Second, rd, binding, start, acts);
    var s := LaxRun(Second, rd, binding, start, acts).value;
    var last := |s.log| - 1;
    assert OrdinaryFs(s.log[last]) && OrdinaryFs(s.log[i]);
    assert ParentIn(s.Live(), CURRENT);
    OlderSelector(s.log, n, i);
    disk := s.Live()[CURRENT := Link(n)];
    assert !Prunable(s.Live(), n);
    OwnNames(n);
  }

  // ---------------------------------------------------------------- an undisturbed deployment gets there

  /**
   These actions lead from `start` to `s`. The run stands under a quantifier so that it is unfolded
   only by `AttainedBy` and `Then`.
   */
  ghost predicate LeadsTo(skip: Skip, rd: Reader, binding: string, start: State, acts: seq<Action>, s: State) {
    forall k :: k == |acts| ==> LaxRun(skip, rd, binding, start, acts[..k]) == Some(s)
  }

  /** Some run gets to `s`. */
  ghost predicate Attained(skip: Skip, rd: Reader, binding: string, start: State, s: State) {
    s.Alive() && exists acts :: LeadsTo(skip, rd, binding, start, acts, s)
  }

  lemma AttainedBy(skip: Skip, rd: Reader, binding: string, start: State, s: State) returns (acts: seq<Action>)
    requires Attained(skip, rd, binding, start, s)
    ensures LaxRun(skip, rd, binding, start, acts) == Some(s)
  {
    acts :| LeadsTo(skip, rd, binding, start, acts, s);
    assert acts[..|acts|] == acts;
  }

  /** One more step. */
  lemma Then(skip: Skip, rd: Reader, binding: string, start: State, s: State, a: Action) returns (s': State)
    requires Attained(skip, rd, binding, start, s) && Enabled(rd, binding, s, a)
    ensures s' == Lax(skip, rd, binding, s, a)
    ensures Attained(skip, rd, binding, start, s')
  {
    var acts := AttainedBy(skip, rd, binding, start, s);
    s' := Lax(skip, rd, binding, s, a);
    assert (acts + [a])[..|acts|] == acts;
    assert (acts + [a])[..|acts + [a]|] == acts + [a];
    assert LeadsTo(skip, rd, binding, start, acts + [a], s');
  }

  /** The volume after the owner record, the payload, the menu and the selection. */
  ghost function Owning(fs: Fs, given: Inputs): Fs {
    fs[Owned := Dir][OWNER := File(given.ownerText)]
  }

  ghost function Holder(fs: Fs, given: Inputs): Fs
    requires given.payload.Keys == {"vmlinuz", "initrd.img", "manifest.json"}
  {
    var c := given.candidate;
    fs[Entry(c) := Dir][Inner(c, "vmlinuz") := File(given.payload["vmlinuz"])]
      [Inner(c, "initrd.img") := File(given.payload["initrd.img"])]
      [Inner(c, "manifest.json") := File(given.payload["manifest.json"])]
  }

  ghost function Selecting(fs: Fs, given: Inputs): Fs
    requires given.payload.Keys == {"vmlinuz", "initrd.img", "manifest.json"}
  {
    Holder(fs, given)[MENU := File(given.menuText)][CURRENT := Link(given.candidate)]
  }

  /** Lines 212-222 */
  lemma Enters(skip: Skip, rd: Reader, binding: string, start: State, fs: Fs)
    returns (s: State)
    requires Attained(skip, rd, binding, start, State([fs], Idle)) && OwnerOk(rd, binding, fs)
    ensures Attained(skip, rd, binding, start, s) && s.phase == Opened && s.Live() == fs[Owned := Dir]
  {
    s := Then(skip, rd, binding, start, State([fs], Idle), Mount);
    s := Then(skip, rd, binding, start, s, CheckOwner);
    if Owned !in fs {
      s := Then(skip, rd, binding, start, s, MakeOwned);
    }
  }

  /** Line 223 */
  lemma Records(skip: Skip, rd: Reader, binding: string, start: State, s0: State, given: Inputs)
    returns (s: State)
    requires Attained(skip, rd, binding, start, s0) && s0.phase == Opened && At(s0.Live(), Owned) == Some(Dir)
    requires Usable(rd, binding, s0.Live(), given) && At(s0.Live(), OWNER) != Some(Dir)
    ensures Attained(skip, rd, binding, start, s) && s.phase == Pruning
    ensures s.Live() == s0.Live()[OWNER := File(given.ownerText)]
  {
    var t := given.ownerTemp;
    OwnNamesTemp(t);
    s := Then(skip, rd, binding, start, s0, WriteTemp(t, given.ownerText));
    s := Then(skip, rd, binding, start, s, ReplaceOwner(t));
  }

  /** Lines 212-227, with nothing to prune. */
  lemma Opens(skip: Skip, rd: Reader, binding: string, start: State, fs: Fs, given: Inputs)
    returns (s: State)
    requires Attained(skip, rd, binding, start, State([fs], Idle))
    requires OwnerOk(rd, binding, fs) && Rooted(fs) && Usable(rd, binding, fs, given)
    requires forall n :: !Prunable(fs, n)
    ensures Attained(skip, rd, binding, start, s) && s.phase == Ready && s.Live() == Owning(fs, given)
  {
    assert OWNER in fs ==> ParentIn(fs, OWNER);
    s := Enters(skip, rd, binding, start, fs);
    s := Records(skip, rd, binding, start, s, given);
    forall n
      ensures !Prunable(s.Live(), n)
    {
      assert !Prunable(fs, n);
    }
    s := Then(skip, rd, binding, start, s, PruneDone);
  }

  /** Lines 231-236 */
  lemma Copies(skip: Skip, rd: Reader, binding: string, start: State, s0: State, given: Inputs)
    returns (s: State)
    requires Attained(skip, rd, binding, start, s0) && s0.phase == Ready
    requires Usable(rd, binding, s0.Live(), given)
    ensures Attained(skip, rd, binding, start, s) && s.phase == Staging(given.candidate)
    ensures s.Live() == Holder(s0.Live(), given)
    ensures s0.log <= s.log
  {
    s := Then(skip, rd, binding, start, s0, MakeCandidate(given.candidate));
    s := CopyOne(skip, rd, binding, start, s, "vmlinuz", given.payload["vmlinuz"]);
    s := CopyOne(skip, rd, binding, start, s, "initrd.img", given.payload["initrd.img"]);
    s := CopyOne(skip, rd, binding, start, s, "manifest.json", given.payload["manifest.json"]);
  }

  lemma CopyOne(skip: Skip, rd: Reader, binding: string, start: State, s0: State, f: string, text: string)
    returns (s: State)
    requires Attained(skip, rd, binding, start, s0) && s0.phase.Staging? && PayloadFile(f)
    requires At(s0.Live(), Entry(s0.phase.c)) == Some(Dir)
    ensures Attained(skip, rd, binding, start, s) && s.phase == s0.phase
    ensures s.log == s0.log + [s0.Live()[Inner(s0.phase.c, f) := File(text)]]
  {
    s := Then(skip, rd, binding, start, s0, CopyFile(f, text));
  }

  /** Lines 238-247 */
  lemma Furnishes(skip: Skip, rd: Reader, binding: string, start: State, s0: State, given: Inputs)
    returns (s: State)
    requires Attained(skip, rd, binding, start, s0) && s0.phase == Staging(given.candidate)
    requires Complete(rd, s0.Live(), given.candidate) && At(s0.Live(), Owned) == Some(Dir)
    requires Temporary(given.menuTemp) && At(s0.Live(), Entry(given.menuTemp)) == None && MenuFree(s0.Live())
    ensures Attained(skip, rd, binding, start, s) && s.phase == MenuWritten(given.candidate)
    ensures s.Live() == s0.Live()[MENU := File(given.menuText)]
  {
    var t := given.menuTemp;
    OwnNamesTemp(t);
    s := Then(skip, rd, binding, start, s0, VerifyCandidate);
    s := Then(skip, rd, binding, start, s, WriteTemp(t, given.menuText));
    s := Then(skip, rd, binding, start, s, ReplaceMenu(t));
  }

  /** Lines 248-254 */
  lemma Swaps(skip: Skip, rd: Reader, binding: string, start: State, s0: State, c: string)
    returns (s: State)
    requires Attained(skip, rd, binding, start, s0) && s0.phase == MenuWritten(c)
    requires CURRENT_NEW !in s0.Live() && At(s0.Live(), CURRENT) != Some(Dir)
    ensures Attained(skip, rd, binding, start, s) && s.phase == Swapped(c)
    ensures s.Live() == s0.Live()[CURRENT := Link(c)]
    ensures !skip.First? ==> s.log[0] == s0.Live()
  {
    s := Then(skip, rd, binding, start, s0, Sync);
    s := Then(skip, rd, binding, start, s, LinkNew);
    s := Then(skip, rd, binding, start, s, Swap);
  }

  /** The volume is ready for a deployment with these inputs. */
  ghost predicate Deployable(rd: Reader, binding: string, fs: Fs, given: Inputs) {
    && OwnerOk(rd, binding, fs) && Rooted(fs)
    && Usable(rd, binding, fs, given) && SourceOk(rd, given.payload)
    && Unobstructed(fs) && CURRENT_NEW !in fs
    && forall n :: !Prunable(fs, n)
  }

  lemma OwningUsable(rd: Reader, binding: string, fs: Fs, given: Inputs)
    requires Deployable(rd, binding, fs, given)
    ensures Usable(rd, binding, Owning(fs, given), given)
  {
  }

  /** What matters of the volume once the candidate is filled. */
  lemma HolderReady(rd: Reader, binding: string, fs: Fs, given: Inputs)
    requires Deployable(rd, binding, fs, given)
    ensures var h := Holder(Owning(fs, given), given);
            && Complete(rd, h, given.candidate) && At(h, Owned) == Some(Dir)
            && At(h, Entry(given.menuTemp)) == None && MenuFree(h)
            && CURRENT_NEW !in h && At(h, CURRENT) == At(fs, CURRENT)
  {
    OwnNames(given.candidate);
    OwnNamesTemp(given.menuTemp);
    HoldingSource(rd, Holder(Owning(fs, given), given), given.candidate, given.payload);
  }

  /** Lines 212-247 */
  lemma GetsToMenu(skip: Skip, rd: Reader, binding: string, start: State, fs: Fs, given: Inputs)
    returns (s: State)
    requires Attained(skip, rd, binding, start, State([fs], Idle)) && Deployable(rd, binding, fs, given)
    ensures Attained(skip, rd, binding, start, s) && s.phase == MenuWritten(given.candidate)
    ensures s.Live() == Holder(Owning(fs, given), given)[MENU := File(given.menuText)]
  {
    OwningUsable(rd, binding, fs, given);
    s := Opens(skip, rd, binding, start, fs, given);
    s := Copies(skip, rd, binding, start, s, given);
    HolderReady(rd, binding, fs, given);
    s := Furnishes(skip, rd, binding, start, s, given);
  }

  /** Lines 212-254: whichever sync is left out, a deployment gets to the swap. */
  lemma GetsToSwap(skip: Skip, rd: Reader, binding: string, start: State, fs: Fs, given: Inputs)
    returns (s: State)
    requires Attained(skip, rd, binding, start, State([fs], Idle)) && Deployable(rd, binding, fs, given)
    ensures Attained(skip, rd, binding, start, s) && s.phase == Swapped(given.candidate)
    ensures s.Live() == Selecting(Owning(fs, given), given)
    ensures !skip.First? ==> At(s.log[0], CURRENT) == At(fs, CURRENT)
  {
    s := GetsToMenu(skip, rd, binding, start, fs, given);
    HolderReady(rd, binding, fs, given);
    s := Swaps(skip, rd, binding, start, s, given.candidate);
  }

  /**
   An undisturbed first deployment without the first sync gets to the swap, for every complete
   payload; and then power loss can leave a `current` that does not boot.
   */
  lemma FirstSyncFatal(rd: Reader, binding: string, start: State, given: Inputs)
    returns (acts: seq<Action>, disk: Fs)
    requires Fresh(start) && OwnerOk(rd, binding, start.log[0])
    requires Usable(rd, binding, start.log[0], given) && SourceOk(rd, given.payload)
    ensures LaxRun(First, rd, binding, start, acts).Some?
    ensures CrashImage(LaxRun(First, rd, binding, start, acts).value.log, disk)
    ensures At(disk, CURRENT) == Some(Link(given.candidate)) && !Boots(rd, disk)
  {
    FreshDeployable(rd, binding, start, given);
    assert LeadsTo(First, rd, binding, start, [], start);
    var s := GetsToSwap(First, rd, binding, start, start.log[0], given);
    acts := AttainedBy(First, rd, binding, start, s);
    disk := FirstSyncNeeded(rd, binding, start, acts);
  }

  lemma FreshDeployable(rd: Reader, binding: string, start: State, given: Inputs)
    requires Fresh(start) && OwnerOk(rd, binding, start.log[0])
    requires Usable(rd, binding, start.log[0], given) && SourceOk(rd, given.payload)
    ensures Deployable(rd, binding, start.log[0], given) && start == State([start.log[0]], Idle)
  {
  }

  // ---------------------------------------------------------------- two deployments

  /** Lines 255-263, with nothing to prune. */
  lemma Finishes(skip: Skip, rd: Reader, binding: string, start: State, s0: State) returns (s: State)
    requires Attained(skip, rd, binding, start, s0) && s0.phase.Swapped?
    requires forall n :: !Prunable(s0.Live(), n)
    ensures Attained(skip, rd, binding, start, s) && s == State([s0.Live()], Idle)
  {
    s := Then(skip, rd, binding, start, s0, Sync);
    s := Then(skip, rd, binding, start, s, PruneDone);
    s := Then(skip, rd, binding, start, s, Sync);
    s := Then(skip, rd, binding, start, s, Unmount);
  }

  /** What the first deployment leaves is ready for a second one. */
  lemma Redeployable(rd: Reader, binding: string, fs: Fs, one: Inputs, two: Inputs)
    requires Deployable(rd, binding, fs, one) && Usable(rd, binding, fs, two) && SourceOk(rd, two.payload)
    requires (forall n :: Entry(n) !in fs) && one.candidate != two.candidate
    ensures var fs' := Selecting(Owning(fs, one), one);
            Deployable(rd, binding, fs', two) && forall n :: !Prunable(fs', n)
  {
    StillAdmitted(rd, binding, fs, one);
    StillRooted(fs, one);
    StillUsable(rd, binding, fs, one, two);
    NothingPrunable(fs, one);
  }

  lemma StillAdmitted(rd: Reader, binding: string, fs: Fs, one: Inputs)
    requires Usable(rd, binding, fs, one) && forall n :: Entry(n) !in fs
    ensures var fs' := Selecting(Owning(fs, one), one);
            OwnerOk(rd, binding, fs') && Unobstructed(fs') && CURRENT_NEW !in fs'
  {
  }

  lemma StillRooted(fs: Fs, one: Inputs)
    requires Rooted(fs) && one.payload.Keys == {"vmlinuz", "initrd.img", "manifest.json"}
    requires (forall n :: Entry(n) !in fs) && Generated(one.candidate)
    ensures Rooted(Selecting(Owning(fs, one), one))
  {
  }

  lemma StillUsable(rd: Reader, binding: string, fs: Fs, one: Inputs, two: Inputs)
    requires Usable(rd, binding, fs, one) && Usable(rd, binding, fs, two) && one.candidate != two.candidate
    ensures Usable(rd, binding, Selecting(Owning(fs, one), one), two)
  {
  }

  lemma NothingPrunable(fs: Fs, one: Inputs)
    requires one.payload.Keys == {"vmlinuz", "initrd.img", "manifest.json"} && Generated(one.candidate)
    requires forall n :: Entry(n) !in fs
    ensures forall n :: !Prunable(Selecting(Owning(fs, one), one), n)
  {
  }

  /** Line 127: one file of the old payload, or at last its directory. */
  lemma Removes(rd: Reader, binding: string, start: State, s0: State, p: Path, n: string) returns (s: State)
    requires Attained(Second, rd, binding, start, s0) && s0.phase == Confirmed
    requires Prunable(s0.Live(), n) && PartOf(s0.Live(), p, n)
    ensures Attained(Second, rd, binding, start, s) && s.phase == Confirmed
    ensures s.log == s0.log + [s0.Live() - {p}]
    ensures p.Inner? ==> Prunable(s.Live(), n)
  {
    OwnNames(n);
    assert forall m :: At(s0.Live(), CURRENT) == Some(Link(m)) ==> m != n;
    s := Then(Second, rd, binding, start, s0, Remove(p));
  }

  ghost function Bare(fs: Fs, n: string): Fs {
    fs - {Inner(n, "vmlinuz")} - {Inner(n, "initrd.img")} - {Inner(n, "manifest.json")}
  }

  lemma Empties(rd: Reader, binding: string, start: State, s0: State, n: string) returns (s: State)
    requires Attained(Second, rd, binding, start, s0) && s0.phase == Confirmed && Prunable(s0.Live(), n)
    requires forall f :: Inner(n, f) in s0.Live() <==> PayloadFile(f)
    ensures Attained(Second, rd, binding, start, s) && s.phase == Confirmed && Prunable(s.Live(), n)
    ensures s0.log <= s.log && s.Live() == Bare(s0.Live(), n)
  {
    assert PayloadFile("vmlinuz") && PayloadFile("initrd.img") && PayloadFile("manifest.json");
    s := Removes(rd, binding, start, s0, Inner(n, "vmlinuz"), n);
    s := Removes(rd, binding, start, s, Inner(n, "initrd.img"), n);
    s := Removes(rd, binding, start, s, Inner(n, "manifest.json"), n);
  }

  lemma BareGone(fs: Fs, n: string)
    requires Prunable(fs, n) && (forall m :: Prunable(fs, m) ==> m == n)
    requires forall f :: Inner(n, f) in fs <==> PayloadFile(f)
    ensures PartOf(Bare(fs, n), Entry(n), n)
    ensures forall m :: !Prunable(Bare(fs, n) - {Entry(n)}, m)
    ensures At(Bare(fs, n) - {Entry(n)}, CURRENT) == At(fs, CURRENT)
  {
    OwnNames(n);
    forall m
      ensures !Prunable(Bare(fs, n) - {Entry(n)}, m)
    {
      assert !Prunable(fs, m) || m == n;
    }
  }

  /** Lines 255-260: the old payload `n` goes, file by file. */
  lemma Prunes(rd: Reader, binding: string, start: State, s0: State, n: string) returns (s: State)
    requires Attained(Second, rd, binding, start, s0) && s0.phase.Swapped? && Prunable(s0.Live(), n)
    requires forall m :: Prunable(s0.Live(), m) ==> m == n
    requires forall f :: Inner(n, f) in s0.Live() <==> PayloadFile(f)
    ensures Attained(Second, rd, binding, start, s) && s.phase == Pruned
    ensures s0.log <= s.log && At(s.Live(), CURRENT) == At(s0.Live(), CURRENT)
  {
    s := Then(Second, rd, binding, start, s0, Sync);
    s := Empties(rd, binding, start, s, n);
    BareGone(s0.Live(), n);
    s := Removes(rd, binding, start, s, Entry(n), n);
    s := Then(Second, rd, binding, start, s, PruneDone);
  }

  lemma OldPayload(rd: Reader, binding: string, fs: Fs, one: Inputs, two: Inputs)
    requires Usable(rd, binding, fs, one) && Usable(rd, binding, fs, two) && Rooted(fs)
    requires (forall n :: Entry(n) !in fs) && one.candidate != two.candidate
    ensures var last := Selecting(Owning(Selecting(Owning(fs, one), one), two), two);
            && Prunable(last, one.candidate)
            && (forall m :: Prunable(last, m) ==> m == one.candidate)
            && (forall f :: Inner(one.candidate, f) in last <==> PayloadFile(f))
  {
    OldFiles(fs, one, two);
    OldDirectory(fs, one, two);
  }

  lemma OldDirectory(fs: Fs, one: Inputs, two: Inputs)
    requires one.payload.Keys == two.payload.Keys == {"vmlinuz", "initrd.img", "manifest.json"}
    requires Generated(one.candidate) && Generated(two.candidate)
    requires (forall n :: Entry(n) !in fs) && one.candidate != two.candidate
    ensures var last := Selecting(Owning(Selecting(Owning(fs, one), one), two), two);
            forall m :: Prunable(last, m) <==> m == one.candidate
  {
    OwnNames(one.candidate);
    OwnNames(two.candidate);
  }

  lemma OldFiles(fs: Fs, one: Inputs, two: Inputs)
    requires one.payload.Keys == two.payload.Keys == {"vmlinuz", "initrd.img", "manifest.json"}
    requires Rooted(fs) && (forall n :: Entry(n) !in fs) && one.candidate != two.candidate
    ensures var last := Selecting(Owning(Selecting(Owning(fs, one), one), two), two);
            forall f :: Inner(one.candidate, f) in last <==> PayloadFile(f)
  {
    forall f
      ensures Inner(one.candidate, f) !in fs
    {
      assert Inner(one.candidate, f) in fs ==> ParentIn(fs, Inner(one.candidate, f));
    }
  }

  /**
   Two undisturbed deployments without the second sync get to the end of the last pruning, for every
   two complete payloads; and then power loss can bring back the first one, which is gone.
   */
  lemma SecondSyncFatal(rd: Reader, binding: string, start: State, one: Inputs, two: Inputs)
    returns (acts: seq<Action>, disk: Fs)
    requires Fresh(start) && OwnerOk(rd, binding, start.log[0]) && one.candidate != two.candidate
    requires Usable(rd, binding, start.log[0], one) && SourceOk(rd, one.payload)
    requires Usable(rd, binding, start.log[0], two) && SourceOk(rd, two.payload)
    ensures LaxRun(Second, rd, binding, start, acts).Some?
    ensures CrashImage(LaxRun(Second, rd, binding, start, acts).value.log, disk)
    ensures At(disk, CURRENT) == Some(Link(one.candidate)) && !Boots(rd, disk)
  {
    var fs := start.log[0];
    FreshDeployable(rd, binding, start, one);
    assert forall n :: Entry(n) !in fs;
    var s := DeploysTwice(rd, binding, start, one, two);
    acts := AttainedBy(Second, rd, binding, start, s);
    disk := SecondSyncNeeded(rd, binding, start, acts, one.candidate, 0);
  }

  lemma DeploysTwice(rd: Reader, binding: string, start: State, one: Inputs, two: Inputs) returns (s: State)
    requires Fresh(start) && Deployable(rd, binding, start.log[0], one) && one.candidate != two.candidate
    requires Usable(rd, binding, start.log[0], two) && SourceOk(rd, two.payload)
    ensures Attained(Second, rd, binding, start, s) && s.phase == Pruned
    ensures At(s.log[0], CURRENT) == Some(Link(one.candidate)) && At(s.Live(), CURRENT) == Some(Link(two.candidate))
  {
    var fs := start.log[0];
    assert (forall n :: Entry(n) !in fs) && start == State([fs], Idle);
    assert LeadsTo(Second, rd, binding, start, [], start);
    s := GetsToSwap(Second, rd, binding, start, fs, one);
    Redeployable(rd, binding, fs, one, two);
    s := Finishes(Second, rd, binding, start, s);
    s := GetsToSwap(Second, rd, binding, start, Selecting(Owning(fs, one), one), two);
    OldPayload(rd, binding, fs, one, two);
    s := Prunes(rd, binding, start, s, one.candidate);
  }
}
