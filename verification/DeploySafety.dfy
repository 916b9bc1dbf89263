/**
 What the recovery volume promises over every sequence of deployments: each may fail, be killed
 or lose power at any step, and any part of the unsynced changes may be lost.
 */
module DeploySafety {
  import opened Sequences
  import opened DeployProtocol

  lemma FreshIsSound(rd: Reader, start: State)
    requires Fresh(start)
    ensures Inv(rd, start)
  {
  }

  lemma {:induction false} RunKeeps(rd: Reader, binding: string, start: State, acts: seq<Action>)
    requires Inv(rd, start) && Run(rd, binding, start, acts).Some?
    ensures Inv(rd, Run(rd, binding, start, acts).value)
    decreases |acts|
  {
    if acts != [] {
      var front := acts[..|acts| - 1];
      RunKeeps(rd, binding, start, front);
      StepKeeps(rd, binding, Run(rd, binding, start, front).value, acts[|acts| - 1]);
    }
  }

  // ---------------------------------------------------------------- always bootable

  /** A selection has reached the disk: power loss cannot take it back. */
  ghost predicate Durable(s: State)
    requires s.Alive()
  {
    CURRENT in s.log[0]
  }

  lemma DurableStep(rd: Reader, binding: string, s: State, a: Action)
    requires Inv(rd, s) && Enabled(rd, binding, s, a) && Durable(s)
    ensures Durable(Apply(rd, binding, s, a))
  {
    if a.Crash? {
      CrashKeepsSelector(rd, s.log, a.image);
    } else {
      var last := |s.log| - 1;
      assert CURRENT in s.log[0] ==> CURRENT in s.log[last];
    }
  }

  lemma {:induction false} DurableLasts(rd: Reader, binding: string, start: State, acts: seq<Action>, k: nat)
    requires Inv(rd, start) && Run(rd, binding, start, acts).Some? && k <= |acts|
    requires Run(rd, binding, start, acts[..k]).Some? && Durable(Run(rd, binding, start, acts[..k]).value)
    ensures Durable(Run(rd, binding, start, acts).value)
    decreases |acts|
  {
    if k == |acts| {
      assert acts[..k] == acts;
    } else {
      var front := acts[..|acts| - 1];
      assert front[..k] == acts[..k];
      DurableLasts(rd, binding, start, front, k);
      RunKeeps(rd, binding, start, front);
      DurableStep(rd, binding, Run(rd, binding, start, front).value, acts[|acts| - 1]);
    }
  }

  /** Payload `n` holds a kernel and an initrd that match its manifest. */
  ghost predicate Bootable(rd: Reader, fs: Fs, n: string) {
    exists kernel, initrd, document ::
      && At(fs, Inner(n, "vmlinuz")) == Some(File(kernel))
      && At(fs, Inner(n, "initrd.img")) == Some(File(initrd))
      && At(fs, Inner(n, "manifest.json")) == Some(File(document))
      && Belong(rd, kernel, initrd, document)
  }

  /**
   The safety theorem. Start from a volume without a deployment, let any number of deployments run,
   fail, be killed and lose power, and then lose power once more: the disk holds either a `current`
   whose kernel and initrd match one manifest, or no `current` at all, and then no selection had
   ever become durable.
   */
  lemma AlwaysBootable(rd: Reader, binding: string, start: State, acts: seq<Action>, disk: Fs)
    requires Fresh(start) && Run(rd, binding, start, acts).Some?
    requires CrashImage(Run(rd, binding, start, acts).value.log, disk)
    ensures CURRENT in disk ==> Boots(rd, disk)
    ensures CURRENT in disk ==> exists n :: At(disk, CURRENT) == Some(Link(n)) && Bootable(rd, disk, n)
    ensures CURRENT !in disk ==>
              forall k :: 0 <= k <= |acts| && Run(rd, binding, start, acts[..k]).Some? ==>
                !Durable(Run(rd, binding, start, acts[..k]).value)
  {
    FreshIsSound(rd, start);
    RunKeeps(rd, binding, start, acts);
    CrashCore(rd, Run(rd, binding, start, acts).value.log, disk);
    if CURRENT in disk {
      CompleteMeans(rd, disk, disk[CURRENT].target);
    }
    if CURRENT !in disk {
      forall k | 0 <= k <= |acts| && Run(rd, binding, start, acts[..k]).Some?
        ensures !Durable(Run(rd, binding, start, acts[..k]).value)
      {
        if Durable(Run(rd, binding, start, acts[..k]).value) {
          DurableLasts(rd, binding, start, acts, k);
        }
      }
    }
  }

  /** The second sync is the point of no return: from there on every power loss leaves a bootable disk. */
  lemma ConfirmedForever(rd: Reader, binding: string, start: State, acts: seq<Action>, k: nat, disk: Fs)
    requires Fresh(start) && Run(rd, binding, start, acts).Some? && k <= |acts|
    requires Run(rd, binding, start, acts[..k]).Some? && Run(rd, binding, start, acts[..k]).value.phase.Confirmed?
    requires CrashImage(Run(rd, binding, start, acts).value.log, disk)
    ensures Boots(rd, disk)
  {
    FreshIsSound(rd, start);
    RunKeeps(rd, binding, start, acts);
    ConfirmedIsDurable(rd, binding, start, acts[..k]);
    DurableLasts(rd, binding, start, acts, k);
    CrashCore(rd, Run(rd, binding, start, acts).value.log, disk);
  }

  /** Throughout the final pruning, the selection is in every state since the second sync. */
  lemma {:induction false} ConfirmedIsDurable(rd: Reader, binding: string, start: State, acts: seq<Action>)
    requires Fresh(start) && Run(rd, binding, start, acts).Some?
    requires Run(rd, binding, start, acts).value.phase.Confirmed?
    ensures Durable(Run(rd, binding, start, acts).value)
    decreases |acts|
  {
    FreshIsSound(rd, start);
    var front, a := acts[..|acts| - 1], acts[|acts| - 1];
    var before := Run(rd, binding, start, front).value;
    RunKeeps(rd, binding, start, front);
    if before.phase.Confirmed? {
      ConfirmedIsDurable(rd, binding, start, front);
      DurableStep(rd, binding, before, a);
    }
  }

  // ---------------------------------------------------------------- what a step can change

  /** The paths a step writes. */
  ghost function Touched(s: State, a: Action): set<Path> {
    match a
    case MakeOwned => {Owned}
    case WriteTemp(t, _) => {Entry(t)}
    case DropTemp(t) => {Entry(t)}
    case ReplaceOwner(t) => {Entry(t), OWNER}
    case ReplaceMenu(t) => {Entry(t), MENU}
    case Remove(p) => {p}
    case MakeCandidate(c) => {Entry(c)}
    case CopyFile(f, _) => if s.phase.Staging? then {Inner(s.phase.c, f)} else {}
    case UnlinkNew => {CURRENT_NEW}
    case LinkNew => {CURRENT_NEW}
    case Swap => {CURRENT_NEW, CURRENT}
    case _ => {}
  }

  lemma StepTouches(rd: Reader, binding: string, s: State, a: Action)
    requires s.Alive() && Enabled(rd, binding, s, a) && !a.Crash?
    ensures ChangedAt(Apply(rd, binding, s, a).Live(), s.Live(), Touched(s, a))
  {
  }

  /** A step keeps the log, extends it by the new present, or cuts it down to the unchanged present. */
  ghost predicate LogStep(s: State, s': State)
    requires s.Alive() && s'.Alive()
  {
    s'.log == s.log || s'.log == s.log + [s'.Live()] || (s'.log == [s'.Live()] && s'.Live() == s.Live())
  }

  lemma StepLog(rd: Reader, binding: string, s: State, a: Action)
    requires s.Alive() && Enabled(rd, binding, s, a) && !a.Crash?
    ensures LogStep(s, Apply(rd, binding, s, a))
  {
  }

  /** Whatever a step removes or writes is the program's own. */
  lemma TouchedIsOwn(rd: Reader, binding: string, s: State, a: Action, p: Path)
    requires Inv(rd, s) && Enabled(rd, binding, s, a) && p in Touched(s, a)
    ensures !Bystander(p)
    ensures p == Owned ==> a == MakeOwned
    ensures p == CURRENT ==> a == Swap
    ensures p == OWNER ==> a.ReplaceOwner?
  {
    if a.WriteTemp? || a.DropTemp? || a.ReplaceOwner? || a.ReplaceMenu? {
      OwnNamesTemp(a.name);
    } else if a.Remove? {
      RemoveNotCurrent(rd, binding, s, a.p);
    } else if a.MakeCandidate? {
      OwnNames(a.name);
    }
  }

  lemma RemoveNotCurrent(rd: Reader, binding: string, s: State, p: Path)
    requires Inv(rd, s) && Enabled(rd, binding, s, Remove(p))
    ensures (p.Inner? && Generated(p.dir)) || (p.Entry? && Generated(p.name))
    ensures p != CURRENT && p != OWNER
  {
  }

  // ---------------------------------------------------------------- how many payloads

  ghost function Payloads(fs: Fs): set<Path> {
    set p | p in fs.Keys && p.Entry? && Generated(p.name) && fs[p] == Dir
  }

  ghost function Selection(fs: Fs): set<Path> {
    if CURRENT in fs && fs[CURRENT].Link? then {Entry(fs[CURRENT].target)} else {}
  }

  /** How many payload directories each phase leaves, as long as no completed write is lost. */
  ghost predicate TidyAt(fs: Fs, ph: Phase) {
    TidySets(Payloads(fs), Selection(fs), CURRENT in fs, ph)
  }

  ghost predicate TidySets(payloads: set<Path>, selection: set<Path>, selected: bool, ph: Phase) {
    && |payloads| <= 2
    && (ph.Ready? || ph.Pruned? || ph.Finished? ==> payloads <= selection)
    && (InTry(ph) && !ph.Swapped? ==> payloads <= selection + {Entry(ph.c)})
    && (ph.Swapped? || ph.Confirmed? || ph.Pruned? || ph.Finished? ==> selected)
  }

  ghost predicate Tidy(s: State)
    requires s.Alive()
  {
    TidyAt(s.Live(), s.phase)
  }

  lemma FewerPayloads(a: Fs, b: Fs)
    requires Payloads(b) <= Payloads(a) && |Payloads(a)| <= 2
    ensures |Payloads(b)| <= 2
  {
    SubsetSize(Payloads(b), Payloads(a));
  }

  /** Only staging adds a payload directory, and only the swap moves `current`. */
  lemma StepShrinks(rd: Reader, binding: string, s: State, a: Action)
    requires Inv(rd, s) && Enabled(rd, binding, s, a) && !a.Crash? && !a.MakeCandidate?
    ensures Payloads(Apply(rd, binding, s, a).Live()) <= Payloads(s.Live())
    ensures !a.Swap? ==> At(Apply(rd, binding, s, a).Live(), CURRENT) == At(s.Live(), CURRENT)
  {
    var fs, fs' := s.Live(), Apply(rd, binding, s, a).Live();
    StepTouches(rd, binding, s, a);
    forall p | p in Payloads(fs')
      ensures p in Payloads(fs)
    {
      NoNewPayload(rd, binding, s, a, p);
    }
    if CURRENT in Touched(s, a) {
      TouchedIsOwn(rd, binding, s, a, CURRENT);
    }
  }

  lemma NoNewPayload(rd: Reader, binding: string, s: State, a: Action, p: Path)
    requires Inv(rd, s) && Enabled(rd, binding, s, a) && !a.Crash? && !a.MakeCandidate?
    requires p in Payloads(Apply(rd, binding, s, a).Live())
    ensures p !in Touched(s, a)
  {
    OwnNames(p.name);
    if a.WriteTemp? || a.DropTemp? || a.ReplaceOwner? || a.ReplaceMenu? {
      OwnNamesTemp(a.name);
    }
  }

  lemma PrunedAll(rd: Reader, s: State)
    requires Inv(rd, s) && forall n :: !Prunable(s.Live(), n)
    ensures Payloads(s.Live()) <= Selection(s.Live())
  {
    var fs := s.Live();
    if CURRENT in fs {
      SelectedIsGenerated(rd, s.log);
    }
    assert Familiar(fs);
    forall p | p in Payloads(fs)
      ensures p in Selection(fs)
    {
      assert !Prunable(fs, p.name);
    }
  }

  lemma OneMorePayload(fs: Fs, c: string)
    requires Generated(c) && Entry(c) !in fs && Payloads(fs) <= Selection(fs)
    ensures Selection(fs[Entry(c) := Dir]) == Selection(fs)
    ensures Payloads(fs[Entry(c) := Dir]) <= Selection(fs) + {Entry(c)}
    ensures |Payloads(fs[Entry(c) := Dir])| <= 2
  {
    OwnNames(c);
    SubsetSize(Payloads(fs[Entry(c) := Dir]), Selection(fs) + {Entry(c)});
  }

  lemma TidyStage(rd: Reader, binding: string, s: State, c: string)
    requires Inv(rd, s) && Tidy(s) && Enabled(rd, binding, s, MakeCandidate(c))
    ensures Tidy(Apply(rd, binding, s, MakeCandidate(c)))
  {
    OneMorePayload(s.Live(), c);
  }

  /** Where a step that neither stages, swaps nor completes a pruning can lead. */
  ghost predicate Forward(ph: Phase, ph': Phase) {
    || ph' == ph || ph'.Idle? || ph'.Mounted? || ph'.Opened? || ph'.Pruning? || ph'.Failed? || ph'.Cleaning?
    || (InTry(ph) && InTry(ph') && !ph.Swapped? && !ph'.Swapped? && ph'.c == ph.c)
    || (ph.Swapped? && ph'.Confirmed?)
    || (ph.Pruned? && ph'.Finished?)
  }

  lemma StepForward(rd: Reader, binding: string, s: State, a: Action)
    requires s.Alive() && Enabled(rd, binding, s, a)
    requires !a.Crash? && !a.MakeCandidate? && !a.PruneDone? && !a.Swap?
    ensures Forward(s.phase, Apply(rd, binding, s, a).phase)
  {
  }

  lemma TidyFewer(payloads: set<Path>, selection: set<Path>, selected: bool, ph: Phase, fewer: set<Path>, ph': Phase)
    requires TidySets(payloads, selection, selected, ph) && Forward(ph, ph') && fewer <= payloads
    ensures TidySets(fewer, selection, selected, ph')
  {
    SubsetSize(fewer, payloads);
  }

  lemma TidyCarries(fs: Fs, ph: Phase, fs': Fs, ph': Phase)
    requires TidyAt(fs, ph) && Forward(ph, ph')
    requires Payloads(fs') <= Payloads(fs) && At(fs', CURRENT) == At(fs, CURRENT)
    ensures TidyAt(fs', ph')
  {
    TidyFewer(Payloads(fs), Selection(fs), CURRENT in fs, ph, Payloads(fs'), ph');
  }

  lemma TidyOther(rd: Reader, binding: string, s: State, a: Action)
    requires Inv(rd, s) && Tidy(s) && Enabled(rd, binding, s, a)
    requires !a.Crash? && !a.MakeCandidate? && !a.PruneDone? && !a.Swap?
    ensures Tidy(Apply(rd, binding, s, a))
  {
    StepShrinks(rd, binding, s, a);
    StepForward(rd, binding, s, a);
    TidyCarries(s.Live(), s.phase, Apply(rd, binding, s, a).Live(), Apply(rd, binding, s, a).phase);
  }

  lemma TidySwap(rd: Reader, binding: string, s: State)
    requires Inv(rd, s) && Tidy(s) && Enabled(rd, binding, s, Swap)
    ensures Tidy(Apply(rd, binding, s, Swap))
  {
    StepShrinks(rd, binding, s, Swap);
    FewerPayloads(s.Live(), Apply(rd, binding, s, Swap).Live());
  }

  lemma TidyStep(rd: Reader, binding: string, s: State, a: Action)
    requires Inv(rd, s) && Tidy(s) && Enabled(rd, binding, s, a) && !a.Crash?
    ensures Tidy(Apply(rd, binding, s, a))
  {
    if a.MakeCandidate? {
      TidyStage(rd, binding, s, a.name);
    } else if a.PruneDone? {
      PrunedAll(rd, s);
    } else if a.Swap? {
      TidySwap(rd, binding, s);
    } else {
      TidyOther(rd, binding, s, a);
    }
  }

  ghost predicate NoPowerLoss(acts: seq<Action>) {
    forall i :: 0 <= i < |acts| ==> !acts[i].Crash?
  }

  lemma {:induction false} TidyRun(rd: Reader, binding: string, start: State, acts: seq<Action>)
    requires Fresh(start) && NoPowerLoss(acts) && Run(rd, binding, start, acts).Some?
    ensures Inv(rd, Run(rd, binding, start, acts).value) && Tidy(Run(rd, binding, start, acts).value)
    decreases |acts|
  {
    FreshIsSound(rd, start);
    RunKeeps(rd, binding, start, acts);
    if acts == [] {
      assert Payloads(start.log[0]) == {};
    } else {
      var front := acts[..|acts| - 1];
      TidyRun(rd, binding, start, front);
      TidyStep(rd, binding, Run(rd, binding, start, front).value, acts[|acts| - 1]);
    }
  }

  /**
   From an empty volume, over any number of runs that are killed or fail anywhere without losing a
   completed write, there are never more than two payload directories; a run that gets to its end
   leaves exactly the selected one, and it boots.
   */
  lemma AtMostTwoPayloads(rd: Reader, binding: string, start: State, acts: seq<Action>)
    requires Fresh(start) && NoPowerLoss(acts) && Run(rd, binding, start, acts).Some?
    ensures var s := Run(rd, binding, start, acts).value;
            && |Payloads(s.Live())| <= 2
            && (s.phase.Finished? ==>
                  && Boots(rd, s.Live())
                  && Payloads(s.Live()) == {Entry(s.Live()[CURRENT].target)})
  {
    TidyRun(rd, binding, start, acts);
    var s := Run(rd, binding, start, acts).value;
    if s.phase.Finished? {
      SelectedIsGenerated(rd, s.log);
      assert Entry(s.Live()[CURRENT].target) in Payloads(s.Live());
    }
  }

  // ---------------------------------------------------------------- everything else is left alone

  /** A path that is not the program's to change. */
  ghost predicate Bystander(p: Path) {
    match p
    case Owned => false
    case Outside(_) => true
    case Entry(n) =>
      && !Generated(n) && !Temporary(n)
      && n != "current" && n != "current.new" && n != "owner.json" && n != "grub.cfg"
    case Inner(n, _) => !Generated(n)
  }

  /** All states of the log agree that `p` is there with this node. */
  ghost predicate Holds(s: State, p: Path, node: Node) {
    && s.Alive()
    && Everywhere(s.log, p, node)
    && (p.Entry? || p.Inner? ==> Everywhere(s.log, Owned, Dir))
    && (p.Inner? ==> Everywhere(s.log, Entry(p.dir), Dir))
  }

  ghost predicate BystanderIn(p: Path) {
    Bystander(p) && (p.Inner? ==> Bystander(Entry(p.dir)))
  }

  /** A bystander, or the program's directory once it is there, is the same after the step. */
  lemma WritesElsewhere(rd: Reader, binding: string, s: State, a: Action, p: Path)
    requires Inv(rd, s) && Enabled(rd, binding, s, a) && !a.Crash?
    requires Bystander(p) || (p == Owned && Owned in s.Live())
    ensures At(Apply(rd, binding, s, a).Live(), p) == At(s.Live(), p)
  {
    StepTouches(rd, binding, s, a);
    if p in Touched(s, a) {
      TouchedIsOwn(rd, binding, s, a, p);
    }
  }

  ghost predicate Everywhere(log: seq<Fs>, p: Path, node: Node) {
    forall i :: 0 <= i < |log| ==> At(log[i], p) == Some(node)
  }

  lemma EverywhereStep(s: State, s': State, p: Path, node: Node)
    requires s.Alive() && s'.Alive() && LogStep(s, s') && Everywhere(s.log, p, node)
    requires At(s'.Live(), p) == At(s.Live(), p)
    ensures Everywhere(s'.log, p, node)
  {
  }

  lemma HoldsWrite(rd: Reader, binding: string, s: State, a: Action, p: Path, node: Node)
    requires Inv(rd, s) && Enabled(rd, binding, s, a) && !a.Crash?
    requires Everywhere(s.log, p, node) && (Bystander(p) || p == Owned)
    ensures Everywhere(Apply(rd, binding, s, a).log, p, node)
  {
    var last := |s.log| - 1;
    assert At(s.log[last], p) == Some(node);
    WritesElsewhere(rd, binding, s, a, p);
    StepLog(rd, binding, s, a);
    EverywhereStep(s, Apply(rd, binding, s, a), p, node);
  }

  lemma HoldsCrash(log: seq<Fs>, c: Fs, p: Path, node: Node)
    requires |log| > 0 && CrashImage(log, c) && p != Owned && Holds(State(log, Idle), p, node)
    ensures Holds(State([c], Idle), p, node)
  {
  }

  lemma HoldsStep(rd: Reader, binding: string, s: State, a: Action, p: Path, node: Node)
    requires Inv(rd, s) && Enabled(rd, binding, s, a) && BystanderIn(p) && Holds(s, p, node)
    ensures Holds(Apply(rd, binding, s, a), p, node)
  {
    if a.Crash? {
      HoldsCrash(s.log, a.image, p, node);
    } else {
      HoldsWrite(rd, binding, s, a, p, node);
      if p.Inner? {
        HoldsWrite(rd, binding, s, a, Owned, Dir);
        HoldsWrite(rd, binding, s, a, Entry(p.dir), Dir);
      } else if p.Entry? {
        HoldsWrite(rd, binding, s, a, Owned, Dir);
      }
    }
  }

  /**
   No entry that does not carry a generated name, and is not one of the program's own files, is ever
   pruned or changed: not by any run, and not by any power loss once it was on the disk.
   */
  lemma {:induction false} BystandersStay(rd: Reader, binding: string, start: State, acts: seq<Action>,
                                          p: Path, node: Node)
    requires Inv(rd, start) && Run(rd, binding, start, acts).Some?
    requires BystanderIn(p) && Holds(start, p, node)
    ensures Holds(Run(rd, binding, start, acts).value, p, node)
    decreases |acts|
  {
    if acts != [] {
      var front := acts[..|acts| - 1];
      BystandersStay(rd, binding, start, front, p, node);
      RunKeeps(rd, binding, start, front);
      HoldsStep(rd, binding, Run(rd, binding, start, front).value, acts[|acts| - 1], p, node);
    }
  }

  // ---------------------------------------------------------------- a volume that refuses every retry

  /** The directory reached the disk, its owner record did not. */
  ghost predicate Wedged(s: State) {
    && |s.log| == 1 && At(s.log[0], Owned) == Some(Dir) && OWNER !in s.log[0]
    && (s.phase.Idle? || s.phase.Mounted? || s.phase.Failed?)
  }

  /** Killed between creating the directory and writing its owner record, a first run leaves such a volume. */
  lemma CanWedge(rd: Reader, binding: string, start: State)
    requires Fresh(start) && OwnerOk(rd, binding, start.log[0])
    ensures Run(rd, binding, start, [Mount, CheckOwner, MakeOwned, Kill]).Some?
    ensures Wedged(Run(rd, binding, start, [Mount, CheckOwner, MakeOwned, Kill]).value)
  {
    assert [Mount, CheckOwner, MakeOwned, Kill][..3] == [Mount, CheckOwner, MakeOwned];
    assert [Mount, CheckOwner, MakeOwned][..2] == [Mount, CheckOwner];
    assert [Mount, CheckOwner][..1] == [Mount];
    assert [Mount][..0] == [];
    assert Run(rd, binding, start, []) == Some(start);
    assert Run(rd, binding, start, [Mount]) == Some(start.(phase := Mounted));
    assert Run(rd, binding, start, [Mount, CheckOwner]) == Some(start.(phase := Opened));
    assert Owned !in start.log[0];
  }

  /** Nothing that can happen to a wedged volume un-wedges it, or selects a payload. */
  lemma WedgedStep(rd: Reader, binding: string, s: State, a: Action)
    requires Wedged(s) && Enabled(rd, binding, s, a)
    ensures Wedged(Apply(rd, binding, s, a))
    ensures At(Apply(rd, binding, s, a).log[0], CURRENT) == At(s.log[0], CURRENT)
  {
    if a.Crash? {
      CrashKeeps(s.log, a.image, Owned, Some(Dir));
      CrashKeeps(s.log, a.image, OWNER, None);
      CrashKeeps(s.log, a.image, CURRENT, At(s.log[0], CURRENT));
    }
  }

  /** Every later run is refused at the ownership check, whatever else happens to the volume. */
  lemma {:induction false} WedgedForever(rd: Reader, binding: string, start: State, acts: seq<Action>)
    requires Wedged(start) && Run(rd, binding, start, acts).Some?
    ensures Wedged(Run(rd, binding, start, acts).value)
    ensures !OwnerOk(rd, binding, Run(rd, binding, start, acts).value.log[0])
    ensures At(Run(rd, binding, start, acts).value.log[0], CURRENT) == At(start.log[0], CURRENT)
    decreases |acts|
  {
    if acts != [] {
      var front := acts[..|acts| - 1];
      WedgedForever(rd, binding, start, front);
      WedgedStep(rd, binding, Run(rd, binding, start, front).value, acts[|acts| - 1]);
    }
  }

  /** Everything the ownership check will look at, in every state power loss can choose from. */
  ghost predicate OwnerSound(rd: Reader, binding: string, fs: Fs) {
    && (Owned in fs ==> fs[Owned] == Dir)
    && (OWNER in fs ==> fs[OWNER].File? && rd.owner(fs[OWNER].content) == Some(binding))
    && (forall n :: Outside(n) in fs ==> n == "lost+found")
  }

  ghost predicate OwnerSoundLog(rd: Reader, binding: string, s: State) {
    forall i :: 0 <= i < |s.log| ==> OwnerSound(rd, binding, s.log[i])
  }

  lemma OwnerSoundCrash(rd: Reader, binding: string, log: seq<Fs>, c: Fs)
    requires forall i :: 0 <= i < |log| ==> OwnerSound(rd, binding, log[i])
    requires CrashImage(log, c)
    ensures OwnerSound(rd, binding, c)
  {
  }

  lemma OwnerSoundWrite(rd: Reader, binding: string, s: State, a: Action)
    requires Inv(rd, s) && OwnerSound(rd, binding, s.Live()) && Enabled(rd, binding, s, a) && !a.Crash?
    ensures OwnerSound(rd, binding, Apply(rd, binding, s, a).Live())
  {
    var fs, fs' := s.Live(), Apply(rd, binding, s, a).Live();
    StepTouches(rd, binding, s, a);
    forall p | p in Touched(s, a)
      ensures !p.Outside? && (p == Owned ==> a == MakeOwned) && (p == OWNER ==> a.ReplaceOwner?)
    {
      TouchedIsOwn(rd, binding, s, a, p);
    }
    assert At(fs', OWNER) == At(fs, OWNER) || a.ReplaceOwner?;
    assert At(fs', Owned) == At(fs, Owned) || a == MakeOwned;
    forall n | Outside(n) in fs'
      ensures Outside(n) in fs
    {
      assert At(fs', Outside(n)) == At(fs, Outside(n));
    }
  }

  lemma OwnerSoundStep(rd: Reader, binding: string, s: State, a: Action)
    requires Inv(rd, s) && OwnerSoundLog(rd, binding, s) && Enabled(rd, binding, s, a)
    ensures OwnerSoundLog(rd, binding, Apply(rd, binding, s, a))
  {
    if a.Crash? {
      OwnerSoundCrash(rd, binding, s.log, a.image);
    } else {
      var last := |s.log| - 1;
      assert OwnerSound(rd, binding, s.log[last]);
      OwnerSoundWrite(rd, binding, s, a);
      StepLog(rd, binding, s, a);
      LogSound(rd, binding, s, Apply(rd, binding, s, a));
    }
  }

  lemma LogSound(rd: Reader, binding: string, s: State, s': State)
    requires s.Alive() && s'.Alive() && LogStep(s, s') && OwnerSoundLog(rd, binding, s)
    requires OwnerSound(rd, binding, s'.Live())
    ensures OwnerSoundLog(rd, binding, s')
  {
  }

  /**
   Whether a retry is let in: after any history of an initially empty volume, the ownership check
   passes if and only if the directory is gone or its owner record is there.
   */
  lemma {:induction false} RetryCondition(rd: Reader, binding: string, start: State, acts: seq<Action>)
    requires Fresh(start) && OwnerOk(rd, binding, start.log[0]) && Run(rd, binding, start, acts).Some?
    ensures var s := Run(rd, binding, start, acts).value;
            && OwnerSoundLog(rd, binding, s)
            && (OwnerOk(rd, binding, s.Live()) <==> Owned !in s.Live() || OWNER in s.Live())
    decreases |acts|
  {
    FreshIsSound(rd, start);
    if acts == [] {
      assert Owned !in start.log[0] && OWNER !in start.log[0];
    } else {
      var front := acts[..|acts| - 1];
      RetryCondition(rd, binding, start, front);
      RunKeeps(rd, binding, start, front);
      OwnerSoundStep(rd, binding, Run(rd, binding, start, front).value, acts[|acts| - 1]);
    }
    var s := Run(rd, binding, start, acts).value;
    assert OwnerSound(rd, binding, s.log[|s.log| - 1]);
  }

  // ---------------------------------------------------------------- volumes of somebody else

  /**
   Somebody else's volume: there is something else in the directory's place; or its owner record is
   missing, cannot be read, or names another binding; or there is no directory, but something other
   than lost+found.
   */
  ghost predicate Foreign(rd: Reader, binding: string, fs: Fs) {
    || (Owned in fs && fs[Owned] != Dir)
    || (Owned in fs && !exists text :: At(fs, OWNER) == Some(File(text)) && rd.owner(text) == Some(binding))
    || (Owned !in fs && exists n :: Outside(n) in fs && n != "lost+found")
  }

  lemma ForeignRefused(rd: Reader, binding: string, fs: Fs)
    ensures Foreign(rd, binding, fs) <==> !OwnerOk(rd, binding, fs)
  {
    OwnerOkMeans(rd, binding, fs);
  }

  /** A volume on which nothing has been written has nothing to lose. */
  lemma NothingToLose(fs: Fs, c: Fs)
    requires Rooted(fs) && CrashImage([fs], c)
    ensures c == fs
  {
    forall p | p in c
      ensures p in fs && c[p] == fs[p]
    {
      assert SomeState([fs], p, Some(c[p]));
    }
    forall p | p in fs
      ensures p in c
    {
      assert ParentIn(fs, p);
      if p.Inner? {
        assert ParentIn(fs, Entry(p.dir));
        CrashKeeps([fs], c, Owned, Some(Dir));
        CrashKeeps([fs], c, Entry(p.dir), Some(Dir));
      } else if p.Entry? {
        CrashKeeps([fs], c, Owned, Some(Dir));
      }
      CrashKeeps([fs], c, p, Some(fs[p]));
    }
  }

  ghost predicate Untouched(s: State, fs: Fs) {
    s.log == [fs] && (s.phase.Idle? || s.phase.Mounted? || s.phase.Failed?)
  }

  lemma ForeignStep(rd: Reader, binding: string, s: State, a: Action, fs: Fs)
    requires Rooted(fs) && Foreign(rd, binding, fs) && Untouched(s, fs) && Enabled(rd, binding, s, a)
    ensures Untouched(Apply(rd, binding, s, a), fs)
  {
    ForeignRefused(rd, binding, fs);
    if a.Crash? {
      NothingToLose(fs, a.image);
    }
  }

  /** Whatever runs, fails, is killed or loses power, somebody else's volume stays exactly as it was. */
  lemma {:induction false} ForeignUntouched(rd: Reader, binding: string, fs: Fs, acts: seq<Action>)
    requires Rooted(fs) && Foreign(rd, binding, fs) && Run(rd, binding, State([fs], Idle), acts).Some?
    ensures Untouched(Run(rd, binding, State([fs], Idle), acts).value, fs)
    decreases |acts|
  {
    if acts != [] {
      var front := acts[..|acts| - 1];
      ForeignUntouched(rd, binding, fs, front);
      ForeignStep(rd, binding, Run(rd, binding, State([fs], Idle), front).value, acts[|acts| - 1], fs);
    }
  }

  // ---------------------------------------------------------------- nothing in the way

  lemma UnobstructedWrite(rd: Reader, binding: string, s: State, a: Action)
    requires Inv(rd, s) && Unobstructed(s.Live()) && Enabled(rd, binding, s, a) && !a.Crash?
    ensures Unobstructed(Apply(rd, binding, s, a).Live())
  {
    if a.WriteTemp? || a.DropTemp? || a.ReplaceOwner? || a.ReplaceMenu? {
      OwnNamesTemp(a.name);
    } else if a.Remove? {
      RemoveNotCurrent(rd, binding, s, a.p);
    } else if a.MakeCandidate? {
      OwnNames(a.name);
    }
  }

  lemma UnobstructedCrash(log: seq<Fs>, c: Fs)
    requires (forall i :: 0 <= i < |log| ==> Unobstructed(log[i])) && CrashImage(log, c)
    ensures Unobstructed(c)
  {
    forall p | p in c
      ensures exists i :: 0 <= i < |log| && At(log[i], p) == Some(c[p])
    {
      assert SomeState(log, p, Some(c[p]));
    }
  }

  /** After any history of an initially empty volume, nothing of the wrong kind stands where a run will write. */
  lemma {:induction false} NothingInTheWay(rd: Reader, binding: string, start: State, acts: seq<Action>)
    requires Fresh(start) && Run(rd, binding, start, acts).Some?
    ensures forall i :: 0 <= i < |Run(rd, binding, start, acts).value.log| ==>
              Unobstructed(Run(rd, binding, start, acts).value.log[i])
    decreases |acts|
  {
    FreshIsSound(rd, start);
    if acts == [] {
      assert MENU !in start.log[0] && CURRENT !in start.log[0] && CURRENT_NEW !in start.log[0];
    } else {
      var front, a := acts[..|acts| - 1], acts[|acts| - 1];
      NothingInTheWay(rd, binding, start, front);
      RunKeeps(rd, binding, start, front);
      UnobstructedStep(rd, binding, Run(rd, binding, start, front).value, a);
    }
  }

  lemma UnobstructedStep(rd: Reader, binding: string, s: State, a: Action)
    requires Inv(rd, s) && Enabled(rd, binding, s, a)
    requires forall i :: 0 <= i < |s.log| ==> Unobstructed(s.log[i])
    ensures forall i :: 0 <= i < |Apply(rd, binding, s, a).log| ==> Unobstructed(Apply(rd, binding, s, a).log[i])
  {
    if a.Crash? {
      UnobstructedCrash(s.log, a.image);
    } else {
      var last := |s.log| - 1;
      assert Unobstructed(s.log[last]);
      UnobstructedWrite(rd, binding, s, a);
      StepLog(rd, binding, s, a);
      LogUnobstructed(s, Apply(rd, binding, s, a));
    }
  }

  lemma LogUnobstructed(s: State, s': State)
    requires s.Alive() && s'.Alive() && LogStep(s, s') && Unobstructed(s'.Live())
    requires forall i :: 0 <= i < |s.log| ==> Unobstructed(s.log[i])
    ensures forall i :: 0 <= i < |s'.log| ==> Unobstructed(s'.log[i])
  {
  }
}
