/**
 The deployment itself, line by line (anduinos-recovery-env/src/deploy.py, deploy and
 prune_unselected_payloads): an object whose fields are the mounted volume, changed in place.
 Every method extends the ghost list `done`, and `Valid` says that list is a run of the protocol,
 so the theorems about all runs hold of this program at each of its steps.
 */
module Deployment {
  import opened Sequences
  import opened DeployProtocol
  import opened DeploySafety

  /** Where a system call of a run fails and raises. */
  datatype Fault =
    | OwnerWrite
    | NoSpace
    | Copying(file: string)
    | MenuWrite
    | FirstSync
    | Unlinking
    | Linking
    | Swapping
    | SecondSync
    | LastSync

  /** What a run is given: file contents, the names tempfile picks, and what will go wrong. */
  datatype Inputs = Inputs(payload: map<string, string>, torn: string, ownerText: string, menuText: string,
                           candidate: string, ownerTemp: string, menuTemp: string, faults: set<Fault>)

  const FILES := ["vmlinuz", "initrd.img", "manifest.json"]

  ghost predicate Under(p: Path, n: string) {
    p == Entry(n) || (p.Inner? && p.dir == n)
  }

  /** Directory `n` is gone, and nothing else has changed. */
  ghost predicate Dropped(a: Fs, b: Fs, n: string) {
    forall p :: At(b, p) == if Under(p, n) then None else At(a, p)
  }

  /** The directory a path belongs to. */
  function Within(p: Path): Option<string> {
    match p
    case Entry(n) => Some(n)
    case Inner(n, _) => Some(n)
    case _ => None
  }

  /** The discarded directories are gone, but for those in `left`, and nothing else has changed. */
  ghost predicate PrunedFrom(a: Fs, b: Fs, left: set<string>) {
    forall p {:trigger At(b, p)} :: At(b, p) == if Gone(a, p, left) then None else At(a, p)
  }

  ghost predicate Gone(a: Fs, p: Path, left: set<string>) {
    Within(p).Some? && Within(p).value !in left && Discarded(a, Within(p).value)
  }

  /** Neither the selector nor what the next run will check has changed. */
  ghost predicate SameSelection(a: Fs, b: Fs) {
    At(b, CURRENT) == At(a, CURRENT) && At(b, Owned) == At(a, Owned) && At(b, OWNER) == At(a, OWNER)
  }

  /** Candidate `c` holds exactly the source files. */
  ghost predicate Holding(fs: Fs, c: string, payload: map<string, string>) {
    && At(fs, Entry(c)) == Some(Dir)
    && forall f :: PayloadFile(f) ==> f in payload && At(fs, Inner(c, f)) == Some(File(payload[f]))
  }

  /** tempfile never picks a name that is in use. */
  ghost predicate Usable(rd: Reader, binding: string, fs: Fs, given: Inputs) {
    && Generated(given.candidate) && At(fs, Entry(given.candidate)) == None
    && Temporary(given.ownerTemp) && At(fs, Entry(given.ownerTemp)) == None
    && Temporary(given.menuTemp) && At(fs, Entry(given.menuTemp)) == None
    && given.payload.Keys == {"vmlinuz", "initrd.img", "manifest.json"}
    && rd.owner(given.ownerText) == Some(binding)
  }

  /** verify_payload on the packaged files, before anything is mounted. */
  predicate SourceOk(rd: Reader, payload: map<string, string>)
    requires payload.Keys == {"vmlinuz", "initrd.img", "manifest.json"}
  {
    Complete(rd, map[Entry("") := Dir, Inner("", "vmlinuz") := File(payload["vmlinuz"]),
                     Inner("", "initrd.img") := File(payload["initrd.img"]),
                     Inner("", "manifest.json") := File(payload["manifest.json"])], "")
  }

  /** The copy verifies exactly when the packaged files do. */
  lemma HoldingSource(rd: Reader, fs: Fs, c: string, payload: map<string, string>)
    requires Holding(fs, c, payload) && payload.Keys == {"vmlinuz", "initrd.img", "manifest.json"}
    ensures Complete(rd, fs, c) == SourceOk(rd, payload)
  {
  }

  lemma MenuSpares(a: Fs, b: Fs, c: string, payload: map<string, string>)
    requires Generated(c) && Holding(a, c, payload) && ChangedAt(b, a, {MENU})
    ensures Holding(b, c, payload)
  {
  }

  /** What the disk holds is decided by the files alone. */
  lemma HoldingComplete(rd: Reader, a: Fs, b: Fs, c: string, payload: map<string, string>)
    requires Holding(a, c, payload) && Holding(b, c, payload)
    ensures Complete(rd, a, c) == Complete(rd, b, c)
  {
  }

  class Deployment {
    const rd: Reader
    const binding: string
    /** The volume as the program sees it, and where the program is. */
    var fs: Fs
    var phase: Phase
    /** The states since the last sync, and the steps taken since `start`. */
    ghost var log: seq<Fs>
    ghost const start: State
    ghost var done: seq<Action>

    ghost predicate Valid()
      reads this
    {
      |log| > 0 && log[|log| - 1] == fs && Traces(State(log, phase))
    }

    /** `done` leads to `s`. The run stands under a quantifier so that it is unfolded only by `Reached`. */
    ghost predicate Traces(s: State)
      reads this
    {
      forall k :: k == |done| ==> Run(rd, binding, start, done[..k]) == Some(s)
    }

    /** The object has got where it is by a run of the protocol. */
    lemma Reached()
      requires Valid()
      ensures Run(rd, binding, start, done) == Some(State(log, phase))
    {
      assert done[..|done|] == done;
    }

    constructor (rd: Reader, binding: string, disk: Fs)
      ensures Valid() && phase == Idle && fs == disk && log == [disk] && done == []
      ensures this.rd == rd && this.binding == binding && start == State([disk], Idle)
    {
      this.rd, this.binding := rd, binding;
      fs, phase := disk, Idle;
      log, start, done := [disk], State([disk], Idle), [];
    }

    /** Action `a` is possible now, and leads to `next`. */
    ghost predicate Leads(a: Action, next: State)
      reads this
    {
      && |log| > 0
      && Enabled(rd, binding, State(log, phase), a)
      && Apply(rd, binding, State(log, phase), a) == next
    }

    ghost method Extend(a: Action, next: State)
      requires Valid() && Leads(a, next)
      modifies this`done
      ensures done == old(done) + [a]
      ensures Traces(next)
    {
      Reached();
      assert (done + [a])[..|done|] == done;
      done := done + [a];
      assert done[..|done|] == done;
    }

    /** One completed change of the directory tree. */
    method Change(tree: Fs, next: Phase, ghost a: Action)
      requires Valid() && Leads(a, State(log + [tree], next))
      modifies this
      ensures Valid() && fs == tree && phase == next
      ensures log == old(log) + [tree] && done == old(done) + [a]
    {
      Extend(a, State(log + [tree], next));
      fs, phase, log := tree, next, log + [tree];
    }

    /** Moving on without a change. */
    method Proceed(next: Phase, ghost a: Action)
      requires Valid() && Leads(a, State(log, next))
      modifies this
      ensures Valid() && fs == old(fs) && phase == next
      ensures log == old(log) && done == old(done) + [a]
    {
      Extend(a, State(log, next));
      phase := next;
    }

    /** Everything written so far reaches the disk. */
    method Flush(next: Phase, ghost a: Action)
      requires Valid() && Leads(a, State([fs], next))
      modifies this
      ensures Valid() && fs == old(fs) && phase == next
      ensures log == [fs] && done == old(done) + [a]
    {
      Extend(a, State([fs], next));
      phase, log := next, [fs];
    }

    // -------------------------------------------------------------- removing directories

    ghost predicate MayRemove(n: string)
      reads this
    {
      || ((phase.Pruning? || phase.Confirmed?) && Prunable(fs, n))
      || (phase.Cleaning? && phase.c == n && At(fs, CURRENT) != Some(Link(n)))
    }

    /** One unlink or rmdir. */
    method RemoveOne(p: Path, ghost n: string)
      requires Valid() && MayRemove(n) && PartOf(fs, p, n)
      modifies this
      ensures Valid() && fs == old(fs) - {p} && phase == old(phase)
    {
      assert State(log, phase).Live() == fs;
      assert PartOf(fs, p, n) && (!phase.Cleaning? ==> Prunable(fs, n));
      Change(fs - {p}, phase, Remove(p));
    }

    /** shutil.rmtree */
    method RemoveTree(n: string)
      requires Valid() && MayRemove(n) && Generated(n) && At(fs, Entry(n)) == Some(Dir)
      modifies this
      ensures Valid() && phase == old(phase)
      ensures Dropped(old(fs), fs, n)
    {
      OwnNames(n);
      var files := set p | p in fs.Keys && p.Inner? && p.dir == n;
      while files != {}
        invariant Valid() && phase == old(phase)
        invariant files == set p | p in fs.Keys && p.Inner? && p.dir == n
        invariant forall p: Path :: !(p.Inner? && p.dir == n) ==> At(fs, p) == old(At(fs, p))
        invariant MayRemove(n)
      {
        var p :| p in files;
        files := files - {p};
        RemoveOne(p, n);
      }
      assert forall f :: Inner(n, f) in fs ==> Inner(n, f) in files;
      RemoveOne(Entry(n), n);
    }

    /** prune_unselected_payloads */
    method PruneUnselected()
      requires Valid() && (phase.Pruning? || phase.Confirmed?)
      modifies this
      ensures Valid() && phase == old(phase)
      ensures PrunedFrom(old(fs), fs, {})
      ensures forall n :: !Prunable(fs, n)
    {
      forall n
        ensures Prunable(fs, n) <==> Discarded(fs, n)
      {
        PrunableMeans(fs, n);
      }
      var current := At(fs, CURRENT);
      if current.Some? && (!current.value.Link? || !Generated(current.value.target)
                           || At(fs, Entry(current.value.target)) != Some(Dir)) {
        return;
      }
      var names := set p | p in fs.Keys && p.Entry? :: p.name;
      while names != {}
        invariant Valid() && phase == old(phase)
        invariant Familiar(fs) && At(fs, CURRENT) == current == old(At(fs, CURRENT))
        invariant PrunedFrom(old(fs), fs, names)
        invariant forall n :: Prunable(fs, n) ==> n in names
      {
        var n :| n in names;
        ghost var before := fs;
        if Prunable(fs, n) {
          OwnNames(n);
          RemoveTree(n);
          StillPruned(old(fs), before, fs, names, n);
        } else {
          NotPruned(old(fs), fs, names, n);
        }
        names := names - {n};
      }
    }
  
    // -------------------------------------------------------------- the exception handler

    /** Lines 256-259 */
    method Cleanup(ghost c: string)
      requires Valid() && InTry(phase) && phase.c == c && Generated(c) && At(fs, Entry(c)) == Some(Dir)
      modifies this
      ensures Valid() && phase == Failed
      ensures if old(At(fs, CURRENT)) == Some(Link(c)) then fs == old(fs) else Dropped(old(fs), fs, c)
      ensures SameSelection(old(fs), fs)
      ensures old(At(fs, CURRENT)) != Some(Link(c)) ==> At(fs, Entry(c)) == None
    {
      OwnNames(c);
      Proceed(Cleaning(phase.c), Raise);
      if At(fs, CURRENT) != Some(Link(phase.c)) {
        RemoveTree(phase.c);
      }
      Proceed(Failed, CleanDone);
    }

    // -------------------------------------------------------------- the run

    /** An exception outside the handler of lines 256-259. */
    method GiveUp()
      requires Valid() && !phase.Idle? && !phase.Failed? && !phase.Finished? && !phase.Cleaning? && !InTry(phase)
      modifies this
      ensures Valid() && phase == Failed && fs == old(fs)
    {
      Proceed(Failed, Raise);
    }

    /** Lines 212-222: mount, check whose volume this is, make the directory. */
    method Enter() returns (ok: bool)
      requires Valid() && phase == Idle
      modifies this
      ensures Valid()
      ensures ok <==> OwnerOk(rd, binding, old(fs))
      ensures ok <==> Mine(rd, binding, old(fs)) || Vacant(old(fs))
      ensures phase == if ok then Opened else Failed
      ensures fs == if ok && Owned !in old(fs) then old(fs)[Owned := Dir] else old(fs)
    {
      OwnerOkMeans(rd, binding, fs);
      Proceed(Mounted, Mount);
      if !OwnerOk(rd, binding, fs) {
        GiveUp();
        return false;
      }
      Proceed(Opened, CheckOwner);
      if Owned !in fs {
        Change(fs[Owned := Dir], phase, MakeOwned);
      }
      return true;
    }

    /** atomic_write: the text appears under its name in one step, or not at all. */
    method AtomicWrite(t: string, to: Path, text: string, fails: bool, next: Phase, ghost a: Action) returns (ok: bool)
      requires Valid() && (phase == Opened || phase.Verified?) && At(fs, Owned) == Some(Dir)
      requires Temporary(t) && At(fs, Entry(t)) == None && to != Entry(t)
      requires a == (if phase == Opened then ReplaceOwner(t) else ReplaceMenu(t))
      requires to == (if phase == Opened then OWNER else MENU)
      requires next == (if phase == Opened then Pruning else MenuWritten(phase.c))
      requires if phase == Opened then rd.owner(text) == Some(binding) && At(fs, OWNER) != Some(Dir)
               else MenuFree(fs)
      modifies this
      ensures Valid() && ok == !fails
      ensures phase == if ok then next else old(phase)
      ensures fs == if ok then old(fs)[to := File(text)] else old(fs)
    {
      Change(fs[Entry(t) := File(text)], phase, WriteTemp(t, text));
      if fails {
        Change(fs - {Entry(t)}, phase, DropTemp(t));
        return false;
      }
      Change(Moved(fs, Entry(t), to), next, a);
      return true;
    }

    /** Line 223: the owner record is replaced atomically. */
    method RecordOwner(given: Inputs) returns (ok: bool)
      requires Valid() && phase == Opened && Usable(rd, binding, fs, given)
      requires At(fs, Owned) == Some(Dir) && At(fs, OWNER) != Some(Dir)
      modifies this
      ensures Valid() && ok == (OwnerWrite !in given.faults)
      ensures phase == if ok then Pruning else Failed
      ensures fs == if ok then old(fs)[OWNER := File(given.ownerText)] else old(fs)
    {
      OwnNamesTemp(given.ownerTemp);
      ok := AtomicWrite(given.ownerTemp, OWNER, given.ownerText, OwnerWrite in given.faults, Pruning,
                        ReplaceOwner(given.ownerTemp));
      if !ok {
        GiveUp();
      }
    }

    /** Lines 212-223 */
    method Open(given: Inputs) returns (ok: bool)
      requires Valid() && phase == Idle && Usable(rd, binding, fs, given) && Rooted(fs)
      modifies this
      ensures Valid()
      ensures ok <==> OwnerOk(rd, binding, old(fs)) && OwnerWrite !in given.faults
      ensures phase == if ok then Pruning else Failed
      ensures ok ==> At(fs, Owned) == Some(Dir) && At(fs, OWNER) == Some(File(given.ownerText))
      ensures forall p :: p != Owned && p != OWNER ==> At(fs, p) == old(At(fs, p))
      ensures !OwnerOk(rd, binding, old(fs)) ==> fs == old(fs)
    {
      assert OWNER in fs ==> ParentIn(fs, OWNER);
      ok := Enter();
      if ok {
        ok := RecordOwner(given);
      }
    }

    /** Lines 233-236: each file is visible half-written before it is whole. */
    method CopyFiles(given: Inputs) returns (ok: bool)
      requires Valid() && phase == Staging(given.candidate) && At(fs, Entry(given.candidate)) == Some(Dir)
      requires given.payload.Keys == {"vmlinuz", "initrd.img", "manifest.json"}
      modifies this
      ensures Valid() && phase == old(phase)
      ensures ok ==> Holding(fs, given.candidate, given.payload)
      ensures ok <==> forall f :: PayloadFile(f) ==> Copying(f) !in given.faults
      ensures forall p: Path :: !(p.Inner? && p.dir == given.candidate) ==> At(fs, p) == old(At(fs, p))
    {
      var c := given.candidate;
      for i := 0 to |FILES|
        invariant Valid() && phase == old(phase)
        invariant forall p: Path :: !(p.Inner? && p.dir == c) ==> At(fs, p) == old(At(fs, p))
        invariant forall k :: 0 <= k < i ==> At(fs, Inner(c, FILES[k])) == Some(File(given.payload[FILES[k]]))
        invariant forall k :: 0 <= k < i ==> Copying(FILES[k]) !in given.faults
      {
        var f := FILES[i];
        assert PayloadFile(f);
        Change(fs[Inner(c, f) := File(given.torn)], phase, CopyFile(f, given.torn));
        if Copying(f) in given.faults {
          return false;
        }
        Change(fs[Inner(c, f) := File(given.payload[f])], phase, CopyFile(f, given.payload[f]));
      }
      assert FILES[0] == "vmlinuz" && FILES[1] == "initrd.img" && FILES[2] == "manifest.json";
      return true;
    }

    /** Lines 242-247: the menu is written before the payload is selected. */
    method WriteMenu(given: Inputs) returns (ok: bool)
      requires Valid() && phase == Verified(given.candidate) && At(fs, Owned) == Some(Dir)
      requires Temporary(given.menuTemp) && At(fs, Entry(given.menuTemp)) == None
      modifies this
      ensures Valid()
      ensures phase == if ok then MenuWritten(given.candidate) else old(phase)
      ensures fs == if ok then old(fs)[MENU := File(given.menuText)] else old(fs)
      ensures given.faults == {} && MenuFree(old(fs)) ==> ok
    {
      if !MenuFree(fs) {
        return false;
      }
      OwnNamesTemp(given.menuTemp);
      ok := AtomicWrite(given.menuTemp, MENU, given.menuText, MenuWrite in given.faults,
                        MenuWritten(given.candidate), ReplaceMenu(given.menuTemp));
    }

    /** Lines 233-238: copy and read back. */
    method Fill(given: Inputs) returns (ok: bool)
      requires Valid() && phase == Staging(given.candidate) && At(fs, Entry(given.candidate)) == Some(Dir)
      requires given.payload.Keys == {"vmlinuz", "initrd.img", "manifest.json"}
      modifies this
      ensures Valid()
      ensures phase == if ok then Verified(given.candidate) else old(phase)
      ensures ok ==> Holding(fs, given.candidate, given.payload) && Complete(rd, fs, given.candidate)
      ensures forall p: Path :: !(p.Inner? && p.dir == given.candidate) ==> At(fs, p) == old(At(fs, p))
      ensures given.faults == {} && SourceOk(rd, given.payload) ==> ok
    {
      ok := CopyFiles(given);
      if ok {
        HoldingSource(rd, fs, given.candidate, given.payload);
      }
      if !ok || !Complete(rd, fs, given.candidate) {
        return false;
      }
      Proceed(Verified(given.candidate), VerifyCandidate);
    }

    /** Lines 233-247: the candidate's files, then the menu. */
    method Furnish(given: Inputs) returns (ok: bool)
      requires Valid() && phase == Staging(given.candidate) && Generated(given.candidate)
      requires At(fs, Entry(given.candidate)) == Some(Dir) && At(fs, Owned) == Some(Dir)
      requires Temporary(given.menuTemp) && At(fs, Entry(given.menuTemp)) == None
      requires given.payload.Keys == {"vmlinuz", "initrd.img", "manifest.json"}
      modifies this
      ensures Valid()
      ensures if ok then phase == MenuWritten(given.candidate) else InTry(phase) && phase.c == given.candidate
      ensures ok ==> Holding(fs, given.candidate, given.payload) && Complete(rd, fs, given.candidate)
      ensures ok ==> At(fs, MENU) == Some(File(given.menuText))
      ensures SameSelection(old(fs), fs) && At(fs, Entry(given.candidate)) == Some(Dir)
      ensures At(fs, CURRENT_NEW) == old(At(fs, CURRENT_NEW))
      ensures given.faults == {} && SourceOk(rd, given.payload) && MenuFree(old(fs)) ==> ok
    {
      OwnNames(given.candidate);
      OwnNamesTemp(given.menuTemp);
      ok := Fill(given);
      if ok {
        ghost var verified := fs;
        ok := WriteMenu(given);
        MenuSpares(verified, fs, given.candidate, given.payload);
        HoldingComplete(rd, verified, fs, given.candidate, given.payload);
      }
    }

    /** Line 231 */
    method NewDirectory(c: string)
      requires Valid() && phase == Ready && Generated(c) && At(fs, Entry(c)) == None
      modifies this
      ensures Valid() && phase == Staging(c)
      ensures At(fs, Entry(c)) == Some(Dir) && forall p :: p != Entry(c) ==> At(fs, p) == old(At(fs, p))
    {
      Change(fs[Entry(c) := Dir], Staging(c), MakeCandidate(c));
    }

    /** Lines 231-247: a verified candidate and its menu, or no candidate at all. */
    method Stage(given: Inputs) returns (ok: bool)
      requires Valid() && phase == Ready && Usable(rd, binding, fs, given) && At(fs, Owned) == Some(Dir)
      requires At(fs, CURRENT) != Some(Link(given.candidate))
      modifies this
      ensures Valid()
      ensures phase == if ok then MenuWritten(given.candidate) else Failed
      ensures ok ==> Holding(fs, given.candidate, given.payload) && Complete(rd, fs, given.candidate)
      ensures ok ==> At(fs, MENU) == Some(File(given.menuText))
      ensures SameSelection(old(fs), fs) && (ok ==> At(fs, CURRENT_NEW) == old(At(fs, CURRENT_NEW)))
      ensures !ok ==> At(fs, Entry(given.candidate)) == None
      ensures given.faults == {} && SourceOk(rd, given.payload) && MenuFree(old(fs)) ==> ok
    {
      var c := given.candidate;
      OwnNames(c);
      if NoSpace in given.faults {
        GiveUp();
        return false;
      }
      NewDirectory(c);
      ok := Furnish(given);
      if !ok {
        Cleanup(c);
      }
    }

    /** Lines 252-253: an old link goes, the new one comes. Each call may fail after the one before it. */
    method NewLink(given: Inputs) returns (ok: bool)
      requires Valid() && phase == Synced(given.candidate)
      modifies this
      ensures Valid() && phase == if ok then Linked(given.candidate) else old(phase)
      ensures ok ==> At(fs, CURRENT_NEW) == Some(Link(given.candidate))
      ensures forall p :: p != CURRENT_NEW ==> At(fs, p) == old(At(fs, p))
      ensures ok <==> Unlinking !in given.faults && Linking !in given.faults && old(At(fs, CURRENT_NEW)) != Some(Dir)
    {
      if At(fs, CURRENT_NEW) == Some(Dir) || Unlinking in given.faults {
        return false;
      }
      if CURRENT_NEW in fs {
        Change(fs - {CURRENT_NEW}, phase, UnlinkNew);
      }
      if Linking in given.faults {
        return false;
      }
      Change(fs[CURRENT_NEW := Link(given.candidate)], Linked(given.candidate), LinkNew);
      return true;
    }

    /** Line 254: one step. */
    method ReplaceLink(c: string)
      requires Valid() && phase == Linked(c) && At(fs, CURRENT_NEW) == Some(Link(c)) && At(fs, CURRENT) != Some(Dir)
      modifies this
      ensures Valid() && phase == Swapped(c) && At(fs, CURRENT) == Some(Link(c)) && At(fs, CURRENT_NEW) == None
      ensures forall p :: p != CURRENT && p != CURRENT_NEW ==> At(fs, p) == old(At(fs, p))
    {
      Change(Moved(fs, CURRENT_NEW, CURRENT), Swapped(c), Swap);
    }

    /**
     Lines 251-254: the new link takes the place of the old one in a single step. If one of the three
     calls fails, `current` is untouched, and `current.new` may be gone or left behind.
     */
    method SwapLink(given: Inputs) returns (ok: bool)
      requires Valid() && phase == Synced(given.candidate)
      modifies this
      ensures Valid()
      ensures if ok then phase == Swapped(given.candidate)
              else phase == Synced(given.candidate) || phase == Linked(given.candidate)
      ensures ok ==> At(fs, CURRENT) == Some(Link(given.candidate)) && At(fs, CURRENT_NEW) == None
      ensures ok ==> forall p :: p != CURRENT && p != CURRENT_NEW ==> At(fs, p) == old(At(fs, p))
      ensures !ok ==> forall p :: p != CURRENT_NEW ==> At(fs, p) == old(At(fs, p))
      ensures given.faults == {} && At(old(fs), CURRENT_NEW) != Some(Dir) && At(old(fs), CURRENT) != Some(Dir) ==> ok
    {
      ok := NewLink(given);
      if !ok || Swapping in given.faults || At(fs, CURRENT) == Some(Dir) {
        return false;
      }
      ReplaceLink(given.candidate);
    }

    /** Lines 248-255: the swap is durable before anything is pruned. */
    method Select(given: Inputs) returns (ok: bool)
      requires Valid() && phase == MenuWritten(given.candidate) && Generated(given.candidate)
      requires At(fs, Entry(given.candidate)) == Some(Dir) && At(fs, CURRENT) != Some(Link(given.candidate))
      modifies this
      ensures Valid()
      ensures phase == if ok then Confirmed else Failed
      ensures ok ==> At(fs, CURRENT) == Some(Link(given.candidate)) && log == [fs]
      ensures At(fs, CURRENT) == old(At(fs, CURRENT)) || At(fs, CURRENT) == Some(Link(given.candidate))
      ensures ok ==> forall p :: p != CURRENT && p != CURRENT_NEW ==> At(fs, p) == old(At(fs, p))
      ensures given.faults == {} && At(old(fs), CURRENT_NEW) != Some(Dir) && At(old(fs), CURRENT) != Some(Dir) ==> ok
    {
      OwnNames(given.candidate);
      ok := FirstSync !in given.faults;
      if ok {
        Flush(Synced(given.candidate), Sync);
        ok := SwapLink(given);
      }
      if !ok || SecondSync in given.faults {
        Cleanup(given.candidate);
        return false;
      }
      Flush(Confirmed, Sync);
    }

    /** Lines 256-261: only then the old payload goes. */
    method Finish(given: Inputs) returns (ok: bool)
      requires Valid() && phase == Confirmed && Generated(given.candidate)
      requires At(fs, CURRENT) == Some(Link(given.candidate)) && At(fs, Entry(given.candidate)) == Some(Dir)
      modifies this
      ensures Valid()
      ensures phase == if ok then Finished else Failed
      ensures Spared(old(fs), fs, given.candidate)
      ensures Payloads(fs) == {Entry(given.candidate)}
      ensures given.faults == {} ==> ok
    {
      PruneUnselected();
      PruneSpares(old(fs), fs, given.candidate);
      OnlySelected(old(fs), fs, given.candidate);
      ok := LastFlush(given);
    }

    /** Line 261 */
    method LastFlush(given: Inputs) returns (ok: bool)
      requires Valid() && phase == Confirmed && forall n :: !Prunable(fs, n)
      modifies this
      ensures Valid() && fs == old(fs)
      ensures phase == (if ok then Finished else Failed) && ok == (LastSync !in given.faults)
    {
      Proceed(Pruned, PruneDone);
      ok := LastSync !in given.faults;
      if ok {
        Flush(Finished, Sync);
      } else {
        GiveUp();
      }
    }

    /** Lines 227-230: make room. */
    method MakeRoom(given: Inputs)
      requires Valid() && phase == Pruning && Usable(rd, binding, fs, given)
      modifies this
      ensures Valid() && phase == Ready && Usable(rd, binding, fs, given)
      ensures Spared(old(fs), fs, given.candidate)
    {
      PruneUnselected();
      PruneSpares(old(fs), fs, given.candidate);
      OwnNamesTemp(given.ownerTemp);
      OwnNamesTemp(given.menuTemp);
      assert Under(Entry(given.candidate), given.candidate);
      Proceed(Ready, PruneDone);
    }

    /** Lines 227-247: make room, then stage. */
    method Prepare(given: Inputs) returns (ok: bool)
      requires Valid() && phase == Pruning && Usable(rd, binding, fs, given)
      requires At(fs, Owned) == Some(Dir) && At(fs, CURRENT) != Some(Link(given.candidate))
      modifies this
      ensures Valid()
      ensures phase == if ok then MenuWritten(given.candidate) else Failed
      ensures ok ==> Holding(fs, given.candidate, given.payload) && Complete(rd, fs, given.candidate)
      ensures ok ==> At(fs, MENU) == Some(File(given.menuText))
      ensures SameSelection(old(fs), fs) && (ok ==> At(fs, CURRENT_NEW) == old(At(fs, CURRENT_NEW)))
      ensures given.faults == {} && SourceOk(rd, given.payload) && MenuFree(old(fs)) ==> ok
    {
      assert !Generated("current") && !Generated("current.new") && !Generated("owner.json") && !Generated("grub.cfg");
      MakeRoom(given);
      assert SameSelection(old(fs), fs);
      ok := Stage(given);
    }

    /** Lines 248-261: select the candidate for good, then prune. */
    method Commit(given: Inputs) returns (ok: bool)
      requires Valid() && phase == MenuWritten(given.candidate) && Generated(given.candidate)
      requires Holding(fs, given.candidate, given.payload) && At(fs, CURRENT) != Some(Link(given.candidate))
      modifies this
      ensures Valid()
      ensures phase == if ok then Finished else Failed
      ensures ok ==> At(fs, CURRENT) == Some(Link(given.candidate)) && Holding(fs, given.candidate, given.payload)
      ensures ok ==> At(fs, MENU) == old(At(fs, MENU))
      ensures ok ==> At(fs, OWNER) == old(At(fs, OWNER)) && At(fs, Owned) == old(At(fs, Owned))
      ensures ok ==> Payloads(fs) == {Entry(given.candidate)}
      ensures At(fs, CURRENT) == old(At(fs, CURRENT)) || At(fs, CURRENT) == Some(Link(given.candidate))
      ensures given.faults == {} && At(old(fs), CURRENT_NEW) != Some(Dir) && At(old(fs), CURRENT) != Some(Dir) ==> ok
    {
      OwnNames(given.candidate);
      assert !Generated("current") && !Generated("owner.json") && !Generated("grub.cfg");
      ok := Select(given);
      if ok {
        assert Holding(fs, given.candidate, given.payload);
        ok := Finish(given);
      }
    }

    /** Lines 212-261: everything between mounting and unmounting. */
    method Attempt(given: Inputs) returns (ok: bool)
      requires Valid() && phase == Idle && Usable(rd, binding, fs, given)
      requires Rooted(fs) && (OwnerOk(rd, binding, fs) ==> At(fs, CURRENT) != Some(Link(given.candidate)))
      modifies this
      ensures Valid()
      ensures phase == if ok then Finished else Failed
      ensures !OwnerOk(rd, binding, old(fs)) ==> fs == old(fs)
      ensures ok ==> OwnerOk(rd, binding, old(fs)) && At(fs, OWNER) == Some(File(given.ownerText))
      ensures ok ==> Holding(fs, given.candidate, given.payload)
      ensures ok ==> At(fs, CURRENT) == Some(Link(given.candidate)) && At(fs, MENU) == Some(File(given.menuText))
      ensures ok ==> Payloads(fs) == {Entry(given.candidate)}
      ensures At(fs, CURRENT) == old(At(fs, CURRENT)) || At(fs, CURRENT) == Some(Link(given.candidate))
      ensures given.faults == {} && OwnerOk(rd, binding, old(fs)) && SourceOk(rd, given.payload) ==>
                Unobstructed(old(fs)) ==> ok
    {
      OwnNames(given.candidate);
      OwnNamesTemp(given.ownerTemp);
      OwnNamesTemp(given.menuTemp);
      ok := Open(given);
      if ok {
        ok := Prepare(given);
        if ok {
          ok := Commit(given);
        }
      }
    }

    /**
     The history began with a sound volume, such as an empty one. `Inv` stands under a quantifier so
     that it is unfolded only by `Sound`.
     */
    ghost predicate SoundStart()
      reads this
    {
      forall s :: s == start ==> Inv(rd, s)
    }

    /** The invariant of all runs, for the volume as it is now. */
    lemma Sound(c: string)
      requires Valid() && SoundStart()
      ensures Rooted(fs) && (CURRENT in fs ==> Boots(rd, fs))
      ensures Entry(c) !in fs ==> At(fs, CURRENT) != Some(Link(c))
    {
      assert Inv(rd, start);
      Reached();
      RunKeeps(rd, binding, start, done);
      if CURRENT in fs {
        SelectedIsGenerated(rd, log);
      }
    }

    /** Line 263: unmounting writes everything back. */
    method Release()
      requires Valid() && (phase == Finished || phase == Failed)
      modifies this
      ensures Valid() && phase == Idle && fs == old(fs) && log == [fs]
    {
      Flush(Idle, Unmount);
    }

    /**
     deploy: a run ends with the volume unmounted. Somebody else's volume is refused and stays as it
     was. If the run succeeds, `current` selects a payload that holds exactly the packaged files and
     matches its manifest, the menu and the owner record are this installation's, and no other payload
     is left; if it fails, `current` is what it was, or already the new payload. Either way what
     `current` selects boots.
     */
    method Deploy(given: Inputs) returns (ok: bool)
      requires Valid() && phase == Idle && Rooted(fs) && Usable(rd, binding, fs, given)
      requires SoundStart() || Foreign(rd, binding, fs)
      modifies this
      ensures Valid() && phase == Idle
      ensures Foreign(rd, binding, old(fs)) ==> !ok && fs == old(fs)
      ensures ok ==> (Mine(rd, binding, old(fs)) || Vacant(old(fs))) && SourceOk(rd, given.payload)
      ensures ok ==> At(fs, CURRENT) == Some(Link(given.candidate)) && Holding(fs, given.candidate, given.payload)
      ensures ok ==> At(fs, MENU) == Some(File(given.menuText)) && At(fs, OWNER) == Some(File(given.ownerText))
      ensures ok ==> Payloads(fs) == {Entry(given.candidate)} && log == [fs] && Boots(rd, fs)
      ensures !ok ==> At(fs, CURRENT) == old(At(fs, CURRENT)) || At(fs, CURRENT) == Some(Link(given.candidate))
      ensures SoundStart() && CURRENT in fs ==> Boots(rd, fs)
      ensures given.faults == {} && SourceOk(rd, given.payload) && Unobstructed(old(fs)) ==>
                (ok <==> Mine(rd, binding, old(fs)) || Vacant(old(fs)))
    {
      ForeignRefused(rd, binding, fs);
      OwnerOkMeans(rd, binding, fs);
      if SoundStart() {
        Sound(given.candidate);
      }
      if !SourceOk(rd, given.payload) {
        return false;
      }
      ok := Attempt(given);
      Release();
      if SoundStart() {
        Sound(given.candidate);
      }
    }

    /** The history began with an empty volume that this installation may claim. */
    ghost predicate FromEmpty()
      reads this
    {
      Fresh(start) && OwnerOk(rd, binding, start.log[0])
    }

    lemma AfterAnyHistory()
      requires Valid() && FromEmpty()
      ensures SoundStart() && Rooted(fs) && Unobstructed(fs)
      ensures Mine(rd, binding, fs) || Vacant(fs) <==> Owned !in fs || OWNER in fs
    {
      OwnerOkMeans(rd, binding, fs);
      FreshIsSound(rd, start);
      Reached();
      NothingInTheWay(rd, binding, start, done);
      RetryCondition(rd, binding, start, done);
      assert Unobstructed(log[|log| - 1]);
      Sound("");
    }

    /**
     Whether a retry succeeds: after any history of an initially empty volume, a run of a verified
     payload in which no call fails succeeds if and only if the directory is gone or its owner
     record is there.
     */
    method Retry(given: Inputs) returns (ok: bool)
      requires Valid() && phase == Idle && FromEmpty() && Usable(rd, binding, fs, given)
      requires given.faults == {} && SourceOk(rd, given.payload)
      modifies this
      ensures Valid() && phase == Idle
      ensures ok <==> Owned !in old(fs) || OWNER in old(fs)
      ensures ok ==> At(fs, CURRENT) == Some(Link(given.candidate)) && Boots(rd, fs) && log == [fs]
    {
      AfterAnyHistory();
      ok := Deploy(given);
    }
  }

  /** What pruning may not touch: `c`, the directory itself, and every entry without a generated name. */
  ghost predicate Spared(before: Fs, after: Fs, c: string) {
    forall p: Path :: Under(p, c) || p == Owned || (p.Entry? && !Generated(p.name)) ==> At(after, p) == At(before, p)
  }

  lemma PruneSpares(before: Fs, after: Fs, c: string)
    requires PrunedFrom(before, after, {}) && !Prunable(before, c)
    ensures Spared(before, after, c)
  {
  }

  /** Once nothing is prunable next to a sound selection, the selection is all there is. */
  lemma OnlySelected(before: Fs, after: Fs, c: string)
    requires Generated(c) && Spared(before, after, c)
    requires At(before, CURRENT) == Some(Link(c)) && At(before, Entry(c)) == Some(Dir)
    requires forall n :: !Prunable(after, n)
    ensures Payloads(after) == {Entry(c)}
  {
    assert Under(Entry(c), c);
    assert Familiar(after);
    forall p | p in Payloads(after)
      ensures p == Entry(c)
    {
      assert !Prunable(after, p.name);
    }
  }

  lemma StillPruned(first: Fs, before: Fs, after: Fs, left: set<string>, n: string)
    requires PrunedFrom(first, before, left) && Dropped(before, after, n) && Prunable(before, n) && n in left
    requires At(before, CURRENT) == At(first, CURRENT)
    ensures PrunedFrom(first, after, left - {n})
    ensures At(after, CURRENT) == At(before, CURRENT)
    ensures Familiar(after)
    ensures forall m :: Prunable(after, m) ==> Prunable(before, m) && m != n
  {
    OwnNames(n);
    PrunableMeans(first, n);
    PrunableMeans(before, n);
  }

  lemma NotPruned(first: Fs, before: Fs, left: set<string>, n: string)
    requires PrunedFrom(first, before, left) && !Prunable(before, n) && n in left && Familiar(before)
    requires At(before, CURRENT) == At(first, CURRENT)
    ensures PrunedFrom(first, before, left - {n})
  {
    assert At(before, Entry(n)) == At(first, Entry(n));
  }
}
