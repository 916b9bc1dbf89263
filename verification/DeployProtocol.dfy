/**
 The update protocol of the recovery volume (anduinos-recovery-env/src/deploy.py) as a state
 machine over its file system steps.

 A mounted volume is the list of every directory state since it was last known to be on disk.
 Losing power keeps, for each path on its own, the node it had in any of those states; `sync`
 and a clean unmount cut the list down to the present state. No order between two writes is
 assumed, and nothing about the fsync of the copied payload files; only a small file that is
 replaced atomically brings its whole content along, since atomic_write syncs it first.
 */
module DeployProtocol {
  import opened Sequences

  /** Places on the volume: the program's directory, its entries, the files of an entry, and the rest. */
  datatype Path = Owned | Entry(name: string) | Inner(dir: string, file: string) | Outside(name: string)

  datatype Node = Dir | Link(target: string) | File(content: string)

  type Fs = map<Path, Node>

  datatype Manifest = Manifest(schema: int, arch: string, files: map<string, string>)

  /** Hashing and document parsing, which the program takes from its libraries. */
  datatype Reader = Reader(hash: string -> string, manifest: string -> Option<Manifest>,
                           owner: string -> Option<string>, arch: string)

  const CURRENT := Entry("current")
  const CURRENT_NEW := Entry("current.new")
  const OWNER := Entry("owner.json")
  const MENU := Entry("grub.cfg")

  function At(fs: Fs, p: Path): Option<Node> {
    if p in fs then Some(fs[p]) else None
  }

  /** The directory that has to exist for `p` to exist. */
  function Parent(p: Path): Option<Path> {
    match p
    case Owned => None
    case Outside(_) => None
    case Entry(_) => Some(Owned)
    case Inner(d, _) => Some(Entry(d))
  }

  predicate ParentIn(fs: Fs, p: Path) {
    Parent(p).None? || At(fs, Parent(p).value) == Some(Dir)
  }

  ghost predicate Rooted(fs: Fs) {
    forall p :: p in fs ==> ParentIn(fs, p)
  }

  predicate NameChar(c: char) {
    'a' <= c <= 'z' || '0' <= c <= '9' || c == '_'
  }

  /** payload-[a-z0-9_]{8} */
  predicate Generated(name: string) {
    && |name| == 16 && name[..8] == "payload-"
    && forall i :: 8 <= i < 16 ==> NameChar(name[i])
  }

  lemma GeneratedMeans(name: string)
    ensures Generated(name) <==>
            exists tail :: name == "payload-" + tail && |tail| == 8
              && forall i :: 0 <= i < 8 ==> 'a' <= tail[i] <= 'z' || '0' <= tail[i] <= '9' || tail[i] == '_'
  {
    if Generated(name) {
      var tail := name[8..];
      assert name == "payload-" + tail;
      assert forall i :: 0 <= i < 8 ==> tail[i] == name[i + 8] && NameChar(tail[i]);
    }
    forall tail | name == "payload-" + tail && |tail| == 8
      ensures forall i :: 8 <= i < 16 ==> name[i] == tail[i - 8]
    {
    }
  }

  /** Names that tempfile gives to the file behind an atomic write. */
  predicate Temporary(name: string) {
    |name| == 11 && name[..3] == "tmp"
  }

  predicate PayloadFile(f: string) {
    f == "vmlinuz" || f == "initrd.img" || f == "manifest.json"
  }

  predicate FileMatches(rd: Reader, fs: Fs, n: string, f: string, m: Manifest) {
    && f in m.files
    && At(fs, Inner(n, f)).Some? && At(fs, Inner(n, f)).value.File?
    && rd.hash(At(fs, Inner(n, f)).value.content) == m.files[f]
  }

  /** verify_payload: one manifest that the kernel and the initrd both match. */
  predicate Complete(rd: Reader, fs: Fs, n: string) {
    && At(fs, Entry(n)) == Some(Dir)
    && var doc := At(fs, Inner(n, "manifest.json"));
    && doc.Some? && doc.value.File?
    && var m := rd.manifest(doc.value.content);
    && m.Some? && m.value.schema == 1 && m.value.arch == rd.arch
    && m.value.files.Keys == {"vmlinuz", "initrd.img"}
    && FileMatches(rd, fs, n, "vmlinuz", m.value)
    && FileMatches(rd, fs, n, "initrd.img", m.value)
  }

  /** A kernel, an initrd and one manifest for this machine that holds the hash of each. */
  ghost predicate Belong(rd: Reader, kernel: string, initrd: string, document: string) {
    rd.manifest(document) ==
    Some(Manifest(1, rd.arch, map["vmlinuz" := rd.hash(kernel), "initrd.img" := rd.hash(initrd)]))
  }

  lemma CompleteMeans(rd: Reader, fs: Fs, n: string)
    ensures Complete(rd, fs, n) <==>
            && At(fs, Entry(n)) == Some(Dir)
            && exists kernel, initrd, document ::
                 && At(fs, Inner(n, "vmlinuz")) == Some(File(kernel))
                 && At(fs, Inner(n, "initrd.img")) == Some(File(initrd))
                 && At(fs, Inner(n, "manifest.json")) == Some(File(document))
                 && Belong(rd, kernel, initrd, document)
  {
    if Complete(rd, fs, n) {
      var kernel, initrd := fs[Inner(n, "vmlinuz")].content, fs[Inner(n, "initrd.img")].content;
      var document := fs[Inner(n, "manifest.json")].content;
      var files := map["vmlinuz" := rd.hash(kernel), "initrd.img" := rd.hash(initrd)];
      assert rd.manifest(document).value.files == files;
      assert Belong(rd, kernel, initrd, document);
    }
  }

  /** The boot menu finds a kernel and an initrd behind `current`, and they belong together. */
  predicate Boots(rd: Reader, fs: Fs) {
    && At(fs, Owned) == Some(Dir)
    && At(fs, CURRENT).Some? && At(fs, CURRENT).value.Link?
    && Complete(rd, fs, At(fs, CURRENT).value.target)
  }

  // ---------------------------------------------------------------- power loss

  /** `c` may be found on the disk when power is lost after the states in `log`. */
  ghost predicate CrashImage(log: seq<Fs>, c: Fs) {
    && (forall p :: p in c ==> ParentIn(c, p) && SomeState(log, p, Some(c[p])))
    && (forall p :: p !in c ==> SomeState(log, p, None) || !ParentIn(c, p))
  }

  ghost predicate SomeState(log: seq<Fs>, p: Path, node: Option<Node>) {
    exists i :: 0 <= i < |log| && At(log[i], p) == node
  }

  // ---------------------------------------------------------------- the program

  datatype Phase =
    | Idle
    | Mounted
    | Opened
    | Pruning
    | Ready
    | Staging(c: string)
    | Verified(c: string)
    | MenuWritten(c: string)
    | Synced(c: string)
    | Linked(c: string)
    | Swapped(c: string)
    | Confirmed
    | Pruned
    | Finished
    | Cleaning(c: string)
    | Failed

  datatype State = State(log: seq<Fs>, phase: Phase) {
    ghost predicate Alive() { |log| > 0 }
    ghost function Live(): Fs requires Alive() { log[|log| - 1] }
  }

  datatype Action =
    | Mount
    | CheckOwner
    | MakeOwned
    | WriteTemp(name: string, text: string)
    | DropTemp(name: string)
    | ReplaceOwner(name: string)
    | Remove(p: Path)
    | PruneDone
    | MakeCandidate(name: string)
    | CopyFile(file: string, text: string)
    | VerifyCandidate
    | ReplaceMenu(name: string)
    | Sync
    | UnlinkNew
    | LinkNew
    | Swap
    | Raise
    | CleanDone
    | Unmount
    | Kill
    | Crash(image: Fs)

  function Present(log: seq<Fs>): Fs
    requires |log| > 0
  {
    log[|log| - 1]
  }

  /** Lines 215-221: the directory is this installation's, or the volume is still empty. */
  predicate OwnerOk(rd: Reader, binding: string, fs: Fs) {
    if Owned in fs then
      && fs[Owned] == Dir
      && At(fs, OWNER).Some? && At(fs, OWNER).value.File?
      && rd.owner(At(fs, OWNER).value.content) == Some(binding)
    else
      forall p :: p in fs && p.Outside? ==> p.name == "lost+found"
  }

  /** The directory is there, and its owner record reads as this installation's binding. */
  ghost predicate Mine(rd: Reader, binding: string, fs: Fs) {
    && At(fs, Owned) == Some(Dir)
    && exists text :: At(fs, OWNER) == Some(File(text)) && rd.owner(text) == Some(binding)
  }

  /** There is no such directory, nor anything else that somebody has put on the volume. */
  ghost predicate Vacant(fs: Fs) {
    Owned !in fs && forall n :: Outside(n) in fs ==> n == "lost+found"
  }

  lemma OwnerOkMeans(rd: Reader, binding: string, fs: Fs)
    ensures OwnerOk(rd, binding, fs) <==> Mine(rd, binding, fs) || Vacant(fs)
  {
  }

  /** Lines 112-120: whether pruning knows what `current` means. */
  predicate Familiar(fs: Fs) {
    match At(fs, CURRENT)
    case None => true
    case Some(Link(n)) => Generated(n) && At(fs, Entry(n)) == Some(Dir)
    case Some(_) => false
  }

  /** Line 243: the menu is missing or a regular file. */
  predicate MenuFree(fs: Fs) {
    At(fs, MENU) == None || At(fs, MENU).value.File?
  }

  /** Nothing of the wrong kind stands where the run will write. */
  ghost predicate Unobstructed(fs: Fs) {
    MenuFree(fs) && At(fs, CURRENT_NEW) != Some(Dir) && At(fs, CURRENT) != Some(Dir)
  }

  /** Lines 124-126: the directories pruning may delete. */
  predicate Prunable(fs: Fs, n: string) {
    Familiar(fs) && Generated(n) && At(fs, Entry(n)) == Some(Dir) && At(fs, CURRENT) != Some(Link(n))
  }

  /** Pruning gives up directory `n`: a generated name, not selected, beside a selector it can follow. */
  ghost predicate Discarded(fs: Fs, n: string) {
    && Generated(n) && At(fs, Entry(n)) == Some(Dir)
    && match At(fs, CURRENT)
       case None => true
       case Some(Link(c)) => c != n && Generated(c) && At(fs, Entry(c)) == Some(Dir)
       case Some(_) => false
  }

  lemma PrunableMeans(fs: Fs, n: string)
    ensures Prunable(fs, n) <==> Discarded(fs, n)
  {
  }

  /** One unlink or rmdir inside the removal of directory `n`. */
  ghost predicate PartOf(fs: Fs, p: Path, n: string) {
    && p in fs
    && (p == Entry(n) || (p.Inner? && p.dir == n))
    && (p == Entry(n) ==> forall f :: Inner(n, f) !in fs)
  }

  ghost predicate InTry(ph: Phase) {
    ph.Staging? || ph.Verified? || ph.MenuWritten? || ph.Synced? || ph.Linked? || ph.Swapped?
  }

  ghost predicate Enabled(rd: Reader, binding: string, s: State, a: Action)
    requires s.Alive()
  {
    var fs, ph := s.Live(), s.phase;
    match a
    case Mount => ph.Idle?
    case CheckOwner => ph.Mounted? && OwnerOk(rd, binding, fs)
    case MakeOwned => ph.Opened? && Owned !in fs
    case WriteTemp(t, _) =>
      (ph.Opened? || ph.Verified?) && At(fs, Owned) == Some(Dir) && Temporary(t) && Entry(t) !in fs
    case DropTemp(t) =>
      (ph.Opened? || ph.Verified?) && Temporary(t) && At(fs, Entry(t)).Some? && At(fs, Entry(t)).value.File?
    case ReplaceOwner(t) =>
      && ph.Opened? && Temporary(t) && At(fs, Entry(t)).Some? && At(fs, Entry(t)).value.File?
      && rd.owner(At(fs, Entry(t)).value.content) == Some(binding) && At(fs, OWNER) != Some(Dir)
    case Remove(p) =>
      || ((ph.Pruning? || ph.Confirmed?) && exists n :: Prunable(fs, n) && PartOf(fs, p, n))
      || (ph.Cleaning? && At(fs, CURRENT) != Some(Link(ph.c)) && PartOf(fs, p, ph.c))
    case PruneDone => (ph.Pruning? || ph.Confirmed?) && forall n :: !Prunable(fs, n)
    case MakeCandidate(c) => ph.Ready? && Generated(c) && Entry(c) !in fs
    case CopyFile(f, _) => ph.Staging? && PayloadFile(f) && At(fs, Entry(ph.c)) == Some(Dir)
    case VerifyCandidate => ph.Staging? && Complete(rd, fs, ph.c)
    case ReplaceMenu(t) =>
      && ph.Verified? && Temporary(t) && At(fs, Entry(t)).Some? && At(fs, Entry(t)).value.File?
      && (MENU in fs ==> fs[MENU].File?)
    case Sync => ph.MenuWritten? || ph.Swapped? || ph.Pruned?
    case UnlinkNew => ph.Synced? && CURRENT_NEW in fs && fs[CURRENT_NEW] != Dir
    case LinkNew => ph.Synced? && CURRENT_NEW !in fs
    case Swap => ph.Linked? && At(fs, CURRENT_NEW) == Some(Link(ph.c)) && At(fs, CURRENT) != Some(Dir)
    case Raise => !ph.Idle? && !ph.Failed? && !ph.Finished? && !ph.Cleaning?
    case CleanDone => ph.Cleaning? && (At(fs, CURRENT) == Some(Link(ph.c)) || Entry(ph.c) !in fs)
    case Unmount => ph.Finished? || ph.Failed?
    case Kill => !ph.Idle?
    case Crash(image) => CrashImage(s.log, image)
  }

  function Put(s: State, fs: Fs): State {
    State(s.log + [fs], s.phase)
  }

  /** os.replace: the name moves in one step. */
  function Moved(fs: Fs, from: Path, to: Path): Fs
    requires from in fs
  {
    fs[to := fs[from]] - (if from == to then {} else {from})
  }

  ghost function Apply(rd: Reader, binding: string, s: State, a: Action): State
    requires s.Alive() && Enabled(rd, binding, s, a)
  {
    var fs, ph := s.Live(), s.phase;
    match a
    case Mount => s.(phase := Mounted)
    case CheckOwner => s.(phase := Opened)
    case MakeOwned => Put(s, fs[Owned := Dir])
    case WriteTemp(t, text) => Put(s, fs[Entry(t) := File(text)])
    case DropTemp(t) => Put(s, fs - {Entry(t)})
    case ReplaceOwner(t) => Put(s, Moved(fs, Entry(t), OWNER)).(phase := Pruning)
    case Remove(p) => Put(s, fs - {p})
    case PruneDone => s.(phase := if ph.Pruning? then Ready else Pruned)
    case MakeCandidate(c) => Put(s, fs[Entry(c) := Dir]).(phase := Staging(c))
    case CopyFile(f, text) => Put(s, fs[Inner(ph.c, f) := File(text)])
    case VerifyCandidate => s.(phase := Verified(ph.c))
    case ReplaceMenu(t) => Put(s, Moved(fs, Entry(t), MENU)).(phase := MenuWritten(ph.c))
    case Sync =>
      State([fs], if ph.MenuWritten? then Synced(ph.c) else if ph.Swapped? then Confirmed else Finished)
    case UnlinkNew => Put(s, fs - {CURRENT_NEW})
    case LinkNew => Put(s, fs[CURRENT_NEW := Link(ph.c)]).(phase := Linked(ph.c))
    case Swap => Put(s, Moved(fs, CURRENT_NEW, CURRENT)).(phase := Swapped(ph.c))
    case Raise => s.(phase := if InTry(ph) then Cleaning(ph.c) else Failed)
    case CleanDone => s.(phase := Failed)
    case Unmount => State([fs], Idle)
    case Kill => State([fs], Idle)
    case Crash(image) => State([image], Idle)
  }

  /** The state after a list of actions, if each was possible in its turn. */
  ghost function Run(rd: Reader, binding: string, start: State, acts: seq<Action>): (r: Option<State>)
    ensures start.Alive() && r.Some? ==> r.value.Alive()
    decreases |acts|
  {
    if acts == [] then Some(start)
    else
      var before := Run(rd, binding, start, acts[..|acts| - 1]);
      var a := acts[|acts| - 1];
      if before.Some? && before.value.Alive() && Enabled(rd, binding, before.value, a)
      then Some(Apply(rd, binding, before.value, a)) else None
  }

  /** A volume before its first deployment: no trace of the program. */
  ghost predicate Fresh(s: State) {
    && s.phase.Idle? && |s.log| == 1
    && forall p :: p in s.log[0] ==> p.Outside?
  }

  // ---------------------------------------------------------------- what every step keeps

  /** Two states agree on the payload directory `n`, as far as booting is concerned. */
  ghost predicate SamePayload(a: Fs, b: Fs, n: string) {
    && At(a, Owned) == At(b, Owned)
    && At(a, Entry(n)) == At(b, Entry(n))
    && forall f :: PayloadFile(f) ==> At(a, Inner(n, f)) == At(b, Inner(n, f))
  }

  lemma SamePayloadComplete(rd: Reader, a: Fs, b: Fs, n: string)
    requires SamePayload(a, b, n)
    ensures Complete(rd, a, n) == Complete(rd, b, n)
  {
  }

  /** No power loss can hurt the payload `n`: it is complete, and the same in every state of the log. */
  ghost predicate Anchored(rd: Reader, log: seq<Fs>, n: string)
    requires |log| > 0
  {
    && Generated(n)
    && At(Present(log), Owned) == Some(Dir)
    && Complete(rd, Present(log), n)
    && forall i :: 0 <= i < |log| ==> SamePayload(log[i], Present(log), n)
  }

  /** Selectors are links to generated names whose payload is anchored, and no selector is ever withdrawn. */
  ghost predicate Core(rd: Reader, log: seq<Fs>) {
    && |log| > 0
    && (forall i :: 0 <= i < |log| ==> Rooted(log[i]))
    && (forall i :: 0 <= i < |log| && CURRENT in log[i] ==>
          log[i][CURRENT].Link? && Anchored(rd, log, log[i][CURRENT].target))
    && (forall i, j :: 0 <= i <= j < |log| && CURRENT in log[i] ==> CURRENT in log[j])
  }

  /** `current` has not moved since the last sync. */
  ghost predicate Settled(log: seq<Fs>)
    requires |log| > 0
  {
    forall i :: 0 <= i < |log| ==> At(log[i], CURRENT) == At(Present(log), CURRENT)
  }

  ghost predicate Inv(rd: Reader, s: State) {
    && Core(rd, s.log)
    && var fs, ph := s.Live(), s.phase;
    && (!ph.Swapped? && !ph.Cleaning? && !ph.Failed? ==> Settled(s.log))
    && (ph.Cleaning? ==> Generated(ph.c) && (Settled(s.log) || At(fs, CURRENT) == Some(Link(ph.c))))
    && (InTry(ph) || ph.Ready? || ph.Pruning? || ph.Confirmed? ==> At(fs, Owned) == Some(Dir))
    && (InTry(ph) ==> Generated(ph.c) && At(fs, Entry(ph.c)) == Some(Dir))
    && (InTry(ph) && !ph.Swapped? ==> At(fs, CURRENT) != Some(Link(ph.c)))
    && (ph.Swapped? ==> At(fs, CURRENT) == Some(Link(ph.c)))
    && (ph.Verified? || ph.MenuWritten? ==> Complete(rd, fs, ph.c))
    && (ph.Synced? || ph.Linked? ==> Anchored(rd, s.log, ph.c))
  }

  /** Two states differ in `p` at most. */
  ghost predicate ChangedAt(a: Fs, b: Fs, ps: set<Path>) {
    forall p :: p !in ps ==> At(a, p) == At(b, p)
  }

  ghost predicate Touches(p: Path, n: string) {
    p == Owned || p == Entry(n) || (p.Inner? && p.dir == n)
  }

  lemma FrameSamePayload(a: Fs, b: Fs, ps: set<Path>, n: string)
    requires ChangedAt(a, b, ps) && forall p :: p in ps ==> !Touches(p, n)
    ensures SamePayload(a, b, n)
  {
  }

  lemma AnchoredSnoc(rd: Reader, log: seq<Fs>, fs: Fs, n: string)
    requires |log| > 0 && Anchored(rd, log, n) && SamePayload(fs, Present(log), n)
    ensures Anchored(rd, log + [fs], n)
  {
  }

  /** A change that leaves `current` and every selected payload alone. */
  lemma CoreSnoc(rd: Reader, log: seq<Fs>, fs: Fs)
    requires Core(rd, log) && Rooted(fs)
    requires At(fs, CURRENT) == At(Present(log), CURRENT)
    requires forall i :: 0 <= i < |log| && CURRENT in log[i] ==>
               SamePayload(fs, Present(log), log[i][CURRENT].target)
    ensures Core(rd, log + [fs])
  {
    var longer: seq<Fs> := log + [fs];
    forall i | 0 <= i < |longer| && CURRENT in longer[i]
      ensures longer[i][CURRENT].Link? && Anchored(rd, longer, longer[i][CURRENT].target)
    {
      var k := if i < |log| then i else |log| - 1;
      assert At(longer[i], CURRENT) == At(log[k], CURRENT);
      AnchoredSnoc(rd, log, fs, log[k][CURRENT].target);
    }
  }

  lemma SettledSnoc(log: seq<Fs>, fs: Fs)
    requires |log| > 0 && Settled(log) && At(fs, CURRENT) == At(Present(log), CURRENT)
    ensures Settled(log + [fs])
  {
  }

  /** A crash keeps whatever is the same in every state of the log. */
  lemma CrashKeeps(log: seq<Fs>, c: Fs, p: Path, node: Option<Node>)
    requires |log| > 0 && CrashImage(log, c)
    requires forall i :: 0 <= i < |log| ==> At(log[i], p) == node
    ensures ParentIn(c, p) ==> At(c, p) == node
  {
  }

  lemma CrashKeepsPayload(rd: Reader, log: seq<Fs>, c: Fs, n: string)
    requires |log| > 0 && CrashImage(log, c) && Anchored(rd, log, n)
    ensures SamePayload(c, Present(log), n)
  {
    var fs := Present(log);
    assert forall i :: 0 <= i < |log| ==> SamePayload(log[i], fs, n);
    CrashKeeps(log, c, Owned, At(fs, Owned));
    CrashKeeps(log, c, Entry(n), At(fs, Entry(n)));
    forall f | PayloadFile(f)
      ensures At(c, Inner(n, f)) == At(fs, Inner(n, f))
    {
      CrashKeeps(log, c, Inner(n, f), At(fs, Inner(n, f)));
    }
  }

  /** A selector that survives the crash came from some state, whose payload was anchored. */
  lemma CrashSelection(rd: Reader, log: seq<Fs>, c: Fs) returns (n: string)
    requires Core(rd, log) && CrashImage(log, c) && CURRENT in c
    ensures c[CURRENT] == Link(n)
    ensures Anchored(rd, log, n) && SamePayload(c, Present(log), n) && Complete(rd, c, n)
  {
    assert SomeState(log, CURRENT, Some(c[CURRENT]));
    var i :| 0 <= i < |log| && At(log[i], CURRENT) == Some(c[CURRENT]);
    n := log[i][CURRENT].target;
    CrashKeepsPayload(rd, log, c, n);
    SamePayloadComplete(rd, c, Present(log), n);
  }

  lemma CrashKeepsPresent(log: seq<Fs>, c: Fs, p: Path)
    requires CrashImage(log, c) && ParentIn(c, p)
    requires forall i :: 0 <= i < |log| ==> p in log[i]
    ensures p in c
  {
  }

  lemma CrashKeepsSelector(rd: Reader, log: seq<Fs>, c: Fs)
    requires Core(rd, log) && CrashImage(log, c) && CURRENT in log[0]
    ensures CURRENT in c
  {
    assert ParentIn(c, CURRENT) by {
      var n := log[0][CURRENT].target;
      CrashKeepsPayload(rd, log, c, n);
    }
    CrashKeepsPresent(log, c, CURRENT);
  }

  lemma SingleAnchored(rd: Reader, fs: Fs, n: string)
    requires Generated(n) && At(fs, Owned) == Some(Dir) && Complete(rd, fs, n)
    ensures Anchored(rd, [fs], n)
  {
  }

  lemma SingleCore(rd: Reader, fs: Fs)
    requires Rooted(fs)
    requires CURRENT in fs ==> fs[CURRENT].Link? && Anchored(rd, [fs], fs[CURRENT].target)
    ensures Core(rd, [fs]) && Settled([fs])
  {
  }

  /** Cutting the log down to the present. */
  lemma CoreNow(rd: Reader, log: seq<Fs>)
    requires Core(rd, log)
    ensures Core(rd, [Present(log)]) && Settled([Present(log)])
  {
  }

  lemma CrashRooted(log: seq<Fs>, c: Fs)
    requires CrashImage(log, c)
    ensures Rooted(c)
  {
  }

  /** Whatever power loss leaves is again a sound volume, and it boots if the oldest state had a selector. */
  lemma CrashCore(rd: Reader, log: seq<Fs>, c: Fs)
    requires Core(rd, log) && CrashImage(log, c)
    ensures Core(rd, [c]) && Settled([c])
    ensures CURRENT in c ==> Boots(rd, c)
    ensures CURRENT in log[0] ==> CURRENT in c
  {
    assert Core(rd, [c]) && Settled([c]) && (CURRENT in c ==> Boots(rd, c)) by {
      CrashRooted(log, c);
      if CURRENT in c {
        CrashBoots(rd, log, c);
      }
      SingleCore(rd, c);
    }
    if CURRENT in log[0] {
      CrashKeepsSelector(rd, log, c);
    }
  }

  lemma CrashBoots(rd: Reader, log: seq<Fs>, c: Fs)
    requires Core(rd, log) && CrashImage(log, c) && CURRENT in c
    ensures c[CURRENT].Link? && Anchored(rd, [c], c[CURRENT].target) && Boots(rd, c)
  {
    var n := CrashSelection(rd, log, c);
    SingleAnchored(rd, c, n);
  }

  // ---------------------------------------------------------------- one lemma per kind of step

  /** A write while `current` is settled, on paths outside the selected payload. */
  lemma QuietWrite(rd: Reader, log: seq<Fs>, fs: Fs, ps: set<Path>)
    requires Core(rd, log) && Settled(log) && Rooted(fs)
    requires ChangedAt(fs, Present(log), ps) && CURRENT !in ps
    requires CURRENT in Present(log) ==> forall p :: p in ps ==> !Touches(p, Present(log)[CURRENT].target)
    ensures Core(rd, log + [fs]) && Settled(log + [fs])
  {
    forall i | 0 <= i < |log| && CURRENT in log[i]
      ensures SamePayload(fs, Present(log), log[i][CURRENT].target)
    {
      assert At(log[i], CURRENT) == At(Present(log), CURRENT);
      FrameSamePayload(fs, Present(log), ps, log[i][CURRENT].target);
    }
    CoreSnoc(rd, log, fs);
    SettledSnoc(log, fs);
  }

  /** Names of the program's own files are never payload names. */
  lemma OwnNames(n: string)
    requires Generated(n)
    ensures n != "current" && n != "current.new" && n != "owner.json" && n != "grub.cfg" && !Temporary(n)
  {
  }

  /** Without the program's directory there is no selector. */
  lemma NoOwnedNoSelector(fs: Fs)
    requires Rooted(fs) && At(fs, Owned) != Some(Dir)
    ensures CURRENT !in fs
  {
  }

  lemma SelectedIsGenerated(rd: Reader, log: seq<Fs>)
    requires Core(rd, log) && CURRENT in Present(log)
    ensures Present(log)[CURRENT].Link? && Anchored(rd, log, Present(log)[CURRENT].target)
  {
  }

  /** Writing one of the program's own small files. */
  lemma OwnFileWrite(rd: Reader, log: seq<Fs>, fs: Fs, ps: set<Path>)
    requires Core(rd, log) && Settled(log) && Rooted(fs) && ChangedAt(fs, Present(log), ps)
    requires forall p :: p in ps ==> p.Entry? && p != CURRENT && !Generated(p.name)
    ensures Core(rd, log + [fs]) && Settled(log + [fs])
  {
    if CURRENT in Present(log) {
      SelectedIsGenerated(rd, log);
    }
    QuietWrite(rd, log, fs, ps);
  }

  lemma WriteTempKeeps(rd: Reader, binding: string, s: State, a: Action)
    requires Inv(rd, s) && (a.WriteTemp? || a.DropTemp?) && Enabled(rd, binding, s, a)
    ensures Inv(rd, Apply(rd, binding, s, a))
  {
    var fs, fs' := s.Live(), Apply(rd, binding, s, a).Live();
    assert Rooted(fs);
    assert Rooted(fs');
    OwnNamesTemp(a.name);
    OwnFileWrite(rd, s.log, fs', {Entry(a.name)});
    if s.phase.Verified? {
      OwnNames(s.phase.c);
      FrameSamePayload(fs', fs, {Entry(a.name)}, s.phase.c);
      SamePayloadComplete(rd, fs', fs, s.phase.c);
    }
  }

  lemma OwnNamesTemp(t: string)
    requires Temporary(t)
    ensures !Generated(t) && t != "current" && t != "current.new" && t != "owner.json" && t != "grub.cfg"
  {
    assert t[0] == t[..3][0] == 't';
    assert "current.new"[0] == 'c';
  }

  /** Renaming a file or link over another keeps the tree a tree. */
  lemma MovedRooted(fs: Fs, from: Path, to: Path)
    requires Rooted(fs) && from in fs && fs[from] != Dir && At(fs, to) != Some(Dir)
    requires from.Entry? && to.Entry? && from != to
    ensures Rooted(Moved(fs, from, to))
    ensures ChangedAt(Moved(fs, from, to), fs, {from, to})
  {
  }

  lemma ReplaceKeeps(rd: Reader, binding: string, s: State, a: Action)
    requires Inv(rd, s) && (a.ReplaceOwner? || a.ReplaceMenu?) && Enabled(rd, binding, s, a)
    ensures Inv(rd, Apply(rd, binding, s, a))
  {
    var fs, fs' := s.Live(), Apply(rd, binding, s, a).Live();
    var to := if a.ReplaceOwner? then OWNER else MENU;
    assert Rooted(fs);
    OwnNamesTemp(a.name);
    MovedRooted(fs, Entry(a.name), to);
    OwnFileWrite(rd, s.log, fs', {Entry(a.name), to});
    if s.phase.Verified? {
      OwnNames(s.phase.c);
      FrameSamePayload(fs', fs, {Entry(a.name), to}, s.phase.c);
      SamePayloadComplete(rd, fs', fs, s.phase.c);
    }
  }

  lemma MakeOwnedKeeps(rd: Reader, binding: string, s: State)
    requires Inv(rd, s) && Enabled(rd, binding, s, MakeOwned)
    ensures Inv(rd, Apply(rd, binding, s, MakeOwned))
  {
    var fs' := Apply(rd, binding, s, MakeOwned).Live();
    assert Rooted(s.Live());
    NoOwnedNoSelector(s.Live());
    assert Rooted(fs');
    QuietWrite(rd, s.log, fs', {Owned});
  }

  lemma RemovedRooted(fs: Fs, p: Path, n: string)
    requires Rooted(fs) && PartOf(fs, p, n)
    ensures Rooted(fs - {p}) && ChangedAt(fs - {p}, fs, {p})
  {
  }

  lemma RemoveKeeps(rd: Reader, binding: string, s: State, p: Path)
    requires Inv(rd, s) && Enabled(rd, binding, s, Remove(p))
    ensures Inv(rd, Apply(rd, binding, s, Remove(p)))
  {
    var fs := s.Live();
    var n: string;
    if s.phase.Cleaning? {
      n := s.phase.c;
    } else {
      n :| Prunable(fs, n) && PartOf(fs, p, n);
    }
    RemoveQuiet(rd, s.log, p, n);
  }

  lemma RemoveQuiet(rd: Reader, log: seq<Fs>, p: Path, n: string)
    requires Core(rd, log) && Settled(log) && Generated(n)
    requires PartOf(Present(log), p, n) && At(Present(log), CURRENT) != Some(Link(n))
    ensures Core(rd, log + [Present(log) - {p}]) && Settled(log + [Present(log) - {p}])
    ensures p != CURRENT && p != Owned
  {
    var fs, last := Present(log), |log| - 1;
    assert Rooted(log[last]);
    OwnNames(n);
    RemovedRooted(fs, p, n);
    if CURRENT in fs {
      SelectedIsGenerated(rd, log);
    }
    QuietWrite(rd, log, fs - {p}, {p});
  }

  lemma StageKeeps(rd: Reader, binding: string, s: State, a: Action)
    requires Inv(rd, s) && (a.MakeCandidate? || a.CopyFile?) && Enabled(rd, binding, s, a)
    ensures Inv(rd, Apply(rd, binding, s, a))
  {
    var fs, fs' := s.Live(), Apply(rd, binding, s, a).Live();
    var c := if a.MakeCandidate? then a.name else s.phase.c;
    var p := if a.MakeCandidate? then Entry(c) else Inner(c, a.file);
    assert Rooted(fs);
    OwnNames(c);
    assert Rooted(fs');
    if CURRENT in fs {
      SelectedIsGenerated(rd, s.log);
    }
    QuietWrite(rd, s.log, fs', {p});
  }

  lemma LinkKeeps(rd: Reader, binding: string, s: State, a: Action)
    requires Inv(rd, s) && (a.UnlinkNew? || a.LinkNew?) && Enabled(rd, binding, s, a)
    ensures Inv(rd, Apply(rd, binding, s, a))
  {
    var fs, fs' := s.Live(), Apply(rd, binding, s, a).Live();
    assert Rooted(fs);
    assert Rooted(fs');
    assert !Generated("current.new");
    OwnFileWrite(rd, s.log, fs', {CURRENT_NEW});
    OwnNames(s.phase.c);
    FrameSamePayload(fs', fs, {CURRENT_NEW}, s.phase.c);
    AnchoredSnoc(rd, s.log, fs', s.phase.c);
  }

  /** The swap: the candidate was anchored by the first sync, and the old payload still is. */
  lemma SwapCore(rd: Reader, log: seq<Fs>, fs: Fs, c: string)
    requires Core(rd, log) && Anchored(rd, log, c) && Rooted(fs)
    requires ChangedAt(fs, Present(log), {CURRENT_NEW, CURRENT}) && At(fs, CURRENT) == Some(Link(c))
    ensures Core(rd, log + [fs])
  {
    var longer: seq<Fs> := log + [fs];
    forall i | 0 <= i < |longer| && CURRENT in longer[i]
      ensures longer[i][CURRENT].Link? && Anchored(rd, longer, longer[i][CURRENT].target)
    {
      SwapAnchors(rd, log, fs, if i < |log| then log[i][CURRENT].target else c);
    }
  }

  lemma SwapAnchors(rd: Reader, log: seq<Fs>, fs: Fs, n: string)
    requires |log| > 0 && Anchored(rd, log, n) && ChangedAt(fs, Present(log), {CURRENT_NEW, CURRENT})
    ensures Anchored(rd, log + [fs], n)
  {
  }

  lemma SwapKeeps(rd: Reader, binding: string, s: State)
    requires Inv(rd, s) && Enabled(rd, binding, s, Swap)
    ensures Inv(rd, Apply(rd, binding, s, Swap))
  {
    var fs := s.Live();
    assert Rooted(fs);
    MovedRooted(fs, CURRENT_NEW, CURRENT);
    OwnNames(s.phase.c);
    SwapCore(rd, s.log, Moved(fs, CURRENT_NEW, CURRENT), s.phase.c);
  }

  lemma SyncKeeps(rd: Reader, binding: string, s: State)
    requires Inv(rd, s) && Enabled(rd, binding, s, Sync)
    ensures Inv(rd, Apply(rd, binding, s, Sync))
  {
    CoreNow(rd, s.log);
    if s.phase.MenuWritten? {
      SingleAnchored(rd, s.Live(), s.phase.c);
    }
  }

  lemma UnmountKeeps(rd: Reader, s: State)
    requires Core(rd, s.log)
    ensures Inv(rd, State([s.Live()], Idle))
  {
  }

  lemma PhaseKeeps(rd: Reader, binding: string, s: State, a: Action)
    requires Inv(rd, s) && Enabled(rd, binding, s, a)
    requires a.Mount? || a.CheckOwner? || a.PruneDone? || a.VerifyCandidate? || a.Raise? || a.CleanDone?
    ensures Inv(rd, Apply(rd, binding, s, a))
  {
  }

  lemma WriteKeeps(rd: Reader, binding: string, s: State, a: Action)
    requires Inv(rd, s) && Enabled(rd, binding, s, a)
    requires a.MakeOwned? || a.WriteTemp? || a.DropTemp? || a.ReplaceOwner? || a.ReplaceMenu? || a.Remove?
    ensures Inv(rd, Apply(rd, binding, s, a))
  {
    if a.MakeOwned? {
      MakeOwnedKeeps(rd, binding, s);
    } else if a.WriteTemp? || a.DropTemp? {
      WriteTempKeeps(rd, binding, s, a);
    } else if a.Remove? {
      RemoveKeeps(rd, binding, s, a.p);
    } else {
      ReplaceKeeps(rd, binding, s, a);
    }
  }

  lemma SelectKeeps(rd: Reader, binding: string, s: State, a: Action)
    requires Inv(rd, s) && Enabled(rd, binding, s, a)
    requires a.MakeCandidate? || a.CopyFile? || a.UnlinkNew? || a.LinkNew? || a.Swap?
    ensures Inv(rd, Apply(rd, binding, s, a))
  {
    if a.Swap? {
      SwapKeeps(rd, binding, s);
    } else if a.UnlinkNew? || a.LinkNew? {
      LinkKeeps(rd, binding, s, a);
    } else {
      StageKeeps(rd, binding, s, a);
    }
  }

  lemma CrashKeepsInv(rd: Reader, s: State, image: Fs)
    requires Core(rd, s.log) && CrashImage(s.log, image)
    ensures Inv(rd, State([image], Idle))
  {
    CrashCore(rd, s.log, image);
  }

  /** Every step, faults and power loss included, keeps the volume sound. */
  lemma StepKeeps(rd: Reader, binding: string, s: State, a: Action)
    requires Inv(rd, s) && Enabled(rd, binding, s, a)
    ensures Inv(rd, Apply(rd, binding, s, a))
  {
    if a.MakeOwned? || a.WriteTemp? || a.DropTemp? || a.ReplaceOwner? || a.ReplaceMenu? || a.Remove? {
      WriteKeeps(rd, binding, s, a);
    } else if a.MakeCandidate? || a.CopyFile? || a.UnlinkNew? || a.LinkNew? || a.Swap? {
      SelectKeeps(rd, binding, s, a);
    } else if a.Sync? {
      SyncKeeps(rd, binding, s);
    } else if a.Unmount? || a.Kill? {
      UnmountKeeps(rd, s);
    } else if a.Crash? {
      CrashKeepsInv(rd, s, a.image);
      assert Apply(rd, binding, s, a) == State([a.image], Idle);
    } else {
      PhaseKeeps(rd, binding, s, a);
    }
  }
}
