/**
 The storage part of the installer's shared state (anduinos-installer-beta/src/frontend.py): a
 choice must not outlive the disk and the strategy it was made for.
 */
module StorageState {
  import opened Sequences

  datatype Strategy = EraseBtrfs | EraseExt4 | Advanced

  datatype Mode = EraseDisk | Manual

  datatype Filesystem = Btrfs | Ext4 | Xfs | F2fs | OtherFs

  /** A key of the shared dictionary whose value is a choice of the user. */
  datatype Slot =
    | EspReplacement
    | GuidedExtent | GuidedEsp | GuidedPreview | GuidedWorkflow
    | ManualSelection | ManualPreview | ManualWorkflow
    | Password | Confirmation | RecoveryKey

  /** A disk the user can pick. */
  datatype Disk = Disk(path: string, stableId: string, size: int, digest: string)

  /** What a choice was made for. */
  datatype Origin = Origin(stableId: string, size: int, digest: string, strategy: Option<Strategy>)

  datatype Event =
    | Bind(disk: Disk)
    | Rescan
    | Choose(strategy: Strategy)
    | Save(slot: Slot, value: string)

  const GUIDED := {EspReplacement, GuidedExtent, GuidedEsp, GuidedPreview, GuidedWorkflow}

  const MANUAL := {EspReplacement, ManualSelection, ManualPreview, ManualWorkflow}

  const CREDENTIALS := {Password, Confirmation, RecoveryKey}

  /** Between them, the three clearing functions know every slot. */
  lemma NothingLeft(m: map<Slot, string>)
    ensures m - CREDENTIALS - GUIDED - MANUAL == map[]
  {
    forall s | s in m
      ensures s in GUIDED || s in MANUAL || s in CREDENTIALS
    {
      match s
      case EspReplacement =>
      case _ =>
    }
  }

  class Storage {
    var disk: string
    var stableId: string
    var size: int
    var digest: string
    /** None for the empty string that means no strategy is chosen. */
    var strategy: Option<Strategy>
    var mode: Mode
    var filesystem: Filesystem
    var choices: map<Slot, string>
    var recoveryKeySaved: bool
    var swapAuto: bool
    var swapSize: Option<int>
    /** For each choice, what was bound and chosen when it was saved. */
    ghost var origin: map<Slot, Origin>

    ghost function Here(): Origin
      reads this
    {
      Origin(stableId, size, digest, strategy)
    }

    /** Every stored choice was made for the disk that is bound now, under the strategy in force now. */
    ghost predicate Current()
      reads this
    {
      forall s :: s in choices ==> s in origin && origin[s] == Here()
    }

    /**
     Every stored choice was made for this disk, of this size, under this strategy; and for this
     partition table, unless no digest was bound when it was made.
     */
    ghost predicate Loyal()
      reads this
    {
      forall s :: s in choices ==>
        && s in origin && (origin[s].digest == digest || origin[s].digest == "")
        && origin[s] == Here().(digest := origin[s].digest)
    }

    /** Every stored choice was made while a digest was bound. */
    ghost predicate Digested()
      reads this
    {
      forall s :: s in choices ==> s in origin && origin[s].digest != ""
    }

    /** A loyal choice is stale exactly when it was made without a digest and there is one now. */
    lemma LoyalIsCurrent()
      requires Loyal()
      ensures Current() <==> digest == "" || Digested()
    {
    }

    constructor ()
      ensures Loyal() && Current() && choices == map[] && strategy == None && stableId == "" && digest == ""
    {
      disk, stableId, size, digest := "", "", 0, "";
      strategy, mode, filesystem := None, EraseDisk, Btrfs;
      choices, recoveryKeySaved, swapAuto, swapSize := map[], false, true, None;
      origin := map[];
    }

    method ClearCredentials()
      modifies this`choices, this`recoveryKeySaved, this`swapAuto
      ensures choices == old(choices) - CREDENTIALS && !recoveryKeySaved && swapAuto
    {
      choices := choices - CREDENTIALS;
      recoveryKeySaved, swapAuto := false, true;
    }

    method ClearGuided()
      modifies this`choices
      ensures choices == old(choices) - GUIDED
    {
      choices := choices - GUIDED;
    }

    method ClearManual()
      modifies this`choices
      ensures choices == old(choices) - MANUAL
    {
      choices := choices - MANUAL;
    }

    /** Nothing that depends on the exact target survives. */
    method ClearStrategy()
      modifies this`choices, this`recoveryKeySaved, this`swapAuto, this`strategy, this`mode, this`filesystem
      ensures choices == map[] && strategy == None && mode == EraseDisk && filesystem == Btrfs
      ensures !recoveryKeySaved && swapAuto
    {
      NothingLeft(choices);
      ClearCredentials();
      strategy := None;
      mode := EraseDisk;
      filesystem := Btrfs;
      ClearGuided();
      ClearManual();
    }

    method ClearTarget()
      modifies this
      ensures stableId == "" && digest == "" && disk == "" && size == 0
      ensures choices == map[] && strategy == None
    {
      disk, stableId, digest := "", "", "";
      size := 0;
      ClearStrategy();
    }

    /**
     bind_storage_target: the new disk is bound; if it is another one, or the same one with another
     partition table, every choice is dropped. The one case in which a choice outlives a changed
     topology is a target that had been bound without a digest.
     */
    method BindTarget(d: Disk) returns (changed: bool)
      requires Loyal()
      modifies this
      ensures Loyal()
      ensures stableId == d.stableId && size == d.size && digest == d.digest && disk == d.path
      ensures changed <==>
              old(stableId) != d.stableId || old(size) != d.size || (old(digest) != "" && old(digest) != d.digest)
      ensures changed ==> choices == map[] && strategy == None
      ensures !changed ==> choices == old(choices) && strategy == old(strategy) && origin == old(origin)
      ensures old(Current()) ==>
                (!Current() <==> && old(stableId) == d.stableId && old(size) == d.size
                                 && old(digest) == "" && d.digest != "" && old(choices) != map[])
    {
      changed := stableId != d.stableId || size != d.size || (digest != "" && digest != d.digest);
      if changed {
        ClearStrategy();
      }
      disk := d.path;
      size := d.size;
      stableId := d.stableId;
      digest := d.digest;
      if choices != map[] {
        ghost var s :| s in choices;
        assert s in origin;
      }
    }

    /** Lines 278-281 */
    method DropChoices()
      modifies this`choices, this`recoveryKeySaved, this`swapAuto, this`swapSize
      ensures choices == map[] && !recoveryKeySaved && swapAuto && swapSize == None
    {
      NothingLeft(choices);
      ClearCredentials();
      ClearGuided();
      ClearManual();
      swapSize := None;
    }

    /** Lines 283-297 */
    method SetLayout(s: Strategy, changed: bool)
      modifies this`mode, this`filesystem
      ensures mode == if s == Advanced then Manual else EraseDisk
      ensures filesystem == match s
                            case EraseExt4 => Ext4
                            case Advanced => if changed || old(filesystem) == OtherFs then Btrfs else old(filesystem)
                            case _ => Btrfs
    {
      if s == EraseBtrfs {
        mode, filesystem := EraseDisk, Btrfs;
      } else if s == EraseExt4 {
        mode, filesystem := EraseDisk, Ext4;
      } else {
        mode := Manual;
        if changed || filesystem == OtherFs {
          filesystem := Btrfs;
        }
      }
    }

    /** apply_storage_strategy: another strategy drops every choice, the same one keeps them. */
    method ApplyStrategy(s: Strategy)
      requires Loyal()
      modifies this
      ensures Loyal() && (old(Current()) ==> Current()) && strategy == Some(s)
      ensures old(strategy) != Some(s) ==> choices == map[] && swapSize == None && !recoveryKeySaved && swapAuto
      ensures old(strategy) == Some(s) ==> choices == old(choices) && swapSize == old(swapSize)
      ensures origin == old(origin)
      ensures stableId == old(stableId) && size == old(size) && digest == old(digest) && disk == old(disk)
      ensures mode == if s == Advanced then Manual else EraseDisk
      ensures filesystem == match s
                            case EraseExt4 => Ext4
                            case Advanced =>
                              if old(strategy) != Some(s) || old(filesystem) == OtherFs then Btrfs else old(filesystem)
                            case _ => Btrfs
    {
      var changed := strategy != Some(s);
      if changed {
        DropChoices();
      }
      strategy := Some(s);
      SetLayout(s, changed);
    }

    /** A page stores what the user has just chosen. */
    method Store(slot: Slot, value: string)
      requires Loyal()
      modifies this`choices, this`origin
      ensures Loyal() && (old(Current()) ==> Current())
      ensures old(Digested()) && digest != "" ==> Digested()
      ensures choices == old(choices)[slot := value] && origin == old(origin)[slot := Here()]
    {
      choices := choices[slot := value];
      origin := origin[slot := Here()];
    }

    /**
     Over every sequence of binding, rescanning, choosing a strategy and saving: whatever is stored
     was chosen for the present disk, size and strategy, and for the present partition table unless
     no digest was bound when it was saved. If a digest was bound at every save, it is all current.
     */
    method Run(events: seq<Event>)
      requires Loyal()
      modifies this
      ensures Loyal()
      ensures Current() <==> digest == "" || Digested()
      ensures old(Digested()) && SavesDigested(old(digest), events) ==> Current()
    {
      for i := 0 to |events|
        invariant Loyal() && digest == DigestAfter(old(digest), events[..i])
        invariant old(Digested()) && SavesDigested(old(digest), events) ==> Digested()
      {
        assert events[..i + 1][..i] == events[..i];
        match events[i]
        case Bind(d) => var _ := BindTarget(d);
        case Rescan => ClearTarget();
        case Choose(s) => ApplyStrategy(s);
        case Save(slot, value) => Store(slot, value);
      }
      assert events[..|events|] == events;
      LoyalIsCurrent();
    }
  }

  /** The digest that is bound after these events. */
  ghost function DigestAfter(digest: string, events: seq<Event>): string
    decreases |events|
  {
    if events == [] then digest
    else
      match events[|events| - 1]
      case Bind(d) => d.digest
      case Rescan => ""
      case _ => DigestAfter(digest, events[..|events| - 1])
  }

  /** A digest is bound whenever something is saved. */
  ghost predicate SavesDigested(digest: string, events: seq<Event>) {
    forall i :: 0 <= i < |events| && events[i].Save? ==> DigestAfter(digest, events[..i]) != ""
  }

  /** With an empty digest the promise fails: the password outlives a change of the partition table. */
  method StaleAfterEmptyDigest() returns (s: Storage)
    ensures Password in s.choices && !s.Current()
  {
    s := new Storage();
    var _ := s.BindTarget(Disk("/dev/sda", "disk", 1, ""));
    s.Store(Password, "secret");
    var _ := s.BindTarget(Disk("/dev/sda", "disk", 1, "digest"));
    assert s.choices[Password] == "secret";
  }
}
