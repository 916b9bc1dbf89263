/**
 Collecting the files of the recovery environment (anduinos-recovery-env/build.py, class Runtime):
 symbolic links are resolved inside the input tree, and the libraries of every copied binary are
 copied too.
 */
module RuntimeClosure {
  import opened Sequences

  /** A path below the input tree, split at its slashes. */
  type Path = seq<string>

  /** The text of a symbolic link, split at its slashes. */
  datatype Target = Target(absolute: bool, parts: seq<string>)

  datatype Binary = NotElf | Elf(libs: seq<string>, interpreters: seq<Path>)

  /** The input tree: its symbolic links and its regular files. */
  datatype Tree = Tree(links: map<Path, Target>, files: map<Path, Binary>)

  /** Directories in the order in which a library is looked up. */
  type Search = seq<Path>

  // ---------------------------------------------------------------- symbolic links

  predicate Blank(part: string) {
    part == "" || part == "."
  }

  /** What joining path components ignores. */
  function Clean(parts: Path): Path {
    if parts == [] then [] else if Blank(parts[0]) then Clean(parts[1..]) else [parts[0]] + Clean(parts[1..])
  }

  /** normpath of an absolute path: `..` takes one component back, and stops at the root. */
  function Normal(done: Path, rest: Path): Path
    decreases |rest|
  {
    if rest == [] then done
    else if Blank(rest[0]) then Normal(done, rest[1..])
    else if rest[0] == ".." then Normal(if done == [] then [] else done[..|done| - 1], rest[1..])
    else Normal(done + [rest[0]], rest[1..])
  }

  predicate IsLink(t: Tree, parts: Path, k: nat)
    requires k < |parts|
  {
    Clean(parts[..k + 1]) in t.links
  }

  ghost predicate NoLink(t: Tree, parts: Path, n: nat) {
    n <= |parts| && forall k :: 0 <= k < n ==> !IsLink(t, parts, k)
  }

  /** The path with the link at its `k`-th component replaced by what it points to. */
  function Follow(t: Tree, parts: Path, k: nat): Path
    requires k < |parts| && IsLink(t, parts, k)
  {
    var target := t.links[Clean(parts[..k + 1])];
    var base := if target.absolute then [] else parts[..k];
    var full := Normal([], base + target.parts + parts[k + 1..]);
    if full == [] then [""] else full
  }

  /** The least component from `k` on that is a link. */
  function FirstLink(t: Tree, parts: Path, k: nat): Option<nat>
    requires k <= |parts|
    decreases |parts| - k
  {
    if k == |parts| then None else if IsLink(t, parts, k) then Some(k) else FirstLink(t, parts, k + 1)
  }

  /** Following the first link of the path, again and again, at most `fuel - 1` times. */
  function Resolve(t: Tree, parts: Path, fuel: nat): Option<Path>
    decreases fuel
  {
    if fuel == 0 then None
    else match FirstLink(t, parts, 0)
      case None => Some(parts)
      case Some(k) =>
        FirstLinkIsLink(t, parts, 0);
        Resolve(t, Follow(t, parts, k), fuel - 1)
  }

  lemma {:induction false} FirstLinkIsLink(t: Tree, parts: Path, k: nat)
    requires k <= |parts|
    ensures var r := FirstLink(t, parts, k);
            match r
            case Some(i) => k <= i < |parts| && IsLink(t, parts, i) && forall j :: k <= j < i ==> !IsLink(t, parts, j)
            case None => forall j :: k <= j < |parts| ==> !IsLink(t, parts, j)
    decreases |parts| - k
  {
    if k < |parts| && !IsLink(t, parts, k) {
      FirstLinkIsLink(t, parts, k + 1);
    }
  }

  /** The inner loop of resolve: the first component that is a link. */
  method FindLink(t: Tree, parts: Path) returns (r: Option<nat>)
    ensures r == FirstLink(t, parts, 0)
    ensures r.None? ==> NoLink(t, parts, |parts|)
    ensures r.Some? ==> r.value < |parts| && IsLink(t, parts, r.value)
  {
    FirstLinkIsLink(t, parts, 0);
    for index := 0 to |parts|
      invariant NoLink(t, parts, index)
    {
      if IsLink(t, parts, index) {
        return Some(index);
      }
    }
    return None;
  }

  /** The first link on `p` is replaced by what it points to. */
  ghost predicate Hop(t: Tree, p: Path, q: Path) {
    exists k :: 0 <= k < |p| && IsLink(t, p, k) && NoLink(t, p, k) && q == Follow(t, p, k)
  }

  /** `ps` leads from the given path, link by link, to one without links. */
  ghost predicate Trail(t: Tree, path: Path, r: Path, ps: seq<Path>) {
    && |ps| > 0 && ps[0] == path && ps[|ps| - 1] == r && NoLink(t, r, |r|)
    && forall i :: 0 <= i < |ps| - 1 ==> Hop(t, ps[i], ps[i + 1])
  }

  lemma {:induction false} ResolvedLeavesTrail(t: Tree, path: Path, fuel: nat) returns (ps: seq<Path>)
    requires Resolve(t, path, fuel).Some?
    ensures |ps| <= fuel && Trail(t, path, Resolve(t, path, fuel).value, ps)
    decreases fuel
  {
    FirstLinkIsLink(t, path, 0);
    match FirstLink(t, path, 0)
    case None =>
      ps := [path];
    case Some(k) =>
      var rest := ResolvedLeavesTrail(t, Follow(t, path, k), fuel - 1);
      ps := [path] + rest;
      assert Hop(t, path, Follow(t, path, k));
      forall i | 0 <= i < |ps| - 1
        ensures Hop(t, ps[i], ps[i + 1])
      {
        assert i > 0 ==> ps[i] == rest[i - 1] && ps[i + 1] == rest[i - 1 + 1];
      }
  }

  lemma {:induction false} TrailIsResolved(t: Tree, path: Path, r: Path, ps: seq<Path>, fuel: nat)
    requires Trail(t, path, r, ps) && |ps| <= fuel
    ensures Resolve(t, path, fuel) == Some(r)
    decreases fuel
  {
    FirstLinkIsLink(t, path, 0);
    if |ps| > 1 {
      assert Hop(t, ps[0], ps[0 + 1]);
      var k :| 0 <= k < |path| && IsLink(t, path, k) && NoLink(t, path, k) && ps[1] == Follow(t, path, k);
      assert FirstLink(t, path, 0) == Some(k);
      var rest := ps[1..];
      forall i | 0 <= i < |rest| - 1
        ensures Hop(t, rest[i], rest[i + 1])
      {
        assert rest[i] == ps[i + 1] && rest[i + 1] == ps[i + 1 + 1];
      }
      TrailIsResolved(t, ps[1], r, rest, fuel - 1);
    }
  }

  /** A path resolves to `r` exactly if fewer than `fuel` links lead there. */
  lemma ResolveIff(t: Tree, path: Path, fuel: nat, r: Path)
    ensures Resolve(t, path, fuel) == Some(r) <==> exists ps :: |ps| <= fuel && Trail(t, path, r, ps)
  {
    if Resolve(t, path, fuel) == Some(r) {
      var ps := ResolvedLeavesTrail(t, path, fuel);
    }
    if exists ps :: |ps| <= fuel && Trail(t, path, r, ps) {
      var ps :| |ps| <= fuel && Trail(t, path, r, ps);
      TrailIsResolved(t, path, r, ps, fuel);
    }
  }

  lemma ResolveExactly(t: Tree, path: Path, fuel: nat)
    ensures forall q :: Resolve(t, path, fuel) == Some(q) <==> exists ps :: |ps| <= fuel && Trail(t, path, q, ps)
  {
    forall q
      ensures Resolve(t, path, fuel) == Some(q) <==> exists ps :: |ps| <= fuel && Trail(t, path, q, ps)
    {
      ResolveIff(t, path, fuel, q);
    }
  }

  /** Runtime.resolve: a path resolves exactly if fewer than forty links lead to one without links. */
  method ResolvePath(t: Tree, path: Path) returns (r: Option<Path>)
    ensures r == Resolve(t, path, 40)
    ensures forall q :: r == Some(q) <==> exists ps :: |ps| <= 40 && Trail(t, path, q, ps)
    ensures r.Some? ==> NoLink(t, r.value, |r.value|)
  {
    r := Rounds(t, path);
    ResolveExactly(t, path, 40);
  }

  /** Forty rounds, each following the first link. */
  method Rounds(t: Tree, path: Path) returns (r: Option<Path>)
    ensures r == Resolve(t, path, 40)
    ensures r.Some? ==> NoLink(t, r.value, |r.value|)
  {
    var parts := path;
    for round := 0 to 40
      invariant Resolve(t, path, 40) == Resolve(t, parts, 40 - round)
    {
      var index := FindLink(t, parts);
      ResolveOnce(t, parts, 40 - round);
      if index.None? {
        return Some(parts);
      }
      parts := Follow(t, parts, index.value);
    }
    return None;
  }

  lemma ResolveOnce(t: Tree, parts: Path, fuel: nat)
    requires fuel > 0
    ensures var k := FirstLink(t, parts, 0);
            match k
            case None => Resolve(t, parts, fuel) == Some(parts)
            case Some(i) =>
              && i < |parts| && IsLink(t, parts, i)
              && Resolve(t, parts, fuel) == Resolve(t, Follow(t, parts, i), fuel - 1)
  {
    FirstLinkIsLink(t, parts, 0);
  }

  // ---------------------------------------------------------------- where a link leads

  /** Names only: nothing to skip and no step up. */
  predicate Names(parts: Path) {
    forall i :: 0 <= i < |parts| ==> parts[i] != "" && parts[i] != "." && parts[i] != ".."
  }

  /** Read from the left, a name goes one down, `..` one up, and an empty part or `.` nowhere. */
  lemma {:induction false} NormalStep(done: Path, parts: Path, last: string)
    ensures var before, after := Normal(done, parts), Normal(done, parts + [last]);
            if last == "" || last == "." then after == before
            else if last == ".." then after == before[..Max(0, |before| - 1)]
            else after == before + [last]
    decreases |parts|
  {
    if parts == [] {
      assert [last][1..] == [];
    } else {
      assert (parts + [last])[1..] == parts[1..] + [last];
      if Blank(parts[0]) {
        NormalStep(done, parts[1..], last);
      } else if parts[0] == ".." {
        NormalStep(if done == [] then [] else done[..|done| - 1], parts[1..], last);
      } else {
        NormalStep(done + [parts[0]], parts[1..], last);
      }
    }
  }

  lemma {:induction false} NormalNames(done: Path, names: Path, rest: Path)
    requires Names(names)
    ensures Normal(done, names + rest) == Normal(done + names, rest)
    decreases |names|
  {
    if names == [] {
      assert names + rest == rest && done + names == done;
    } else {
      assert (names + rest)[0] == names[0] && (names + rest)[1..] == names[1..] + rest;
      NormalNames(done + [names[0]], names[1..], rest);
      assert done + [names[0]] + names[1..] == done + names;
    }
  }

  function Ups(n: nat): Path {
    if n == 0 then [] else [".."] + Ups(n - 1)
  }

  lemma {:induction false} NormalUps(done: Path, n: nat, rest: Path)
    ensures Normal(done, Ups(n) + rest) == Normal(done[..Max(0, |done| - n)], rest)
    decreases n
  {
    if n == 0 {
      assert Ups(0) + rest == rest && done[..|done|] == done;
    } else {
      assert (Ups(n) + rest)[0] == ".." && (Ups(n) + rest)[1..] == Ups(n - 1) + rest;
      var up := if done == [] then [] else done[..|done| - 1];
      NormalUps(up, n - 1, rest);
      assert up[..Max(0, |up| - (n - 1))] == done[..Max(0, |done| - n)];
    }
  }

  /**
   Where one link leads. From a directory of names, a target that climbs `n` times and then names
   `q` leads to `q` below the directory `n` levels up, or below the root if it is absolute or climbs
   too far; what followed the link on the path follows there.
   */
  lemma FollowMeans(t: Tree, parts: Path, k: nat, n: nat, q: Path)
    requires k < |parts| && IsLink(t, parts, k) && Names(parts[..k]) && Names(parts[k + 1..]) && Names(q)
    requires t.links[Clean(parts[..k + 1])].parts == Ups(n) + q
    ensures var base := if t.links[Clean(parts[..k + 1])].absolute then [] else parts[..Max(0, k - n)];
            var whole := base + q + parts[k + 1..];
            Follow(t, parts, k) == if whole == [] then [""] else whole
  {
    var target, rest := t.links[Clean(parts[..k + 1])], parts[k + 1..];
    var base := if target.absolute then [] else parts[..k];
    NormalThrough(base, n, q, rest);
    assert base + target.parts + rest == base + (Ups(n) + (q + rest));
    assert base[..Max(0, |base| - n)] == if target.absolute then [] else parts[..Max(0, k - n)];
  }

  lemma NormalThrough(base: Path, n: nat, q: Path, rest: Path)
    requires Names(base) && Names(q) && Names(rest)
    ensures Normal([], base + (Ups(n) + (q + rest))) == base[..Max(0, |base| - n)] + q + rest
  {
    UpFrom(base, n, q + rest);
    DownFrom(base[..Max(0, |base| - n)], q, rest);
  }

  lemma UpFrom(base: Path, n: nat, onward: Path)
    requires Names(base)
    ensures Normal([], base + (Ups(n) + onward)) == Normal(base[..Max(0, |base| - n)], onward)
  {
    FromRoot(base, Ups(n) + onward);
    NormalUps(base, n, onward);
  }

  lemma DownFrom(below: Path, q: Path, rest: Path)
    requires Names(q) && Names(rest)
    ensures Normal(below, q + rest) == below + q + rest
  {
    NormalOfNames(below, q + rest);
    assert below + (q + rest) == below + q + rest;
  }

  lemma FromRoot(names: Path, rest: Path)
    requires Names(names)
    ensures Normal([], names + rest) == Normal(names, rest)
  {
    NormalNames([], names, rest);
    assert [] + names == names;
  }

  lemma NormalOfNames(done: Path, names: Path)
    requires Names(names)
    ensures Normal(done, names) == done + names
  {
    NormalNames(done, names, []);
    assert names + [] == names;
  }

  lemma {:induction false} CleanNames(parts: Path)
    requires Names(parts)
    ensures Clean(parts) == parts
  {
    if parts != [] {
      CleanNames(parts[1..]);
    }
  }

  predicate Tidy(parts: Path) {
    forall i :: 0 <= i < |parts| ==> parts[i] != ".."
  }

  lemma {:induction false} NormalIsTidy(done: Path, rest: Path)
    requires Tidy(done)
    ensures Tidy(Normal(done, rest))
    decreases |rest|
  {
    if rest != [] {
      if Blank(rest[0]) {
        NormalIsTidy(done, rest[1..]);
      } else if rest[0] == ".." {
        NormalIsTidy(if done == [] then [] else done[..|done| - 1], rest[1..]);
      } else {
        NormalIsTidy(done + [rest[0]], rest[1..]);
      }
    }
  }

  /** The components reach above the tree: some prefix goes up more often than down. */
  function Climbs(depth: nat, parts: Path): bool
    decreases |parts|
  {
    if parts == [] then false
    else if Blank(parts[0]) then Climbs(depth, parts[1..])
    else if parts[0] == ".." then depth == 0 || Climbs(depth - 1, parts[1..])
    else Climbs(depth + 1, parts[1..])
  }

  lemma {:induction false} TidyStaysInside(depth: nat, parts: Path)
    requires Tidy(parts)
    ensures !Climbs(depth, parts)
    decreases |parts|
  {
    if parts != [] {
      assert Tidy(parts[1..]);
      TidyStaysInside(if Blank(parts[0]) then depth else depth + 1, parts[1..]);
    }
  }

  lemma {:induction false} ResolveTidy(t: Tree, parts: Path, fuel: nat)
    requires Tidy(parts) && Resolve(t, parts, fuel).Some?
    ensures Tidy(Resolve(t, parts, fuel).value)
    decreases fuel
  {
    FirstLinkIsLink(t, parts, 0);
    var k := FirstLink(t, parts, 0);
    if k.Some? {
      FollowTidy(t, parts, k.value);
      ResolveTidy(t, Follow(t, parts, k.value), fuel - 1);
    }
  }

  lemma FollowTidy(t: Tree, parts: Path, k: nat)
    requires k < |parts| && IsLink(t, parts, k)
    ensures Tidy(Follow(t, parts, k))
  {
    var target := t.links[Clean(parts[..k + 1])];
    var base := if target.absolute then [] else parts[..k];
    NormalIsTidy([], base + target.parts + parts[k + 1..]);
  }

  /**
   Whether resolution stays inside the input tree. Every followed link is normalised, so a result
   that leaves the tree is exactly a path that names no link and climbs out by itself: for such a
   path the confinement the class promises does not hold, for every other one it does.
   */
  lemma ConfinedUnlessGivenOutside(t: Tree, path: Path)
    requires Resolve(t, path, 40).Some?
    ensures Climbs(0, Resolve(t, path, 40).value) <==> NoLink(t, path, |path|) && Climbs(0, path)
    ensures !NoLink(t, path, |path|) ==> Tidy(Resolve(t, path, 40).value)
    ensures NoLink(t, path, |path|) ==> Resolve(t, path, 40).value == path
  {
    FirstLinkIsLink(t, path, 0);
    var k := FirstLink(t, path, 0);
    if k.Some? {
      FollowTidy(t, path, k.value);
      ResolveTidy(t, Follow(t, path, k.value), 39);
      TidyStaysInside(0, Resolve(t, path, 40).value);
    }
  }

  /** A path that is not confined. */
  lemma EscapingPath()
    ensures Resolve(Tree(map[], map[]), ["usr", "..", "..", "etc"], 40) == Some(["usr", "..", "..", "etc"])
    ensures Climbs(0, ["usr", "..", "..", "etc"])
  {
  }

  // ---------------------------------------------------------------- what a binary needs

  /** The regular file a path leads to. */
  function Content(t: Tree, path: Path): Option<Binary> {
    var r := Resolve(t, path, 40);
    if r.Some? && Clean(r.value) in t.files then Some(t.files[Clean(r.value)]) else None
  }

  /** The first directory that has the library, unless resolution fails before it. */
  function Library(t: Tree, dirs: Search, name: string): Option<Path> {
    if dirs == [] then None
    else
      var path := dirs[0] + [name];
      if Resolve(t, path, 40).None? then None
      else if Content(t, path).Some? then Some(path)
      else Library(t, dirs[1..], name)
  }

  /** Directory `i` is the first that has the library, and no path before it has too many links. */
  ghost predicate HitAt(t: Tree, dirs: Search, name: string, i: nat) {
    && i < |dirs| && Content(t, dirs[i] + [name]).Some?
    && forall j :: 0 <= j < i ==> Resolve(t, dirs[j] + [name], 40).Some? && Content(t, dirs[j] + [name]).None?
  }

  lemma HitInRest(t: Tree, dirs: Search, name: string, i: nat)
    requires HitAt(t, dirs, name, i) && i > 0
    ensures HitAt(t, dirs[1..], name, i - 1)
  {
    var rest := dirs[1..];
    assert rest[i - 1] == dirs[i];
    forall j | 0 <= j < i - 1
      ensures Resolve(t, rest[j] + [name], 40).Some? && Content(t, rest[j] + [name]).None?
    {
      assert rest[j] == dirs[j + 1];
    }
  }

  lemma {:induction false} LibraryHit(t: Tree, dirs: Search, name: string, i: nat)
    requires HitAt(t, dirs, name, i)
    ensures Library(t, dirs, name) == Some(dirs[i] + [name])
    decreases i
  {
    if i > 0 {
      assert Resolve(t, dirs[0] + [name], 40).Some? && Content(t, dirs[0] + [name]).None?;
      HitInRest(t, dirs, name, i);
      LibraryHit(t, dirs[1..], name, i - 1);
      assert dirs[1..][i - 1] == dirs[i];
    }
  }

  /**
   A library that is a link to a file beside it is found: in a directory without links, it leads to
   that file, and the search returns it if no directory before has the name.
   */
  lemma LinkedLibrary(t: Tree, dirs: Search, i: nat, name: string, file: string)
    requires i < |dirs| && Names(dirs[i]) && NoLink(t, dirs[i], |dirs[i]|) && Names([name, file])
    requires dirs[i] + [name] in t.links && t.links[dirs[i] + [name]] == Target(false, [file])
    requires dirs[i] + [file] !in t.links && dirs[i] + [file] in t.files
    requires forall j :: 0 <= j < i ==> Resolve(t, dirs[j] + [name], 40).Some? && Content(t, dirs[j] + [name]).None?
    ensures Content(t, dirs[i] + [name]) == Some(t.files[dirs[i] + [file]])
    ensures Library(t, dirs, name) == Some(dirs[i] + [name])
  {
    LinkBeside(t, dirs[i], name, file);
    LibraryHit(t, dirs, name, i);
  }

  lemma LinkBeside(t: Tree, dir: Path, name: string, file: string)
    requires Names(dir) && NoLink(t, dir, |dir|) && Names([name, file])
    requires dir + [name] in t.links && t.links[dir + [name]] == Target(false, [file])
    requires dir + [file] !in t.links && dir + [file] in t.files
    ensures Content(t, dir + [name]) == Some(t.files[dir + [file]])
  {
    var path, actual, k := dir + [name], dir + [file], |dir|;
    assert [name, file][0] == name && [name, file][1] == file;
    CleanNames(path);
    CleanNames(actual);
    assert path[..k + 1] == path && path[..k] == dir && path[k + 1..] == [];
    assert actual[..k + 1] == actual;
    forall j | 0 <= j < k
      ensures !IsLink(t, path, j) && !IsLink(t, actual, j)
    {
      assert path[..j + 1] == dir[..j + 1] && actual[..j + 1] == dir[..j + 1];
      assert !IsLink(t, dir, j);
    }
    assert IsLink(t, path, k);
    FollowMeans(t, path, k, 0, [file]);
    assert dir + [file] + [] == actual;
    assert Hop(t, path, actual) && NoLink(t, actual, |actual|);
    assert Trail(t, path, actual, [path, actual]);
    TrailIsResolved(t, path, actual, [path, actual], 40);
  }

  /** The files that `b` cannot run without. */
  ghost predicate Needs(t: Tree, dirs: Search, b: Binary, p: Path) {
    && b.Elf?
    && ((exists name :: name in b.libs && Library(t, dirs, name) == Some(p)) || p in b.interpreters)
  }

  /** Everything `b` needs has been found and copied. */
  ghost predicate Satisfied(t: Tree, dirs: Search, copied: set<Path>, b: Binary) {
    && (b.Elf? ==> forall name :: name in b.libs ==> Library(t, dirs, name).Some?)
    && (forall p :: Needs(t, dirs, b, p) ==> p in copied)
  }

  ghost predicate Provided(t: Tree, dirs: Search, copied: set<Path>, p: Path) {
    Content(t, p).Some? && Satisfied(t, dirs, copied, Content(t, p).value)
  }

  /** Every copied file has everything it needs among the copied files. */
  ghost predicate Closed(t: Tree, dirs: Search, copied: set<Path>) {
    forall p :: p in copied ==> Provided(t, dirs, copied, p)
  }

  /** A set that no need of its members leads out of. */
  ghost predicate Sealed(t: Tree, dirs: Search, s: set<Path>) {
    forall p, q :: p in s && Content(t, p).Some? && Needs(t, dirs, Content(t, p).value, q) ==> q in s
  }

  // ---------------------------------------------------------------- termination

  /** All paths that `b` can ask for. */
  ghost function Wishes(dirs: Search, b: Binary): set<Path> {
    if b.NotElf? then {}
    else (set d, name | d in dirs && name in b.libs :: d + [name]) + (set p | p in b.interpreters)
  }

  /** All paths that any input file can ask for: finitely many. */
  ghost function Universe(t: Tree, dirs: Search): set<Path> {
    set r, p | r in t.files && p in Wishes(dirs, t.files[r]) :: p
  }

  lemma {:induction false} LibraryIsWish(t: Tree, dirs: Search, name: string)
    requires Library(t, dirs, name).Some?
    ensures exists d :: d in dirs && Library(t, dirs, name).value == d + [name]
    ensures Content(t, Library(t, dirs, name).value).Some?
  {
    var path := dirs[0] + [name];
    if Content(t, path).Some? {
      assert dirs[0] in dirs;
    } else {
      LibraryIsWish(t, dirs[1..], name);
      var d :| d in dirs[1..] && Library(t, dirs[1..], name).value == d + [name];
      assert d in dirs;
    }
  }

  lemma NeedsAreWishes(t: Tree, dirs: Search, b: Binary, p: Path)
    requires Needs(t, dirs, b, p)
    ensures p in Wishes(dirs, b)
  {
    if p !in b.interpreters {
      var name :| name in b.libs && Library(t, dirs, name) == Some(p);
      LibraryIsWish(t, dirs, name);
    }
  }

  lemma ContentInUniverse(t: Tree, dirs: Search, p: Path)
    requires Content(t, p).Some?
    ensures Wishes(dirs, Content(t, p).value) <= Universe(t, dirs)
  {
  }

  // ---------------------------------------------------------------- the collector

  /** What was copied since `before` has all it needs. */
  ghost predicate NewProvided(t: Tree, dirs: Search, before: set<Path>, copied: set<Path>) {
    && before <= copied
    && forall p {:trigger Provided(t, dirs, copied, p)} ::
         p in copied && p !in before ==> Provided(t, dirs, copied, p)
  }

  /** Nothing was copied that a sealed set around the request would not hold. */
  ghost predicate NoMore(t: Tree, dirs: Search, before: set<Path>, request: set<Path>, copied: set<Path>) {
    forall s {:trigger Sealed(t, dirs, s)} :: Sealed(t, dirs, s) && before <= s && request <= s ==> copied <= s
  }

  /** No closed set around `before` can hold the request: something it leads to is missing. */
  ghost predicate Hopeless(t: Tree, dirs: Search, before: set<Path>, request: set<Path>) {
    forall s :: Closed(t, dirs, s) && before <= s ==> !(request <= s)
  }

  /** ... or can satisfy the binary. */
  ghost predicate Unsatisfiable(t: Tree, dirs: Search, before: set<Path>, b: Binary) {
    forall s :: Closed(t, dirs, s) && before <= s ==> !Satisfied(t, dirs, s, b)
  }

  lemma ClosedIsSealed(t: Tree, dirs: Search, s: set<Path>)
    requires Closed(t, dirs, s)
    ensures Sealed(t, dirs, s)
  {
  }

  lemma HopelessFile(t: Tree, dirs: Search, before: set<Path>, path: Path)
    requires Content(t, path).None? || Unsatisfiable(t, dirs, before + {path}, Content(t, path).value)
    ensures Hopeless(t, dirs, before, {path})
  {
  }

  lemma HopelessNeed(t: Tree, dirs: Search, before: set<Path>, b: Binary, mid: set<Path>, path: Path)
    requires NoMore(t, dirs, before, NeedSet(t, dirs, b), mid)
    requires Needs(t, dirs, b, path) && Hopeless(t, dirs, mid, {path})
    ensures Unsatisfiable(t, dirs, before, b)
  {
    forall s | Closed(t, dirs, s) && before <= s
      ensures !Satisfied(t, dirs, s, b)
    {
      ClosedIsSealed(t, dirs, s);
      assert Satisfied(t, dirs, s, b) ==> NeedSet(t, dirs, b) <= s;
      assert NeedSet(t, dirs, b) <= s ==> mid <= s;
    }
  }

  lemma Chained(t: Tree, dirs: Search, before: set<Path>, mid: set<Path>, copied: set<Path>)
    requires NewProvided(t, dirs, before, mid) && NewProvided(t, dirs, mid, copied)
    ensures NewProvided(t, dirs, before, copied)
  {
    forall p | p in copied - before
      ensures Provided(t, dirs, copied, p)
    {
      if p in mid {
        assert Provided(t, dirs, mid, p);
        ProvidedGrows(t, dirs, mid, copied, p);
      }
    }
  }

  lemma NoMoreChained(t: Tree, dirs: Search, before: set<Path>, request: set<Path>, mid: set<Path>,
                      part: set<Path>, copied: set<Path>)
    requires NoMore(t, dirs, before, request, mid) && NoMore(t, dirs, mid, part, copied) && part <= request
    ensures NoMore(t, dirs, before, request, copied)
  {
  }

  ghost predicate HasLibrary(t: Tree, dirs: Search, copied: set<Path>, name: string) {
    Library(t, dirs, name).Some? && Library(t, dirs, name).value in copied
  }

  ghost predicate HasLibraries(t: Tree, dirs: Search, copied: set<Path>, b: Binary)
    requires b.Elf?
  {
    forall k :: 0 <= k < |b.libs| ==> HasLibrary(t, dirs, copied, b.libs[k])
  }

  lemma LibrariesStay(t: Tree, dirs: Search, a: set<Path>, b: set<Path>, binary: Binary)
    requires binary.Elf? && a <= b && HasLibraries(t, dirs, a, binary)
    ensures HasLibraries(t, dirs, b, binary)
  {
  }

  lemma LibraryNeeded(t: Tree, dirs: Search, b: Binary, i: nat)
    requires b.Elf? && i < |b.libs| && Library(t, dirs, b.libs[i]).Some?
    ensures Needs(t, dirs, b, Library(t, dirs, b.libs[i]).value)
  {
  }

  lemma InterpreterNeeded(t: Tree, dirs: Search, b: Binary, i: nat)
    requires b.Elf? && i < |b.interpreters|
    ensures Needs(t, dirs, b, b.interpreters[i])
  {
  }

  lemma AllSatisfied(t: Tree, dirs: Search, copied: set<Path>, b: Binary)
    requires b.Elf? && HasLibraries(t, dirs, copied, b) && forall p :: p in b.interpreters ==> p in copied
    ensures Satisfied(t, dirs, copied, b)
  {
  }

  /** A sealed set around a file holds the file's needs. */
  lemma SealedHoldsNeeds(t: Tree, dirs: Search, before: set<Path>, path: Path, b: Binary, copied: set<Path>)
    requires Content(t, path) == Some(b)
    requires NoMore(t, dirs, before + {path}, NeedSet(t, dirs, b), copied)
    ensures NoMore(t, dirs, before, {path}, copied)
  {
  }

  lemma WishFits(universe: set<Path>, wishes: set<Path>, before: set<Path>, copied: set<Path>, path: Path)
    requires path in wishes && before <= copied
    ensures |universe + {path} - copied| <= |universe + wishes - before|
  {
    SubsetSize(universe + {path} - copied, universe + wishes - before);
  }

  class Runtime {
    const tree: Tree
    const dirs: Search
    var copied: set<Path>

    constructor (tree: Tree, dirs: Search)
      ensures this.tree == tree && this.dirs == dirs && copied == {}
    {
      this.tree, this.dirs := tree, dirs;
      copied := {};
    }

    /**
     Runtime.file: marks the path before it visits what the file needs. On a normal return, what
     was copied on the way is provided for; what was being visited already is left to its visitor.
     */
    method File(path: Path) returns (ok: bool)
      modifies this`copied
      ensures old(copied) <= copied
      ensures ok ==> path in copied && NewProvided(tree, dirs, old(copied), copied)
      ensures NoMore(tree, dirs, old(copied), {path}, copied)
      ensures !ok ==> Hopeless(tree, dirs, old(copied), {path})
      decreases |Universe(tree, dirs) + {path} - copied|, 0
    {
      if path in copied {
        return true;
      }
      ghost var before := copied;
      copied := copied + {path};
      var content := Content(tree, path);
      if content.None? {
        HopelessFile(tree, dirs, before, path);
        return false;
      }
      ContentInUniverse(tree, dirs, path);
      MarkShrinks(Universe(tree, dirs) + {path}, before, path);
      assert Universe(tree, dirs) + Wishes(dirs, content.value) - copied == Universe(tree, dirs) + {path} - copied;
      ok := Dependencies(content.value);
      SealedHoldsNeeds(tree, dirs, before, path, content.value, copied);
      if !ok {
        HopelessFile(tree, dirs, before, path);
      }
    }

    /** Runtime.dependencies: all libraries of a binary, then its interpreter. */
    method Dependencies(b: Binary) returns (ok: bool)
      modifies this`copied
      ensures old(copied) <= copied
      ensures ok ==> Satisfied(tree, dirs, copied, b) && NewProvided(tree, dirs, old(copied), copied)
      ensures NoMore(tree, dirs, old(copied), NeedSet(tree, dirs, b), copied)
      ensures !ok ==> Unsatisfiable(tree, dirs, old(copied), b)
      decreases |Universe(tree, dirs) + Wishes(dirs, b) - copied|, 2
    {
      if b.NotElf? {
        return true;
      }
      ghost var before := copied;
      ok := Libraries(b, before);
      if ok {
        ghost var mid := copied;
        ok := Interpreters(b, before);
        if ok {
          LibrariesStay(tree, dirs, mid, copied, b);
          AllSatisfied(tree, dirs, copied, b);
        }
      }
    }

    /** The loop over the shared libraries. */
    method Libraries(b: Binary, ghost before: set<Path>) returns (ok: bool)
      requires b.Elf? && before == copied
      modifies this`copied
      ensures old(copied) <= copied
      ensures ok ==> NewProvided(tree, dirs, before, copied) && HasLibraries(tree, dirs, copied, b)
      ensures NoMore(tree, dirs, before, NeedSet(tree, dirs, b), copied)
      ensures !ok ==> Unsatisfiable(tree, dirs, before, b)
      decreases |Universe(tree, dirs) + Wishes(dirs, b) - before|, 1, 1
    {
      for i := 0 to |b.libs|
        invariant NewProvided(tree, dirs, before, copied) && NoMore(tree, dirs, before, NeedSet(tree, dirs, b), copied)
        invariant forall k :: 0 <= k < i ==> HasLibrary(tree, dirs, copied, b.libs[k])
      {
        var found := FindLibrary(b.libs[i]);
        if found.None? {
          return false;
        }
        LibraryNeeded(tree, dirs, b, i);
        ok := Also(b, found.value, before);
        if !ok {
          return false;
        }
      }
      return true;
    }

    /** The loop over the program interpreters. */
    method Interpreters(b: Binary, ghost before: set<Path>) returns (ok: bool)
      requires b.Elf?
      requires NewProvided(tree, dirs, before, copied) && NoMore(tree, dirs, before, NeedSet(tree, dirs, b), copied)
      modifies this`copied
      ensures old(copied) <= copied
      ensures ok ==> NewProvided(tree, dirs, before, copied)
      ensures ok ==> forall p :: p in b.interpreters ==> p in copied
      ensures NoMore(tree, dirs, before, NeedSet(tree, dirs, b), copied)
      ensures !ok ==> Unsatisfiable(tree, dirs, before, b)
      decreases |Universe(tree, dirs) + Wishes(dirs, b) - before|, 1, 1
    {
      for i := 0 to |b.interpreters|
        invariant old(copied) <= copied
        invariant NewProvided(tree, dirs, before, copied) && NoMore(tree, dirs, before, NeedSet(tree, dirs, b), copied)
        invariant forall k :: 0 <= k < i ==> b.interpreters[k] in copied
      {
        InterpreterNeeded(tree, dirs, b, i);
        ok := Also(b, b.interpreters[i], before);
        if !ok {
          return false;
        }
      }
      return true;
    }

    /** One more file that `b` needs. */
    method Also(ghost b: Binary, path: Path, ghost before: set<Path>) returns (ok: bool)
      requires Needs(tree, dirs, b, path)
      requires NewProvided(tree, dirs, before, copied) && NoMore(tree, dirs, before, NeedSet(tree, dirs, b), copied)
      modifies this`copied
      ensures old(copied) <= copied
      ensures ok ==> path in copied && NewProvided(tree, dirs, before, copied)
      ensures NoMore(tree, dirs, before, NeedSet(tree, dirs, b), copied)
      ensures !ok ==> Unsatisfiable(tree, dirs, before, b)
      decreases |Universe(tree, dirs) + Wishes(dirs, b) - before|, 1, 0
    {
      NeedsAreWishes(tree, dirs, b, path);
      WishFits(Universe(tree, dirs), Wishes(dirs, b), before, copied, path);
      ghost var mid := copied;
      ok := File(path);
      if !ok {
        HopelessNeed(tree, dirs, before, b, mid, path);
      }
      NoMoreChained(tree, dirs, before, NeedSet(tree, dirs, b), mid, {path}, copied);
      if ok {
        Chained(tree, dirs, before, mid, copied);
      }
    }

    /** The directories are tried in order; the first that has the file wins. */
    method FindLibrary(name: string) returns (r: Option<Path>)
      ensures r == Library(tree, dirs, name)
      ensures r.Some? ==> exists i: nat :: HitAt(tree, dirs, name, i) && r.value == dirs[i] + [name]
      ensures r.None? ==> forall i: nat :: !HitAt(tree, dirs, name, i)
    {
      forall i | HitAt(tree, dirs, name, i)
        ensures Library(tree, dirs, name).Some?
      {
        LibraryHit(tree, dirs, name, i);
      }
      for i := 0 to |dirs|
        invariant Library(tree, dirs, name) == Library(tree, dirs[i..], name)
        invariant forall j :: 0 <= j < i ==>
                    Resolve(tree, dirs[j] + [name], 40).Some? && Content(tree, dirs[j] + [name]).None?
      {
        assert dirs[i..][1..] == dirs[i + 1..];
        var path := dirs[i] + [name];
        var resolved := ResolvePath(tree, path);
        if resolved.None? {
          return None;
        }
        if Clean(resolved.value) in tree.files {
          assert HitAt(tree, dirs, name, i);
          return Some(path);
        }
      }
      return None;
    }

    /**
     The top-level calls of a build, one after another. If all return normally, the copied set is
     closed, it holds every request, and it is the least such set.
     */
    method Collect(requests: seq<Request>) returns (ok: bool)
      requires copied == {}
      modifies this`copied
      ensures ok ==> Closed(tree, dirs, copied)
      ensures ok ==> AllServed(tree, dirs, copied, requests)
      ensures NoMore(tree, dirs, {}, AllAsked(tree, dirs, requests), copied)
      ensures !ok ==> forall s :: Closed(tree, dirs, s) ==> !AllServed(tree, dirs, s, requests)
    {
      for i := 0 to |requests|
        invariant NewProvided(tree, dirs, {}, copied)
        invariant AllServed(tree, dirs, copied, requests[..i])
        invariant NoMore(tree, dirs, {}, AllAsked(tree, dirs, requests), copied)
      {
        ghost var before := copied;
        ok := Serve(requests[i]);
        NoMoreChained(tree, dirs, {}, AllAsked(tree, dirs, requests), before, Asks(tree, dirs, requests[i]), copied);
        if !ok {
          HopelessRequest(tree, dirs, before, requests, i);
          return false;
        }
        Chained(tree, dirs, {}, before, copied);
        OneMoreServed(tree, dirs, before, copied, requests, i);
      }
      assert requests[..|requests|] == requests;
      return true;
    }

    method Serve(r: Request) returns (ok: bool)
      modifies this`copied
      ensures old(copied) <= copied
      ensures ok ==> Served(tree, dirs, copied, r) && NewProvided(tree, dirs, old(copied), copied)
      ensures NoMore(tree, dirs, old(copied), Asks(tree, dirs, r), copied)
      ensures !ok ==> forall s :: Closed(tree, dirs, s) && old(copied) <= s ==> !Served(tree, dirs, s, r)
    {
      match r {
        case Copy(path) => ok := File(path);
        case Examine(b) => ok := Dependencies(b);
      }
    }
  }

  lemma HopelessRequest(t: Tree, dirs: Search, before: set<Path>, requests: seq<Request>, i: nat)
    requires i < |requests| && NoMore(t, dirs, {}, AllAsked(t, dirs, requests), before)
    requires forall s :: Closed(t, dirs, s) && before <= s ==> !Served(t, dirs, s, requests[i])
    ensures forall s :: Closed(t, dirs, s) ==> !AllServed(t, dirs, s, requests)
  {
    forall s | Closed(t, dirs, s)
      ensures !AllServed(t, dirs, s, requests)
    {
      if AllServed(t, dirs, s, requests) {
        ClosedIsSealed(t, dirs, s);
        ServedHolds(t, dirs, s, requests);
      }
    }
  }

  lemma ServedHolds(t: Tree, dirs: Search, s: set<Path>, requests: seq<Request>)
    requires AllServed(t, dirs, s, requests)
    ensures AllAsked(t, dirs, requests) <= s
  {
  }

  ghost predicate AllServed(t: Tree, dirs: Search, copied: set<Path>, requests: seq<Request>) {
    forall k :: 0 <= k < |requests| ==> Served(t, dirs, copied, requests[k])
  }

  lemma OneMoreServed(t: Tree, dirs: Search, before: set<Path>, copied: set<Path>, requests: seq<Request>, i: nat)
    requires i < |requests| && before <= copied
    requires AllServed(t, dirs, before, requests[..i]) && Served(t, dirs, copied, requests[i])
    ensures AllServed(t, dirs, copied, requests[..i + 1])
  {
    forall k | 0 <= k < i
      ensures Served(t, dirs, copied, requests[k])
    {
      assert requests[..i][k] == requests[k];
    }
  }

  /** A top-level call: copy a file of the tree, or only what a binary built elsewhere needs. */
  datatype Request = Copy(path: Path) | Examine(binary: Binary)

  ghost predicate Served(t: Tree, dirs: Search, copied: set<Path>, r: Request) {
    match r
    case Copy(path) => path in copied
    case Examine(b) => Satisfied(t, dirs, copied, b)
  }

  ghost function Asks(t: Tree, dirs: Search, r: Request): set<Path> {
    match r
    case Copy(path) => {path}
    case Examine(b) => NeedSet(t, dirs, b)
  }

  ghost function AllAsked(t: Tree, dirs: Search, requests: seq<Request>): set<Path> {
    set r, p | r in requests && p in Asks(t, dirs, r) :: p
  }

  lemma ProvidedGrows(t: Tree, dirs: Search, a: set<Path>, b: set<Path>, p: Path)
    requires Provided(t, dirs, a, p) && a <= b
    ensures Provided(t, dirs, b, p)
  {
  }

  /** The needs of `b` as a set. */
  ghost function NeedSet(t: Tree, dirs: Search, b: Binary): set<Path> {
    set p | p in Wishes(dirs, b) && Needs(t, dirs, b, p)
  }
}
