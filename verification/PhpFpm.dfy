/** internal/phpfpm/phpfpm.go: making each PHP version's pool directory and service
    match the pools that are wanted. Which file and service operations succeed is an
    oracle, so every statement about failures is about any failure. */
module PhpFpm {

  import opened Text
  import opened Wrappers

  datatype Entry = File(content: string) | Directory

  type Dir = map<string, Entry>

  /** A version's service; `loaded` is what its pool files held when it last started. */
  datatype Unit = Unit(running: bool, enabled: string, loaded: map<string, string>)

  /** A version without a directory is not installed. */
  datatype HostState = HostState(dirs: map<string, Dir>, units: map<string, Unit>)

  datatype Pool = Pool(name: string, version: string, settings: string)

  datatype Verb = Start | Stop | Restart | Enable | Disable

  datatype Op =
    | Prepare
    | LogDir(pool: string)
    | ReadDir(version: string)
    | Remove(version: string, name: string)
    | ReadFile(version: string, name: string)
    | WriteFile(version: string, name: string)
    | Get(version: string)
    | Drive(version: string, verb: Verb)

  /** The provider, the template, whether a version's sockets already have the right
      owner, and which operations succeed. */
  datatype Env = Env(supported: seq<string>, render: Pool -> Option<string>,
                     sockets: string -> bool, ok: Op -> bool)

  ghost predicate NothingFails(env: Env) {
    forall op :: env.ok(op)
  }

  /** Only starting, stopping, enabling and the like may fail. */
  ghost predicate FilesWork(env: Env) {
    forall op: Op :: !op.Drive? ==> env.ok(op)
  }

  ghost predicate ServicesFail(env: Env) {
    forall v, verb :: !env.ok(Drive(v, verb))
  }

  // ----- one directory -------------------------------------------------------

  predicate HasSuffix(s: string, t: string) {
    |t| <= |s| && s[|s| - |t|..] == t
  }

  predicate ConfFile(name: string) { HasSuffix(name, ".conf") }

  predicate Vendor(name: string) { name == "www.conf" }

  predicate PanelName(name: string) { "opanel-" <= name }

  function PoolFile(pool: string): string { "opanel-" + pool + ".conf" }

  lemma PoolFileIsPanels(pool: string)
    ensures PanelName(PoolFile(pool)) && ConfFile(PoolFile(pool)) && !Vendor(PoolFile(pool))
  {
    var name := PoolFile(pool);
    assert name[..7] == "opanel-";
    assert name[|name| - 5..] == ".conf";
    assert name[0] == 'o';
  }

  /** What the panel may remove or rewrite. */
  predicate Ours(name: string, e: Entry) {
    e.File? && ConfFile(name) && (Vendor(name) || PanelName(name))
  }

  predicate Stale(name: string, e: Entry, wanted: map<string, string>) {
    Ours(name, e) && (Vendor(name) || name !in wanted)
  }

  predicate PanelFiles(wanted: map<string, string>) {
    forall n :: n in wanted ==> PanelName(n) && ConfFile(n) && !Vendor(n)
  }

  /** The directory with every wanted file, no stale one, and the rest as it was. */
  function Target(dir: Dir, wanted: map<string, string>): Dir {
    map n | n in dir.Keys + wanted.Keys && (n in wanted || !Stale(n, dir[n], wanted)) ::
      if n in wanted then File(wanted[n]) else dir[n]
  }

  function Cleaned(dir: Dir, wanted: map<string, string>): Dir {
    map n | n in dir && !Stale(n, dir[n], wanted) :: dir[n]
  }

  function Written(dir: Dir, wanted: map<string, string>): Dir {
    map n | n in dir.Keys + wanted.Keys :: if n in wanted then File(wanted[n]) else dir[n]
  }

  /** A wanted file whose name is a directory cannot be written. */
  predicate NoCollision(dir: Dir, wanted: map<string, string>) {
    forall n :: n in wanted && n in dir ==> dir[n].File?
  }

  /** Nothing but the panel's own files is removed or rewritten, and nothing but such
      files appears: true after a failure as well. */
  ghost predicate Untouched(before: Dir, after: Dir) {
    && (forall n :: n in before && !Ours(n, before[n]) ==> n in after && after[n] == before[n])
    && (forall n :: n in after && n !in before ==> PanelName(n) && ConfFile(n))
  }

  lemma UntouchedTwice(a: Dir, b: Dir, c: Dir)
    requires Untouched(a, b) && Untouched(b, c)
    ensures Untouched(a, c)
  {
  }

  predicate SameAt(a: Dir, b: Dir, n: string) {
    (n in a <==> n in b) && (n in a && n in b ==> a[n] == b[n])
  }

  lemma WrittenIs(before: Dir, after: Dir, wanted: map<string, string>)
    requires forall n :: n !in wanted ==> SameAt(after, before, n)
    requires forall n :: n in wanted ==> n in after && after[n] == File(wanted[n])
    ensures after == Written(before, wanted)
  {
    forall n ensures n in after <==> n in Written(before, wanted) {
      assert n !in wanted ==> SameAt(after, before, n);
    }
    assert after.Keys == Written(before, wanted).Keys;
    forall n | n in after ensures after[n] == Written(before, wanted)[n] {
      assert n !in wanted ==> SameAt(after, before, n);
    }
  }

  /** The second loop's directory with `names` still to write. */
  ghost predicate PartWritten(before: Dir, dir: Dir, wanted: map<string, string>, names: set<string>) {
    && (forall n :: n in names || n !in wanted ==> SameAt(dir, before, n))
    && (forall n :: n in wanted && n !in names ==> n in dir && dir[n] == File(wanted[n]))
    && (forall n :: n in wanted && n !in names && n in before ==> before[n].File?)
  }

  ghost predicate WritesWorked(env: Env, version: string, dir: Dir, wanted: map<string, string>, names: set<string>) {
    forall n :: n in wanted && n !in names ==>
      && (n in dir ==> env.ok(ReadFile(version, n)))
      && ((n in dir && dir[n] == File(wanted[n])) || env.ok(WriteFile(version, n)))
  }

  lemma PartWrittenSame(before: Dir, dir: Dir, wanted: map<string, string>, names: set<string>, name: string)
    requires PartWritten(before, dir, wanted, names) && name in names
    ensures SameAt(dir, before, name)
  {
  }

  lemma PartWrittenUntouched(before: Dir, dir: Dir, wanted: map<string, string>, names: set<string>)
    requires PartWritten(before, dir, wanted, names) && PanelFiles(wanted)
    ensures Untouched(before, dir)
    ensures names == {} ==> NoCollision(before, wanted)
    ensures names == {} ==> forall n :: n !in wanted ==> SameAt(dir, before, n)
    ensures names == {} ==> forall n :: n in wanted ==> n in dir && dir[n] == File(wanted[n])
  {
    forall n ensures n in names || n !in wanted ==> SameAt(dir, before, n) {
    }
  }

  lemma PartWrittenNext(before: Dir, dir: Dir, wanted: map<string, string>, names: set<string>, name: string)
    requires PartWritten(before, dir, wanted, names) && name in names && name in wanted
    requires name in dir ==> dir[name].File?
    ensures PartWritten(before, dir[name := File(wanted[name])], wanted, names - {name})
    ensures SameAt(dir, before, name)
  {
    assert SameAt(dir, before, name);
  }

  ghost predicate RemovesWorked(env: Env, version: string, dir: Dir, wanted: map<string, string>) {
    forall n :: n in dir && Stale(n, dir[n], wanted) ==> env.ok(Remove(version, n))
  }

  /** The operations one directory needs, none of which may have failed. */
  ghost predicate FileStepsWorked(env: Env, version: string, dir: Dir, wanted: map<string, string>) {
    && env.ok(ReadDir(version))
    && RemovesWorked(env, version, dir, wanted)
    && (forall n :: n in wanted ==>
          && (n in dir ==> env.ok(ReadFile(version, n)))
          && ((n in dir && dir[n] == File(wanted[n])) || env.ok(WriteFile(version, n))))
  }

  lemma WritesWorkedNext(env: Env, version: string, before: Dir, wanted: map<string, string>, names: set<string>,
                         name: string)
    requires WritesWorked(env, version, before, wanted, names) && name in wanted
    requires name in before ==> env.ok(ReadFile(version, name))
    requires (name in before && before[name] == File(wanted[name])) || env.ok(WriteFile(version, name))
    ensures WritesWorked(env, version, before, wanted, names - {name})
  {
  }

  lemma StepsJoin(env: Env, version: string, dir: Dir, wanted: map<string, string>)
    requires PanelFiles(wanted) && env.ok(ReadDir(version))
    requires RemovesWorked(env, version, dir, wanted)
    requires WritesWorked(env, version, Cleaned(dir, wanted), wanted, {})
    ensures FileStepsWorked(env, version, dir, wanted)
  {
    forall n | n in wanted
      ensures n in dir ==> env.ok(ReadFile(version, n))
      ensures (n in dir && dir[n] == File(wanted[n])) || env.ok(WriteFile(version, n))
    {
      if n in dir {
        assert !Stale(n, dir[n], wanted);
        assert n in Cleaned(dir, wanted);
      }
    }
  }

  /** Removing and then writing is the target, and a removal is never undone by a
      write. */
  lemma TwoLoops(dir: Dir, wanted: map<string, string>)
    requires PanelFiles(wanted)
    ensures Written(Cleaned(dir, wanted), wanted) == Target(dir, wanted)
    ensures Target(dir, wanted) == dir <==> Cleaned(dir, wanted) == dir && Target(dir, wanted) == Cleaned(dir, wanted)
    ensures NoCollision(dir, wanted) == NoCollision(Cleaned(dir, wanted), wanted)
  {
    var cleaned, target := Cleaned(dir, wanted), Target(dir, wanted);
    assert Written(cleaned, wanted).Keys == target.Keys;
    if cleaned != dir {
      var n :| n in dir && Stale(n, dir[n], wanted);
      assert n !in target;
    }
  }

  lemma UpdatedTwice(a: map<string, Dir>, b: map<string, Dir>, c: map<string, Dir>, version: string)
    requires version in b && version in c && b == a[version := b[version]] && c == b[version := c[version]]
    ensures c == a[version := c[version]]
  {
  }

  /** What the two loops do to one directory, taken together. */
  lemma LoopsCompose(env: Env, version: string, before: Dir, cleaned: Dir, after: Dir, wanted: map<string, string>)
    requires PanelFiles(wanted) && cleaned == Cleaned(before, wanted)
    requires env.ok(ReadDir(version)) && RemovesWorked(env, version, before, wanted)
    requires Untouched(before, cleaned) && Untouched(cleaned, after)
    ensures Untouched(before, after)
    ensures NoCollision(before, wanted) == NoCollision(cleaned, wanted)
    ensures after == Written(cleaned, wanted) ==>
              after == Target(before, wanted) && (after == before <==> cleaned == before && after == cleaned)
    ensures WritesWorked(env, version, cleaned, wanted, {}) ==> FileStepsWorked(env, version, before, wanted)
  {
    UntouchedTwice(before, cleaned, after);
    TwoLoops(before, wanted);
    if WritesWorked(env, version, cleaned, wanted, {}) {
      StepsJoin(env, version, before, wanted);
    }
  }

  // ----- all versions --------------------------------------------------------

  function PoolsOf(pools: seq<Pool>, version: string): seq<Pool> {
    if pools == [] then []
    else
      var p := pools[|pools| - 1];
      PoolsOf(pools[..|pools| - 1], version) + if p.version == version then [p] else []
  }

  /** The files a version's pools render to; of two with one name the later wins. */
  function Wanted(env: Env, ps: seq<Pool>): map<string, string> {
    if ps == [] then map[]
    else
      var rest := Wanted(env, ps[..|ps| - 1]);
      var p := ps[|ps| - 1];
      match env.render(p)
      case Some(content) => rest[PoolFile(p.name) := content]
      case None => rest
  }

  predicate AllRender(env: Env, ps: seq<Pool>) {
    forall i :: 0 <= i < |ps| ==> env.render(ps[i]).Some?
  }

  function WantedFor(env: Env, pools: seq<Pool>, version: string): map<string, string> {
    Wanted(env, PoolsOf(pools, version))
  }

  lemma {:induction false} WantedArePanelFiles(env: Env, ps: seq<Pool>)
    ensures PanelFiles(Wanted(env, ps))
  {
    if ps == [] {
    } else {
      WantedArePanelFiles(env, ps[..|ps| - 1]);
      PoolFileIsPanels(ps[|ps| - 1].name);
    }
  }

  /** The definitions a service reads when it starts. */
  function Confs(dir: Dir): map<string, string> {
    map n | n in dir && dir[n].File? && ConfFile(n) :: dir[n].content
  }

  function SettledDir(env: Env, s: HostState, pools: seq<Pool>, version: string): Dir {
    if version in s.dirs then Target(s.dirs[version], WantedFor(env, pools, version)) else map[]
  }

  /** The version's files changed, or its sockets have the wrong owner. */
  predicate Changed(env: Env, s: HostState, pools: seq<Pool>, version: string) {
    version in s.dirs
    && (SettledDir(env, s, pools, version) != s.dirs[version]
        || (PoolsOf(pools, version) != [] && !env.sockets(version)))
  }

  function SettledUnit(env: Env, s: HostState, pools: seq<Pool>, version: string, u: Unit): Unit {
    if PoolsOf(pools, version) == [] then
      if !env.ok(Get(version)) || u.enabled == "not-found" then u
      else Unit(false, if u.enabled == "enabled" then "disabled" else u.enabled, u.loaded)
    else if Changed(env, s, pools, version) then Unit(true, "enabled", Confs(SettledDir(env, s, pools, version)))
    else if env.ok(Get(version)) && !u.running then
      u.(running := true, loaded := Confs(SettledDir(env, s, pools, version)))
    else u
  }

  /** The host after a successful Apply. */
  function Settled(env: Env, s: HostState, pools: seq<Pool>): HostState {
    HostState(
      map v | v in s.dirs :: if v in env.supported then SettledDir(env, s, pools, v) else s.dirs[v],
      map v | v in s.units :: if v in env.supported then SettledUnit(env, s, pools, v, s.units[v]) else s.units[v])
  }

  /** Apply has nothing to do to the version's service. */
  predicate QuietUnit(env: Env, s: HostState, pools: seq<Pool>, version: string, u: Unit) {
    if PoolsOf(pools, version) == [] then
      !env.ok(Get(version)) || u.enabled == "not-found" || (!u.running && u.enabled != "enabled")
    else
      !Changed(env, s, pools, version) && (!env.ok(Get(version)) || u.running)
  }

  predicate QuietDir(env: Env, s: HostState, pools: seq<Pool>, version: string) {
    version in s.dirs ==> SettledDir(env, s, pools, version) == s.dirs[version]
  }

  predicate QuietDirs(env: Env, s: HostState, pools: seq<Pool>, versions: seq<string>) {
    forall v :: v in versions ==> QuietDir(env, s, pools, v)
  }

  predicate QuietUnits(env: Env, s: HostState, pools: seq<Pool>, versions: seq<string>) {
    forall v :: v in versions && v in s.units ==> QuietUnit(env, s, pools, v, s.units[v])
  }

  predicate Quiet(env: Env, s: HostState, pools: seq<Pool>) {
    QuietDirs(env, s, pools, env.supported) && QuietUnits(env, s, pools, env.supported)
  }

  /** What can stop Apply besides a failing operation: a pool for a version that is not
      installed, one that does not render, or a directory in a file's place. */
  predicate Feasible(env: Env, s: HostState, pools: seq<Pool>, version: string) {
    && (PoolsOf(pools, version) != [] ==> version in s.dirs)
    && (version in s.dirs ==>
          AllRender(env, PoolsOf(pools, version)) && NoCollision(s.dirs[version], WantedFor(env, pools, version)))
  }

  ghost predicate DistinctVersions(vs: seq<string>) {
    forall i, j :: 0 <= i < j < |vs| ==> vs[i] != vs[j]
  }

  ghost predicate AllUntouched(before: map<string, Dir>, after: map<string, Dir>) {
    after.Keys == before.Keys && forall v :: v in after ==> Untouched(before[v], after[v])
  }

  lemma OneMoreUntouched(a: map<string, Dir>, b: map<string, Dir>, c: map<string, Dir>, version: string)
    requires AllUntouched(a, b) && c.Keys == b.Keys
    requires forall v :: v in c && v != version ==> c[v] == b[v]
    requires version in c ==> b[version] == a[version] && Untouched(b[version], c[version])
    ensures AllUntouched(a, c)
  {
  }

  /** The first loop's state once it has been through `done`. */
  ghost predicate Synced(env: Env, s: HostState, pools: seq<Pool>, done: seq<string>,
                         dirs: map<string, Dir>, changed: set<string>) {
    && dirs.Keys == s.dirs.Keys
    && (forall v :: v in dirs ==> dirs[v] == if v in done then SettledDir(env, s, pools, v) else s.dirs[v])
    && (forall v :: v in done ==> Feasible(env, s, pools, v))
    && (forall v :: v in changed <==> v in done && Changed(env, s, pools, v))
  }

  ghost predicate AllStepsWorked(env: Env, s: HostState, pools: seq<Pool>, done: seq<string>) {
    forall v :: v in done ==> StepsWorked(env, s, pools, v)
  }

  lemma AllStepsNext(env: Env, s: HostState, pools: seq<Pool>, done: seq<string>, version: string)
    requires AllStepsWorked(env, s, pools, done) && StepsWorked(env, s, pools, version)
    ensures AllStepsWorked(env, s, pools, done + [version])
  {
  }

  ghost predicate StepsWorked(env: Env, s: HostState, pools: seq<Pool>, version: string) {
    version in s.dirs ==> FileStepsWorked(env, version, s.dirs[version], WantedFor(env, pools, version))
  }

  lemma QuietDirsNext(env: Env, s: HostState, pools: seq<Pool>, done: seq<string>, version: string)
    ensures QuietDirs(env, s, pools, done + [version]) <==>
            QuietDirs(env, s, pools, done) && QuietDir(env, s, pools, version)
  {
    assert version in done + [version];
  }

  lemma SyncedNext(env: Env, s: HostState, pools: seq<Pool>, done: seq<string>, version: string,
                   before: map<string, Dir>, after: map<string, Dir>, changed: set<string>)
    requires Synced(env, s, pools, done, before, changed) && version !in done
    requires after.Keys == before.Keys
    requires forall v :: v in after && v != version ==> after[v] == before[v]
    requires version in after ==> after[version] == SettledDir(env, s, pools, version)
    requires Feasible(env, s, pools, version)
    ensures Synced(env, s, pools, done + [version], after,
                   if Changed(env, s, pools, version) then changed + {version} else changed)
  {
  }

  /** The service operations one version needs, none of which may have failed. */
  predicate VerbsWorked(env: Env, s: HostState, pools: seq<Pool>, version: string, u: Unit) {
    if PoolsOf(pools, version) == [] then
      !env.ok(Get(version)) || u.enabled == "not-found"
      || ((u.running ==> env.ok(Drive(version, Stop))) && (u.enabled == "enabled" ==> env.ok(Drive(version, Disable))))
    else if Changed(env, s, pools, version) then env.ok(Drive(version, Enable)) && env.ok(Drive(version, Restart))
    else env.ok(Get(version)) && !u.running ==> env.ok(Drive(version, Start))
  }

  /** The second loop's services once it has been through `done`. */
  ghost predicate Driven(env: Env, s: HostState, pools: seq<Pool>, done: seq<string>, units: map<string, Unit>) {
    && units.Keys == s.units.Keys
    && forall v :: v in units ==>
         units[v] == if v in done then SettledUnit(env, s, pools, v, s.units[v]) else s.units[v]
  }

  ghost predicate AllVerbsWorked(env: Env, s: HostState, pools: seq<Pool>, done: seq<string>) {
    forall v :: v in done && v in s.units ==> VerbsWorked(env, s, pools, v, s.units[v])
  }

  lemma DrivenNext(env: Env, s: HostState, pools: seq<Pool>, done: seq<string>, version: string,
                   before: map<string, Unit>, after: map<string, Unit>)
    requires Driven(env, s, pools, done, before) && version in s.units
    requires after.Keys == before.Keys
    requires forall v :: v in after && v != version ==> after[v] == before[v]
    requires after[version] == SettledUnit(env, s, pools, version, s.units[version])
    ensures Driven(env, s, pools, done + [version], after)
  {
  }

  lemma QuietUnitsNext(env: Env, s: HostState, pools: seq<Pool>, done: seq<string>, version: string)
    requires version in s.units
    ensures QuietUnits(env, s, pools, done + [version]) <==>
            QuietUnits(env, s, pools, done) && QuietUnit(env, s, pools, version, s.units[version])
  {
    assert version in done + [version];
  }

  /** What the second loop relies on from the first. */
  lemma UnitReady(env: Env, s: HostState, pools: seq<Pool>, dirs: map<string, Dir>, changed: set<string>,
                  version: string)
    requires Synced(env, s, pools, env.supported, dirs, changed) && version in env.supported
    ensures version in changed <==> Changed(env, s, pools, version)
    ensures PoolsOf(pools, version) != [] ==> version in dirs && dirs[version] == SettledDir(env, s, pools, version)
  {
  }

  lemma SyncedAll(env: Env, s: HostState, pools: seq<Pool>, dirs: map<string, Dir>, changed: set<string>)
    requires Synced(env, s, pools, env.supported, dirs, changed)
    ensures dirs == Settled(env, s, pools).dirs
  {
  }

  lemma DrivenAll(env: Env, s: HostState, pools: seq<Pool>, units: map<string, Unit>)
    requires Driven(env, s, pools, env.supported, units)
    ensures units == Settled(env, s, pools).units
  {
  }

  // ----- success, spelled out --------------------------------------------------

  predicate Uses(pools: seq<Pool>, version: string) {
    exists i :: 0 <= i < |pools| && pools[i].version == version
  }

  /** The file of the i'th pool, which the later of two with one name and version
      replaces. */
  predicate LastOfItsName(pools: seq<Pool>, i: nat)
    requires i < |pools|
  {
    forall k :: i < k < |pools| ==> pools[k].version != pools[i].version || pools[k].name != pools[i].name
  }

  predicate PanelFile(name: string, e: Entry) {
    e.File? && "opanel-" <= name && |name| >= 5 && name[|name| - 5..] == ".conf"
  }

  /** The panel's files are the rendered pools, the packaged www.conf is gone, and the
      rest of the directory is as it was. */
  ghost predicate DirConverged(env: Env, pools: seq<Pool>, version: string, before: Dir, after: Dir) {
    && (forall i :: 0 <= i < |pools| && pools[i].version == version && LastOfItsName(pools, i) ==>
          var name := "opanel-" + pools[i].name + ".conf";
          name in after && env.render(pools[i]).Some? && after[name] == File(env.render(pools[i]).value))
    && (forall n :: n in after && PanelFile(n, after[n]) ==>
          exists i :: 0 <= i < |pools| && pools[i].version == version && n == "opanel-" + pools[i].name + ".conf")
    && ("www.conf" in after ==> after["www.conf"].Directory?)
    && (forall n :: n in before && !PanelFile(n, before[n]) && (n != "www.conf" || before[n].Directory?) ==>
          n in after && after[n] == before[n])
    && (forall n :: n in after && !PanelFile(n, after[n]) ==> n in before && after[n] == before[n])
  }

  /** The service has read the pool definitions in the directory. */
  ghost predicate HasRead(u: Unit, dir: Dir) {
    forall n :: (n in u.loaded <==> n in dir && dir[n].File? && |n| >= 5 && n[|n| - 5..] == ".conf")
                && (n in u.loaded && n in dir && dir[n].File? ==> u.loaded[n] == dir[n].content)
  }

  /** A version without pools is stopped and will not start at boot, if it has a service
      at all. One whose files changed, or whose sockets have the wrong owner, is enabled
      and restarted. Any other runs, and starts at boot if it did. Nothing that had to
      be done failed. */
  ghost predicate UnitConverged(env: Env, pools: seq<Pool>, version: string, rewritten: bool, dir: Dir,
                                before: Unit, after: Unit) {
    if !Uses(pools, version) then
      if !env.ok(Get(version)) || before.enabled == "not-found" then after == before
      else
        && !after.running && after.loaded == before.loaded
        && after.enabled == (if before.enabled == "enabled" then "disabled" else before.enabled)
        && (before.running ==> env.ok(Drive(version, Stop)))
        && (before.enabled == "enabled" ==> env.ok(Drive(version, Disable)))
    else if rewritten || !env.sockets(version) then
      && after.running && after.enabled == "enabled" && HasRead(after, dir)
      && env.ok(Drive(version, Enable)) && env.ok(Drive(version, Restart))
    else
      && after.enabled == before.enabled
      && (before.running || !env.ok(Get(version)) ==> after == before)
      && (!before.running && env.ok(Get(version)) ==>
            after.running && HasRead(after, dir) && env.ok(Drive(version, Start)))
  }

  ghost predicate Converged(env: Env, pools: seq<Pool>, before: HostState, after: HostState, version: string) {
    && (version in before.dirs <==> version in after.dirs)
    && (Uses(pools, version) ==> version in before.dirs)
    && (version in before.dirs && version in after.dirs ==>
          DirConverged(env, pools, version, before.dirs[version], after.dirs[version]))
    && version in before.units && version in after.units
    && UnitConverged(env, pools, version,
                     version in before.dirs && version in after.dirs && before.dirs[version] != after.dirs[version],
                     if version in after.dirs then after.dirs[version] else map[],
                     before.units[version], after.units[version])
  }

  lemma {:induction false} PoolsOfAre(pools: seq<Pool>, version: string)
    ensures PoolsOf(pools, version) != [] <==> Uses(pools, version)
    ensures forall p :: p in PoolsOf(pools, version) <==> p in pools && p.version == version
  {
    if pools == [] {
    } else {
      var n := |pools| - 1;
      PoolsOfAre(pools[..n], version);
      Unsnoc(pools);
      if pools[n].version == version {
        assert Uses(pools, version);
      }
      if Uses(pools, version) && pools[n].version != version {
        var i :| 0 <= i < |pools| && pools[i].version == version;
        assert pools[..n][i] == pools[i];
      }
      if Uses(pools[..n], version) {
        var i :| 0 <= i < n && pools[..n][i].version == version;
        assert pools[i].version == version;
      }
    }
  }

  lemma WantedForNext(env: Env, pools: seq<Pool>, version: string)
    requires pools != []
    ensures var n := |pools| - 1;
            var rest := WantedFor(env, pools[..n], version);
            WantedFor(env, pools, version) ==
            if pools[n].version == version && env.render(pools[n]).Some?
            then rest[PoolFile(pools[n].name) := env.render(pools[n]).value] else rest
  {
    var n := |pools| - 1;
    var ps := PoolsOf(pools[..n], version);
    if pools[n].version == version {
      assert (ps + [pools[n]])[..|ps|] == ps;
    } else {
      ConcatEmpty(ps);
    }
  }

  lemma PoolFileInjective(a: string, b: string)
    requires PoolFile(a) == PoolFile(b)
    ensures a == b
  {
    assert PoolFile(a)[7..|a| + 7] == a && PoolFile(b)[7..|b| + 7] == b;
  }

  /** A version's wanted files are those of its pools, the later of one name winning. */
  lemma {:induction false} OnlyPoolsAreWanted(env: Env, pools: seq<Pool>, version: string, f: string)
    requires f in WantedFor(env, pools, version)
    ensures exists i :: 0 <= i < |pools| && pools[i].version == version && f == PoolFile(pools[i].name)
  {
    if pools != [] {
      var init := pools[..|pools| - 1];
      WantedForNext(env, pools, version);
      if f in WantedFor(env, init, version) {
        OnlyPoolsAreWanted(env, init, version, f);
        var i :| 0 <= i < |init| && init[i].version == version && f == PoolFile(init[i].name);
        assert pools[i] == init[i];
      }
    }
  }

  lemma LaterFileIsAnother(pools: seq<Pool>, i: nat, n: nat)
    requires i < n < |pools| && LastOfItsName(pools, i)
    ensures pools[n].version == pools[i].version ==> PoolFile(pools[n].name) != PoolFile(pools[i].name)
  {
    if PoolFile(pools[n].name) == PoolFile(pools[i].name) {
      PoolFileInjective(pools[n].name, pools[i].name);
    }
  }

  lemma {:induction false} LastPoolIsWanted(env: Env, pools: seq<Pool>, version: string, i: nat)
    requires i < |pools| && pools[i].version == version && LastOfItsName(pools, i)
    requires env.render(pools[i]).Some?
    ensures PoolFile(pools[i].name) in WantedFor(env, pools, version)
    ensures WantedFor(env, pools, version)[PoolFile(pools[i].name)] == env.render(pools[i]).value
  {
    var n := |pools| - 1;
    WantedForNext(env, pools, version);
    if i < n {
      var init := pools[..n];
      assert init[i] == pools[i] && LastOfItsName(init, i);
      LastPoolIsWanted(env, init, version, i);
      LaterFileIsAnother(pools, i, n);
    } else {
      assert pools[n] == pools[i];
    }
  }

  /** The files wanted for a version: those of its pools, and of pools of one name the
      last one's rendering. */
  lemma WantedForExactly(env: Env, pools: seq<Pool>, version: string)
    ensures forall n :: n in WantedFor(env, pools, version) ==>
              exists i :: 0 <= i < |pools| && pools[i].version == version && n == PoolFile(pools[i].name)
    ensures forall i :: 0 <= i < |pools| && pools[i].version == version && LastOfItsName(pools, i)
                        && env.render(pools[i]).Some? ==>
              && PoolFile(pools[i].name) in WantedFor(env, pools, version)
              && WantedFor(env, pools, version)[PoolFile(pools[i].name)] == env.render(pools[i]).value
  {
    forall n | n in WantedFor(env, pools, version)
      ensures exists i :: 0 <= i < |pools| && pools[i].version == version && n == PoolFile(pools[i].name)
    {
      OnlyPoolsAreWanted(env, pools, version, n);
    }
    forall i | 0 <= i < |pools| && pools[i].version == version && LastOfItsName(pools, i)
               && env.render(pools[i]).Some?
      ensures PoolFile(pools[i].name) in WantedFor(env, pools, version)
      ensures WantedFor(env, pools, version)[PoolFile(pools[i].name)] == env.render(pools[i]).value
    {
      LastPoolIsWanted(env, pools, version, i);
    }
  }

  lemma RenderedPools(env: Env, pools: seq<Pool>, version: string, i: nat)
    requires AllRender(env, PoolsOf(pools, version)) && i < |pools| && pools[i].version == version
    ensures env.render(pools[i]).Some?
  {
    PoolsOfAre(pools, version);
    var ps := PoolsOf(pools, version);
    assert pools[i] in ps;
    var k :| 0 <= k < |ps| && ps[k] == pools[i];
  }

  lemma PanelFileIs(name: string, e: Entry)
    ensures PanelFile(name, e) <==> e.File? && PanelName(name) && ConfFile(name)
    ensures PanelName("www.conf") == false && ConfFile("www.conf")
  {
    assert "www.conf"[0] == 'w';
    assert "www.conf"[3..] == ".conf";
  }

  lemma TargetHasPools(env: Env, pools: seq<Pool>, version: string, before: Dir)
    requires AllRender(env, PoolsOf(pools, version))
    ensures var after := Target(before, WantedFor(env, pools, version));
            && (forall i :: 0 <= i < |pools| && pools[i].version == version && LastOfItsName(pools, i) ==>
                  var name := "opanel-" + pools[i].name + ".conf";
                  name in after && env.render(pools[i]).Some? && after[name] == File(env.render(pools[i]).value))
            && (forall n :: n in after && PanelFile(n, after[n]) ==>
                  exists i :: 0 <= i < |pools| && pools[i].version == version
                    && n == "opanel-" + pools[i].name + ".conf")
  {
    var wanted := WantedFor(env, pools, version);
    var after := Target(before, wanted);
    WantedForExactly(env, pools, version);
    forall i | 0 <= i < |pools| && pools[i].version == version && LastOfItsName(pools, i)
      ensures var name := "opanel-" + pools[i].name + ".conf";
              name in after && env.render(pools[i]).Some? && after[name] == File(env.render(pools[i]).value)
    {
      RenderedPools(env, pools, version, i);
      assert PoolFile(pools[i].name) == "opanel-" + pools[i].name + ".conf";
    }
    forall n | n in after && PanelFile(n, after[n]) ensures n in wanted {
      PanelFileIs(n, after[n]);
    }
  }

  lemma TargetKeepsRest(before: Dir, wanted: map<string, string>)
    requires PanelFiles(wanted) && NoCollision(before, wanted)
    ensures var after := Target(before, wanted);
            && ("www.conf" in after ==> after["www.conf"].Directory?)
            && (forall n :: n in before && !PanelFile(n, before[n]) && (n != "www.conf" || before[n].Directory?) ==>
                  n in after && after[n] == before[n])
            && (forall n :: n in after && !PanelFile(n, after[n]) ==> n in before && after[n] == before[n])
  {
    var after := Target(before, wanted);
    PanelFileIs("www.conf", Directory);
    forall n | n in before ensures PanelFile(n, before[n]) <==> before[n].File? && PanelName(n) && ConfFile(n) {
      PanelFileIs(n, before[n]);
    }
    forall n | n in after ensures PanelFile(n, after[n]) <==> after[n].File? && PanelName(n) && ConfFile(n) {
      PanelFileIs(n, after[n]);
    }
  }

  lemma TargetConverges(env: Env, pools: seq<Pool>, version: string, before: Dir)
    requires AllRender(env, PoolsOf(pools, version)) && NoCollision(before, WantedFor(env, pools, version))
    ensures DirConverged(env, pools, version, before, Target(before, WantedFor(env, pools, version)))
  {
    WantedArePanelFiles(env, PoolsOf(pools, version));
    TargetHasPools(env, pools, version, before);
    TargetKeepsRest(before, WantedFor(env, pools, version));
  }

  lemma ConfsAreRead(u: Unit, dir: Dir)
    requires u.loaded == Confs(dir)
    ensures HasRead(u, dir)
  {
  }

  lemma UnitConverges(env: Env, s: HostState, pools: seq<Pool>, version: string, u: Unit)
    requires VerbsWorked(env, s, pools, version, u) && (Uses(pools, version) ==> version in s.dirs)
    ensures var dir := SettledDir(env, s, pools, version);
            UnitConverged(env, pools, version, version in s.dirs && s.dirs[version] != dir, dir, u,
                          SettledUnit(env, s, pools, version, u))
  {
    PoolsOfAre(pools, version);
    var after := SettledUnit(env, s, pools, version, u);
    if after.loaded == Confs(SettledDir(env, s, pools, version)) {
      ConfsAreRead(after, SettledDir(env, s, pools, version));
    }
  }

  lemma SettledConverges(env: Env, s: HostState, pools: seq<Pool>, version: string)
    requires version in env.supported && version in s.units
    requires Feasible(env, s, pools, version) && VerbsWorked(env, s, pools, version, s.units[version])
    ensures Converged(env, pools, s, Settled(env, s, pools), version)
  {
    PoolsOfAre(pools, version);
    UnitConverges(env, s, pools, version, s.units[version]);
    var after := Settled(env, s, pools);
    assert after.units[version] == SettledUnit(env, s, pools, version, s.units[version]);
    if version in s.dirs {
      TargetConverges(env, pools, version, s.dirs[version]);
      assert after.dirs[version] == SettledDir(env, s, pools, version);
    }
  }

  method GroupByVersion(pools: seq<Pool>) returns (byVersion: map<string, seq<Pool>>)
    ensures forall v :: if v in byVersion then PoolsOf(pools, v) == byVersion[v] != [] else PoolsOf(pools, v) == []
  {
    byVersion := map[];
    for i := 0 to |pools|
      invariant forall v :: if v in byVersion then PoolsOf(pools[..i], v) == byVersion[v] != []
                            else PoolsOf(pools[..i], v) == []
    {
      var p := pools[i];
      TakeNext(pools, i);
      assert pools[..i + 1][..i] == pools[..i];
      var earlier := if p.version in byVersion then byVersion[p.version] else [];
      byVersion := byVersion[p.version := earlier + [p]];
    }
    TakeAll(pools);
  }

  method RenderAll(env: Env, ps: seq<Pool>) returns (wanted: Option<map<string, string>>)
    ensures wanted.Some? <==> AllRender(env, ps)
    ensures wanted.Some? ==> wanted.value == Wanted(env, ps)
  {
    var files: map<string, string> := map[];
    for i := 0 to |ps|
      invariant AllRender(env, ps[..i]) && files == Wanted(env, ps[..i])
    {
      TakeNext(ps, i);
      assert ps[..i + 1][..i] == ps[..i];
      var content := env.render(ps[i]);
      if content.None? {
        return None;
      }
      files := files[PoolFile(ps[i].name) := content.value];
    }
    TakeAll(ps);
    return Some(files);
  }

  class Host {
    var dirs: map<string, Dir>
    var units: map<string, Unit>
    var log: seq<Op>                    // what was changed, in order

    ghost function View(): HostState
      reads this
    {
      HostState(dirs, units)
    }

    constructor (s: HostState)
      ensures View() == s && log == []
    {
      dirs, units, log := s.dirs, s.units, [];
    }

    /** The first loop of syncDir. */
    method RemoveStale(env: Env, version: string, wanted: map<string, string>) returns (res: Option<bool>)
      requires version in dirs && PanelFiles(wanted)
      modifies this`dirs, this`log
      ensures version in dirs && dirs == old(dirs)[version := dirs[version]]
      ensures |old(log)| <= |log|
      ensures Untouched(old(dirs)[version], dirs[version])
      ensures res.Some? ==> dirs[version] == Cleaned(old(dirs)[version], wanted)
      ensures res.Some? ==> res.value == (dirs[version] != old(dirs)[version])
      ensures res.Some? ==> if res.value then |old(log)| < |log| else log == old(log)
      ensures res.Some? ==> RemovesWorked(env, version, old(dirs)[version], wanted)
      ensures FilesWork(env) ==> res.Some?
    {
      ghost var dir0, log0 := dirs[version], log;
      var changed := false;
      var dir := dirs[version];
      var entries := dir.Keys;
      while entries != {}
        invariant version in dirs && dirs == old(dirs)[version := dir]
        invariant entries <= dir0.Keys && dir.Keys <= dir0.Keys && |log0| <= |log|
        invariant forall n :: n in dir0 ==> (n in dir <==> n in entries || !Stale(n, dir0[n], wanted))
        invariant forall n :: n in dir ==> dir[n] == dir0[n]
        invariant forall n :: n in dir0 && n !in entries && Stale(n, dir0[n], wanted) ==> env.ok(Remove(version, n))
        invariant if changed then dir.Keys != dir0.Keys && |log0| < |log| else dir == dir0 && log == log0
      {
        var name :| name in entries;
        entries := entries - {name};
        if !dir[name].File? || !ConfFile(name) {
          continue;
        }
        if !Vendor(name) && (!PanelName(name) || name in wanted) {
          continue;
        }
        if !env.ok(Remove(version, name)) {
          return None;
        }
        dir := dir - {name};
        dirs := dirs[version := dir];
        log := log + [Remove(version, name)];
        changed := true;
      }
      assert dir == Cleaned(dir0, wanted);
      return Some(changed);
    }

    /** One file of the second loop: read, compared, and written when it differs. */
    method WriteOne(env: Env, version: string, name: string, content: string) returns (res: Option<bool>)
      requires version in dirs
      modifies this`dirs, this`log
      ensures res.Some? ==> dirs == old(dirs)[version := old(dirs)[version][name := File(content)]]
      ensures res.None? ==> dirs == old(dirs) && log == old(log)
      ensures res.Some? ==> res.value == !(name in old(dirs)[version] && old(dirs)[version][name] == File(content))
      ensures res.Some? ==>
                if res.value then |old(log)| < |log| && env.ok(WriteFile(version, name)) else log == old(log)
      ensures res.Some? && name in old(dirs)[version] ==>
                env.ok(ReadFile(version, name)) && old(dirs)[version][name].File?
      ensures FilesWork(env) && (name in old(dirs)[version] ==> old(dirs)[version][name].File?) ==> res.Some?
    {
      var dir := dirs[version];
      if name in dir {
        if !env.ok(ReadFile(version, name)) || dir[name].Directory? {
          return None;
        }
        if dir[name].content == content {
          assert dir[name := File(content)] == dir;
          return Some(false);
        }
      }
      if !env.ok(WriteFile(version, name)) {
        return None;
      }
      dirs := dirs[version := dir[name := File(content)]];
      log := log + [WriteFile(version, name)];
      return Some(true);
    }

    /** The second loop of syncDir. */
    method WriteWanted(env: Env, version: string, wanted: map<string, string>) returns (res: Option<bool>)
      requires version in dirs && PanelFiles(wanted)
      modifies this`dirs, this`log
      ensures version in dirs && dirs == old(dirs)[version := dirs[version]]
      ensures |old(log)| <= |log|
      ensures Untouched(old(dirs)[version], dirs[version])
      ensures res.Some? ==> dirs[version] == Written(old(dirs)[version], wanted)
      ensures res.Some? ==> res.value == (dirs[version] != old(dirs)[version])
      ensures res.Some? ==> if res.value then |old(log)| < |log| else log == old(log)
      ensures res.Some? ==> NoCollision(old(dirs)[version], wanted)
      ensures res.Some? ==> WritesWorked(env, version, old(dirs)[version], wanted, {})
      ensures FilesWork(env) && NoCollision(old(dirs)[version], wanted) ==> res.Some?
    {
      ghost var dir0, log0 := dirs[version], log;
      ghost var written: string := "";
      var changed := false;
      var names := wanted.Keys;
      while names != {}
        invariant version in dirs && dirs == old(dirs)[version := dirs[version]]
        invariant names <= wanted.Keys && |log0| <= |log|
        invariant PartWritten(dir0, dirs[version], wanted, names) && WritesWorked(env, version, dir0, wanted, names)
        invariant if changed then written !in names && !SameAt(dirs[version], dir0, written) && |log0| < |log|
                  else dirs[version] == dir0 && log == log0
      {
        var name :| name in names;
        ghost var dir := dirs[version];
        PartWrittenSame(dir0, dir, wanted, names, name);
        var wrote := WriteOne(env, version, name, wanted[name]);
        if wrote.None? {
          PartWrittenUntouched(dir0, dir, wanted, names);
          return None;
        }
        PartWrittenNext(dir0, dir, wanted, names, name);
        WritesWorkedNext(env, version, dir0, wanted, names, name);
        names := names - {name};
        if wrote.value {
          changed := true;
          written := name;
        }
      }
      PartWrittenUntouched(dir0, dirs[version], wanted, {});
      WrittenIs(dir0, dirs[version], wanted);
      return Some(changed);
    }

    /** Reports true exactly when the directory changed. */
    method SyncDir(env: Env, version: string, wanted: map<string, string>) returns (res: Option<bool>)
      requires version in dirs && PanelFiles(wanted)
      modifies this`dirs, this`log
      ensures version in dirs && dirs == old(dirs)[version := dirs[version]]
      ensures |old(log)| <= |log|
      ensures Untouched(old(dirs)[version], dirs[version])
      ensures res.Some? ==> dirs[version] == Target(old(dirs)[version], wanted)
      ensures res.Some? ==> res.value == (dirs[version] != old(dirs)[version])
      ensures res.Some? ==> if res.value then |old(log)| < |log| else log == old(log)
      ensures res.Some? ==> NoCollision(old(dirs)[version], wanted)
      ensures res.Some? ==> FileStepsWorked(env, version, old(dirs)[version], wanted)
      ensures FilesWork(env) && NoCollision(old(dirs)[version], wanted) ==> res.Some?
    {
      if !env.ok(ReadDir(version)) {
        return None;
      }
      ghost var dir0 := dirs[version];
      var removed := RemoveStale(env, version, wanted);
      if removed.None? {
        return None;
      }
      ghost var cleaned := dirs[version];
      ghost var between := dirs;
      var written := WriteWanted(env, version, wanted);
      UpdatedTwice(old(dirs), between, dirs, version);
      LoopsCompose(env, version, dir0, cleaned, dirs[version], wanted);
      if written.None? {
        return None;
      }
      return Some(removed.value || written.value);
    }

    /** One pass of Apply's first loop; the result says whether the service has to be
        restarted. */
    method SyncVersion(env: Env, ghost s0: HostState, pools: seq<Pool>, version: string, ps: seq<Pool>)
      returns (res: Option<bool>)
      requires ps == PoolsOf(pools, version)
      requires if version in dirs then version in s0.dirs && dirs[version] == s0.dirs[version] else version !in s0.dirs
      modifies this`dirs, this`log
      ensures dirs.Keys == old(dirs).Keys && |old(log)| <= |log|
      ensures forall v :: v in dirs && v != version ==> dirs[v] == old(dirs)[v]
      ensures version in dirs ==> Untouched(s0.dirs[version], dirs[version])
      ensures res.Some? && version in dirs ==> dirs[version] == SettledDir(env, s0, pools, version)
      ensures res.Some? ==> res.value == Changed(env, s0, pools, version) && Feasible(env, s0, pools, version)
      ensures res.Some? ==> StepsWorked(env, s0, pools, version)
      ensures res.Some? ==> if QuietDir(env, s0, pools, version) then log == old(log) else |old(log)| < |log|
      ensures FilesWork(env) && Feasible(env, s0, pools, version) ==> res.Some?
    {
      if version !in dirs {
        return if |ps| > 0 then None else Some(false);
      }
      var wanted := RenderAll(env, ps);
      if wanted.None? {
        return None;
      }
      WantedArePanelFiles(env, ps);
      var dirty := SyncDir(env, version, wanted.value);
      if dirty.None? {
        return None;
      }
      return Some(dirty.value || (ps != [] && !env.sockets(version)));
    }

    /** Apply's first loop: every installed version's directory. */
    method SyncAll(env: Env, ghost s0: HostState, pools: seq<Pool>, byVersion: map<string, seq<Pool>>)
      returns (res: Option<set<string>>)
      requires DistinctVersions(env.supported) && dirs == s0.dirs
      requires forall v :: if v in byVersion then PoolsOf(pools, v) == byVersion[v] != [] else PoolsOf(pools, v) == []
      modifies this`dirs, this`log
      ensures AllUntouched(s0.dirs, dirs) && |old(log)| <= |log|
      ensures res.Some? ==> Synced(env, s0, pools, env.supported, dirs, res.value)
      ensures res.Some? ==> AllStepsWorked(env, s0, pools, env.supported)
      ensures res.Some? ==>
                if QuietDirs(env, s0, pools, env.supported) then log == old(log) else |old(log)| < |log|
      ensures FilesWork(env) && (forall v :: v in env.supported ==> Feasible(env, s0, pools, v)) ==> res.Some?
    {
      ghost var log0 := log;
      var changed: set<string> := {};
      for i := 0 to |env.supported|
        invariant Synced(env, s0, pools, env.supported[..i], dirs, changed)
        invariant AllUntouched(s0.dirs, dirs) && |log0| <= |log|
        invariant AllStepsWorked(env, s0, pools, env.supported[..i])
        invariant if QuietDirs(env, s0, pools, env.supported[..i]) then log == log0 else |log0| < |log|
      {
        var version := env.supported[i];
        ghost var before := dirs;
        TakeNext(env.supported, i);
        assert version !in env.supported[..i];
        var dirty := SyncVersion(env, s0, pools, version, if version in byVersion then byVersion[version] else []);
        OneMoreUntouched(s0.dirs, before, dirs, version);
        if dirty.None? {
          return None;
        }
        AllStepsNext(env, s0, pools, env.supported[..i], version);
        QuietDirsNext(env, s0, pools, env.supported[..i], version);
        SyncedNext(env, s0, pools, env.supported[..i], version, before, dirs, changed);
        if dirty.value {
          changed := changed + {version};
        }
      }
      TakeAll(env.supported);
      return Some(changed);
    }

    /** One pass of Apply's second loop: one version's service. */
    method DriveUnit(env: Env, ghost s0: HostState, pools: seq<Pool>, version: string, used: bool, changed: bool)
      returns (ok: bool)
      requires version in units && version in s0.units && units[version] == s0.units[version]
      requires used == (PoolsOf(pools, version) != []) && changed == Changed(env, s0, pools, version)
      requires used ==> version in dirs && dirs[version] == SettledDir(env, s0, pools, version)
      modifies this`units, this`log
      ensures units.Keys == old(units).Keys && |old(log)| <= |log|
      ensures forall v :: v in units && v != version ==> units[v] == old(units)[v]
      ensures ok ==> units[version] == SettledUnit(env, s0, pools, version, s0.units[version])
      ensures ok ==> VerbsWorked(env, s0, pools, version, s0.units[version])
      ensures ok ==> if QuietUnit(env, s0, pools, version, s0.units[version]) then log == old(log)
                     else |old(log)| < |log|
      ensures NothingFails(env) ==> ok
      ensures ServicesFail(env) ==> units == old(units)
    {
      var u := units[version];
      if !used {
        if !env.ok(Get(version)) || u.enabled == "not-found" {
          return true;
        }
        if u.running {
          if !env.ok(Drive(version, Stop)) {
            return false;
          }
          u := u.(running := false);
          units := units[version := u];
          log := log + [Drive(version, Stop)];
        }
        if u.enabled == "enabled" {
          if !env.ok(Drive(version, Disable)) {
            return false;
          }
          units := units[version := u.(enabled := "disabled")];
          log := log + [Drive(version, Disable)];
        }
      } else if changed {
        if !env.ok(Drive(version, Enable)) {
          return false;
        }
        u := u.(enabled := "enabled");
        units := units[version := u];
        log := log + [Drive(version, Enable)];
        if !env.ok(Drive(version, Restart)) {
          return false;
        }
        units := units[version := u.(running := true, loaded := Confs(dirs[version]))];
        log := log + [Drive(version, Restart)];
      } else if env.ok(Get(version)) && !u.running {
        if !env.ok(Drive(version, Start)) {
          return false;
        }
        units := units[version := u.(running := true, loaded := Confs(dirs[version]))];
        log := log + [Drive(version, Start)];
      }
      return true;
    }

    /** Apply's second loop. */
    method DriveAll(env: Env, ghost s0: HostState, pools: seq<Pool>, byVersion: map<string, seq<Pool>>,
                    changed: set<string>) returns (ok: bool)
      requires DistinctVersions(env.supported) && (forall v :: v in env.supported ==> v in s0.units)
      requires forall v :: if v in byVersion then PoolsOf(pools, v) == byVersion[v] != [] else PoolsOf(pools, v) == []
      requires units == s0.units && Synced(env, s0, pools, env.supported, dirs, changed)
      modifies this`units, this`log
      ensures |old(log)| <= |log|
      ensures ok ==> units == Settled(env, s0, pools).units
      ensures ok ==> AllVerbsWorked(env, s0, pools, env.supported)
      ensures ok ==> if QuietUnits(env, s0, pools, env.supported) then log == old(log) else |old(log)| < |log|
      ensures NothingFails(env) ==> ok
      ensures ServicesFail(env) ==> units == old(units)
    {
      ghost var log0 := log;
      for i := 0 to |env.supported|
        invariant Driven(env, s0, pools, env.supported[..i], units) && |log0| <= |log|
        invariant ServicesFail(env) ==> units == s0.units
        invariant AllVerbsWorked(env, s0, pools, env.supported[..i])
        invariant if QuietUnits(env, s0, pools, env.supported[..i]) then log == log0 else |log0| < |log|
      {
        var version := env.supported[i];
        ghost var before := units;
        TakeNext(env.supported, i);
        assert version !in env.supported[..i];
        QuietUnitsNext(env, s0, pools, env.supported[..i], version);
        UnitReady(env, s0, pools, dirs, changed, version);
        var done := DriveUnit(env, s0, pools, version, version in byVersion, version in changed);
        if !done {
          return false;
        }
        DrivenNext(env, s0, pools, env.supported[..i], version, before, units);
      }
      TakeAll(env.supported);
      DrivenAll(env, s0, pools, units);
      return true;
    }

    /** When Apply succeeds the host is exactly `Settled`, and it changed nothing
        exactly when it had nothing to do. It succeeds whenever its operations do and
        the pools can be had; and, succeed or fail, only the panel's files are
        touched. */
    method Apply(env: Env, pools: seq<Pool>) returns (ok: bool)
      requires DistinctVersions(env.supported) && forall v :: v in env.supported ==> v in units
      modifies this
      ensures ok ==> View() == Settled(env, old(View()), pools)
      ensures ok ==> (log == old(log) <==> Quiet(env, old(View()), pools))
      ensures ok && log == old(log) ==> View() == old(View())
      ensures ok ==> forall v :: v in env.supported ==> Feasible(env, old(View()), pools, v)
      ensures NothingFails(env) && (forall v :: v in env.supported ==> Feasible(env, old(View()), pools, v))
              ==> ok
      ensures ok ==> forall v :: v in env.supported ==>
                Converged(env, pools, old(View()), View(), v) && StepsWorked(env, old(View()), pools, v)
      ensures ok ==> env.ok(Prepare) && forall i :: 0 <= i < |pools| ==> env.ok(LogDir(pools[i].name))
      ensures AllUntouched(old(dirs), dirs)
      ensures FilesWork(env) && (forall v :: v in env.supported ==> Feasible(env, old(View()), pools, v))
              ==> dirs == Settled(env, old(View()), pools).dirs
      ensures ServicesFail(env) ==> units == old(units)
    {
      ghost var s0, log0 := View(), log;
      if !env.ok(Prepare) || exists i :: 0 <= i < |pools| && !env.ok(LogDir(pools[i].name)) {
        return false;
      }
      var byVersion := GroupByVersion(pools);
      var changed := SyncAll(env, s0, pools, byVersion);
      if changed.None? {
        return false;
      }
      SyncedAll(env, s0, pools, dirs, changed.value);
      ok := DriveAll(env, s0, pools, byVersion, changed.value);
      if ok {
        if Quiet(env, s0, pools) {
          QuietIsUnchanged(env, s0, pools);
        }
        AllConverge(env, s0, pools);
      }
    }
  }

  lemma AllConverge(env: Env, s: HostState, pools: seq<Pool>)
    requires forall v :: v in env.supported ==> v in s.units && Feasible(env, s, pools, v)
    requires AllVerbsWorked(env, s, pools, env.supported)
    ensures forall v :: v in env.supported ==> Converged(env, pools, s, Settled(env, s, pools), v)
  {
    forall v | v in env.supported ensures Converged(env, pools, s, Settled(env, s, pools), v) {
      SettledConverges(env, s, pools, v);
    }
  }

  // ----- what a successful Apply means ---------------------------------------

  /** The panel's own files are exactly the rendered pools, the packaged www.conf is
      gone, and everything else is as it was. */
  lemma DirectoryIsThePools(env: Env, s: HostState, pools: seq<Pool>, version: string, name: string)
    requires version in env.supported && version in s.dirs && Feasible(env, s, pools, version)
    ensures var before, after := s.dirs[version], Settled(env, s, pools).dirs[version];
            var wanted := WantedFor(env, pools, version);
            && (name in after && Ours(name, after[name]) <==> name in wanted)
            && (name in wanted ==> after[name] == File(wanted[name]))
            && (name in before && !Ours(name, before[name]) ==> name in after && after[name] == before[name])
            && (name in after && !Ours(name, after[name]) ==> name in before && after[name] == before[name])
  {
    WantedArePanelFiles(env, PoolsOf(pools, version));
  }

  /** What a pool's file holds: its own rendering, where names are distinct. */
  lemma {:induction false} PoolHasItsFile(env: Env, ps: seq<Pool>, i: nat)
    requires i < |ps| && AllRender(env, ps)
    requires forall j, k :: 0 <= j < k < |ps| ==> PoolFile(ps[j].name) != PoolFile(ps[k].name)
    ensures PoolFile(ps[i].name) in Wanted(env, ps)
    ensures Wanted(env, ps)[PoolFile(ps[i].name)] == env.render(ps[i]).value
  {
    if i == |ps| - 1 {
    } else {
      PoolHasItsFile(env, ps[..|ps| - 1], i);
    }
  }

  /** A version with pools runs, and starts at boot if its files changed or its sockets
      were wrong, otherwise as it did; one without neither runs nor starts at boot. */
  lemma ServicesFollowThePools(env: Env, s: HostState, pools: seq<Pool>, version: string)
    requires version in env.supported && version in s.units && version in s.dirs && env.ok(Get(version))
    ensures var before, after := s.units[version], Settled(env, s, pools).units[version];
            var rewritten := Settled(env, s, pools).dirs[version] != s.dirs[version];
            if Uses(pools, version) then
              after.running
              && after.enabled == if rewritten || !env.sockets(version) then "enabled" else before.enabled
            else before.enabled == "not-found" || (!after.running && after.enabled != "enabled")
  {
    PoolsOfAre(pools, version);
  }

  /** With nothing to do, Apply leaves the host exactly as it was. */
  lemma QuietIsUnchanged(env: Env, s: HostState, pools: seq<Pool>)
    requires Quiet(env, s, pools)
    ensures Settled(env, s, pools) == s
  {
    var t := Settled(env, s, pools);
    forall v | v in s.units ensures t.units[v] == s.units[v] {
      if v in env.supported {
        assert QuietUnit(env, s, pools, v, s.units[v]);
      }
    }
    assert t.units == s.units && t.dirs == s.dirs;
  }

  /** A second Apply whose sockets match has nothing to write and nothing to restart,
      whatever would fail. */
  lemma SecondApplyIsQuiet(env: Env, again: Env, s: HostState, pools: seq<Pool>)
    requires again.supported == env.supported && again.render == env.render
    requires forall v :: v in env.supported ==> env.ok(Get(v)) && again.sockets(v)
    ensures Quiet(again, Settled(env, s, pools), pools)
  {
    var t := Settled(env, s, pools);
    forall v | v in env.supported
      ensures QuietDir(again, t, pools, v) && (v in t.units ==> QuietUnit(again, t, pools, v, t.units[v]))
    {
      SameWanted(env, again, PoolsOf(pools, v));
      if v in s.dirs {
        TargetIsStable(s.dirs[v], WantedFor(env, pools, v)) by {
          WantedArePanelFiles(env, PoolsOf(pools, v));
        }
      }
    }
  }

  lemma {:induction false} SameWanted(a: Env, b: Env, ps: seq<Pool>)
    requires a.render == b.render
    ensures Wanted(a, ps) == Wanted(b, ps)
  {
    if ps == [] {
    } else {
      SameWanted(a, b, ps[..|ps| - 1]);
    }
  }

  lemma TargetIsStable(dir: Dir, wanted: map<string, string>)
    requires PanelFiles(wanted)
    ensures Target(Target(dir, wanted), wanted) == Target(dir, wanted)
  {
    var t := Target(dir, wanted);
    assert Target(t, wanted).Keys == t.Keys;
  }

  /** The running service has read the definitions that are in its directory. */
  predicate Fresh(s: HostState, version: string) {
    version in s.dirs && version in s.units && s.units[version].loaded == Confs(s.dirs[version])
  }

  /** A service with pools runs on the rendered definitions exactly when this Apply
      changed a file, found a wrong socket, or started it, or it already did. */
  lemma FreshExactly(env: Env, s: HostState, pools: seq<Pool>, version: string)
    requires version in env.supported && version in s.dirs && version in s.units
    requires PoolsOf(pools, version) != []
    ensures Fresh(Settled(env, s, pools), version) <==>
            || Changed(env, s, pools, version)
            || (env.ok(Get(version)) && !s.units[version].running)
            || Fresh(s, version)
  {
  }

  /** Once a version's files are written, and its service untouched, another Apply
      whose sockets match leaves the service as it was, running on the old
      definitions. */
  lemma RewrittenStaysStale(env: Env, again: Env, s: HostState, pools: seq<Pool>, version: string)
    requires again.supported == env.supported && again.render == env.render
    requires version in env.supported && Fresh(s, version) && s.units[version].running
    requires PoolsOf(pools, version) != [] && again.sockets(version)
    requires Confs(SettledDir(env, s, pools, version)) != Confs(s.dirs[version])
    ensures var interrupted := HostState(Settled(env, s, pools).dirs, s.units);
            var after := Settled(again, interrupted, pools);
            && after.dirs[version] == interrupted.dirs[version]
            && after.units[version] == s.units[version]
            && !Fresh(after, version)
  {
    SameWanted(env, again, PoolsOf(pools, version));
    TargetIsStable(s.dirs[version], WantedFor(env, pools, version)) by {
      WantedArePanelFiles(env, PoolsOf(pools, version));
    }
  }

  /** What one Apply has written, the next can write. */
  lemma SettledIsFeasible(env: Env, again: Env, s: HostState, units: map<string, Unit>, pools: seq<Pool>,
                          version: string)
    requires again.supported == env.supported && again.render == env.render
    requires version in env.supported && Feasible(env, s, pools, version)
    ensures Feasible(again, HostState(Settled(env, s, pools).dirs, units), pools, version)
  {
    SameWanted(env, again, PoolsOf(pools, version));
  }

  /** So a failure is not made up for later. The first Apply writes the files and every
      service operation fails; the second, in which nothing fails, succeeds, writes
      nothing for the version, leaves its service alone, and the service still runs on
      the old definitions. */
  method ApplyTwice(host: Host, failing: Env, working: Env, pools: seq<Pool>, version: string)
    returns (first: bool, second: bool)
    requires working.supported == failing.supported && working.render == failing.render
    requires DistinctVersions(failing.supported) && forall v :: v in failing.supported ==> v in host.units
    requires forall v :: v in failing.supported ==> Feasible(failing, host.View(), pools, v)
    requires FilesWork(failing) && ServicesFail(failing) && NothingFails(working)
    requires version in failing.supported && Fresh(host.View(), version) && host.units[version].running
    requires PoolsOf(pools, version) != [] && working.sockets(version)
    requires Confs(SettledDir(failing, host.View(), pools, version)) != Confs(host.dirs[version])
    modifies host
    ensures !first && second
    ensures version in host.dirs && host.dirs[version] == SettledDir(failing, old(host.View()), pools, version)
    ensures version in host.units && host.units[version] == old(host.units[version])
    ensures !Fresh(host.View(), version)
  {
    ghost var s := host.View();
    first := host.Apply(failing, pools);
    ghost var interrupted := host.View();
    assert interrupted == HostState(Settled(failing, s, pools).dirs, s.units);
    forall v | v in failing.supported ensures Feasible(working, interrupted, pools, v) {
      SettledIsFeasible(failing, working, s, s.units, pools, v);
    }
    RewrittenStaysStale(failing, working, s, pools, version);
    second := host.Apply(working, pools);
  }
}
