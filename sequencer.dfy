/** The migration sequencer as pure functions over a World: one function per
    method of the Version service, each giving the state after the method and
    whether it succeeded. The service's methods are proved to compute exactly
    these; the properties of a pass are proved about these. */
module Sequencer {
  import opened Types
  import opened Ledger

  /** `fileVersionNew`: the declared fileVersion, 0 when the package
      metadata has none. */
  function FileVersionNew(m: Module): int {
    match m.fileVersion
    case None => 0
    case Some(v) => v
  }

  /** `fileVersionOld`: the module's current version on the global track
      when the scene is empty, else on the init track of the subdomain. */
  function FileVersionOld(w: World, scene: string, subdomain: string, name: string): int {
    if scene == "" then CurrentVersion(w.aVersion, name)
    else CurrentInitVersion(w.aVersionInit, subdomain, name)
  }

  /** The versions `lo + 1 .. hi` (`fileVersionOld + 1 .. fileVersionNew`) that the counting
      loop of `__updateModule` collects, in ascending order. */
  function Steps(lo: int, hi: int): (vs: seq<int>)
    ensures |vs| == if lo < hi then hi - lo else 0
    ensures forall k :: 0 <= k < |vs| ==> vs[k] == lo + 1 + k
    decreases hi - lo
  {
    if lo < hi then [lo + 1] + Steps(lo + 1, hi) else []
  }

  /** The remote call that running step `v` of module `m` makes: the update
      handler on the global track; on the init track the init handler, or no
      call when the module has no init route. */
  function StepCall(e: Env, scene: string, subdomain: string, m: Module, v: int): Option<Call> {
    if scene == "" then Some(UpdateStep(m.relativeName, v))
    else if InitPath(m) in e.routes then Some(InitStep(subdomain, m.relativeName, v))
    else None
  }

  /** The ledger insert that follows a successful step: only for versions
      above 0, into `aVersion` or (init track) `aVersionInit`. */
  function Record(w: World, scene: string, subdomain: string, m: Module, v: int): World {
    if v <= 0 then w
    else if scene == "" then w.(aVersion := w.aVersion + [VersionRow(m.relativeName, v)])
    else w.(aVersionInit := w.aVersionInit + [InitRow(subdomain, m.relativeName, v)])
  }

  /** `update`, the service's own migration step `v`: step 2 creates the
      `aVersionInit` table, every other step leaves the tables as they are. */
  function SelfUpdate(w: World, v: int): World {
    if v == 2 then w.(hasInitTable := true) else w
  }

  /** What a successful remote call does to the service's own tables: only
      the service's own update handler, `update`, touches them; every other
      handler belongs to another module. */
  function Handled(w: World, c: Call): World {
    if c.UpdateStep? && c.moduleName == SelfName then SelfUpdate(w, c.version) else w
  }

  /** `__updateModule2` together with the handler it dispatches to
      (`updateModule`, or `initModule` after setting `options.module` and
      `options.version`). */
  function Step(e: Env, scene: string, subdomain: string, m: Module, v: int, w: World): Run {
    var w0 := if scene == "" then w else w.(stepModule := Some(m), stepVersion := Some(v));
    match StepCall(e, scene, subdomain, m, v)
    case None => Run(Record(w0, scene, subdomain, m, v), Pass)
    case Some(c) =>
      var w1 := w0.(trace := w0.trace + [c]);
      if c in e.failing then Run(w1, Fail(StepFailed(c)))
      else Run(Record(Handled(w1, c), scene, subdomain, m, v), Pass)
  }

  /** The loop of `__updateModule` over its versions: each step awaited in
      turn, the first failure ending the loop. */
  function RunSteps(e: Env, scene: string, subdomain: string, m: Module, vs: seq<int>, w: World): Run
    decreases |vs|
  {
    if vs == [] then Run(w, Pass)
    else
      var r := Step(e, scene, subdomain, m, vs[0], w);
      if r.outcome.Fail? then r else RunSteps(e, scene, subdomain, m, vs[1..], r.world)
  }

  /** The versions `__updateModule` runs: just -1 for the "always" sentinel,
      otherwise `fileVersionOld + 1 .. fileVersionNew`. */
  function UpdateVersions(fileVersionOld: int, fileVersionNew: int): seq<int> {
    if fileVersionNew == -1 then [-1] else Steps(fileVersionOld, fileVersionNew)
  }

  /** `__updateModule`: run the versions, then log `result[relativeName]`. */
  function UpdateModuleSpec(e: Env, scene: string, subdomain: string, m: Module,
                            fileVersionOld: int, fileVersionNew: int, w: World): Run {
    var r := RunSteps(e, scene, subdomain, m, UpdateVersions(fileVersionOld, fileVersionNew), w);
    if r.outcome.Fail? then r
    else Run(r.world.(result := r.world.result[m.relativeName := VersionPair(fileVersionOld, fileVersionNew)]), Pass)
  }

  /** `__testModule` with the `testModule` handler it dispatches to. */
  function TestModuleSpec(e: Env, subdomain: string, m: Module, fileVersionNew: int, w: World): Run {
    var w0 := w.(stepModule := Some(m), stepVersion := Some(fileVersionNew));
    if TestPath(m) in e.routes then
      var c := TestStep(subdomain, m.relativeName, fileVersionNew);
      var w1 := w0.(trace := w0.trace + [c]);
      Run(w1, if c in e.failing then Fail(StepFailed(c)) else Pass)
    else Run(w0, Pass)
  }

  /** Whether `__checkModule` migrates: a nonzero target, and the empty or
      the 'init' scene. */
  predicate Migrates(scene: string, fileVersionNew: int) {
    fileVersionNew != 0 && (scene == "" || scene == "init")
  }

  /** `__checkModule`: reconcile one module, then test it in the 'test' scene. */
  function CheckModuleSpec(e: Env, scene: string, subdomain: string, name: string, w: World): Run
    requires name in e.modules
  {
    var m := e.modules[name];
    var fileVersionNew := FileVersionNew(m);
    var r :=
      if !Migrates(scene, fileVersionNew) then Run(w, Pass)
      else if fileVersionNew == -1 then UpdateModuleSpec(e, scene, subdomain, m, -1, -1, w)
      else
        var fileVersionOld := FileVersionOld(w, scene, subdomain, name);
        if fileVersionOld > fileVersionNew then Run(w, Fail(VersionDowngrade(DowngradeCode, name)))
        else if fileVersionOld < fileVersionNew then UpdateModuleSpec(e, scene, subdomain, m, fileVersionOld, fileVersionNew, w)
        else Run(w, Pass);
    if r.outcome.Pass? && scene == "test" then TestModuleSpec(e, subdomain, m, fileVersionNew, r.world)
    else r
  }

  /** The loop of `check` over the modules, stopping at the first failure. */
  function CheckModulesSpec(e: Env, scene: string, subdomain: string, names: seq<string>, w: World): Run
    requires forall i :: 0 <= i < |names| ==> names[i] in e.modules
    decreases |names|
  {
    if names == [] then Run(w, Pass)
    else
      var r := CheckModuleSpec(e, scene, subdomain, names[0], w);
      if r.outcome.Fail? then r else CheckModulesSpec(e, scene, subdomain, names[1..], r.world)
  }

  /** `check`: ensure `aVersion` exists (empty scene only), reconcile every
      module, then fire the post-pass hook for the 'init' and 'test' scenes. */
  function CheckSpec(e: Env, scene: string, subdomain: string, w: World): Run
    requires forall i :: 0 <= i < |e.modulesArray| ==> e.modulesArray[i] in e.modules
  {
    var w0 := if scene == "" then w.(hasVersionTable := true) else w;
    var r := CheckModulesSpec(e, scene, subdomain, e.modulesArray, w0);
    if r.outcome.Pass? && (scene == "init" || scene == "test") then
      var c := AfterHook(subdomain);
      var w1 := r.world.(trace := r.world.trace + [c]);
      Run(w1, if c in e.failing then Fail(StepFailed(c)) else Pass)
    else r
  }
}
