/** The Version service: the object that runs a migration pass. Its fields
    model the two ledger tables, the calls made through `ctx.performAction`
    and the registry it reads; the options bag a pass threads through every
    call is a RunOptions object that the methods update in place. Every method
    that has a Sequencer function (`Check`, `CheckModule`,
    `UpdateModuleSteps`, `UpdateModule2`, `TestModuleWith`) is proved to leave
    exactly the state that function describes; the handlers they dispatch to
    state their effect on the tables and calls directly. */
module VersionService {
  import opened Types
  import opened Ledger
  import opened Sequencer

  /** The options bag of one pass: the scene ('' for update, 'init' or
      'test'), the subdomain, and the fields the pass writes. */
  class RunOptions {
    const scene: string
    const subdomain: string
    var result: map<string, VersionPair>
    var stepModule: Option<Module>
    var stepVersion: Option<int>

    constructor (scene: string, subdomain: string)
      ensures this.scene == scene && this.subdomain == subdomain
      ensures result == map[] && stepModule == None && stepVersion == None
    {
      this.scene := scene;
      this.subdomain := subdomain;
      result := map[];
      stepModule := None;
      stepVersion := None;
    }
  }

  class Version {
    const modules: map<string, Module>
    const modulesArray: seq<string>
    const routes: set<string>
    const failing: set<Call>
    var hasVersionTable: bool
    var aVersion: seq<VersionRow>
    var hasInitTable: bool
    var aVersionInit: seq<InitRow>
    var trace: seq<Call>

    /** The read-only inputs of a pass. */
    function Registry(): Env {
      Env(modules, modulesArray, routes, failing)
    }

    ghost predicate Valid() {
      RegistryValid(Registry())
    }

    /** The service's tables and calls together with the options' fields. */
    ghost function State(opts: RunOptions): World
      reads this, opts
    {
      World(hasVersionTable, aVersion, hasInitTable, aVersionInit, trace,
            opts.result, opts.stepModule, opts.stepVersion)
    }

    constructor (modules: map<string, Module>, modulesArray: seq<string>, routes: set<string>, failing: set<Call>,
                 hasVersionTable: bool, aVersion: seq<VersionRow>, hasInitTable: bool, aVersionInit: seq<InitRow>)
      requires RegistryValid(Env(modules, modulesArray, routes, failing))
      ensures Valid()
      ensures Registry() == Env(modules, modulesArray, routes, failing)
      ensures this.hasVersionTable == hasVersionTable && this.aVersion == aVersion
      ensures this.hasInitTable == hasInitTable && this.aVersionInit == aVersionInit
      ensures trace == []
    {
      this.modules := modules;
      this.modulesArray := modulesArray;
      this.routes := routes;
      this.failing := failing;
      this.hasVersionTable := hasVersionTable;
      this.aVersion := aVersion;
      this.hasInitTable := hasInitTable;
      this.aVersionInit := aVersionInit;
      trace := [];
    }

    /** `ctx.performAction`: the call is made (and recorded), and it fails
        exactly when it is one of the failing calls. */
    method PerformAction(c: Call) returns (ok: bool)
      modifies this`trace
      ensures trace == old(trace) + [c]
      ensures ok == (c !in failing)
    {
      trace := trace + [c];
      ok := c !in failing;
    }

    /** `__getModule`: the registry entry of a registered module. */
    function GetModule(name: string): (m: Module)
      requires Valid() && name in modules
      ensures m.relativeName == name
    {
      modules[name]
    }

    /** `check`: one pass over all modules for the scene of `opts`. */
    method Check(opts: RunOptions) returns (out: Outcome)
      requires Valid()
      modifies this, opts
      ensures var r := CheckSpec(Registry(), opts.scene, opts.subdomain, old(State(opts)));
              State(opts) == r.world && out == r.outcome
    {
      if opts.scene == "" {
        // confirm table aVersion exists
        if !hasVersionTable {
          hasVersionTable := true;
        }
      }
      ghost var w0 := State(opts);
      var i := 0;
      while i < |modulesArray|
        invariant 0 <= i <= |modulesArray|
        invariant CheckModulesSpec(Registry(), opts.scene, opts.subdomain, modulesArray, w0)
               == CheckModulesSpec(Registry(), opts.scene, opts.subdomain, modulesArray[i..], State(opts))
      {
        assert modulesArray[i..][1..] == modulesArray[i + 1..];
        out := CheckModule(modulesArray[i], opts);
        if out.Fail? {
          return;
        }
        i := i + 1;
      }
      out := Pass;
      if opts.scene == "init" || opts.scene == "test" {
        var c := AfterHook(opts.subdomain);
        var ok := PerformAction(c);
        if !ok {
          out := Fail(StepFailed(c));
        }
      }
    }

    /** `__checkModule`: reconcile one module with its ledger. */
    method CheckModule(name: string, opts: RunOptions) returns (out: Outcome)
      requires Valid() && name in modules
      modifies this, opts
      ensures var r := CheckModuleSpec(Registry(), opts.scene, opts.subdomain, name, old(State(opts)));
              State(opts) == r.world && out == r.outcome
    {
      var m := GetModule(name);
      var fileVersionNew := FileVersionNew(m);
      out := Pass;
      if fileVersionNew != 0 && (opts.scene == "" || opts.scene == "init") {
        if fileVersionNew == -1 {
          out := UpdateModuleSteps(opts, m, -1, -1);
        } else {
          var fileVersionOld := 0;
          if opts.scene == "" {
            fileVersionOld := CurrentVersion(aVersion, name);
          } else {
            fileVersionOld := CurrentInitVersion(aVersionInit, opts.subdomain, name);
          }
          if fileVersionOld > fileVersionNew {
            return Fail(VersionDowngrade(DowngradeCode, name));
          } else if fileVersionOld < fileVersionNew {
            out := UpdateModuleSteps(opts, m, fileVersionOld, fileVersionNew);
          }
        }
        if out.Fail? {
          return;
        }
      }
      if opts.scene == "test" {
        out := TestModuleWith(m, fileVersionNew, opts);
      }
    }

    /** `__updateModule`: collect the versions to run, run each in turn,
        then log the old and new version in `options.result`. */
    method UpdateModuleSteps(opts: RunOptions, m: Module, fileVersionOld: int, fileVersionNew: int) returns (out: Outcome)
      modifies this, opts
      ensures var r := UpdateModuleSpec(Registry(), opts.scene, opts.subdomain, m, fileVersionOld, fileVersionNew, old(State(opts)));
              State(opts) == r.world && out == r.outcome
    {
      if fileVersionNew == -1 {
        // always
        out := UpdateModule2(opts, m, -1);
        if out.Fail? {
          return;
        }
        assert [-1][1..] == [];
      } else {
        var versions := CollectVersions(fileVersionOld, fileVersionNew);
        ghost var w := State(opts);
        var i := 0;
        while i < |versions|
          invariant 0 <= i <= |versions|
          invariant RunSteps(Registry(), opts.scene, opts.subdomain, m, versions, w)
                 == RunSteps(Registry(), opts.scene, opts.subdomain, m, versions[i..], State(opts))
        {
          assert versions[i..][1..] == versions[i + 1..];
          out := UpdateModule2(opts, m, versions[i]);
          if out.Fail? {
            return;
          }
          i := i + 1;
        }
        assert versions[i..] == [];
      }
      // log
      opts.result := opts.result[m.relativeName := VersionPair(fileVersionOld, fileVersionNew)];
      out := Pass;
    }

    /** The counting loop of `__updateModule`: the versions
        `fileVersionOld + 1 .. fileVersionNew`, ascending. */
    method CollectVersions(fileVersionOld: int, fileVersionNew: int) returns (versions: seq<int>)
      ensures versions == Steps(fileVersionOld, fileVersionNew)
    {
      versions := [];
      var version := fileVersionOld + 1;
      while version <= fileVersionNew
        invariant fileVersionOld + 1 <= version
        invariant version <= fileVersionNew + 1 || version == fileVersionOld + 1
        invariant |versions| == version - fileVersionOld - 1
        invariant forall k :: 0 <= k < |versions| ==> versions[k] == fileVersionOld + 1 + k
        decreases fileVersionNew + 1 - version
      {
        versions := versions + [version];
        version := version + 1;
      }
    }

    /** `__updateModule2`: run one step on the track the scene selects. */
    method UpdateModule2(opts: RunOptions, m: Module, version: int) returns (out: Outcome)
      modifies this, opts
      ensures var r := Step(Registry(), opts.scene, opts.subdomain, m, version, old(State(opts)));
              State(opts) == r.world && out == r.outcome
    {
      if opts.scene == "" {
        out := UpdateModule(m, version);
      } else {
        opts.stepModule := Some(m);
        opts.stepVersion := Some(version);
        out := InitModule(opts, m, version);
      }
    }

    /** `updateModule`: call the module's update handler for `version` (for
        the service's own module that handler is `update`), then record the
        version in `aVersion` if it is above 0. */
    method UpdateModule(m: Module, version: int) returns (out: Outcome)
      modifies this`trace, this`aVersion, this`hasInitTable
      ensures var c := UpdateStep(m.relativeName, version);
              && trace == old(trace) + [c]
              && out == (if c in failing then Fail(StepFailed(c)) else Pass)
      ensures aVersion == if out.Pass? && version > 0
                          then old(aVersion) + [VersionRow(m.relativeName, version)] else old(aVersion)
      ensures hasInitTable == (old(hasInitTable) || (out.Pass? && m.relativeName == SelfName && version == 2))
    {
      var c := UpdateStep(m.relativeName, version);
      var ok := PerformAction(c);
      if !ok {
        return Fail(StepFailed(c));
      }
      if m.relativeName == SelfName {
        Update(version);
      }
      if version > 0 {
        aVersion := aVersion + [VersionRow(m.relativeName, version)];
      }
      out := Pass;
    }

    /** `initModule`: call the module's init handler if it has one, then
        record the version for the subdomain in `aVersionInit` if it is
        above 0. */
    method InitModule(opts: RunOptions, m: Module, version: int) returns (out: Outcome)
      modifies this`trace, this`aVersionInit
      ensures var c := InitStep(opts.subdomain, m.relativeName, version);
              && trace == old(trace) + (if InitPath(m) in routes then [c] else [])
              && out == (if InitPath(m) in routes && c in failing then Fail(StepFailed(c)) else Pass)
      ensures aVersionInit == if out.Pass? && version > 0
                              then old(aVersionInit) + [InitRow(opts.subdomain, m.relativeName, version)]
                              else old(aVersionInit)
    {
      var url := InitPath(m);
      if url in routes {
        var c := InitStep(opts.subdomain, m.relativeName, version);
        var ok := PerformAction(c);
        if !ok {
          return Fail(StepFailed(c));
        }
      }
      if version > 0 {
        aVersionInit := aVersionInit + [InitRow(opts.subdomain, m.relativeName, version)];
      }
      out := Pass;
    }

    /** `__testModule`: point the options at the module, then run its test. */
    method TestModuleWith(m: Module, fileVersionNew: int, opts: RunOptions) returns (out: Outcome)
      modifies this`trace, opts
      ensures var r := TestModuleSpec(Registry(), opts.subdomain, m, fileVersionNew, old(State(opts)));
              State(opts) == r.world && out == r.outcome
    {
      opts.stepModule := Some(m);
      opts.stepVersion := Some(fileVersionNew);
      out := TestModule(opts);
    }

    /** `testModule`: call the test handler of the module the options point
        at, if it has one. */
    method TestModule(opts: RunOptions) returns (out: Outcome)
      requires opts.stepModule.Some? && opts.stepVersion.Some?
      modifies this`trace
      ensures var m := opts.stepModule.value;
              var c := TestStep(opts.subdomain, m.relativeName, opts.stepVersion.value);
              && trace == old(trace) + (if TestPath(m) in routes then [c] else [])
              && out == (if TestPath(m) in routes && c in failing then Fail(StepFailed(c)) else Pass)
    {
      var m := opts.stepModule.value;
      var url := TestPath(m);
      out := Pass;
      if url in routes {
        var c := TestStep(opts.subdomain, m.relativeName, opts.stepVersion.value);
        var ok := PerformAction(c);
        if !ok {
          out := Fail(StepFailed(c));
        }
      }
    }

    /** `update`: the service's own migration steps; step 2 creates the
        `aVersionInit` table, step 1 does nothing. */
    method Update(version: int)
      modifies this`hasInitTable
      ensures hasInitTable == (old(hasInitTable) || version == 2)
    {
      if version == 2 {
        hasInitTable := true;
      }
    }
  }
}
