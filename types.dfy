/** Values shared by the ledger, the sequencer and the service: the module
    registry's view of a module, the rows of the two version ledgers, the
    remote calls the sequencer makes, and the outcome of a pass. */
module Types {

  datatype Option<T> = None | Some(value: T)

  /** A module as the host registry describes it: `info.relativeName`,
      `info.url` (its routing prefix) and `package.eggBornModule.fileVersion`,
      which is None when the package metadata declares no version. */
  datatype Module = Module(relativeName: string, url: string, fileVersion: Option<int>)

  /** A row of the global ledger table `aVersion`. */
  datatype VersionRow = VersionRow(moduleName: string, version: int)

  /** A row of the per-subdomain ledger table `aVersionInit`. */
  datatype InitRow = InitRow(subdomain: string, moduleName: string, version: int)

  /** A remote call made through `ctx.performAction`, keyed by the module's
      relative name:
      UpdateStep - POST /{url}/version/update with the step's version,
      InitStep   - POST /{url}/version/init with the options bag,
      TestStep   - POST /{url}/version/test with the options bag,
      AfterHook  - POST version/after, the post-pass hook. */
  datatype Call =
    | UpdateStep(moduleName: string, version: int)
    | InitStep(subdomain: string, moduleName: string, version: int)
    | TestStep(subdomain: string, moduleName: string, version: int)
    | AfterHook(subdomain: string)

  /** The relative name of the service's own module: its `version/update`
      route is served by the service's `update` method. */
  const SelfName: string := "a-version"

  /** The error code `ctx.throw` raises for a downgrade. */
  const DowngradeCode: int := 1001

  datatype Error =
    | VersionDowngrade(code: int, moduleName: string)
    | StepFailed(call: Call)

  datatype Outcome = Pass | Fail(error: Error)

  /** The entry `result[relativeName] = { fileVersionOld, fileVersionNew }`. */
  datatype VersionPair = VersionPair(fileVersionOld: int, fileVersionNew: int)

  /** Everything a pass can change: the two ledger tables (whether each
      exists, and its rows in insertion order), the calls made so far, and the
      mutable part of the options bag: `result`, and its `module` and
      `version` fields as stepModule and stepVersion. */
  datatype World = World(
    hasVersionTable: bool,
    aVersion: seq<VersionRow>,
    hasInitTable: bool,
    aVersionInit: seq<InitRow>,
    trace: seq<Call>,
    result: map<string, VersionPair>,
    stepModule: Option<Module>,
    stepVersion: Option<int>)

  /** What a pass only reads: the registry (`app.meta.modules`, keyed by
      relative name, and `app.meta.modulesArray`, given here by name), the
      route table consulted by `findByPath`, and the calls that fail. */
  datatype Env = Env(
    modules: map<string, Module>,
    modulesArray: seq<string>,
    routes: set<string>,
    failing: set<Call>)

  /** The state of a pass after some work, and whether that work succeeded. */
  datatype Run = Run(world: World, outcome: Outcome)

  /** The route that `initModule` probes for a module's init handler. */
  function InitPath(m: Module): string {
    "/" + m.url + "/version/init"
  }

  /** The route that `testModule` probes for a module's test handler. */
  function TestPath(m: Module): string {
    "/" + m.url + "/version/test"
  }

  /** Every name the pass iterates is registered, and each module is
      registered under its own relative name. */
  ghost predicate RegistryValid(e: Env) {
    && (forall i :: 0 <= i < |e.modulesArray| ==> e.modulesArray[i] in e.modules)
    && (forall n :: n in e.modules ==> e.modules[n].relativeName == n)
  }
}
