/** What a pass of the migration sequencer guarantees, proved about the
    Sequencer functions (and so about the Version service, whose methods
    compute exactly those functions). */
module Properties {
  import opened Types
  import opened Ledger
  import opened Sequencer

  // ---------------------------------------------------------------------
  // Reference definitions: the calls, failures and rows of a step sequence
  // ---------------------------------------------------------------------

  /** Whether step `v` makes a remote call and that call fails. */
  predicate StepFails(e: Env, scene: string, subdomain: string, m: Module, v: int) {
    var c := StepCall(e, scene, subdomain, m, v);
    c.Some? && c.value in e.failing
  }

  /** The index of the first step of `vs` whose call fails, or |vs|. */
  function FirstFailure(e: Env, scene: string, subdomain: string, m: Module, vs: seq<int>): (n: nat)
    ensures n <= |vs|
    ensures forall k :: 0 <= k < n ==> !StepFails(e, scene, subdomain, m, vs[k])
    ensures n < |vs| ==> StepFails(e, scene, subdomain, m, vs[n])
  {
    if vs == [] then 0
    else if StepFails(e, scene, subdomain, m, vs[0]) then 0
    else 1 + FirstFailure(e, scene, subdomain, m, vs[1..])
  }

  /** The number of steps of `vs` that run: those before the first failing
      call, and that one. */
  function Ran(e: Env, scene: string, subdomain: string, m: Module, vs: seq<int>): (k: nat)
    ensures k <= |vs|
  {
    var n := FirstFailure(e, scene, subdomain, m, vs);
    if n < |vs| then n + 1 else n
  }

  /** The remote call step `v` makes, as a sequence of none or one. */
  function CallOf(e: Env, scene: string, subdomain: string, m: Module, v: int): (cs: seq<Call>)
    ensures |cs| <= 1
  {
    match StepCall(e, scene, subdomain, m, v)
    case None => []
    case Some(c) => [c]
  }

  /** The remote calls the steps `vs` make, in order. */
  function CallsOf(e: Env, scene: string, subdomain: string, m: Module, vs: seq<int>): (cs: seq<Call>)
    ensures forall k :: 0 <= k < |cs| ==> !cs[k].AfterHook?
  {
    if vs == [] then []
    else CallOf(e, scene, subdomain, m, vs[0]) + CallsOf(e, scene, subdomain, m, vs[1..])
  }

  /** The global-ledger rows the steps `vs` write: one per version above 0. */
  function VersionRowsFor(name: string, vs: seq<int>): (rows: seq<VersionRow>)
    ensures forall j :: 0 <= j < |rows| ==> rows[j].moduleName == name && rows[j].version > 0
  {
    if vs == [] then []
    else (if vs[0] > 0 then [VersionRow(name, vs[0])] else []) + VersionRowsFor(name, vs[1..])
  }

  /** The init-ledger rows the steps `vs` write: one per version above 0. */
  function InitRowsFor(subdomain: string, name: string, vs: seq<int>): (rows: seq<InitRow>)
    ensures forall j :: 0 <= j < |rows| ==>
      rows[j].subdomain == subdomain && rows[j].moduleName == name && rows[j].version > 0
  {
    if vs == [] then []
    else (if vs[0] > 0 then [InitRow(subdomain, name, vs[0])] else []) + InitRowsFor(subdomain, name, vs[1..])
  }

  /** Whether the calls `cs` include the service's own step 2, the one that
      creates `aVersionInit`, and it succeeded. */
  predicate CreatesInitTable(e: Env, cs: seq<Call>) {
    UpdateStep(SelfName, 2) in cs && UpdateStep(SelfName, 2) !in e.failing
  }

  /** Steps whose versions are at most `top` write rows whose versions are
      at most `top`. */
  lemma {:induction false} RowsStayBelow(name: string, vs: seq<int>, top: int)
    requires forall k :: 0 <= k < |vs| ==> vs[k] <= top
    ensures forall j :: 0 <= j < |VersionRowsFor(name, vs)| ==> VersionRowsFor(name, vs)[j].version <= top
  {
    if vs != [] {
      RowsStayBelow(name, vs[1..], top);
    }
  }

  /** A step with a version above 0 writes its row. */
  lemma {:induction false} RowRecorded(name: string, vs: seq<int>, i: nat)
    requires i < |vs| && vs[i] > 0
    ensures exists j :: 0 <= j < |VersionRowsFor(name, vs)| && VersionRowsFor(name, vs)[j] == VersionRow(name, vs[i])
  {
    var head := if vs[0] > 0 then [VersionRow(name, vs[0])] else [];
    var tail := VersionRowsFor(name, vs[1..]);
    if i == 0 {
      assert VersionRowsFor(name, vs)[0] == VersionRow(name, vs[0]);
    } else {
      RowRecorded(name, vs[1..], i - 1);
      var j :| 0 <= j < |tail| && tail[j] == VersionRow(name, vs[i]);
      assert VersionRowsFor(name, vs)[|head| + j] == tail[j];
    }
  }

  /** The init-ledger analogue of RowsStayBelow. */
  lemma {:induction false} InitRowsStayBelow(subdomain: string, name: string, vs: seq<int>, top: int)
    requires forall k :: 0 <= k < |vs| ==> vs[k] <= top
    ensures forall j :: 0 <= j < |InitRowsFor(subdomain, name, vs)| ==> InitRowsFor(subdomain, name, vs)[j].version <= top
  {
    if vs != [] {
      InitRowsStayBelow(subdomain, name, vs[1..], top);
    }
  }

  /** The init-ledger analogue of RowRecorded. */
  lemma {:induction false} InitRowRecorded(subdomain: string, name: string, vs: seq<int>, i: nat)
    requires i < |vs| && vs[i] > 0
    ensures exists j :: 0 <= j < |InitRowsFor(subdomain, name, vs)| && InitRowsFor(subdomain, name, vs)[j] == InitRow(subdomain, name, vs[i])
  {
    var head := if vs[0] > 0 then [InitRow(subdomain, name, vs[0])] else [];
    var tail := InitRowsFor(subdomain, name, vs[1..]);
    if i == 0 {
      assert InitRowsFor(subdomain, name, vs)[0] == InitRow(subdomain, name, vs[0]);
    } else {
      InitRowRecorded(subdomain, name, vs[1..], i - 1);
      var j :| 0 <= j < |tail| && tail[j] == InitRow(subdomain, name, vs[i]);
      assert InitRowsFor(subdomain, name, vs)[|head| + j] == tail[j];
    }
  }

  /** `a` is a prefix of `b`. */
  ghost predicate Grows<T>(a: seq<T>, b: seq<T>) {
    |a| <= |b| && b[..|a|] == a
  }

  /** Appending to a sequence grows it, and the new positions hold the
      appended elements. */
  lemma AppendGrows<T>(a: seq<T>, more: seq<T>)
    ensures Grows(a, a + more)
    ensures forall k :: |a| <= k < |a + more| ==> (a + more)[k] == more[k - |a|]
  {
    assert (a + more)[..|a|] == a;
  }

  lemma GrowsTransitive<T>(a: seq<T>, b: seq<T>, c: seq<T>)
    requires Grows(a, b) && Grows(b, c)
    ensures Grows(a, c)
    ensures forall k :: |a| <= k < |b| ==> c[k] == b[k]
  {
    assert c[..|a|] == c[..|b|][..|a|];
    forall k | |a| <= k < |b| ensures c[k] == b[k] {
      assert c[..|b|][k] == c[k];
    }
  }

  // ---------------------------------------------------------------------
  // The version range
  // ---------------------------------------------------------------------

  /** The first `n` versions of a range are the range that stops `n` above
      its start, and the rest are the range that starts there. */
  lemma StepsSplit(lo: int, n: int, hi: int)
    requires 0 <= n <= hi - lo
    ensures Steps(lo, hi)[..n] == Steps(lo, lo + n)
    ensures Steps(lo, hi)[n..] == Steps(lo + n, hi)
  {
  }

  /** From a start of at least 0 every version of a range is written: the
      rows are exactly `lo + 1 .. hi`, ascending. */
  lemma {:induction false} RangeRowsAreExact(name: string, lo: int, hi: int)
    requires 0 <= lo
    ensures |VersionRowsFor(name, Steps(lo, hi))| == |Steps(lo, hi)|
    ensures forall k :: 0 <= k < |Steps(lo, hi)| ==> VersionRowsFor(name, Steps(lo, hi))[k] == VersionRow(name, lo + 1 + k)
    decreases hi - lo
  {
    if lo < hi {
      RangeRowsAreExact(name, lo + 1, hi);
      assert Steps(lo, hi)[1..] == Steps(lo + 1, hi);
    }
  }

  /** The init-track analogue of RangeRowsAreExact. */
  lemma {:induction false} RangeInitRowsAreExact(subdomain: string, name: string, lo: int, hi: int)
    requires 0 <= lo
    ensures |InitRowsFor(subdomain, name, Steps(lo, hi))| == |Steps(lo, hi)|
    ensures forall k :: 0 <= k < |Steps(lo, hi)| ==>
      InitRowsFor(subdomain, name, Steps(lo, hi))[k] == InitRow(subdomain, name, lo + 1 + k)
    decreases hi - lo
  {
    if lo < hi {
      RangeInitRowsAreExact(subdomain, name, lo + 1, hi);
      assert Steps(lo, hi)[1..] == Steps(lo + 1, hi);
    }
  }

  /** Appending the rows of a range `lo + 1 .. lo + n` with `lo` at least 0
      appends exactly one row per version, ascending. */
  lemma AppendRangeRows(before: seq<VersionRow>, after: seq<VersionRow>, name: string, lo: int, n: nat)
    requires 0 <= lo
    requires after == before + VersionRowsFor(name, Steps(lo, lo + n))
    ensures |after| == |before| + n
    ensures forall k :: |before| <= k < |after| ==> after[k] == VersionRow(name, lo + 1 + k - |before|)
  {
    RangeRowsAreExact(name, lo, lo + n);
    var rows := VersionRowsFor(name, Steps(lo, lo + n));
    forall k | |before| <= k < |after| ensures after[k] == VersionRow(name, lo + 1 + k - |before|) {
      assert after[k] == rows[k - |before|];
    }
  }

  /** The init-ledger analogue of AppendRangeRows. */
  lemma AppendRangeInitRows(before: seq<InitRow>, after: seq<InitRow>, subdomain: string, name: string, lo: int, n: nat)
    requires 0 <= lo
    requires after == before + InitRowsFor(subdomain, name, Steps(lo, lo + n))
    ensures |after| == |before| + n
    ensures forall k :: |before| <= k < |after| ==> after[k] == InitRow(subdomain, name, lo + 1 + k - |before|)
  {
    RangeInitRowsAreExact(subdomain, name, lo, lo + n);
    var rows := InitRowsFor(subdomain, name, Steps(lo, lo + n));
    forall k | |before| <= k < |after| ensures after[k] == InitRow(subdomain, name, lo + 1 + k - |before|) {
      assert after[k] == rows[k - |before|];
    }
  }

  /** A module at version `lo` whose range `lo + 1 .. lo + n` is recorded is
      at version `lo + n`, provided the range ends above 0 (rows at 0 or
      below are never written). */
  lemma CurrentVersionAfterRange(before: seq<VersionRow>, name: string, lo: int, n: nat)
    requires CurrentVersion(before, name) == lo
    requires n == 0 || 0 < lo + n
    ensures CurrentVersion(before + VersionRowsFor(name, Steps(lo, lo + n)), name) == lo + n
  {
    var more := VersionRowsFor(name, Steps(lo, lo + n));
    if n == 0 {
      assert before + more == before;
    } else {
      RowsStayBelow(name, Steps(lo, lo + n), lo + n);
      RowRecorded(name, Steps(lo, lo + n), n - 1);
      CurrentVersionAfterAppend(before, more, name, lo + n);
    }
  }

  /** The init-ledger analogue of CurrentVersionAfterRange. */
  lemma CurrentInitVersionAfterRange(before: seq<InitRow>, subdomain: string, name: string, lo: int, n: nat)
    requires CurrentInitVersion(before, subdomain, name) == lo
    requires n == 0 || 0 < lo + n
    ensures CurrentInitVersion(before + InitRowsFor(subdomain, name, Steps(lo, lo + n)), subdomain, name) == lo + n
  {
    var more := InitRowsFor(subdomain, name, Steps(lo, lo + n));
    if n == 0 {
      assert before + more == before;
    } else {
      InitRowsStayBelow(subdomain, name, Steps(lo, lo + n), lo + n);
      InitRowRecorded(subdomain, name, Steps(lo, lo + n), n - 1);
      CurrentInitVersionAfterAppend(before, more, subdomain, name, lo + n);
    }
  }

  /** On the global track every step makes exactly one call, to the
      module's update handler with the step's version. */
  lemma {:induction false} UpdateTrackCalls(e: Env, subdomain: string, m: Module, vs: seq<int>)
    ensures |CallsOf(e, "", subdomain, m, vs)| == |vs|
    ensures forall k :: 0 <= k < |vs| ==> CallsOf(e, "", subdomain, m, vs)[k] == UpdateStep(m.relativeName, vs[k])
  {
    if vs != [] {
      UpdateTrackCalls(e, subdomain, m, vs[1..]);
    }
  }

  /** On the init track every step calls the module's init handler when it
      has one; when it has none no step makes a call and none fails. */
  lemma {:induction false} InitTrackCalls(e: Env, scene: string, subdomain: string, m: Module, vs: seq<int>)
    requires scene != ""
    ensures InitPath(m) in e.routes ==>
      && |CallsOf(e, scene, subdomain, m, vs)| == |vs|
      && forall k :: 0 <= k < |vs| ==> CallsOf(e, scene, subdomain, m, vs)[k] == InitStep(subdomain, m.relativeName, vs[k])
    ensures InitPath(m) !in e.routes ==>
      CallsOf(e, scene, subdomain, m, vs) == [] && FirstFailure(e, scene, subdomain, m, vs) == |vs|
  {
    if vs != [] {
      InitTrackCalls(e, scene, subdomain, m, vs[1..]);
    }
  }

  /** One step makes its call, if any, and no other. */
  lemma StepTrace(e: Env, scene: string, subdomain: string, m: Module, v: int, w: World)
    ensures Step(e, scene, subdomain, m, v, w).world.trace == w.trace + CallOf(e, scene, subdomain, m, v)
  {
  }

  /** One step fails exactly when its call fails, with that call; the result
      map and `aVersion`'s existence do not change, and `aVersionInit` is
      created only by the service's own step 2 when it succeeds. */
  lemma StepOutcome(e: Env, scene: string, subdomain: string, m: Module, v: int, w: World)
    ensures var s := Step(e, scene, subdomain, m, v, w);
            && (s.outcome.Fail? <==> StepFails(e, scene, subdomain, m, v))
            && (s.outcome.Fail? ==> s.outcome == Fail(StepFailed(StepCall(e, scene, subdomain, m, v).value)))
            && s.world.hasVersionTable == w.hasVersionTable
            && s.world.hasInitTable == (w.hasInitTable || CreatesInitTable(e, CallOf(e, scene, subdomain, m, v)))
            && s.world.result == w.result
  {
  }

  /** Only a successful step with a version above 0 writes a global row,
      and only in the empty scene. */
  lemma StepVersionRows(e: Env, scene: string, subdomain: string, m: Module, v: int, w: World)
    ensures var s := Step(e, scene, subdomain, m, v, w);
            s.world.aVersion == w.aVersion +
              (if scene == "" && s.outcome.Pass? && v > 0 then [VersionRow(m.relativeName, v)] else [])
  {
  }

  /** Only a successful step with a version above 0 writes an init row, and
      only in a nonempty scene. */
  lemma StepInitRows(e: Env, scene: string, subdomain: string, m: Module, v: int, w: World)
    ensures var s := Step(e, scene, subdomain, m, v, w);
            s.world.aVersionInit == w.aVersionInit +
              (if scene != "" && s.outcome.Pass? && v > 0 then [InitRow(subdomain, m.relativeName, v)] else [])
  {
  }

  /** Running the steps `vs` makes the calls of the steps up to and
      including the first failing one, in order, and no other. */
  lemma {:induction false} RunStepsTrace(e: Env, scene: string, subdomain: string, m: Module, vs: seq<int>, w: World)
    ensures RunSteps(e, scene, subdomain, m, vs, w).world.trace
         == w.trace + CallsOf(e, scene, subdomain, m, vs[..Ran(e, scene, subdomain, m, vs)])
    decreases |vs|
  {
    if vs != [] {
      StepTrace(e, scene, subdomain, m, vs[0], w);
      StepOutcome(e, scene, subdomain, m, vs[0], w);
      var s := Step(e, scene, subdomain, m, vs[0], w);
      if s.outcome.Fail? {
        assert vs[..1] == [vs[0]];
        assert [vs[0]][1..] == [];
      } else {
        var rest := vs[1..];
        RunStepsTrace(e, scene, subdomain, m, rest, s.world);
        var k := Ran(e, scene, subdomain, m, rest);
        var p := vs[..k + 1];
        assert p[0] == vs[0] && p[1..] == rest[..k];
        assert CallsOf(e, scene, subdomain, m, p)
            == CallOf(e, scene, subdomain, m, vs[0]) + CallsOf(e, scene, subdomain, m, rest[..k]);
      }
    }
  }

  /** Running the steps `vs` on the global track writes the rows of the
      steps before the first failing one (versions above 0 only), and no
      other. */
  lemma {:induction false} UpdateStepsRows(e: Env, subdomain: string, m: Module, vs: seq<int>, w: World)
    ensures RunSteps(e, "", subdomain, m, vs, w).world.aVersion
         == w.aVersion + VersionRowsFor(m.relativeName, vs[..FirstFailure(e, "", subdomain, m, vs)])
    decreases |vs|
  {
    if vs != [] {
      StepVersionRows(e, "", subdomain, m, vs[0], w);
      StepOutcome(e, "", subdomain, m, vs[0], w);
      var s := Step(e, "", subdomain, m, vs[0], w);
      if s.outcome.Fail? {
        assert vs[..0] == [];
      } else {
        var rest := vs[1..];
        UpdateStepsRows(e, subdomain, m, rest, s.world);
        var k := FirstFailure(e, "", subdomain, m, rest);
        var p := vs[..k + 1];
        assert p[0] == vs[0] && p[1..] == rest[..k];
        var row := if vs[0] > 0 then [VersionRow(m.relativeName, vs[0])] else [];
        var tail := VersionRowsFor(m.relativeName, rest[..k]);
        assert VersionRowsFor(m.relativeName, p) == row + tail;
        assert w.aVersion + row + tail == w.aVersion + (row + tail);
      }
    }
  }

  /** Running the steps `vs` in a nonempty scene writes no global row. */
  lemma {:induction false} InitStepsKeepVersionRows(e: Env, scene: string, subdomain: string, m: Module, vs: seq<int>, w: World)
    requires scene != ""
    ensures RunSteps(e, scene, subdomain, m, vs, w).world.aVersion == w.aVersion
    decreases |vs|
  {
    if vs != [] {
      StepVersionRows(e, scene, subdomain, m, vs[0], w);
      var s := Step(e, scene, subdomain, m, vs[0], w);
      if s.outcome.Pass? {
        InitStepsKeepVersionRows(e, scene, subdomain, m, vs[1..], s.world);
      }
    }
  }

  /** Running the steps `vs` writes global rows only in the empty scene:
      those of the steps before the first failing one (versions above 0
      only), and no other. */
  lemma RunStepsVersionRows(e: Env, scene: string, subdomain: string, m: Module, vs: seq<int>, w: World)
    ensures RunSteps(e, scene, subdomain, m, vs, w).world.aVersion == w.aVersion +
              (if scene == "" then VersionRowsFor(m.relativeName, vs[..FirstFailure(e, scene, subdomain, m, vs)]) else [])
  {
    if scene == "" {
      UpdateStepsRows(e, subdomain, m, vs, w);
    } else {
      InitStepsKeepVersionRows(e, scene, subdomain, m, vs, w);
      assert w.aVersion + [] == w.aVersion;
    }
  }

  /** Running the steps `vs` in a nonempty scene writes the subdomain's init
      rows of the steps before the first failing one (versions above 0
      only), and no other. */
  lemma {:induction false} InitStepsRows(e: Env, scene: string, subdomain: string, m: Module, vs: seq<int>, w: World)
    requires scene != ""
    ensures RunSteps(e, scene, subdomain, m, vs, w).world.aVersionInit
         == w.aVersionInit + InitRowsFor(subdomain, m.relativeName, vs[..FirstFailure(e, scene, subdomain, m, vs)])
    decreases |vs|
  {
    if vs != [] {
      StepInitRows(e, scene, subdomain, m, vs[0], w);
      StepOutcome(e, scene, subdomain, m, vs[0], w);
      var s := Step(e, scene, subdomain, m, vs[0], w);
      if s.outcome.Fail? {
        assert vs[..0] == [];
      } else {
        var rest := vs[1..];
        InitStepsRows(e, scene, subdomain, m, rest, s.world);
        var k := FirstFailure(e, scene, subdomain, m, rest);
        var p := vs[..k + 1];
        assert p[0] == vs[0] && p[1..] == rest[..k];
        var row := if vs[0] > 0 then [InitRow(subdomain, m.relativeName, vs[0])] else [];
        var tail := InitRowsFor(subdomain, m.relativeName, rest[..k]);
        assert InitRowsFor(subdomain, m.relativeName, p) == row + tail;
        assert w.aVersionInit + row + tail == w.aVersionInit + (row + tail);
      }
    }
  }

  /** Running the steps `vs` in the empty scene writes no init row. */
  lemma {:induction false} UpdateStepsKeepInitRows(e: Env, subdomain: string, m: Module, vs: seq<int>, w: World)
    ensures RunSteps(e, "", subdomain, m, vs, w).world.aVersionInit == w.aVersionInit
    decreases |vs|
  {
    if vs != [] {
      StepInitRows(e, "", subdomain, m, vs[0], w);
      var s := Step(e, "", subdomain, m, vs[0], w);
      if s.outcome.Pass? {
        UpdateStepsKeepInitRows(e, subdomain, m, vs[1..], s.world);
      }
    }
  }

  /** Running the steps `vs` writes init rows only in a nonempty scene:
      those of the steps before the first failing one (versions above 0
      only), and no other. */
  lemma RunStepsInitRows(e: Env, scene: string, subdomain: string, m: Module, vs: seq<int>, w: World)
    ensures RunSteps(e, scene, subdomain, m, vs, w).world.aVersionInit == w.aVersionInit +
              (if scene == "" then [] else InitRowsFor(subdomain, m.relativeName, vs[..FirstFailure(e, scene, subdomain, m, vs)]))
  {
    if scene == "" {
      UpdateStepsKeepInitRows(e, subdomain, m, vs, w);
      assert w.aVersionInit + [] == w.aVersionInit;
    } else {
      InitStepsRows(e, scene, subdomain, m, vs, w);
    }
  }

  /** Running the steps `vs` fails exactly when one of their calls fails,
      with the first failing call; the result map and `aVersion`'s existence
      do not change. */
  lemma {:induction false} RunStepsOutcome(e: Env, scene: string, subdomain: string, m: Module, vs: seq<int>, w: World)
    ensures var r := RunSteps(e, scene, subdomain, m, vs, w);
            var n := FirstFailure(e, scene, subdomain, m, vs);
            && r.outcome == (if n < |vs| then Fail(StepFailed(StepCall(e, scene, subdomain, m, vs[n]).value)) else Pass)
            && r.world.hasVersionTable == w.hasVersionTable
            && r.world.result == w.result
    decreases |vs|
  {
    if vs != [] {
      StepOutcome(e, scene, subdomain, m, vs[0], w);
      var s := Step(e, scene, subdomain, m, vs[0], w);
      if s.outcome.Pass? {
        RunStepsOutcome(e, scene, subdomain, m, vs[1..], s.world);
      }
    }
  }

  /** Running the steps `vs` creates `aVersionInit` exactly when the calls
      of the steps that ran include the service's own step 2 and it
      succeeded. */
  lemma {:induction false} RunStepsInitTable(e: Env, scene: string, subdomain: string, m: Module, vs: seq<int>, w: World)
    ensures RunSteps(e, scene, subdomain, m, vs, w).world.hasInitTable
         == (w.hasInitTable || CreatesInitTable(e, CallsOf(e, scene, subdomain, m, vs[..Ran(e, scene, subdomain, m, vs)])))
    decreases |vs|
  {
    if vs != [] {
      StepOutcome(e, scene, subdomain, m, vs[0], w);
      var s := Step(e, scene, subdomain, m, vs[0], w);
      if s.outcome.Fail? {
        assert vs[..1] == [vs[0]];
        assert [vs[0]][1..] == [];
      } else {
        var rest := vs[1..];
        RunStepsInitTable(e, scene, subdomain, m, rest, s.world);
        var k := Ran(e, scene, subdomain, m, rest);
        var p := vs[..k + 1];
        assert p[0] == vs[0] && p[1..] == rest[..k];
        assert CallsOf(e, scene, subdomain, m, p)
            == CallOf(e, scene, subdomain, m, vs[0]) + CallsOf(e, scene, subdomain, m, rest[..k]);
      }
    }
  }

  // ---------------------------------------------------------------------
  // `__updateModule` over a range fileVersionOld + 1 .. fileVersionNew
  // ---------------------------------------------------------------------

  /** The steps of a range run in ascending order while their calls succeed:
      `n` of them succeed, and if fewer than all, step `from + 1 + n` fails. */
  lemma FirstFailureRange(e: Env, scene: string, subdomain: string, m: Module, from: int, target: int)
    requires from < target
    ensures var n := FirstFailure(e, scene, subdomain, m, Steps(from, target));
            && n <= target - from
            && (forall v :: from < v <= from + n ==> !StepFails(e, scene, subdomain, m, v))
            && (n < target - from ==> StepFails(e, scene, subdomain, m, from + 1 + n))
  {
    var vs := Steps(from, target);
    var n := FirstFailure(e, scene, subdomain, m, vs);
    forall v | from < v <= from + n ensures !StepFails(e, scene, subdomain, m, v) {
      var k := v - from - 1;
      assert vs[k] == v && !StepFails(e, scene, subdomain, m, vs[k]);
    }
  }

  /** `__updateModule` is its loop over its versions followed by the log of
      `result`: the log changes no call and no row. */
  lemma RangeRun(e: Env, scene: string, subdomain: string, m: Module, from: int, target: int, w: World)
    ensures var r := UpdateModuleSpec(e, scene, subdomain, m, from, target, w);
            var rs := RunSteps(e, scene, subdomain, m, UpdateVersions(from, target), w);
            && r.outcome == rs.outcome
            && r.world.trace == rs.world.trace
            && r.world.aVersion == rs.world.aVersion
            && r.world.aVersionInit == rs.world.aVersionInit
            && r.world.hasInitTable == rs.world.hasInitTable
  {
  }

  /** On the global track `__updateModule` over a range writes the rows of
      the versions before the first failing step, and no init row. */
  lemma RangeVersionRows(e: Env, subdomain: string, m: Module, from: int, target: int, w: World)
    requires 0 < target && from < target
    ensures var r := UpdateModuleSpec(e, "", subdomain, m, from, target, w);
            var n := FirstFailure(e, "", subdomain, m, Steps(from, target));
            && r.world.aVersion == w.aVersion + VersionRowsFor(m.relativeName, Steps(from, from + n))
            && r.world.aVersionInit == w.aVersionInit
  {
    var vs := Steps(from, target);
    RangeRun(e, "", subdomain, m, from, target, w);
    UpdateStepsRows(e, subdomain, m, vs, w);
    UpdateStepsKeepInitRows(e, subdomain, m, vs, w);
    StepsSplit(from, FirstFailure(e, "", subdomain, m, vs), target);
  }

  /** On the init track `__updateModule` over a range writes the
      subdomain's rows of the versions before the first failing step, and no
      global row. */
  lemma RangeInitRows(e: Env, scene: string, subdomain: string, m: Module, from: int, target: int, w: World)
    requires scene != "" && 0 < target && from < target
    ensures var r := UpdateModuleSpec(e, scene, subdomain, m, from, target, w);
            var n := FirstFailure(e, scene, subdomain, m, Steps(from, target));
            && r.world.aVersionInit == w.aVersionInit + InitRowsFor(subdomain, m.relativeName, Steps(from, from + n))
            && r.world.aVersion == w.aVersion
  {
    var vs := Steps(from, target);
    RangeRun(e, scene, subdomain, m, from, target, w);
    InitStepsRows(e, scene, subdomain, m, vs, w);
    InitStepsKeepVersionRows(e, scene, subdomain, m, vs, w);
    StepsSplit(from, FirstFailure(e, scene, subdomain, m, vs), target);
  }

  /** `__updateModule` over a range succeeds exactly when every step does,
      fails with the first failing step's call otherwise, and logs
      `result[relativeName] = {fileVersionOld, fileVersionNew}` only on
      success; it does not touch `aVersion`'s existence (RangeInitTable says
      when it creates `aVersionInit`). */
  lemma RangeOutcome(e: Env, scene: string, subdomain: string, m: Module, from: int, target: int, w: World)
    requires 0 < target && from < target
    ensures var r := UpdateModuleSpec(e, scene, subdomain, m, from, target, w);
            var n := FirstFailure(e, scene, subdomain, m, Steps(from, target));
            && (r.outcome.Pass? <==> n == target - from)
            && (n < target - from ==> r.outcome == Fail(StepFailed(StepCall(e, scene, subdomain, m, from + 1 + n).value)))
            && r.world.result == (if n == target - from then w.result[m.relativeName := VersionPair(from, target)] else w.result)
            && r.world.hasVersionTable == w.hasVersionTable
  {
    var vs := Steps(from, target);
    RangeRun(e, scene, subdomain, m, from, target, w);
    RunStepsOutcome(e, scene, subdomain, m, vs, w);
    var n := FirstFailure(e, scene, subdomain, m, vs);
    assert n < |vs| ==> vs[n] == from + 1 + n;
  }

  /** A run of consecutive update calls of one module, each succeeding up
      to the first failure, holds a successful step 2 of the service's own
      module exactly when the module is the service's own and step 2 is
      among those before the failure. */
  lemma UpdateCallsCreateInitTable(e: Env, cs: seq<Call>, name: string, from: int, n: nat)
    requires forall k :: 0 <= k < |cs| ==> cs[k] == UpdateStep(name, from + 1 + k)
    requires forall v :: from < v <= from + n ==> UpdateStep(name, v) !in e.failing
    requires |cs| == n || (|cs| == n + 1 && UpdateStep(name, from + 1 + n) in e.failing)
    ensures CreatesInitTable(e, cs) == (name == SelfName && from < 2 <= from + n)
  {
    if name == SelfName && from < 2 <= from + n {
      assert cs[1 - from] == UpdateStep(SelfName, 2);
    }
  }

  /** On the global track the calls of the steps of a range that ran
      include a successful step 2 of the service's own module exactly when
      it is that module and step 2 is among the steps that succeeded. */
  lemma RangeCallsCreateInitTable(e: Env, subdomain: string, m: Module, from: int, target: int)
    requires from < target
    ensures var vs := Steps(from, target);
            CreatesInitTable(e, CallsOf(e, "", subdomain, m, vs[..Ran(e, "", subdomain, m, vs)]))
            == (m.relativeName == SelfName && from < 2 <= from + FirstFailure(e, "", subdomain, m, vs))
  {
    var vs := Steps(from, target);
    var n := FirstFailure(e, "", subdomain, m, vs);
    var ran := Ran(e, "", subdomain, m, vs);
    UpdateTrackCalls(e, subdomain, m, vs[..ran]);
    forall v | from < v <= from + n ensures UpdateStep(m.relativeName, v) !in e.failing {
      FirstFailureRange(e, "", subdomain, m, from, target);
      assert !StepFails(e, "", subdomain, m, v);
    }
    assert ran != n ==> UpdateStep(m.relativeName, from + 1 + n) in e.failing by {
      FirstFailureRange(e, "", subdomain, m, from, target);
    }
    UpdateCallsCreateInitTable(e, CallsOf(e, "", subdomain, m, vs[..ran]), m.relativeName, from, n);
  }

  /** In a nonempty scene the steps only call init handlers, so they never
      create `aVersionInit`. */
  lemma {:induction false} InitCallsKeepInitTable(e: Env, scene: string, subdomain: string, m: Module, vs: seq<int>)
    requires scene != ""
    ensures !CreatesInitTable(e, CallsOf(e, scene, subdomain, m, vs))
  {
    InitTrackCalls(e, scene, subdomain, m, vs);
    var cs := CallsOf(e, scene, subdomain, m, vs);
    assert forall k :: 0 <= k < |cs| ==> cs[k].InitStep?;
  }

  /** `__updateModule` over a range creates `aVersionInit` exactly when it
      migrates the service's own module on the global track and step 2 is
      among the steps that succeeded. */
  lemma RangeInitTable(e: Env, scene: string, subdomain: string, m: Module, from: int, target: int, w: World)
    requires 0 < target && from < target
    ensures var r := UpdateModuleSpec(e, scene, subdomain, m, from, target, w);
            var n := FirstFailure(e, scene, subdomain, m, Steps(from, target));
            r.world.hasInitTable == (w.hasInitTable || (scene == "" && m.relativeName == SelfName && from < 2 <= from + n))
  {
    var vs := Steps(from, target);
    RangeRun(e, scene, subdomain, m, from, target, w);
    RunStepsInitTable(e, scene, subdomain, m, vs, w);
    if scene == "" {
      RangeCallsCreateInitTable(e, subdomain, m, from, target);
    } else {
      InitCallsKeepInitTable(e, scene, subdomain, m, vs[..Ran(e, scene, subdomain, m, vs)]);
    }
  }

  /** On the global track the loop over a range calls the update handler
      for the versions `from + 1 ..` of the steps that ran, ascending. */
  lemma RangeUpdateTrace(e: Env, subdomain: string, m: Module, from: int, target: int, w: World)
    requires from < target
    ensures var t := RunSteps(e, "", subdomain, m, Steps(from, target), w).world.trace;
            && |t| == |w.trace| + Ran(e, "", subdomain, m, Steps(from, target))
            && t[..|w.trace|] == w.trace
            && forall k :: |w.trace| <= k < |t| ==> t[k] == UpdateStep(m.relativeName, from + 1 + k - |w.trace|)
  {
    var vs := Steps(from, target);
    var ran := Ran(e, "", subdomain, m, vs);
    RunStepsTrace(e, "", subdomain, m, vs, w);
    UpdateTrackCalls(e, subdomain, m, vs[..ran]);
    AppendGrows(w.trace, CallsOf(e, "", subdomain, m, vs[..ran]));
  }

  /** On the init track the loop over a range calls the init handler of a
      module that has one for the versions `from + 1 ..` of the steps that
      ran, ascending. */
  lemma RangeInitTrace(e: Env, scene: string, subdomain: string, m: Module, from: int, target: int, w: World)
    requires scene != "" && from < target && InitPath(m) in e.routes
    ensures var t := RunSteps(e, scene, subdomain, m, Steps(from, target), w).world.trace;
            && |t| == |w.trace| + Ran(e, scene, subdomain, m, Steps(from, target))
            && t[..|w.trace|] == w.trace
            && forall k :: |w.trace| <= k < |t| ==> t[k] == InitStep(subdomain, m.relativeName, from + 1 + k - |w.trace|)
  {
    var vs := Steps(from, target);
    var ran := Ran(e, scene, subdomain, m, vs);
    var calls := CallsOf(e, scene, subdomain, m, vs[..ran]);
    RunStepsTrace(e, scene, subdomain, m, vs, w);
    InitTrackCalls(e, scene, subdomain, m, vs[..ran]);
    AppendGrows(w.trace, calls);
    var t := w.trace + calls;
    forall k | |w.trace| <= k < |t| ensures t[k] == InitStep(subdomain, m.relativeName, from + 1 + k - |w.trace|) {
      assert t[k] == calls[k - |w.trace|] && vs[..ran][k - |w.trace|] == vs[k - |w.trace|];
    }
  }

  /** On the init track a module without an init route makes no call, and
      every step of a range succeeds. */
  lemma RangeWithoutInitRoute(e: Env, scene: string, subdomain: string, m: Module, from: int, target: int, w: World)
    requires scene != "" && from < target && InitPath(m) !in e.routes
    ensures RunSteps(e, scene, subdomain, m, Steps(from, target), w).world.trace == w.trace
    ensures FirstFailure(e, scene, subdomain, m, Steps(from, target)) == target - from
  {
    var vs := Steps(from, target);
    RunStepsTrace(e, scene, subdomain, m, vs, w);
    InitTrackCalls(e, scene, subdomain, m, vs);
    assert vs[..Ran(e, scene, subdomain, m, vs)] == vs;
    assert w.trace + [] == w.trace;
  }

  /** Global track: the update handler is called for exactly the versions
      `from + 1 ..`, ascending, each once, up to and including the first
      whose call fails; before that, every call succeeded. */
  lemma UpdateRangeCalls(e: Env, subdomain: string, m: Module, from: int, target: int, w: World)
    requires 0 < target && from < target
    ensures var r := UpdateModuleSpec(e, "", subdomain, m, from, target, w);
            var n := FirstFailure(e, "", subdomain, m, Steps(from, target));
            && n <= target - from
            && (forall v :: from < v <= from + n ==> UpdateStep(m.relativeName, v) !in e.failing)
            && (n < target - from ==> UpdateStep(m.relativeName, from + 1 + n) in e.failing)
            && |r.world.trace| == |w.trace| + (if n < target - from then n + 1 else n)
            && r.world.trace[..|w.trace|] == w.trace
            && (forall k :: |w.trace| <= k < |r.world.trace| ==>
                  r.world.trace[k] == UpdateStep(m.relativeName, from + 1 + k - |w.trace|))
  {
    var n := FirstFailure(e, "", subdomain, m, Steps(from, target));
    FirstFailureRange(e, "", subdomain, m, from, target);
    forall v | from < v <= from + n ensures UpdateStep(m.relativeName, v) !in e.failing {
      assert !StepFails(e, "", subdomain, m, v);
    }
    RangeRun(e, "", subdomain, m, from, target, w);
    RangeUpdateTrace(e, subdomain, m, from, target, w);
  }

  /** Init track: a module with an init route has it called for exactly the
      versions `from + 1 ..`, ascending, each once, up to and including the
      first whose call fails; a module without one makes no call and no step
      fails. */
  lemma InitRangeCalls(e: Env, subdomain: string, m: Module, from: int, target: int, w: World)
    requires 0 < target && from < target
    ensures var r := UpdateModuleSpec(e, "init", subdomain, m, from, target, w);
            var n := FirstFailure(e, "init", subdomain, m, Steps(from, target));
            && n <= target - from
            && (forall v :: from < v <= from + n ==> !(InitPath(m) in e.routes && InitStep(subdomain, m.relativeName, v) in e.failing))
            && (n < target - from ==> InitPath(m) in e.routes && InitStep(subdomain, m.relativeName, from + 1 + n) in e.failing)
            && (InitPath(m) in e.routes ==>
                 && |r.world.trace| == |w.trace| + (if n < target - from then n + 1 else n)
                 && r.world.trace[..|w.trace|] == w.trace
                 && (forall k :: |w.trace| <= k < |r.world.trace| ==>
                       r.world.trace[k] == InitStep(subdomain, m.relativeName, from + 1 + k - |w.trace|)))
            && (InitPath(m) !in e.routes ==> r.world.trace == w.trace && n == target - from)
  {
    var n := FirstFailure(e, "init", subdomain, m, Steps(from, target));
    FirstFailureRange(e, "init", subdomain, m, from, target);
    forall v | from < v <= from + n
      ensures !(InitPath(m) in e.routes && InitStep(subdomain, m.relativeName, v) in e.failing)
    {
      assert !StepFails(e, "init", subdomain, m, v);
    }
    RangeRun(e, "init", subdomain, m, from, target, w);
    if InitPath(m) in e.routes {
      RangeInitTrace(e, "init", subdomain, m, from, target, w);
    } else {
      RangeWithoutInitRoute(e, "init", subdomain, m, from, target, w);
    }
  }

  /** A ledger to which the rows of the range `from + 1 .. from + n` were
      appended, on the track the scene selects, moves the module from version
      `from` to `from + n`. */
  lemma LedgerAfterRange(w: World, w': World, scene: string, subdomain: string, name: string, from: int, n: nat)
    requires FileVersionOld(w, scene, subdomain, name) == from
    requires n == 0 || 0 < from + n
    requires scene == "" ==> w'.aVersion == w.aVersion + VersionRowsFor(name, Steps(from, from + n))
    requires scene != "" ==> w'.aVersionInit == w.aVersionInit + InitRowsFor(subdomain, name, Steps(from, from + n))
    ensures FileVersionOld(w', scene, subdomain, name) == from + n
  {
    if scene == "" {
      CurrentVersionAfterRange(w.aVersion, name, from, n);
    } else {
      CurrentInitVersionAfterRange(w.aVersionInit, subdomain, name, from, n);
    }
  }

  /** A successful run of a range from the module's current version leaves
      the target as its current version. */
  lemma RangeReachesTarget(e: Env, scene: string, subdomain: string, m: Module, from: int, target: int, w: World)
    requires scene == "" || scene == "init"
    requires 0 < target && from < target
    requires FileVersionOld(w, scene, subdomain, m.relativeName) == from
    requires UpdateModuleSpec(e, scene, subdomain, m, from, target, w).outcome.Pass?
    ensures FileVersionOld(UpdateModuleSpec(e, scene, subdomain, m, from, target, w).world, scene, subdomain, m.relativeName)
         == target
  {
    RangeOutcome(e, scene, subdomain, m, from, target, w);
    if scene == "" {
      RangeVersionRows(e, subdomain, m, from, target, w);
    } else {
      RangeInitRows(e, scene, subdomain, m, from, target, w);
    }
    LedgerAfterRange(w, UpdateModuleSpec(e, scene, subdomain, m, from, target, w).world,
                     scene, subdomain, m.relativeName, from, target - from);
  }

  /** A run of a range from the module's current version (at least 0) that
      fails at step `v` leaves `v - 1` as its current version. */
  lemma RangeResume(e: Env, scene: string, subdomain: string, m: Module, from: int, target: int, w: World)
    requires scene == "" || scene == "init"
    requires 0 <= from < target
    requires FileVersionOld(w, scene, subdomain, m.relativeName) == from
    requires UpdateModuleSpec(e, scene, subdomain, m, from, target, w).outcome.Fail?
    ensures var r := UpdateModuleSpec(e, scene, subdomain, m, from, target, w);
            var v := from + 1 + FirstFailure(e, scene, subdomain, m, Steps(from, target));
            && from < v <= target
            && r.outcome == Fail(StepFailed(StepCall(e, scene, subdomain, m, v).value))
            && FileVersionOld(r.world, scene, subdomain, m.relativeName) == v - 1
  {
    var n := FirstFailure(e, scene, subdomain, m, Steps(from, target));
    RangeOutcome(e, scene, subdomain, m, from, target, w);
    if scene == "" {
      RangeVersionRows(e, subdomain, m, from, target, w);
    } else {
      RangeInitRows(e, scene, subdomain, m, from, target, w);
    }
    LedgerAfterRange(w, UpdateModuleSpec(e, scene, subdomain, m, from, target, w).world,
                     scene, subdomain, m.relativeName, from, n);
  }

  /** A rerun after a failure at step `v` of the range `from + 1 .. target`
      starts from `v - 1` and so runs exactly the part of the original range
      from `v` on: the versions that had not yet succeeded. */
  lemma RerunRunsRest(from: int, v: int, target: int)
    requires 0 <= from < v <= target
    ensures UpdateVersions(v - 1, target) == Steps(from, target)[v - 1 - from..]
  {
    StepsSplit(from, v - 1 - from, target);
  }

  // ---------------------------------------------------------------------
  // One module
  // ---------------------------------------------------------------------

  /** A module that migrates to a positive target from below runs
      `__updateModule` from its current version to that target. */
  lemma BehindTargetRunsUpdate(e: Env, scene: string, subdomain: string, name: string, w: World)
    requires name in e.modules
    requires scene == "" || scene == "init"
    requires 0 < FileVersionNew(e.modules[name])
    requires FileVersionOld(w, scene, subdomain, name) < FileVersionNew(e.modules[name])
    ensures CheckModuleSpec(e, scene, subdomain, name, w)
         == UpdateModuleSpec(e, scene, subdomain, e.modules[name],
                             FileVersionOld(w, scene, subdomain, name), FileVersionNew(e.modules[name]), w)
  {
  }

  /** Global track, end to end: a module behind its target calls its update
      handler for exactly the versions `fileVersionOld + 1 ..`, ascending,
      each once, up to and including the first whose call fails; it logs its
      result only when it reached the target. */
  lemma UpdateTrackRunsExactRange(e: Env, subdomain: string, name: string, w: World)
    requires name in e.modules
    requires 0 < FileVersionNew(e.modules[name])
    requires FileVersionOld(w, "", subdomain, name) < FileVersionNew(e.modules[name])
    ensures var m := e.modules[name];
            var target := FileVersionNew(m);
            var from := FileVersionOld(w, "", subdomain, name);
            var r := CheckModuleSpec(e, "", subdomain, name, w);
            var n := FirstFailure(e, "", subdomain, m, Steps(from, target));
            && |r.world.trace| == |w.trace| + (if n < target - from then n + 1 else n)
            && r.world.trace[..|w.trace|] == w.trace
            && (forall k :: |w.trace| <= k < |r.world.trace| ==>
                  r.world.trace[k] == UpdateStep(m.relativeName, from + 1 + k - |w.trace|))
            && (r.outcome.Pass? <==> n == target - from)
            && r.world.result == (if n == target - from then w.result[m.relativeName := VersionPair(from, target)] else w.result)
  {
    var m := e.modules[name];
    var from := FileVersionOld(w, "", subdomain, name);
    BehindTargetRunsUpdate(e, "", subdomain, name, w);
    UpdateRangeCalls(e, subdomain, m, from, FileVersionNew(m), w);
    RangeOutcome(e, "", subdomain, m, from, FileVersionNew(m), w);
  }

  /** Init track, end to end: as UpdateTrackRunsExactRange with the init
      handler, which is skipped (and cannot fail) when the module has no init
      route. */
  lemma InitTrackRunsExactRange(e: Env, subdomain: string, name: string, w: World)
    requires name in e.modules
    requires 0 < FileVersionNew(e.modules[name])
    requires FileVersionOld(w, "init", subdomain, name) < FileVersionNew(e.modules[name])
    ensures var m := e.modules[name];
            var target := FileVersionNew(m);
            var from := FileVersionOld(w, "init", subdomain, name);
            var r := CheckModuleSpec(e, "init", subdomain, name, w);
            var n := FirstFailure(e, "init", subdomain, m, Steps(from, target));
            && (InitPath(m) in e.routes ==>
                 && |r.world.trace| == |w.trace| + (if n < target - from then n + 1 else n)
                 && r.world.trace[..|w.trace|] == w.trace
                 && (forall k :: |w.trace| <= k < |r.world.trace| ==>
                       r.world.trace[k] == InitStep(subdomain, m.relativeName, from + 1 + k - |w.trace|)))
            && (InitPath(m) !in e.routes ==> r.world.trace == w.trace && r.outcome.Pass?)
            && (r.outcome.Pass? <==> n == target - from)
            && r.world.result == (if n == target - from then w.result[m.relativeName := VersionPair(from, target)] else w.result)
  {
    var m := e.modules[name];
    var from := FileVersionOld(w, "init", subdomain, name);
    BehindTargetRunsUpdate(e, "init", subdomain, name, w);
    InitRangeCalls(e, subdomain, m, from, FileVersionNew(m), w);
    RangeOutcome(e, "init", subdomain, m, from, FileVersionNew(m), w);
  }

  /** A recorded version above the target is a downgrade: the module fails
      with error 1001 naming it, and nothing is called or written. */
  lemma DowngradeIsRejected(e: Env, scene: string, subdomain: string, name: string, w: World)
    requires name in e.modules
    requires scene == "" || scene == "init"
    requires FileVersionNew(e.modules[name]) != 0 && FileVersionNew(e.modules[name]) != -1
    requires FileVersionOld(w, scene, subdomain, name) > FileVersionNew(e.modules[name])
    ensures CheckModuleSpec(e, scene, subdomain, name, w) == Run(w, Fail(VersionDowngrade(1001, name)))
  {
  }

  /** A module already at its target is left alone: no call, no row, and no
      `result` entry. */
  lemma UpToDateIsNoop(e: Env, scene: string, subdomain: string, name: string, w: World)
    requires name in e.modules
    requires scene == "" || scene == "init"
    requires FileVersionNew(e.modules[name]) != -1
    requires FileVersionOld(w, scene, subdomain, name) == FileVersionNew(e.modules[name])
    ensures CheckModuleSpec(e, scene, subdomain, name, w) == Run(w, Pass)
  {
  }

  /** The "always" sentinel -1: on every pass, whatever the ledgers hold,
      exactly one step with version -1 is run; no row is ever written; and a
      successful run logs `result[name] = {-1, -1}`. */
  lemma SentinelRunsOnceAndIsNeverRecorded(e: Env, scene: string, subdomain: string, name: string, w: World)
    requires name in e.modules
    requires scene == "" || scene == "init"
    requires FileVersionNew(e.modules[name]) == -1
    ensures var m := e.modules[name];
            var r := CheckModuleSpec(e, scene, subdomain, name, w);
            && r.world.aVersion == w.aVersion
            && r.world.aVersionInit == w.aVersionInit
            && (scene == "" ==> r.world.trace == w.trace + [UpdateStep(m.relativeName, -1)])
            && (scene == "init" && InitPath(m) in e.routes ==> r.world.trace == w.trace + [InitStep(subdomain, m.relativeName, -1)])
            && (scene == "init" && InitPath(m) !in e.routes ==> r.world.trace == w.trace && r.outcome.Pass?)
            && (r.outcome.Pass? ==> r.world.result == w.result[m.relativeName := VersionPair(-1, -1)])
            && (r.outcome.Fail? ==> r.world.result == w.result)
  {
    var m := e.modules[name];
    RunStepsTrace(e, scene, subdomain, m, [-1], w);
    RunStepsVersionRows(e, scene, subdomain, m, [-1], w);
    RunStepsInitRows(e, scene, subdomain, m, [-1], w);
    RunStepsOutcome(e, scene, subdomain, m, [-1], w);
    assert [-1][..0] == [] && [-1][..1] == [-1];
  }

  /** Scene dispatch: the 'test' scene never migrates and only calls the
      module's test handler (when it has one) with its target version, which
      is 0 when none is declared; with no declared target, or in any other
      scene, a module is left alone. */
  lemma SceneDispatch(e: Env, scene: string, subdomain: string, name: string, w: World)
    requires name in e.modules
    ensures var m := e.modules[name];
            var target := FileVersionNew(m);
            var r := CheckModuleSpec(e, scene, subdomain, name, w);
            && (m.fileVersion == None ==> target == 0)
            && (scene == "test" ==>
                 && r.world.aVersion == w.aVersion
                 && r.world.aVersionInit == w.aVersionInit
                 && r.world.result == w.result
                 && r.world.trace == w.trace + (if TestPath(m) in e.routes then [TestStep(subdomain, m.relativeName, target)] else [])
                 && (r.outcome.Fail? <==> TestPath(m) in e.routes && TestStep(subdomain, m.relativeName, target) in e.failing))
            && (scene != "test" && (target == 0 || (scene != "" && scene != "init")) ==> r == Run(w, Pass))
  {
  }

  /** After a successful run of a module its current version is its target:
      a later pass finds nothing to do. */
  lemma CompletedRunReachesTarget(e: Env, scene: string, subdomain: string, name: string, w: World)
    requires name in e.modules && e.modules[name].relativeName == name
    requires scene == "" || scene == "init"
    requires 0 < FileVersionNew(e.modules[name])
    requires CheckModuleSpec(e, scene, subdomain, name, w).outcome.Pass?
    ensures FileVersionOld(CheckModuleSpec(e, scene, subdomain, name, w).world, scene, subdomain, name)
         == FileVersionNew(e.modules[name])
  {
    var m := e.modules[name];
    var from := FileVersionOld(w, scene, subdomain, name);
    if from < FileVersionNew(m) {
      BehindTargetRunsUpdate(e, scene, subdomain, name, w);
      RangeReachesTarget(e, scene, subdomain, m, from, FileVersionNew(m), w);
    }
  }

  /** Resume after failure: when a module behind its target (from a
      version of at least 0) fails, it fails at step `v`, the first whose
      call fails; the ledger then holds its rows up to `v - 1` and none from
      `v` on, so its current version becomes `v - 1` (and by RerunRunsRest a
      rerun runs exactly the versions that had not yet succeeded). */
  lemma ResumeAfterFailure(e: Env, scene: string, subdomain: string, name: string, w: World)
    requires name in e.modules && e.modules[name].relativeName == name
    requires scene == "" || scene == "init"
    requires 0 <= FileVersionOld(w, scene, subdomain, name) < FileVersionNew(e.modules[name])
    requires CheckModuleSpec(e, scene, subdomain, name, w).outcome.Fail?
    ensures var m := e.modules[name];
            var target := FileVersionNew(m);
            var from := FileVersionOld(w, scene, subdomain, name);
            var v := from + 1 + FirstFailure(e, scene, subdomain, m, Steps(from, target));
            && from < v <= target
            && FileVersionOld(CheckModuleSpec(e, scene, subdomain, name, w).world, scene, subdomain, name) == v - 1
  {
    var m := e.modules[name];
    BehindTargetRunsUpdate(e, scene, subdomain, name, w);
    RangeResume(e, scene, subdomain, m, FileVersionOld(w, scene, subdomain, name), FileVersionNew(m), w);
  }

  /** Self-migration: a pass on the global track that brings the service's
      own module from below version 2 to a target of at least 2 runs its
      step 2, `update(2)`, which creates `aVersionInit`. */
  lemma SelfMigrationCreatesInitTable(e: Env, subdomain: string, w: World)
    requires SelfName in e.modules && e.modules[SelfName].relativeName == SelfName
    requires FileVersionOld(w, "", subdomain, SelfName) < 2 <= FileVersionNew(e.modules[SelfName])
    requires CheckModuleSpec(e, "", subdomain, SelfName, w).outcome.Pass?
    ensures CheckModuleSpec(e, "", subdomain, SelfName, w).world.hasInitTable
  {
    var m := e.modules[SelfName];
    var from := FileVersionOld(w, "", subdomain, SelfName);
    BehindTargetRunsUpdate(e, "", subdomain, SelfName, w);
    RangeOutcome(e, "", subdomain, m, from, FileVersionNew(m), w);
    RangeInitTable(e, "", subdomain, m, from, FileVersionNew(m), w);
  }

  // ---------------------------------------------------------------------
  // The ledger records every version from 1 up, once each
  // ---------------------------------------------------------------------

  /** The module's rows in the global ledger record exactly the versions
      `1 .. currentVersion`, in that order: no gap and no repeat. */
  ghost predicate Gapless(rows: seq<VersionRow>, name: string) {
    VersionsOf(rows, name) == Steps(0, CurrentVersion(rows, name))
  }

  /** The init-ledger analogue of Gapless, for one `(subdomain, module)` pair. */
  ghost predicate InitGapless(rows: seq<InitRow>, subdomain: string, name: string) {
    InitVersionsOf(rows, subdomain, name) == Steps(0, CurrentInitVersion(rows, subdomain, name))
  }

  /** Two adjacent ranges together are one range. */
  lemma StepsJoin(lo: int, mid: int, hi: int)
    requires lo <= mid <= hi
    ensures Steps(lo, mid) + Steps(mid, hi) == Steps(lo, hi)
  {
    StepsSplit(lo, mid - lo, hi);
    assert Steps(lo, hi) == Steps(lo, hi)[..mid - lo] + Steps(lo, hi)[mid - lo..];
  }

  /** The rows a range from at least 0 writes record exactly its versions. */
  lemma RangeRowsVersions(name: string, lo: int, hi: int)
    requires 0 <= lo
    ensures VersionsOf(VersionRowsFor(name, Steps(lo, hi)), name) == Steps(lo, hi)
  {
    RangeRowsAreExact(name, lo, hi);
    VersionsOfOwnRows(VersionRowsFor(name, Steps(lo, hi)), name);
  }

  /** The init-ledger analogue of RangeRowsVersions. */
  lemma RangeInitRowsVersions(subdomain: string, name: string, lo: int, hi: int)
    requires 0 <= lo
    ensures InitVersionsOf(InitRowsFor(subdomain, name, Steps(lo, hi)), subdomain, name) == Steps(lo, hi)
  {
    RangeInitRowsAreExact(subdomain, name, lo, hi);
    InitVersionsOfOwnRows(InitRowsFor(subdomain, name, Steps(lo, hi)), subdomain, name);
  }

  /** A gapless ledger is never below version 0. */
  lemma GaplessIsNatural(rows: seq<VersionRow>, name: string)
    requires Gapless(rows, name)
    ensures 0 <= CurrentVersion(rows, name)
  {
    var vs := VersionsOf(rows, name);
    if exists i :: 0 <= i < |rows| && rows[i].moduleName == name {
      var i :| 0 <= i < |rows| && rows[i].moduleName == name && rows[i].version == CurrentVersion(rows, name);
      assert rows[i].version in vs;
    }
  }

  /** The init-ledger analogue of GaplessIsNatural. */
  lemma InitGaplessIsNatural(rows: seq<InitRow>, subdomain: string, name: string)
    requires InitGapless(rows, subdomain, name)
    ensures 0 <= CurrentInitVersion(rows, subdomain, name)
  {
    var vs := InitVersionsOf(rows, subdomain, name);
    if exists i :: 0 <= i < |rows| && rows[i].subdomain == subdomain && rows[i].moduleName == name {
      var i :| 0 <= i < |rows| && rows[i].subdomain == subdomain && rows[i].moduleName == name
               && rows[i].version == CurrentInitVersion(rows, subdomain, name);
      assert rows[i].version in vs;
    }
  }

  /** Appending the rows of the range `from + 1 .. from + n` to a gapless
      ledger at version `from` leaves it gapless. */
  lemma GaplessAfterRange(rows: seq<VersionRow>, after: seq<VersionRow>, name: string, from: int, n: nat)
    requires Gapless(rows, name) && CurrentVersion(rows, name) == from
    requires after == rows + VersionRowsFor(name, Steps(from, from + n))
    ensures Gapless(after, name)
  {
    var more := VersionRowsFor(name, Steps(from, from + n));
    GaplessIsNatural(rows, name);
    CurrentVersionAfterRange(rows, name, from, n);
    VersionsOfAppend(rows, more, name);
    RangeRowsVersions(name, from, from + n);
    StepsJoin(0, from, from + n);
  }

  /** The init-ledger analogue of GaplessAfterRange. */
  lemma InitGaplessAfterRange(rows: seq<InitRow>, after: seq<InitRow>, subdomain: string, name: string, from: int, n: nat)
    requires InitGapless(rows, subdomain, name) && CurrentInitVersion(rows, subdomain, name) == from
    requires after == rows + InitRowsFor(subdomain, name, Steps(from, from + n))
    ensures InitGapless(after, subdomain, name)
  {
    var more := InitRowsFor(subdomain, name, Steps(from, from + n));
    InitGaplessIsNatural(rows, subdomain, name);
    CurrentInitVersionAfterRange(rows, subdomain, name, from, n);
    InitVersionsOfAppend(rows, more, subdomain, name);
    RangeInitRowsVersions(subdomain, name, from, from + n);
    StepsJoin(0, from, from + n);
  }

  /** A module whose global ledger records `1 .. currentVersion` still does
      after its run on the global track, whether the run completes, fails
      part-way, is rejected as a downgrade or has nothing to do. */
  lemma UpdateKeepsLedgerGapless(e: Env, subdomain: string, name: string, w: World)
    requires name in e.modules && e.modules[name].relativeName == name
    requires Gapless(w.aVersion, name)
    ensures Gapless(CheckModuleSpec(e, "", subdomain, name, w).world.aVersion, name)
  {
    var m := e.modules[name];
    var target := FileVersionNew(m);
    var from := CurrentVersion(w.aVersion, name);
    var after := CheckModuleSpec(e, "", subdomain, name, w).world.aVersion;
    if target == 0 {
      SceneDispatch(e, "", subdomain, name, w);
      assert after == w.aVersion;
    } else if target == -1 {
      SentinelRunsOnceAndIsNeverRecorded(e, "", subdomain, name, w);
      assert after == w.aVersion;
    } else if from > target {
      DowngradeIsRejected(e, "", subdomain, name, w);
      assert after == w.aVersion;
    } else if from == target {
      UpToDateIsNoop(e, "", subdomain, name, w);
      assert after == w.aVersion;
    } else {
      var n := FirstFailure(e, "", subdomain, m, Steps(from, target));
      var r := UpdateModuleSpec(e, "", subdomain, m, from, target, w);
      BehindTargetRunsUpdate(e, "", subdomain, name, w);
      RangeVersionRows(e, subdomain, m, from, target, w);
      GaplessAfterRange(w.aVersion, r.world.aVersion, m.relativeName, from, n);
    }
  }

  /** The init-track analogue of UpdateKeepsLedgerGapless, for the pair of
      the pass's subdomain and the module. */
  lemma InitKeepsLedgerGapless(e: Env, subdomain: string, name: string, w: World)
    requires name in e.modules && e.modules[name].relativeName == name
    requires InitGapless(w.aVersionInit, subdomain, name)
    ensures InitGapless(CheckModuleSpec(e, "init", subdomain, name, w).world.aVersionInit, subdomain, name)
  {
    var m := e.modules[name];
    var target := FileVersionNew(m);
    var from := CurrentInitVersion(w.aVersionInit, subdomain, name);
    assert FileVersionOld(w, "init", subdomain, name) == from;
    var after := CheckModuleSpec(e, "init", subdomain, name, w).world.aVersionInit;
    if target == 0 {
      SceneDispatch(e, "init", subdomain, name, w);
      assert after == w.aVersionInit;
    } else if target == -1 {
      SentinelRunsOnceAndIsNeverRecorded(e, "init", subdomain, name, w);
      assert after == w.aVersionInit;
    } else if from > target {
      DowngradeIsRejected(e, "init", subdomain, name, w);
      assert after == w.aVersionInit;
    } else if from == target {
      UpToDateIsNoop(e, "init", subdomain, name, w);
      assert after == w.aVersionInit;
    } else {
      var n := FirstFailure(e, "init", subdomain, m, Steps(from, target));
      var r := UpdateModuleSpec(e, "init", subdomain, m, from, target, w);
      BehindTargetRunsUpdate(e, "init", subdomain, name, w);
      RangeInitRows(e, "init", subdomain, m, from, target, w);
      InitGaplessAfterRange(w.aVersionInit, r.world.aVersionInit, subdomain, name, from, n);
    }
  }

  // ---------------------------------------------------------------------
  // What a run may change
  // ---------------------------------------------------------------------

  /** What a run may do to the state: append calls (never the post-pass
      hook) and append ledger rows with versions above 0 (global rows only in
      the empty scene, init rows only in the 'init' scene and only for its
      subdomain); `aVersion`'s existence does not change, and `aVersionInit`
      is created only when the appended calls include the service's own
      successful step 2. */
  ghost predicate Appended(e: Env, w: World, w': World, scene: string, subdomain: string) {
    && Grows(w.trace, w'.trace)
    && (forall k :: |w.trace| <= k < |w'.trace| ==> !w'.trace[k].AfterHook?)
    && Grows(w.aVersion, w'.aVersion)
    && (forall k :: |w.aVersion| <= k < |w'.aVersion| ==> w'.aVersion[k].version > 0)
    && (scene != "" ==> w'.aVersion == w.aVersion)
    && Grows(w.aVersionInit, w'.aVersionInit)
    && (forall k :: |w.aVersionInit| <= k < |w'.aVersionInit| ==>
          w'.aVersionInit[k].subdomain == subdomain && w'.aVersionInit[k].version > 0)
    && (scene != "init" ==> w'.aVersionInit == w.aVersionInit)
    && w'.hasVersionTable == w.hasVersionTable
    && w'.hasInitTable == (w.hasInitTable || CreatesInitTable(e, w'.trace[|w.trace|..]))
  }

  /** Every row appended between `w` and `w'` belongs to module `name`. */
  ghost predicate OwnRows(w: World, w': World, name: string) {
    && (forall k :: |w.aVersion| <= k < |w'.aVersion| ==> w'.aVersion[k].moduleName == name)
    && (forall k :: |w.aVersionInit| <= k < |w'.aVersionInit| ==> w'.aVersionInit[k].moduleName == name)
  }

  lemma AppendedRefl(e: Env, w: World, w': World, scene: string, subdomain: string, name: string)
    requires w'.trace == w.trace && w'.aVersion == w.aVersion && w'.aVersionInit == w.aVersionInit
    requires w'.hasVersionTable == w.hasVersionTable && w'.hasInitTable == w.hasInitTable
    ensures Appended(e, w, w', scene, subdomain) && OwnRows(w, w', name)
  {
    assert w'.trace[|w.trace|..] == [];
    AppendGrows(w.trace, []);
    AppendGrows(w.aVersion, []);
    AppendGrows(w.aVersionInit, []);
    assert w.trace + [] == w.trace && w.aVersion + [] == w.aVersion && w.aVersionInit + [] == w.aVersionInit;
  }

  lemma AppendedTransitive(e: Env, w1: World, w2: World, w3: World, scene: string, subdomain: string)
    requires Appended(e, w1, w2, scene, subdomain) && Appended(e, w2, w3, scene, subdomain)
    ensures Appended(e, w1, w3, scene, subdomain)
  {
    GrowsTransitive(w1.trace, w2.trace, w3.trace);
    assert w3.trace[|w1.trace|..] == w2.trace[|w1.trace|..] + w3.trace[|w2.trace|..];
    GrowsTransitive(w1.aVersion, w2.aVersion, w3.aVersion);
    GrowsTransitive(w1.aVersionInit, w2.aVersionInit, w3.aVersionInit);
  }

  /** The loop of `__updateModule` only appends, and every row it appends is
      the module's own. */
  lemma RunStepsAppends(e: Env, scene: string, subdomain: string, m: Module, vs: seq<int>, w: World)
    requires scene == "" || scene == "init"
    ensures Appended(e, w, RunSteps(e, scene, subdomain, m, vs, w).world, scene, subdomain)
    ensures OwnRows(w, RunSteps(e, scene, subdomain, m, vs, w).world, m.relativeName)
  {
    var n := FirstFailure(e, scene, subdomain, m, vs);
    RunStepsTrace(e, scene, subdomain, m, vs, w);
    RunStepsVersionRows(e, scene, subdomain, m, vs, w);
    RunStepsInitRows(e, scene, subdomain, m, vs, w);
    RunStepsOutcome(e, scene, subdomain, m, vs, w);
    RunStepsInitTable(e, scene, subdomain, m, vs, w);
    var calls := CallsOf(e, scene, subdomain, m, vs[..Ran(e, scene, subdomain, m, vs)]);
    AppendGrows(w.trace, calls);
    assert (w.trace + calls)[|w.trace|..] == calls;
    var moreV := if scene == "" then VersionRowsFor(m.relativeName, vs[..n]) else [];
    var moreI := if scene == "" then [] else InitRowsFor(subdomain, m.relativeName, vs[..n]);
    AppendGrows(w.aVersion, moreV);
    AppendGrows(w.aVersionInit, moreI);
    assert w.aVersion + [] == w.aVersion && w.aVersionInit + [] == w.aVersionInit;
  }

  /** `__updateModule` only appends, and every row it appends is the
      module's own. */
  lemma UpdateModuleAppends(e: Env, scene: string, subdomain: string, m: Module, from: int, target: int, w: World)
    requires scene == "" || scene == "init"
    ensures Appended(e, w, UpdateModuleSpec(e, scene, subdomain, m, from, target, w).world, scene, subdomain)
    ensures OwnRows(w, UpdateModuleSpec(e, scene, subdomain, m, from, target, w).world, m.relativeName)
  {
    RangeRun(e, scene, subdomain, m, from, target, w);
    RunStepsAppends(e, scene, subdomain, m, UpdateVersions(from, target), w);
    RunStepsOutcome(e, scene, subdomain, m, UpdateVersions(from, target), w);
  }

  /** One module's run only appends, and every row it appends is its own. */
  lemma CheckModuleAppends(e: Env, scene: string, subdomain: string, name: string, w: World)
    requires name in e.modules
    ensures Appended(e, w, CheckModuleSpec(e, scene, subdomain, name, w).world, scene, subdomain)
    ensures OwnRows(w, CheckModuleSpec(e, scene, subdomain, name, w).world, e.modules[name].relativeName)
  {
    var m := e.modules[name];
    var target := FileVersionNew(m);
    var r := CheckModuleSpec(e, scene, subdomain, name, w);
    if Migrates(scene, target) {
      var from := FileVersionOld(w, scene, subdomain, name);
      if target == -1 {
        UpdateModuleAppends(e, scene, subdomain, m, -1, -1, w);
      } else if from < target {
        UpdateModuleAppends(e, scene, subdomain, m, from, target, w);
      } else {
        AppendedRefl(e, w, r.world, scene, subdomain, m.relativeName);
      }
    } else if scene == "test" {
      var calls := if TestPath(m) in e.routes then [TestStep(subdomain, m.relativeName, target)] else [];
      assert r.world.trace == w.trace + calls;
      assert r.world.trace[|w.trace|..] == calls;
      AppendGrows(w.trace, calls);
      AppendGrows(w.aVersion, []);
      AppendGrows(w.aVersionInit, []);
      assert w.aVersion + [] == w.aVersion && w.aVersionInit + [] == w.aVersionInit;
    } else {
      AppendedRefl(e, w, r.world, scene, subdomain, m.relativeName);
    }
  }

  /** The two tracks and the subdomains keep separate ledgers: a module's run
      on the global track changes no init row and no other module's global
      version; its run on the init track changes no global row and the init
      version of no other `(subdomain, module)` pair. */
  lemma TracksAreIsolated(e: Env, scene: string, subdomain: string, name: string, w: World)
    requires name in e.modules && e.modules[name].relativeName == name
    ensures var r := CheckModuleSpec(e, scene, subdomain, name, w);
            && (scene == "" ==> r.world.aVersionInit == w.aVersionInit)
            && (forall other :: other != name ==>
                  CurrentVersion(r.world.aVersion, other) == CurrentVersion(w.aVersion, other))
            && (scene != "" ==> r.world.aVersion == w.aVersion)
            && (forall sub, other :: sub != subdomain || other != name ==>
                  CurrentInitVersion(r.world.aVersionInit, sub, other) == CurrentInitVersion(w.aVersionInit, sub, other))
  {
    CheckModuleAppends(e, scene, subdomain, name, w);
    var r := CheckModuleSpec(e, scene, subdomain, name, w);
    var moreV := r.world.aVersion[|w.aVersion|..];
    var moreI := r.world.aVersionInit[|w.aVersionInit|..];
    assert r.world.aVersion == w.aVersion + moreV;
    assert r.world.aVersionInit == w.aVersionInit + moreI;
    forall other | other != name
      ensures CurrentVersion(r.world.aVersion, other) == CurrentVersion(w.aVersion, other)
    {
      forall j | 0 <= j < |moreV| ensures moreV[j].moduleName != other {
        assert moreV[j] == r.world.aVersion[|w.aVersion| + j];
      }
      CurrentVersionIgnoresOtherRows(w.aVersion, moreV, other);
    }
    forall sub, other | sub != subdomain || other != name
      ensures CurrentInitVersion(r.world.aVersionInit, sub, other) == CurrentInitVersion(w.aVersionInit, sub, other)
    {
      forall j | 0 <= j < |moreI| ensures !(moreI[j].subdomain == sub && moreI[j].moduleName == other) {
        assert moreI[j] == r.world.aVersionInit[|w.aVersionInit| + j];
      }
      CurrentInitVersionIgnoresOtherRows(w.aVersionInit, moreI, sub, other);
    }
  }

  // ---------------------------------------------------------------------
  // A whole pass
  // ---------------------------------------------------------------------

  /** The modules' runs of a pass only append, as one run does. */
  lemma {:induction false} CheckModulesAppends(e: Env, scene: string, subdomain: string, names: seq<string>, w: World)
    requires forall i :: 0 <= i < |names| ==> names[i] in e.modules
    ensures Appended(e, w, CheckModulesSpec(e, scene, subdomain, names, w).world, scene, subdomain)
    decreases |names|
  {
    if names == [] {
      AppendedRefl(e, w, w, scene, subdomain, "");
    } else {
      CheckModuleAppends(e, scene, subdomain, names[0], w);
      var r := CheckModuleSpec(e, scene, subdomain, names[0], w);
      if r.outcome.Pass? {
        CheckModulesAppends(e, scene, subdomain, names[1..], r.world);
        AppendedTransitive(e, w, r.world, CheckModulesSpec(e, scene, subdomain, names[1..], r.world).world, scene, subdomain);
      }
    }
  }

  /** A pass is append-only: it only appends calls and ledger rows, every
      row it writes has a version above 0, global rows are written only in
      the empty scene and init rows only in the 'init' scene for its
      subdomain; `aVersion` is ensured only in the empty scene, and
      `aVersionInit` is created only by the service's own step 2 when it
      succeeds; and the post-pass hook is called at most once, last, only in the 'init' and
      'test' scenes, and always there once every module has succeeded. */
  lemma PassIsAppendOnly(e: Env, scene: string, subdomain: string, w: World)
    requires forall i :: 0 <= i < |e.modulesArray| ==> e.modulesArray[i] in e.modules
    ensures var r := CheckSpec(e, scene, subdomain, w);
            && Grows(w.trace, r.world.trace)
            && Grows(w.aVersion, r.world.aVersion)
            && Grows(w.aVersionInit, r.world.aVersionInit)
            && (scene != "" ==> r.world.aVersion == w.aVersion)
            && (scene != "init" ==> r.world.aVersionInit == w.aVersionInit)
            && (forall k :: |w.aVersion| <= k < |r.world.aVersion| ==> r.world.aVersion[k].version > 0)
            && (forall k :: |w.aVersionInit| <= k < |r.world.aVersionInit| ==>
                  r.world.aVersionInit[k].subdomain == subdomain && r.world.aVersionInit[k].version > 0)
            && r.world.hasVersionTable == (w.hasVersionTable || scene == "")
            && r.world.hasInitTable == (w.hasInitTable || CreatesInitTable(e, r.world.trace[|w.trace|..]))
            && (forall k :: |w.trace| <= k < |r.world.trace| && r.world.trace[k].AfterHook? ==>
                  (scene == "init" || scene == "test") && k == |r.world.trace| - 1 && r.world.trace[k] == AfterHook(subdomain))
            && ((scene == "init" || scene == "test") &&
                CheckModulesSpec(e, scene, subdomain, e.modulesArray, w).outcome.Pass? ==>
                  |r.world.trace| > |w.trace| && r.world.trace[|r.world.trace| - 1] == AfterHook(subdomain))
  {
    var w0 := if scene == "" then w.(hasVersionTable := true) else w;
    CheckModulesAppends(e, scene, subdomain, e.modulesArray, w0);
    var rm := CheckModulesSpec(e, scene, subdomain, e.modulesArray, w0);
    var r := CheckSpec(e, scene, subdomain, w);
    if rm.outcome.Pass? && (scene == "init" || scene == "test") {
      AppendGrows(rm.world.trace, [AfterHook(subdomain)]);
      GrowsTransitive(w.trace, rm.world.trace, r.world.trace);
      assert r.world.trace[|w.trace|..] == rm.world.trace[|w.trace|..] + [AfterHook(subdomain)];
    }
  }

  /** A pass that fails stops at the first module whose run fails: the
      modules before it all succeeded, and the modules after it are not
      processed at all. */
  lemma {:induction false} FailureStopsPass(e: Env, scene: string, subdomain: string, names: seq<string>, w: World)
    requires forall i :: 0 <= i < |names| ==> names[i] in e.modules
    requires CheckModulesSpec(e, scene, subdomain, names, w).outcome.Fail?
    ensures exists j :: 0 <= j < |names|
              && CheckModulesSpec(e, scene, subdomain, names[..j], w).outcome.Pass?
              && CheckModuleSpec(e, scene, subdomain, names[j], CheckModulesSpec(e, scene, subdomain, names[..j], w).world)
                 == CheckModulesSpec(e, scene, subdomain, names, w)
    decreases |names|
  {
    var r := CheckModuleSpec(e, scene, subdomain, names[0], w);
    if r.outcome.Fail? {
      assert names[..0] == [];
      assert CheckModulesSpec(e, scene, subdomain, names[..0], w) == Run(w, Pass);
    } else {
      var rest := names[1..];
      FailureStopsPass(e, scene, subdomain, rest, r.world);
      var j :| 0 <= j < |rest|
              && CheckModulesSpec(e, scene, subdomain, rest[..j], r.world).outcome.Pass?
              && CheckModuleSpec(e, scene, subdomain, rest[j], CheckModulesSpec(e, scene, subdomain, rest[..j], r.world).world)
                 == CheckModulesSpec(e, scene, subdomain, rest, r.world);
      assert names[..j + 1][0] == names[0];
      assert names[..j + 1][1..] == rest[..j];
      assert names[j + 1] == rest[j];
      assert CheckModulesSpec(e, scene, subdomain, names[..j + 1], w)
          == CheckModulesSpec(e, scene, subdomain, rest[..j], r.world);
    }
  }
  /** A pass whose first `j` modules all succeed continues, from the state
      they leave, with the modules from `j` on. */
  lemma {:induction false} CheckModulesPrefix(e: Env, scene: string, subdomain: string, names: seq<string>, j: nat, w: World)
    requires forall i :: 0 <= i < |names| ==> names[i] in e.modules
    requires j <= |names|
    requires CheckModulesSpec(e, scene, subdomain, names[..j], w).outcome.Pass?
    ensures CheckModulesSpec(e, scene, subdomain, names, w)
         == CheckModulesSpec(e, scene, subdomain, names[j..], CheckModulesSpec(e, scene, subdomain, names[..j], w).world)
    decreases j
  {
    if j == 0 {
      assert names[..0] == [] && names[0..] == names;
    } else {
      var r := CheckModuleSpec(e, scene, subdomain, names[0], w);
      assert names[..j][0] == names[0];
      assert names[..j][1..] == names[1..][..j - 1];
      CheckModulesPrefix(e, scene, subdomain, names[1..], j - 1, r.world);
      assert names[1..][j - 1..] == names[j..];
    }
  }

  /** A pass whose modules fail ends with that failure: `check` rethrows it
      unchanged and calls no post-pass hook. */
  lemma FailedPassSkipsHook(e: Env, scene: string, subdomain: string, w: World)
    requires forall i :: 0 <= i < |e.modulesArray| ==> e.modulesArray[i] in e.modules
    requires CheckModulesSpec(e, scene, subdomain, e.modulesArray, if scene == "" then w.(hasVersionTable := true) else w).outcome.Fail?
    ensures var r := CheckSpec(e, scene, subdomain, w);
            && r == CheckModulesSpec(e, scene, subdomain, e.modulesArray, if scene == "" then w.(hasVersionTable := true) else w)
            && |w.trace| <= |r.world.trace|
            && forall k :: |w.trace| <= k < |r.world.trace| ==> !r.world.trace[k].AfterHook?
  {
    var w0 := if scene == "" then w.(hasVersionTable := true) else w;
    CheckModulesAppends(e, scene, subdomain, e.modulesArray, w0);
  }

  /** A downgrade ends the pass: when the modules before module `j` all
      succeed and `j` is recorded above its target, `check` fails with error
      1001 naming it, in the state the earlier modules left, so no later
      module is processed and no hook is called. */
  lemma DowngradeFailsPass(e: Env, scene: string, subdomain: string, j: nat, w: World)
    requires forall i :: 0 <= i < |e.modulesArray| ==> e.modulesArray[i] in e.modules
    requires scene == "" || scene == "init"
    requires j < |e.modulesArray|
    requires CheckModulesSpec(e, scene, subdomain, e.modulesArray[..j], if scene == "" then w.(hasVersionTable := true) else w).outcome.Pass?
    requires var name := e.modulesArray[j];
             var before := CheckModulesSpec(e, scene, subdomain, e.modulesArray[..j], if scene == "" then w.(hasVersionTable := true) else w).world;
             FileVersionNew(e.modules[name]) != 0 && FileVersionNew(e.modules[name]) != -1
             && FileVersionOld(before, scene, subdomain, name) > FileVersionNew(e.modules[name])
    ensures CheckSpec(e, scene, subdomain, w)
         == Run(CheckModulesSpec(e, scene, subdomain, e.modulesArray[..j], if scene == "" then w.(hasVersionTable := true) else w).world,
                Fail(VersionDowngrade(1001, e.modulesArray[j])))
  {
    var names := e.modulesArray;
    var w0 := if scene == "" then w.(hasVersionTable := true) else w;
    var before := CheckModulesSpec(e, scene, subdomain, names[..j], w0).world;
    CheckModulesPrefix(e, scene, subdomain, names, j, w0);
    DowngradeIsRejected(e, scene, subdomain, names[j], before);
    assert names[j..][0] == names[j];
    assert CheckModulesSpec(e, scene, subdomain, names[j..], before) == Run(before, Fail(VersionDowngrade(1001, names[j])));
  }
}
