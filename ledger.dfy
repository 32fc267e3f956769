/** The two append-only version ledgers and the "current version" queries
    over them: `select * from aVersion where module=? order by version desc`
    and its `aVersionInit` analogue, read with `queryOne`, give the highest
    recorded version of the matching rows, or 0 when no row matches. */
module Ledger {
  import opened Types

  /** The largest element of `vs`, or 0 for the empty sequence. */
  function MaxOrZero(vs: seq<int>): (r: int)
    ensures vs == [] ==> r == 0
    ensures vs != [] ==> r in vs
    ensures forall k :: 0 <= k < |vs| ==> vs[k] <= r
  {
    if vs == [] then 0
    else if |vs| == 1 then vs[0]
    else
      var rest := MaxOrZero(vs[1..]);
      if vs[0] >= rest then vs[0] else rest
  }

  /** The versions recorded in the global ledger for module `name`. */
  function VersionsOf(rows: seq<VersionRow>, name: string): (vs: seq<int>)
    ensures forall v :: v in vs <==> exists i :: 0 <= i < |rows| && rows[i].moduleName == name && rows[i].version == v
  {
    if rows == [] then []
    else
      var rest := VersionsOf(rows[1..], name);
      assert forall i :: 1 <= i < |rows| ==> rows[i] == rows[1..][i - 1];
      if rows[0].moduleName == name then [rows[0].version] + rest else rest
  }

  /** The versions recorded in the init ledger for `(subdomain, name)`. */
  function InitVersionsOf(rows: seq<InitRow>, subdomain: string, name: string): (vs: seq<int>)
    ensures forall v :: v in vs <==>
      exists i :: 0 <= i < |rows| && rows[i].subdomain == subdomain && rows[i].moduleName == name && rows[i].version == v
  {
    if rows == [] then []
    else
      var rest := InitVersionsOf(rows[1..], subdomain, name);
      assert forall i :: 1 <= i < |rows| ==> rows[i] == rows[1..][i - 1];
      if rows[0].subdomain == subdomain && rows[0].moduleName == name then [rows[0].version] + rest else rest
  }

  /** The module's version on the global track: the highest version of a row
      for `name`, or 0 when the ledger holds no row for it. */
  function CurrentVersion(rows: seq<VersionRow>, name: string): (r: int)
    ensures (exists i :: 0 <= i < |rows| && rows[i].moduleName == name) ==>
      exists i :: 0 <= i < |rows| && rows[i].moduleName == name && rows[i].version == r
    ensures forall i :: 0 <= i < |rows| && rows[i].moduleName == name ==> rows[i].version <= r
    ensures (forall i :: 0 <= i < |rows| ==> rows[i].moduleName != name) ==> r == 0
  {
    var vs := VersionsOf(rows, name);
    assert forall i :: 0 <= i < |rows| && rows[i].moduleName == name ==> rows[i].version in vs;
    MaxOrZero(vs)
  }

  /** The module's version on the init track of `subdomain`: the highest
      version of a row for exactly that `(subdomain, name)` pair, or 0. */
  function CurrentInitVersion(rows: seq<InitRow>, subdomain: string, name: string): (r: int)
    ensures (exists i :: 0 <= i < |rows| && rows[i].subdomain == subdomain && rows[i].moduleName == name) ==>
      exists i :: 0 <= i < |rows| && rows[i].subdomain == subdomain && rows[i].moduleName == name && rows[i].version == r
    ensures forall i :: 0 <= i < |rows| && rows[i].subdomain == subdomain && rows[i].moduleName == name ==> rows[i].version <= r
    ensures (forall i :: 0 <= i < |rows| ==> !(rows[i].subdomain == subdomain && rows[i].moduleName == name)) ==> r == 0
  {
    var vs := InitVersionsOf(rows, subdomain, name);
    assert forall i :: 0 <= i < |rows| && rows[i].subdomain == subdomain && rows[i].moduleName == name ==> rows[i].version in vs;
    MaxOrZero(vs)
  }

  /** Rows appended for other modules leave a module's global version as it was. */
  lemma CurrentVersionIgnoresOtherRows(rows: seq<VersionRow>, more: seq<VersionRow>, name: string)
    requires forall j :: 0 <= j < |more| ==> more[j].moduleName != name
    ensures CurrentVersion(rows + more, name) == CurrentVersion(rows, name)
  {
    var all := rows + more;
    assert forall i :: 0 <= i < |rows| ==> all[i] == rows[i];
    assert forall i :: |rows| <= i < |all| ==> all[i] == more[i - |rows|];
  }

  /** Rows appended for another `(subdomain, module)` pair leave the pair's
      init version as it was. */
  lemma CurrentInitVersionIgnoresOtherRows(rows: seq<InitRow>, more: seq<InitRow>, subdomain: string, name: string)
    requires forall j :: 0 <= j < |more| ==> !(more[j].subdomain == subdomain && more[j].moduleName == name)
    ensures CurrentInitVersion(rows + more, subdomain, name) == CurrentInitVersion(rows, subdomain, name)
  {
    var all := rows + more;
    assert forall i :: 0 <= i < |rows| ==> all[i] == rows[i];
    assert forall i :: |rows| <= i < |all| ==> all[i] == more[i - |rows|];
  }

  /** Appending rows for `name` whose versions are all at most `top`, one of
      them exactly `top`, to a ledger whose current version is at most `top`
      makes `top` the current version. */
  lemma CurrentVersionAfterAppend(rows: seq<VersionRow>, more: seq<VersionRow>, name: string, top: int)
    requires CurrentVersion(rows, name) <= top
    requires forall j :: 0 <= j < |more| && more[j].moduleName == name ==> more[j].version <= top
    requires exists j :: 0 <= j < |more| && more[j] == VersionRow(name, top)
    ensures CurrentVersion(rows + more, name) == top
  {
    var all := rows + more;
    assert forall i :: 0 <= i < |rows| ==> all[i] == rows[i];
    assert forall i :: |rows| <= i < |all| ==> all[i] == more[i - |rows|];
    var j :| 0 <= j < |more| && more[j] == VersionRow(name, top);
    assert all[|rows| + j] == VersionRow(name, top);
  }

  /** The init-track analogue of CurrentVersionAfterAppend. */
  lemma CurrentInitVersionAfterAppend(rows: seq<InitRow>, more: seq<InitRow>, subdomain: string, name: string, top: int)
    requires CurrentInitVersion(rows, subdomain, name) <= top
    requires forall j :: 0 <= j < |more| && more[j].subdomain == subdomain && more[j].moduleName == name ==> more[j].version <= top
    requires exists j :: 0 <= j < |more| && more[j] == InitRow(subdomain, name, top)
    ensures CurrentInitVersion(rows + more, subdomain, name) == top
  {
    var all := rows + more;
    assert forall i :: 0 <= i < |rows| ==> all[i] == rows[i];
    assert forall i :: |rows| <= i < |all| ==> all[i] == more[i - |rows|];
    var j :| 0 <= j < |more| && more[j] == InitRow(subdomain, name, top);
    assert all[|rows| + j] == InitRow(subdomain, name, top);
  }
  /** The versions recorded for a module in two stretches of the ledger are
      those of the first stretch followed by those of the second. */
  lemma {:induction false} VersionsOfAppend(rows: seq<VersionRow>, more: seq<VersionRow>, name: string)
    ensures VersionsOf(rows + more, name) == VersionsOf(rows, name) + VersionsOf(more, name)
    decreases |rows|
  {
    if rows == [] {
      assert rows + more == more;
    } else {
      VersionsOfAppend(rows[1..], more, name);
      assert (rows + more)[1..] == rows[1..] + more;
    }
  }

  /** The init-ledger analogue of VersionsOfAppend. */
  lemma {:induction false} InitVersionsOfAppend(rows: seq<InitRow>, more: seq<InitRow>, subdomain: string, name: string)
    ensures InitVersionsOf(rows + more, subdomain, name) == InitVersionsOf(rows, subdomain, name) + InitVersionsOf(more, subdomain, name)
    decreases |rows|
  {
    if rows == [] {
      assert rows + more == more;
    } else {
      InitVersionsOfAppend(rows[1..], more, subdomain, name);
      assert (rows + more)[1..] == rows[1..] + more;
    }
  }

  /** Rows that all belong to `name` record their versions in order. */
  lemma {:induction false} VersionsOfOwnRows(rows: seq<VersionRow>, name: string)
    requires forall j :: 0 <= j < |rows| ==> rows[j].moduleName == name
    ensures |VersionsOf(rows, name)| == |rows|
    ensures forall k :: 0 <= k < |rows| ==> VersionsOf(rows, name)[k] == rows[k].version
    decreases |rows|
  {
    if rows != [] {
      VersionsOfOwnRows(rows[1..], name);
    }
  }

  /** The init-ledger analogue of VersionsOfOwnRows. */
  lemma {:induction false} InitVersionsOfOwnRows(rows: seq<InitRow>, subdomain: string, name: string)
    requires forall j :: 0 <= j < |rows| ==> rows[j].subdomain == subdomain && rows[j].moduleName == name
    ensures |InitVersionsOf(rows, subdomain, name)| == |rows|
    ensures forall k :: 0 <= k < |rows| ==> InitVersionsOf(rows, subdomain, name)[k] == rows[k].version
    decreases |rows|
  {
    if rows != [] {
      InitVersionsOfOwnRows(rows[1..], subdomain, name);
    }
  }
}
