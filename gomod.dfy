/**
 * The go.mod editor: a queue of prioritised replace directives that Finish sorts by priority
 * and merges into the manifest, so that for each module the highest priority is written last.
 */
module GoMods {
  import opened Errors
  import opened Api

  /** A require directive of the manifest. */
  datatype Require = Require(mod: ModuleVersion)

  /** The marker addReplace puts in front of a managed entry's comment. */
  const CommentPrefix: string := "// [go-mod-promote] "

  // ----- The manifest (a stand-in for the modfile library's File) -----

  /** A replace entry is selected by an old path and, when one is given, an old version. */
  predicate Selects(r: Replace, oldPath: string, oldVersion: string)
  {
    r.oldMod.path == oldPath && (oldVersion == "" || r.oldMod.version == oldVersion)
  }

  /** The index of the first replace entry selected by (oldPath, oldVersion), or -1. */
  function FirstMatch(table: seq<Replace>, oldPath: string, oldVersion: string): (k: int)
    ensures -1 <= k < |table|
    ensures k >= 0 ==> Selects(table[k], oldPath, oldVersion)
    ensures forall j :: 0 <= j < |table| && (k < 0 || j < k) ==> !Selects(table[j], oldPath, oldVersion)
  {
    if table == [] then -1
    else if Selects(table[0], oldPath, oldVersion) then 0
    else
      var k := FirstMatch(table[1..], oldPath, oldVersion);
      if k < 0 then -1 else k + 1
  }

  /** The three properties of FirstMatch determine it. */
  lemma FirstMatchIs(table: seq<Replace>, oldPath: string, oldVersion: string, k: int)
    requires -1 <= k < |table|
    requires k >= 0 ==> Selects(table[k], oldPath, oldVersion)
    requires forall j :: 0 <= j < |table| && (k < 0 || j < k) ==> !Selects(table[j], oldPath, oldVersion)
    ensures FirstMatch(table, oldPath, oldVersion) == k
  {
  }

  /**
   * File.AddReplace as this model assumes it: the first selected entry is redirected to the
   * new module, or, if none is selected, a new entry is appended. Either way, afterwards the
   * first selected entry points at the new module.
   */
  function AddReplaceEffect(table: seq<Replace>, oldPath: string, oldVersion: string, newPath: string, newVersion: string)
    : (r: seq<Replace>)
    ensures var k := FirstMatch(table, oldPath, oldVersion);
            && |r| == (if k < 0 then |table| + 1 else |table|)
            && FirstMatch(r, oldPath, oldVersion) == (if k < 0 then |table| else k)
            && (forall i :: 0 <= i < |table| && i != k ==> r[i] == table[i])
            && (k >= 0 ==> r[k] == table[k].(newMod := ModuleVersion(newPath, newVersion)))
            && (k < 0 ==> r[|table|] == Replace(ModuleVersion(oldPath, oldVersion), ModuleVersion(newPath, newVersion), []))
    ensures FirstMatch(r, oldPath, oldVersion) >= 0
    ensures r[FirstMatch(r, oldPath, oldVersion)].newMod == ModuleVersion(newPath, newVersion)
  {
    var k := FirstMatch(table, oldPath, oldVersion);
    if k >= 0 then
      var r := table[k := table[k].(newMod := ModuleVersion(newPath, newVersion))];
      FirstMatchIs(r, oldPath, oldVersion, k);
      r
    else
      var r := table + [Replace(ModuleVersion(oldPath, oldVersion), ModuleVersion(newPath, newVersion), [])];
      FirstMatchIs(r, oldPath, oldVersion, |table|);
      r
  }

  /** The manifest library's own error for a module path it rejects. */
  function Rejection(rejected: set<string>, path1: string, path2: string): (err: Option<Error>)
    ensures err.None? <==> path1 !in rejected && path2 !in rejected
  {
    if path1 in rejected then Some(ManifestRejected(path1))
    else if path2 in rejected then Some(ManifestRejected(path2))
    else None
  }

  /** The index of the first require of `pkg`, or -1. */
  function FirstRequire(reqs: seq<Require>, pkg: string): (k: int)
    ensures -1 <= k < |reqs|
    ensures k >= 0 ==> reqs[k].mod.path == pkg
    ensures forall j :: 0 <= j < |reqs| && (k < 0 || j < k) ==> reqs[j].mod.path != pkg
  {
    if reqs == [] then -1
    else if reqs[0].mod.path == pkg then 0
    else
      var k := FirstRequire(reqs[1..], pkg);
      if k < 0 then -1 else k + 1
  }

  lemma FirstRequireIs(reqs: seq<Require>, pkg: string, k: int)
    requires -1 <= k < |reqs|
    requires k >= 0 ==> reqs[k].mod.path == pkg
    requires forall j :: 0 <= j < |reqs| && (k < 0 || j < k) ==> reqs[j].mod.path != pkg
    ensures FirstRequire(reqs, pkg) == k
  {
  }

  /** File.AddRequire as this model assumes it: updates the first require of the path, or appends one. */
  function AddRequireEffect(reqs: seq<Require>, path: string, version: string): (r: seq<Require>)
    ensures |r| >= |reqs|
    ensures FirstRequire(r, path) >= 0 && r[FirstRequire(r, path)].mod == ModuleVersion(path, version)
    ensures forall i :: 0 <= i < |reqs| && reqs[i].mod.path != path ==> r[i] == reqs[i]
  {
    var k := FirstRequire(reqs, path);
    if k >= 0 then
      var r := reqs[k := Require(ModuleVersion(path, version))];
      FirstRequireIs(r, path, k);
      r
    else
      var r := reqs + [Require(ModuleVersion(path, version))];
      FirstRequireIs(r, path, |reqs|);
      r
  }

  /** The parsed manifest: its require and replace directives. */
  class ModFile {
    var require: seq<Require>
    var replace: seq<Replace>
    /** The module paths the library refuses (an invalid path or version). */
    const rejected: set<string>

    constructor(require: seq<Require>, replace: seq<Replace>, rejected: set<string>)
      ensures this.require == require && this.replace == replace && this.rejected == rejected
    {
      this.require := require;
      this.replace := replace;
      this.rejected := rejected;
    }

    method AddRequire(path: string, version: string) returns (err: Option<Error>)
      modifies this
      ensures err == Rejection(rejected, path, path)
      ensures err.Some? ==> require == old(require)
      ensures err.None? ==> require == AddRequireEffect(old(require), path, version)
      ensures replace == old(replace)
    {
      err := Rejection(rejected, path, path);
      if err.None? {
        require := AddRequireEffect(require, path, version);
      }
    }

    method AddReplace(oldPath: string, oldVersion: string, newPath: string, newVersion: string) returns (err: Option<Error>)
      modifies this
      ensures err == Rejection(rejected, oldPath, newPath)
      ensures err.Some? ==> replace == old(replace)
      ensures err.None? ==> replace == AddReplaceEffect(old(replace), oldPath, oldVersion, newPath, newVersion)
      ensures require == old(require)
    {
      err := Rejection(rejected, oldPath, newPath);
      if err.None? {
        replace := AddReplaceEffect(replace, oldPath, oldVersion, newPath, newVersion);
      }
    }
  }

  // ----- Merging one queued replace (addReplace) -----

  /**
   * addReplace on the replace table: add the directive, then, for a non-empty comment, set the
   * leading comment of the first selected entry, failing when there is none.
   */
  function Merge(table: seq<Replace>, e: GoModReplace, rejected: set<string>): (r: (seq<Replace>, Option<Error>))
    ensures var err := Rejection(rejected, e.replace.oldMod.path, e.replace.newMod.path);
            err.Some? ==> r == (table, err)
    ensures var added := AddReplaceEffect(table, e.replace.oldMod.path, e.replace.oldMod.version,
                                          e.replace.newMod.path, e.replace.newMod.version);
            && Rejection(rejected, e.replace.oldMod.path, e.replace.newMod.path).None?
            ==> && |r.0| == |added|
                && (e.comment == "" ==> r == (added, None))
                && (e.comment != "" && r.1.None? ==>
                      var k := FirstMatch(added, e.replace.oldMod.path, e.replace.oldMod.version);
                      && r.0[k].before == [CommentPrefix + e.comment]
                      && (forall i :: 0 <= i < |added| && i != k ==> r.0[i] == added[i]))
                && (forall i :: 0 <= i < |added| ==> r.0[i].oldMod == added[i].oldMod && r.0[i].newMod == added[i].newMod)
  {
    var err := Rejection(rejected, e.replace.oldMod.path, e.replace.newMod.path);
    if err.Some? then (table, err)
    else
      var added := AddReplaceEffect(table, e.replace.oldMod.path, e.replace.oldMod.version,
                                    e.replace.newMod.path, e.replace.newMod.version);
      if e.comment == "" then (added, None)
      else
        var k := FirstMatch(added, e.replace.oldMod.path, e.replace.oldMod.version);
        if k < 0 then (added, Some(CommentEntryNotFound))
        else (added[k := added[k].(before := [CommentPrefix + e.comment])], None)
  }

  /** Because adding a replace always leaves a selected entry, the comment is never orphaned. */
  lemma MergeNeverMissesComment(table: seq<Replace>, e: GoModReplace, rejected: set<string>)
    ensures Merge(table, e, rejected).1 == Rejection(rejected, e.replace.oldMod.path, e.replace.newMod.path)
  {
  }

  /** Adding a replace without a comment leaves every existing entry's comment as it was. */
  lemma MergeKeepsComments(table: seq<Replace>, e: GoModReplace, rejected: set<string>)
    requires e.comment == ""
    ensures |Merge(table, e, rejected).0| >= |table|
    ensures forall i :: 0 <= i < |table| ==> Merge(table, e, rejected).0[i].before == table[i].before
  {
  }

  /** Finish's loop: merge the queued replaces in order, stopping at the first error. */
  function MergeAll(table: seq<Replace>, es: seq<GoModReplace>, rejected: set<string>): (r: (seq<Replace>, Option<Error>))
    decreases |es|
  {
    if es == [] then (table, None)
    else
      var m := Merge(table, es[0], rejected);
      if m.1.Some? then m else MergeAll(m.0, es[1..], rejected)
  }

  /** The module a path is effectively replaced by: the new side of its first replace entry. */
  function Effective(table: seq<Replace>, path: string): Option<ModuleVersion>
  {
    var k := FirstMatch(table, path, "");
    if k < 0 then None else Some(table[k].newMod)
  }

  /** The index of the last queued replace for `path`, or -1. */
  function LastIndexFor(es: seq<GoModReplace>, path: string): (k: int)
    ensures -1 <= k < |es|
    ensures k >= 0 ==> es[k].replace.oldMod.path == path
    ensures forall j :: k < j < |es| ==> es[j].replace.oldMod.path != path
  {
    if es == [] then -1
    else if es[|es| - 1].replace.oldMod.path == path then |es| - 1
    else LastIndexFor(es[..|es| - 1], path)
  }

  lemma LastIndexIs(es: seq<GoModReplace>, path: string, k: int)
    requires -1 <= k < |es|
    requires k >= 0 ==> es[k].replace.oldMod.path == path
    requires forall j :: k < j < |es| ==> es[j].replace.oldMod.path != path
    ensures LastIndexFor(es, path) == k
  {
  }

  /** The new module of the last queued replace for `path`, if one is queued. */
  function LastFor(es: seq<GoModReplace>, path: string): Option<ModuleVersion>
  {
    var k := LastIndexFor(es, path);
    if k < 0 then None else Some(es[k].replace.newMod)
  }

  lemma LastForCons(e: GoModReplace, es: seq<GoModReplace>, path: string)
    ensures LastFor([e] + es, path) == if LastFor(es, path).Some? then LastFor(es, path)
                                       else if e.replace.oldMod.path == path then Some(e.replace.newMod) else None
  {
    var k := LastIndexFor(es, path);
    var expected := if k >= 0 then k + 1 else if e.replace.oldMod.path == path then 0 else -1;
    assert forall j :: 0 < j < |[e] + es| ==> ([e] + es)[j] == es[j - 1];
    LastIndexIs([e] + es, path, expected);
  }

  /** Two tables that agree on every entry's old module select the same first entry. */
  lemma SameOldModsFirstMatch(a: seq<Replace>, b: seq<Replace>, oldPath: string, oldVersion: string)
    requires |a| == |b| && forall i :: 0 <= i < |a| ==> a[i].oldMod == b[i].oldMod
    ensures FirstMatch(a, oldPath, oldVersion) == FirstMatch(b, oldPath, oldVersion)
  {
    FirstMatchIs(b, oldPath, oldVersion, FirstMatch(a, oldPath, oldVersion));
  }

  /** Adding a replace for another module leaves the effective replacement of `path` alone. */
  lemma AddOtherPath(table: seq<Replace>, oldPath: string, oldVersion: string, newPath: string, newVersion: string, path: string)
    requires oldPath != path
    ensures Effective(AddReplaceEffect(table, oldPath, oldVersion, newPath, newVersion), path) == Effective(table, path)
  {
    var added := AddReplaceEffect(table, oldPath, oldVersion, newPath, newVersion);
    var k := FirstMatch(table, path, "");
    assert forall i :: 0 <= i < |added| ==> (Selects(added[i], path, "") <==> i < |table| && Selects(table[i], path, ""));
    assert k >= 0 ==> added[k] == table[k];
    FirstMatchIs(added, path, "", k);
  }

  /** Merging a replace for another module leaves the effective replacement of `path` alone. */
  lemma MergeOtherPath(table: seq<Replace>, e: GoModReplace, rejected: set<string>, path: string)
    requires e.replace.oldMod.path != path
    ensures Effective(Merge(table, e, rejected).0, path) == Effective(table, path)
  {
    if Rejection(rejected, e.replace.oldMod.path, e.replace.newMod.path).None? {
      var added := AddReplaceEffect(table, e.replace.oldMod.path, e.replace.oldMod.version,
                                    e.replace.newMod.path, e.replace.newMod.version);
      AddOtherPath(table, e.replace.oldMod.path, e.replace.oldMod.version, e.replace.newMod.path, e.replace.newMod.version, path);
      SameOldModsFirstMatch(Merge(table, e, rejected).0, added, path, "");
    }
  }

  /** Merging a version-less replace for `path` makes its new module the effective one. */
  lemma MergeSamePath(table: seq<Replace>, e: GoModReplace, rejected: set<string>, path: string)
    requires e.replace.oldMod == ModuleVersion(path, "")
    requires Merge(table, e, rejected).1.None?
    ensures Effective(Merge(table, e, rejected).0, path) == Some(e.replace.newMod)
  {
    var added := AddReplaceEffect(table, path, "", e.replace.newMod.path, e.replace.newMod.version);
    SameOldModsFirstMatch(Merge(table, e, rejected).0, added, path, "");
  }

  /**
   * Last write wins: when every queued replace for `path` is version-less and the merge
   * succeeds, `path` ends up replaced by the last queued replace for it (or as before, if none).
   */
  lemma {:induction false} MergeAllLastWins(table: seq<Replace>, es: seq<GoModReplace>, rejected: set<string>, path: string)
    requires MergeAll(table, es, rejected).1.None?
    requires forall i :: 0 <= i < |es| && es[i].replace.oldMod.path == path ==> es[i].replace.oldMod.version == ""
    ensures Effective(MergeAll(table, es, rejected).0, path)
         == if LastFor(es, path).Some? then LastFor(es, path) else Effective(table, path)
    decreases |es|
  {
    if es != [] {
      var m := Merge(table, es[0], rejected);
      assert es == [es[0]] + es[1..];
      LastForCons(es[0], es[1..], path);
      MergeAllLastWins(m.0, es[1..], rejected, path);
      if es[0].replace.oldMod.path == path {
        MergeSamePath(table, es[0], rejected, path);
      } else {
        MergeOtherPath(table, es[0], rejected, path);
      }
    }
  }

  // ----- Sorting the queue -----

  predicate SortedByPriority(es: seq<GoModReplace>)
  {
    forall i, j :: 0 <= i < j < |es| ==> es[i].priority <= es[j].priority
  }

  lemma SortedCons(x: GoModReplace, rest: seq<GoModReplace>)
    requires SortedByPriority(rest) && forall y :: y in rest ==> x.priority <= y.priority
    ensures SortedByPriority([x] + rest)
  {
    forall i, j | 0 <= i < j < |[x] + rest|
      ensures ([x] + rest)[i].priority <= ([x] + rest)[j].priority
    {
      assert ([x] + rest)[j] == rest[j - 1];
      if i > 0 {
        assert ([x] + rest)[i] == rest[i - 1];
      }
    }
  }

  /** Inserts `e` before the first entry of no lower priority. */
  function Insert(sorted: seq<GoModReplace>, e: GoModReplace): (r: seq<GoModReplace>)
    requires SortedByPriority(sorted)
    ensures forall x :: x in r ==> x == e || x in sorted
    ensures multiset(r) == multiset(sorted) + multiset{e}
    ensures SortedByPriority(r)
  {
    if sorted == [] || e.priority <= sorted[0].priority then
      SortedCons(e, sorted);
      [e] + sorted
    else
      assert sorted == [sorted[0]] + sorted[1..];
      var rest := Insert(sorted[1..], e);
      SortedCons(sorted[0], rest);
      [sorted[0]] + rest
  }

  /** An ascending sort by priority; the order of equal priorities is not part of its contract. */
  function SortByPriority(es: seq<GoModReplace>): (r: seq<GoModReplace>)
    ensures multiset(r) == multiset(es)
    ensures SortedByPriority(r)
  {
    if es == [] then []
    else
      assert es == es[..|es| - 1] + [es[|es| - 1]];
      Insert(SortByPriority(es[..|es| - 1]), es[|es| - 1])
  }

  /**
   * Higher priority wins: after sorting, the last queued replace for `path` has the highest
   * priority among the queued replaces for `path`.
   */
  lemma SortedLastHasTopPriority(es: seq<GoModReplace>, path: string)
    requires SortedByPriority(es) && LastFor(es, path).Some?
    ensures exists i :: && 0 <= i < |es| && es[i].replace.oldMod.path == path
                        && es[i].replace.newMod == LastFor(es, path).value
                        && forall j :: 0 <= j < |es| && es[j].replace.oldMod.path == path ==> es[j].priority <= es[i].priority
  {
    var i := LastIndexFor(es, path);
    assert es[i].replace.newMod == LastFor(es, path).value;
  }

  // ----- The editor -----

  /** The replace a managed package update queues. */
  function ManagedReplace(pkg: string, version: string): GoModReplace
  {
    GoModReplace(Replace(ModuleVersion(pkg, ""), ModuleVersion(pkg, version), []), ManagedPackage, "")
  }

  predicate HasReplaceFor(table: seq<Replace>, pkg: string)
  {
    exists i :: 0 <= i < |table| && table[i].oldMod.path == pkg
  }

  /** GoMod: the parsed manifest, its path, and the queue of replaces waiting for Finish. */
  class GoMod {
    const file: ModFile
    const path: string
    var pending: seq<GoModReplace>

    constructor(file: ModFile, path: string)
      ensures this.file == file && this.path == path && pending == []
    {
      this.file := file;
      this.path := path;
      pending := [];
    }

    /** The manifest's replace entries, each with zero priority and no comment. */
    method GetReplaces() returns (rs: seq<GoModReplace>)
      ensures |rs| == |file.replace|
      ensures forall i :: 0 <= i < |rs| ==> rs[i] == GoModReplace(file.replace[i], 0, "")
    {
      rs := [];
      var pos := 0;
      while pos < |file.replace|
        invariant 0 <= pos <= |file.replace| && |rs| == pos
        invariant forall i :: 0 <= i < pos ==> rs[i] == GoModReplace(file.replace[i], 0, "")
      {
        rs := rs + [GoModReplace(file.replace[pos], 0, "")];
        pos := pos + 1;
      }
    }

    /** The version of the first require of `pkg`, or PackageNotFound. */
    method GetVersionForPackage(pkg: string) returns (r: Outcome<string>)
      ensures r.Ok? <==> exists i :: 0 <= i < |file.require| && file.require[i].mod.path == pkg
      ensures r.Ok? ==> exists i :: && 0 <= i < |file.require| && file.require[i].mod.path == pkg
                                    && r.value == file.require[i].mod.version
                                    && forall j :: 0 <= j < i ==> file.require[j].mod.path != pkg
      ensures r.Fail? ==> r.error == PackageNotFound(pkg)
    {
      var i := 0;
      while i < |file.require|
        invariant 0 <= i <= |file.require|
        invariant forall j :: 0 <= j < i ==> file.require[j].mod.path != pkg
      {
        if file.require[i].mod.path == pkg {
          return Ok(file.require[i].mod.version);
        }
        i := i + 1;
      }
      r := Fail(PackageNotFound(pkg));
    }

    /** Queues a replace for Finish; never fails and leaves the manifest alone. */
    method AddReplace(r: GoModReplace) returns (err: Option<Error>)
      modifies this
      ensures pending == old(pending) + [r]
      ensures err.None?
    {
      pending := pending + [r];
      err := None;
    }

    /**
     * Sets the required version of `pkg`; when the manifest already replaces `pkg`, also
     * queues a version-less managed-priority replace of `pkg` by the new version.
     */
    method UpdatePackage(pkg: string, version: string) returns (err: Option<Error>)
      modifies this, file
      ensures err == Rejection(file.rejected, pkg, pkg)
      ensures err.Some? ==> pending == old(pending) && file.require == old(file.require)
      ensures err.None? ==> file.require == AddRequireEffect(old(file.require), pkg, version)
      ensures err.None? ==> pending == old(pending) + (if HasReplaceFor(file.replace, pkg) then [ManagedReplace(pkg, version)] else [])
      ensures file.replace == old(file.replace)
    {
      err := file.AddRequire(pkg, version);
      if err.Some? {
        return;
      }
      var replaceExists := false;
      var i := 0;
      while i < |file.replace|
        invariant 0 <= i <= |file.replace|
        invariant replaceExists <==> exists j :: 0 <= j < i && file.replace[j].oldMod.path == pkg
      {
        if file.replace[i].oldMod.path == pkg {
          replaceExists := true;
        }
        i := i + 1;
      }
      if replaceExists {
        err := AddReplace(ManagedReplace(pkg, version));
      }
    }

    /** addReplace: merges one queued replace into the manifest. */
    method AddReplaceToFile(input: GoModReplace) returns (err: Option<Error>)
      modifies file
      ensures (file.replace, err) == Merge(old(file.replace), input, file.rejected)
      ensures file.require == old(file.require)
    {
      err := file.AddReplace(input.replace.oldMod.path, input.replace.oldMod.version,
                             input.replace.newMod.path, input.replace.newMod.version);
      if err.Some? {
        return;
      }
      if input.comment == "" {
        return None;
      }
      ghost var added := file.replace;
      var i := 0;
      while i < |file.replace|
        invariant 0 <= i <= |file.replace| && file.replace == added
        invariant forall j :: 0 <= j < i ==> !Selects(added[j], input.replace.oldMod.path, input.replace.oldMod.version)
      {
        if Selects(file.replace[i], input.replace.oldMod.path, input.replace.oldMod.version) {
          file.replace := file.replace[i := file.replace[i].(before := [CommentPrefix + input.comment])];
          return None;
        }
        i := i + 1;
      }
      err := Some(CommentEntryNotFound);
    }

    /**
     * The merge part of Finish: sorts the queue by ascending priority and merges each entry,
     * stopping at the first error.
     */
    method Finish() returns (err: Option<Error>)
      modifies this, file
      ensures multiset(pending) == multiset(old(pending)) && SortedByPriority(pending)
      ensures (file.replace, err) == MergeAll(old(file.replace), pending, file.rejected)
      ensures file.require == old(file.require)
    {
      pending := SortByPriority(pending);
      var i := 0;
      while i < |pending|
        invariant 0 <= i <= |pending|
        invariant multiset(pending) == multiset(old(pending)) && SortedByPriority(pending)
        invariant MergeAll(old(file.replace), pending, file.rejected) == MergeAll(file.replace, pending[i..], file.rejected)
        invariant file.require == old(file.require)
      {
        assert pending[i..] == [pending[i]] + pending[i + 1..];
        err := AddReplaceToFile(pending[i]);
        if err.Some? {
          return;
        }
        i := i + 1;
      }
      err := None;
    }
  }

  /**
   * What Finish promises about a module whose queued replaces are all version-less: if the
   * merge succeeds, the module is replaced by the new side of a queued replace of the highest
   * priority among those queued for it.
   */
  lemma FinishHighestPriorityWins(table: seq<Replace>, es: seq<GoModReplace>, rejected: set<string>, path: string)
    requires SortedByPriority(es) && MergeAll(table, es, rejected).1.None?
    requires forall i :: 0 <= i < |es| && es[i].replace.oldMod.path == path ==> es[i].replace.oldMod.version == ""
    requires exists i :: 0 <= i < |es| && es[i].replace.oldMod.path == path
    ensures exists i :: && 0 <= i < |es| && es[i].replace.oldMod.path == path
                        && Effective(MergeAll(table, es, rejected).0, path) == Some(es[i].replace.newMod)
                        && forall j :: 0 <= j < |es| && es[j].replace.oldMod.path == path ==> es[j].priority <= es[i].priority
  {
    MergeAllLastWins(table, es, rejected, path);
    SortedLastHasTopPriority(es, path);
  }
}
