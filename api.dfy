/** Version helpers, replace-priority tiers and the replace directive record. */
module Api {

  /** `s` ends with `suffix`. */
  predicate IsSuffix(suffix: string, s: string) {
    |suffix| <= |s| && s[|s| - |suffix|..] == suffix
  }

  /** Index of the last occurrence of `c` in `s`, or -1 (strings.LastIndex for a one-byte needle). */
  function LastIndex(s: string, c: char): (i: int)
    ensures -1 <= i < |s|
    ensures i >= 0 ==> s[i] == c
    ensures forall j :: i < j < |s| ==> s[j] != c
  {
    if s == [] then -1
    else if s[|s| - 1] == c then |s| - 1
    else LastIndex(s[..|s| - 1], c)
  }

  /**
   * GoModVersion.Release: the canonical form with its prerelease suffix cut off.
   * `canonical` and `prerelease` are what the semantic-version library returns for the version
   * (build metadata, section 10 of Semantic Versioning 2.0.0, is already dropped from `canonical`);
   * that library guarantees the prerelease is a suffix of the canonical form, both empty for an
   * invalid version.
   */
  function Release(canonical: string, prerelease: string): (r: string)
    requires IsSuffix(prerelease, canonical)
    ensures r + prerelease == canonical
    ensures r <= canonical
    ensures canonical == "" ==> r == ""
  {
    canonical[..|canonical| - |prerelease|]
  }

  /**
   * GoModVersion.Hash: the part of the prerelease (section 9 of Semantic Versioning 2.0.0) after
   * its last '-', which for a pseudo-version is the revision hash.
   */
  function Hash(prerelease: string): (h: string)
    ensures '-' !in h
    ensures IsSuffix(h, prerelease)
    ensures |h| < |prerelease| ==> prerelease[|prerelease| - |h| - 1] == '-'
    ensures '-' !in prerelease ==> h == prerelease
    ensures prerelease == "" ==> h == ""
  {
    var pos := LastIndex(prerelease, '-') + 1;
    assert forall k :: 0 <= k < |prerelease[pos..]| ==> prerelease[pos..][k] == prerelease[pos + k];
    prerelease[pos..]
  }

  /** The suffix after the last dash is the only suffix free of dashes that follows a dash. */
  lemma {:induction false} HashUnique(prerelease: string, h: string)
    requires '-' !in h && IsSuffix(h, prerelease)
    requires |h| < |prerelease| && prerelease[|prerelease| - |h| - 1] == '-'
    ensures Hash(prerelease) == h
  {
    var g := Hash(prerelease);
    if |g| < |h| {
      assert false;
    } else if |g| > |h| {
      assert false;
    }
  }

  /**
   * A pseudo-version vX.Y.Z-<timestamp>-<revision>: Release gives vX.Y.Z and Hash gives the
   * revision, whatever the timestamp, provided the revision has no dash.
   */
  lemma PseudoVersionParts(base: string, timestamp: string, revision: string)
    requires '-' !in revision
    ensures IsSuffix("-" + timestamp + "-" + revision, base + "-" + timestamp + "-" + revision)
    ensures Release(base + "-" + timestamp + "-" + revision, "-" + timestamp + "-" + revision) == base
    ensures Hash("-" + timestamp + "-" + revision) == revision
  {
    var pre := "-" + timestamp + "-" + revision;
    assert base + "-" + timestamp + "-" + revision == base + pre;
    assert pre[|pre| - |revision|..] == revision;
    assert pre[|pre| - |revision| - 1] == '-';
    HashUnique(pre, revision);
  }

  /** The pseudo-version example: release v1.2.3, revision hash abcdef123456. */
  lemma PseudoVersionExample()
    ensures Release("v1.2.3" + "-" + "0.20210101000000" + "-" + "abcdef123456", "-" + "0.20210101000000" + "-" + "abcdef123456") == "v1.2.3"
    ensures Hash("-" + "0.20210101000000" + "-" + "abcdef123456") == "abcdef123456"
  {
    PseudoVersionParts("v1.2.3", "0.20210101000000", "abcdef123456");
  }

  /** GoModReplacePriority, a Go int32. */
  newtype Priority = x: int | -0x8000_0000 <= x < 0x8000_0000

  /** The three priority tiers; a higher priority overwrites a lower one. */
  const ManagedPackage: Priority := 1000
  const UpstreamPackageVersion: Priority := 400
  const UpstreamReplace: Priority := 200

  lemma PriorityTiersOrdered()
    ensures UpstreamReplace < UpstreamPackageVersion < ManagedPackage
  {
  }

  /** module.Version: a module path and an optional version. */
  datatype ModuleVersion = ModuleVersion(path: string, version: string)

  /**
   * modfile.Replace: `oldMod => newMod` (Old and New), with the comment tokens of the lines placed before the entry
   * (its Syntax.Before; empty when the entry has no syntax yet).
   */
  datatype Replace = Replace(oldMod: ModuleVersion, newMod: ModuleVersion, before: seq<string>)

  /** GoModReplace: a replace directive with its priority and management comment ("" = unmanaged). */
  datatype GoModReplace = GoModReplace(replace: Replace, priority: Priority, comment: string)
}
