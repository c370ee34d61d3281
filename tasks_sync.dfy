/**
 * The sync-directory task: walks the source directory of the new module version and the
 * destination directory of the project, and plans the copies and deletes that make the filtered
 * destination mirror the filtered source. Go map iteration order is unspecified, so the plan is
 * stated as sets of relative paths.
 */
module TaskSyncs {
  import opened Errors
  import opened TaskResults

  /** TaskSyncDirectory; `recursive` is the optional *bool (None = nil = recursive). */
  datatype TaskSyncDirectory = TaskSyncDirectory(source: string, destination: string, glob: string, recursive: Option<bool>)

  /**
   * One call of filepath.Walk's callback: the path relative to the walked root (filepath.Rel),
   * its base name (filepath.Base), whether it is a directory, and the error Walk hands over.
   */
  datatype Visit = Visit(relPath: string, baseName: string, isDir: bool, err: Option<Error>)

  /** The recursion filter: off only for an explicit false, and then only top-level files pass. */
  predicate InScope(t: TaskSyncDirectory, v: Visit) {
    t.recursive != Some(false) || v.baseName == v.relPath
  }

  /**
   * The callback of walkDirectory on one visit: Fail stops the walk, Ok(true) records the file.
   * `globMatch` stands for filepath.Match(pattern, name).
   */
  function Keep(t: TaskSyncDirectory, v: Visit, globMatch: (string, string) -> Outcome<bool>): (r: Outcome<bool>)
    ensures r == Ok(true) <==> v.err.None? && !v.isDir && InScope(t, v) && (t.glob == "" || globMatch(t.glob, v.baseName) == Ok(true))
    ensures r.Fail? <==> v.err.Some? || (!v.isDir && InScope(t, v) && t.glob != "" && globMatch(t.glob, v.baseName).Fail?)
    ensures r.Fail? ==> r.error == if v.err.Some? then v.err.value else globMatch(t.glob, v.baseName).error
  {
    if v.err.Some? then Fail(v.err.value)
    else if v.isDir then Ok(false)
    else if t.recursive.Some? && !t.recursive.value && v.baseName != v.relPath then Ok(false)
    else if t.glob != "" then
      match globMatch(t.glob, v.baseName)
      case Fail(e) => Fail(e)
      case Ok(m) => Ok(m)
    else Ok(true)
  }

  /** The relative paths a walk records, or the error that stopped it first. */
  function Walked(t: TaskSyncDirectory, visits: seq<Visit>, globMatch: (string, string) -> Outcome<bool>): Outcome<set<string>>
  {
    if visits == [] then Ok({})
    else
      match Walked(t, visits[..|visits| - 1], globMatch)
      case Fail(e) => Fail(e)
      case Ok(s) =>
        var v := visits[|visits| - 1];
        match Keep(t, v, globMatch)
        case Fail(e) => Fail(e)
        case Ok(k) => Ok(if k then s + {v.relPath} else s)
  }

  /** A walk succeeds iff no visit's callback fails. */
  lemma {:induction false} WalkedOk(t: TaskSyncDirectory, visits: seq<Visit>, globMatch: (string, string) -> Outcome<bool>)
    ensures Walked(t, visits, globMatch).Ok? <==> forall i :: 0 <= i < |visits| ==> Keep(t, visits[i], globMatch).Ok?
  {
    if visits != [] {
      var init := visits[..|visits| - 1];
      WalkedOk(t, init, globMatch);
      assert forall i :: 0 <= i < |init| ==> init[i] == visits[i];
    }
  }

  /** A successful walk records exactly the paths of the visits its filter keeps. */
  lemma {:induction false} WalkedMembers(t: TaskSyncDirectory, visits: seq<Visit>, globMatch: (string, string) -> Outcome<bool>, p: string)
    requires Walked(t, visits, globMatch).Ok?
    ensures p in Walked(t, visits, globMatch).value
        <==> exists i :: 0 <= i < |visits| && visits[i].relPath == p && Keep(t, visits[i], globMatch) == Ok(true)
  {
    if visits != [] {
      var init := visits[..|visits| - 1];
      WalkedMembers(t, init, globMatch, p);
      assert forall i :: 0 <= i < |init| ==> init[i] == visits[i];
    }
  }

  /** A failed walk reports the error of the first visit whose callback fails. */
  lemma {:induction false} WalkedFirstError(t: TaskSyncDirectory, visits: seq<Visit>, globMatch: (string, string) -> Outcome<bool>)
    requires Walked(t, visits, globMatch).Fail?
    ensures exists i :: 0 <= i < |visits| && Keep(t, visits[i], globMatch) == Fail(Walked(t, visits, globMatch).error)
                     && forall j :: 0 <= j < i ==> Keep(t, visits[j], globMatch).Ok?
  {
    var init := visits[..|visits| - 1];
    assert forall i :: 0 <= i < |init| ==> init[i] == visits[i];
    if Walked(t, init, globMatch).Fail? {
      WalkedFirstError(t, init, globMatch);
    } else {
      WalkedOk(t, init, globMatch);
    }
  }

  lemma {:induction false} WalkedStopsAtError(t: TaskSyncDirectory, visits: seq<Visit>, globMatch: (string, string) -> Outcome<bool>, i: nat)
    requires i <= |visits| && Walked(t, visits[..i], globMatch).Fail?
    ensures Walked(t, visits, globMatch) == Walked(t, visits[..i], globMatch)
  {
    if i < |visits| {
      var init := visits[..|visits| - 1];
      assert init[..i] == visits[..i];
      WalkedStopsAtError(t, init, globMatch, i);
    } else {
      assert visits[..i] == visits;
    }
  }

  /** walkDirectory: fills a map with the recorded relative paths (values still empty). */
  method WalkDirectory(t: TaskSyncDirectory, visits: seq<Visit>, globMatch: (string, string) -> Outcome<bool>)
    returns (r: Outcome<map<string, string>>)
    ensures r.Ok? <==> Walked(t, visits, globMatch).Ok?
    ensures r.Ok? ==> r.value.Keys == Walked(t, visits, globMatch).value
    ensures r.Ok? ==> forall p :: p in r.value ==> r.value[p] == ""
    ensures r.Fail? ==> Walked(t, visits, globMatch) == Fail(r.error)
  {
    var m: map<string, string> := map[];
    var i := 0;
    assert visits[..0] == [];
    assert Walked(t, visits[..0], globMatch) == Ok({});
    assert m.Keys == {};
    while i < |visits|
      invariant 0 <= i <= |visits|
      invariant Walked(t, visits[..i], globMatch) == Ok(m.Keys)
      invariant forall p :: p in m ==> m[p] == ""
    {
      assert visits[..i + 1][..i] == visits[..i];
      assert visits[..i + 1][i] == visits[i];
      var kept := Keep(t, visits[i], globMatch);
      if kept.Fail? {
        WalkedStopsAtError(t, visits, globMatch, i + 1);
        return Fail(kept.error);
      }
      assert Walked(t, visits[..i + 1], globMatch)
          == Ok(if kept.value then m.Keys + {visits[i].relPath} else m.Keys);
      if kept.value {
        assert m[visits[i].relPath := ""].Keys == m.Keys + {visits[i].relPath};
        m := m[visits[i].relPath := ""];
      }
      i := i + 1;
    }
    assert visits[..i] == visits;
    r := Ok(m);
  }

  // ----- The plan -----

  /** Every shared path hashes without error on both sides. */
  predicate HashesOk(src: set<string>, dst: set<string>, sourcePath: string, destinationPath: string,
                     join: (string, string) -> string, hash: string -> Outcome<string>)
  {
    forall p :: p in src && p in dst ==> hash(join(sourcePath, p)).Ok? && hash(join(destinationPath, p)).Ok?
  }

  /** Paths to copy: present only in the source, or present in both with different content hashes. */
  function CopyPaths(src: set<string>, dst: set<string>, sourcePath: string, destinationPath: string,
                     join: (string, string) -> string, hash: string -> Outcome<string>): set<string>
  {
    (src - dst) + set p | p in src && p in dst && hash(join(sourcePath, p)) != hash(join(destinationPath, p))
  }

  /** Paths to delete: present only in the destination. */
  function DeletePaths(src: set<string>, dst: set<string>): set<string>
  {
    dst - src
  }

  /** The hash of a relative path under `root`. */
  function HashUnder(root: string, join: (string, string) -> string, hash: string -> Outcome<string>): (h: string -> Outcome<string>)
    ensures forall p :: h(p) == hash(join(root, p))
  {
    p => hash(join(root, p))
  }

  function CopyUnder(sourcePath: string, destination: string, join: (string, string) -> string): (c: string -> Copy)
    ensures forall p :: c(p) == MkCopy(sourcePath, destination, join, p)
  {
    p => MkCopy(sourcePath, destination, join, p)
  }

  function DeleteUnder(destination: string, join: (string, string) -> string): (d: string -> Delete)
    ensures forall p :: d(p) == MkDelete(destination, join, p)
  {
    p => MkDelete(destination, join, p)
  }

  function MkCopy(sourcePath: string, destination: string, join: (string, string) -> string, p: string): Copy
  {
    Copy(join(sourcePath, p), join(destination, p))
  }

  function MkDelete(destination: string, join: (string, string) -> string, p: string): Delete
  {
    Delete(join(destination, p))
  }

  /** `copies` holds one copy per path of `paths`, and nothing else. */
  ghost predicate CopiesExactly(copies: seq<Copy>, paths: set<string>, sourcePath: string, destination: string,
                                join: (string, string) -> string)
  {
    Exactly(copies, paths, CopyUnder(sourcePath, destination, join))
  }

  /** `deletes` holds one delete per path of `paths`, and nothing else. */
  ghost predicate DeletesExactly(deletes: seq<Delete>, paths: set<string>, destination: string,
                                 join: (string, string) -> string)
  {
    Exactly(deletes, paths, DeleteUnder(destination, join))
  }

  /** Every shared path hashes without error under `root`. */
  predicate SideHashesOk(src: set<string>, dst: set<string>, root: string,
                         join: (string, string) -> string, hash: string -> Outcome<string>)
  {
    forall p :: p in src && p in dst ==> hash(join(root, p)).Ok?
  }

  /** Some shared path's hash under `root` failed with `e`. */
  ghost predicate HashFailedUnder(src: set<string>, dst: set<string>, root: string,
                                  join: (string, string) -> string, hash: string -> Outcome<string>, e: Error)
  {
    exists p :: p in src && p in dst && hash(join(root, p)) == Fail(e)
  }

  /**
   * What TaskSyncDirectory.run may return, whatever order the maps are iterated in. The source
   * files are all hashed before any destination file, so a failing source hash is the one reported.
   */
  ghost predicate SyncOutcome(t: TaskSyncDirectory, sourcePath: string, destinationPath: string,
                              join: (string, string) -> string, walk: string -> seq<Visit>,
                              globMatch: (string, string) -> Outcome<bool>, hash: string -> Outcome<string>,
                              r: Outcome<Option<Result>>)
  {
    match Walked(t, walk(sourcePath), globMatch)
    case Fail(e) => r == Fail(e)
    case Ok(src) =>
      match Walked(t, walk(destinationPath), globMatch)
      case Fail(e) => r == Fail(e)
      case Ok(dst) =>
        if HashesOk(src, dst, sourcePath, destinationPath, join, hash) then
          && r.Ok? && r.value.Some?
          && r.value.value.patches == []
          && CopiesExactly(r.value.value.filesToCopy, CopyPaths(src, dst, sourcePath, destinationPath, join, hash),
                           sourcePath, t.destination, join)
          && DeletesExactly(r.value.value.filesToDelete, DeletePaths(src, dst), t.destination, join)
        else if !SideHashesOk(src, dst, sourcePath, join, hash) then
          r.Fail? && HashFailedUnder(src, dst, sourcePath, join, hash, r.error)
        else
          r.Fail? && HashFailedUnder(src, dst, destinationPath, join, hash, r.error)
  }

  /** No relative path is planned both for a copy and for a delete. */
  lemma PlanDisjoint(src: set<string>, dst: set<string>, sourcePath: string, destinationPath: string,
                     join: (string, string) -> string, hash: string -> Outcome<string>)
    ensures CopyPaths(src, dst, sourcePath, destinationPath, join, hash) !! DeletePaths(src, dst)
    ensures CopyPaths(src, dst, sourcePath, destinationPath, join, hash) + DeletePaths(src, dst) <= src + dst
  {
  }

  /** A destination that already mirrors the source (same paths, same hashes) gives an empty result. */
  lemma MirrorIsEmpty(t: TaskSyncDirectory, sourcePath: string, destinationPath: string,
                      join: (string, string) -> string, walk: string -> seq<Visit>,
                      globMatch: (string, string) -> Outcome<bool>, hash: string -> Outcome<string>,
                      r: Outcome<Option<Result>>)
    requires SyncOutcome(t, sourcePath, destinationPath, join, walk, globMatch, hash, r)
    requires Walked(t, walk(sourcePath), globMatch).Ok?
    requires Walked(t, walk(destinationPath), globMatch) == Walked(t, walk(sourcePath), globMatch)
    requires forall p :: p in Walked(t, walk(sourcePath), globMatch).value ==>
               hash(join(sourcePath, p)).Ok? && hash(join(destinationPath, p)) == hash(join(sourcePath, p))
    ensures r == Ok(Some(Empty))
  {
    var src := Walked(t, walk(sourcePath), globMatch).value;
    assert CopyPaths(src, src, sourcePath, destinationPath, join, hash) == {};
    assert DeletePaths(src, src) == {};
    ExactlyNone(r.value.value.filesToCopy, CopyUnder(sourcePath, t.destination, join));
    ExactlyNone(r.value.value.filesToDelete, DeleteUnder(t.destination, join));
  }

  /** `order` lists every path of `paths` exactly once, and nothing else. */
  ghost predicate Listing<P>(order: seq<P>, paths: set<P>)
  {
    && NoDup(order)
    && (forall q :: q in order ==> q in paths)
    && (forall q :: q in paths ==> q in order)
  }

  /** `xs` is f applied to the paths of `paths`, one entry per path, in some order. */
  ghost predicate Exactly<P(!new), X>(xs: seq<X>, paths: set<P>, f: P -> X)
  {
    exists order :: Listing(order, paths) && xs == MapSeq(order, f)
  }

  function MapSeq<P, X>(s: seq<P>, f: P -> X): (r: seq<X>)
    ensures |r| == |s| && forall i :: 0 <= i < |s| ==> r[i] == f(s[i])
  {
    if s == [] then [] else MapSeq(s[..|s| - 1], f) + [f(s[|s| - 1])]
  }

  ghost predicate NoDup<P>(s: seq<P>)
  {
    s == [] || (NoDup(s[..|s| - 1]) && s[|s| - 1] !in s[..|s| - 1])
  }

  lemma {:induction false} NoDupCard<P>(s: seq<P>, paths: set<P>)
    requires NoDup(s) && forall q :: q in s <==> q in paths
    ensures |paths| == |s|
  {
    if s != [] {
      var init, last := s[..|s| - 1], s[|s| - 1];
      assert forall q :: q in s <==> q in init || q == last;
      NoDupCard(init, paths - {last});
    } else {
      assert paths == {};
    }
  }

  /**
   * What a planned list promises: as many entries as paths, an entry for every path, and
   * only entries of paths.
   */
  lemma ExactlyFacts<P(!new), X>(xs: seq<X>, paths: set<P>, f: P -> X)
    requires Exactly(xs, paths, f)
    ensures |xs| == |paths|
    ensures forall p :: p in paths ==> f(p) in xs
    ensures forall x :: x in xs ==> exists p :: p in paths && x == f(p)
  {
    var order :| Listing(order, paths) && xs == MapSeq(order, f);
    NoDupCard(order, paths);
    forall p | p in paths
      ensures f(p) in xs
    {
      var i :| 0 <= i < |order| && order[i] == p;
      assert xs[i] == f(p);
    }
    forall x | x in xs
      ensures exists p :: p in paths && x == f(p)
    {
      var i :| 0 <= i < |xs| && xs[i] == x;
      assert order[i] in paths;
    }
  }

  /** A list for no paths is empty. */
  lemma ExactlyNone<P(!new), X>(xs: seq<X>, f: P -> X)
    requires Exactly(xs, {}, f)
    ensures xs == []
  {
    var order :| Listing(order, {}) && xs == MapSeq(order, f);
    NoDupCard(order, {});
  }

  lemma {:induction false} NoDupAppend<P>(a: seq<P>, b: seq<P>)
    requires NoDup(a) && NoDup(b) && forall q :: q in a ==> q !in b
    ensures NoDup(a + b)
  {
    if b == [] {
      assert a + b == a;
    } else {
      var init := b[..|b| - 1];
      assert (a + b)[..|a + b| - 1] == a + init;
      assert forall q :: q in init ==> q in b;
      NoDupAppend(a, init);
    }
  }

  lemma MapSeqAppend<P, X>(a: seq<P>, b: seq<P>, f: P -> X)
    ensures MapSeq(a + b, f) == MapSeq(a, f) + MapSeq(b, f)
  {
    assert forall i :: 0 <= i < |a + b| ==> MapSeq(a + b, f)[i] == (MapSeq(a, f) + MapSeq(b, f))[i];
  }

  /** The lists of two disjoint path sets, one after the other, list their union. */
  lemma ExactlyConcat<P(!new), X>(xs: seq<X>, ys: seq<X>, a: set<P>, b: set<P>, f: P -> X)
    requires Exactly(xs, a, f) && Exactly(ys, b, f) && a !! b
    ensures Exactly(xs + ys, a + b, f)
  {
    var oa :| Listing(oa, a) && xs == MapSeq(oa, f);
    var ob :| Listing(ob, b) && ys == MapSeq(ob, f);
    NoDupAppend(oa, ob);
    MapSeqAppend(oa, ob, f);
    assert Listing(oa + ob, a + b);
  }

  /** Moving one key from the unvisited to the visited part of a map's key set. */
  lemma PartitionStep<P>(todo: set<P>, done: set<P>, all: set<P>, p: P)
    requires todo !! done && todo + done == all && p in todo
    ensures (todo - {p}) !! (done + {p}) && (todo - {p}) + (done + {p}) == all
  {
  }

  lemma NoDupSnoc<P>(s: seq<P>, p: P)
    requires NoDup(s) && p !in s
    ensures NoDup(s + [p])
  {
    assert (s + [p])[..|s|] == s;
  }

  /** `order` lists, without repetition, the visited paths that belong to `keep`. */
  ghost predicate Tracks<P>(order: seq<P>, done: set<P>, keep: set<P>)
  {
    && NoDup(order)
    && (forall q :: q in order ==> q in done && q in keep)
    && (forall q :: q in done && q in keep ==> q in order)
  }

  lemma TracksStep<P>(order: seq<P>, done: set<P>, keep: set<P>, p: P)
    requires Tracks(order, done, keep) && p !in done
    ensures p in keep ==> Tracks(order + [p], done + {p}, keep)
    ensures p !in keep ==> Tracks(order, done + {p}, keep)
  {
    if p in keep {
      NoDupSnoc(order, p);
    }
  }

  /** Once every path is visited, the tracked order mapped through f lists exactly `keep`. */
  lemma ExactlyOfTracks<P(!new), X>(order: seq<P>, done: set<P>, keep: set<P>, f: P -> X)
    requires Tracks(order, done, keep) && keep <= done
    ensures Exactly(MapSeq(order, f), keep, f)
  {
    assert Listing(order, keep);
  }

  lemma MapSeqSnoc<P, X>(s: seq<P>, p: P, f: P -> X)
    ensures MapSeq(s + [p], f) == MapSeq(s, f) + [f(p)]
  {
    assert (s + [p])[..|s|] == s;
  }

  /** The visited source files that the destination also has carry their hash; the key set is unchanged. */
  ghost predicate HashedSoFar<P, H>(files: map<P, H>, sourceFiles: map<P, H>, done: set<P>, dst: set<P>, sourceHash: P -> Outcome<H>)
  {
    && files.Keys == sourceFiles.Keys && done <= files.Keys
    && forall p :: p in done && p in dst ==> sourceHash(p).Ok? && files[p] == sourceHash(p).value
  }

  lemma HashedStep<P, H>(files: map<P, H>, sourceFiles: map<P, H>, done: set<P>, dst: set<P>, sourceHash: P -> Outcome<H>, p: P)
    requires HashedSoFar(files, sourceFiles, done, dst, sourceHash) && p in sourceFiles
    ensures p in dst && sourceHash(p).Ok? ==>
              HashedSoFar(files[p := sourceHash(p).value], sourceFiles, done + {p}, dst, sourceHash)
    ensures p !in dst ==> HashedSoFar(files, sourceFiles, done + {p}, dst, sourceHash)
  {
  }

  /** Every visited destination file that the source also has hashes without error. */
  ghost predicate DestinationsHashed<P, H>(done: set<P>, src: set<P>, destinationHash: P -> Outcome<H>)
  {
    forall p :: p in done && p in src ==> destinationHash(p).Ok?
  }

  lemma DestinationsHashedStep<P, H>(done: set<P>, src: set<P>, destinationHash: P -> Outcome<H>, p: P)
    requires DestinationsHashed(done, src, destinationHash)
    requires p in src ==> destinationHash(p).Ok?
    ensures DestinationsHashed(done + {p}, src, destinationHash)
  {
  }

  /** The shared paths whose two hashes differ. */
  function Changed<P, H(==)>(src: set<P>, dst: set<P>, sourceHash: P -> Outcome<H>, destinationHash: P -> Outcome<H>): set<P>
  {
    set p | p in dst && p in src && sourceHash(p) != destinationHash(p)
  }

  /**
   * The first loop of run: hashes every source file that also exists in the destination,
   * and plans a copy for every source file that does not.
   */
  method HashSources<P(==,!new), H(==), C>(sourceFiles: map<P, H>, dst: set<P>, sourceHash: P -> Outcome<H>, copy: P -> C)
    returns (r: Outcome<(map<P, H>, seq<C>)>)
    ensures r.Ok? <==> forall p :: p in sourceFiles && p in dst ==> sourceHash(p).Ok?
    ensures r.Ok? ==> r.value.0.Keys == sourceFiles.Keys
    ensures r.Ok? ==> forall p :: p in sourceFiles && p in dst ==> r.value.0[p] == sourceHash(p).value
    ensures r.Ok? ==> Exactly(r.value.1, sourceFiles.Keys - dst, copy)
    ensures r.Fail? ==> exists p :: p in sourceFiles && p in dst && sourceHash(p) == Fail(r.error)
  {
    ghost var only := sourceFiles.Keys - dst;
    var files := sourceFiles;
    var copies: seq<C> := [];
    ghost var done: set<P> := {};
    ghost var order: seq<P> := [];
    var todo := sourceFiles.Keys;
    while todo != {}
      invariant todo !! done && todo + done == sourceFiles.Keys
      invariant HashedSoFar(files, sourceFiles, done, dst, sourceHash)
      invariant copies == MapSeq(order, copy) && Tracks(order, done, only)
      decreases todo
    {
      var filePath :| filePath in todo;
      TracksStep(order, done, only, filePath);
      HashedStep(files, sourceFiles, done, dst, sourceHash, filePath);
      if filePath in dst {
        var h := sourceHash(filePath);
        if h.Fail? {
          return Fail(h.error);
        }
        files := files[filePath := h.value];
      } else {
        MapSeqSnoc(order, filePath, copy);
        order := order + [filePath];
        copies := copies + [copy(filePath)];
      }
      PartitionStep(todo, done, sourceFiles.Keys, filePath);
      done := done + {filePath};
      todo := todo - {filePath};
    }
    ExactlyOfTracks(order, done, only, copy);
    r := Ok((files, copies));
  }

  /**
   * The second loop of run: hashes every destination file that also exists in the source,
   * plans a copy when the hashes differ, and a delete for every destination-only file.
   * Returns the copies this loop appends and the deletes.
   */
  method CompareDestinations<P(==,!new), H(==), C, D>(sourceHashes: map<P, H>, destinationFiles: map<P, H>,
                                                 sourceHash: P -> Outcome<H>, destinationHash: P -> Outcome<H>,
                                                 copy: P -> C, delete: P -> D)
    returns (r: Outcome<(seq<C>, seq<D>)>)
    requires forall p :: p in sourceHashes && p in destinationFiles ==>
               sourceHash(p).Ok? && sourceHashes[p] == sourceHash(p).value
    ensures r.Ok? <==> forall p :: p in sourceHashes && p in destinationFiles ==> destinationHash(p).Ok?
    ensures r.Ok? ==> Exactly(r.value.0, Changed(sourceHashes.Keys, destinationFiles.Keys, sourceHash, destinationHash), copy)
    ensures r.Ok? ==> Exactly(r.value.1, destinationFiles.Keys - sourceHashes.Keys, delete)
    ensures r.Fail? ==> exists p :: p in sourceHashes && p in destinationFiles && destinationHash(p) == Fail(r.error)
  {
    ghost var src, dst := sourceHashes.Keys, destinationFiles.Keys;
    ghost var changed := Changed(src, dst, sourceHash, destinationHash);
    var files := destinationFiles;
    var copies: seq<C> := [];
    var deletes: seq<D> := [];
    ghost var done: set<P> := {};
    ghost var copied: seq<P> := [];
    ghost var deleted: seq<P> := [];
    var todo := destinationFiles.Keys;
    while todo != {}
      invariant todo !! done && todo + done == dst
      invariant DestinationsHashed(done, src, destinationHash)
      invariant copies == MapSeq(copied, copy) && Tracks(copied, done, changed)
      invariant deletes == MapSeq(deleted, delete) && Tracks(deleted, done, dst - src)
      decreases todo
    {
      var filePath :| filePath in todo;
      TracksStep(copied, done, changed, filePath);
      TracksStep(deleted, done, dst - src, filePath);
      if filePath in sourceHashes {
        var hashSource := sourceHashes[filePath];
        var h := destinationHash(filePath);
        if h.Fail? {
          return Fail(h.error);
        }
        DestinationsHashedStep(done, src, destinationHash, filePath);
        files := files[filePath := h.value];
        if files[filePath] != hashSource {
          assert filePath in changed;
          MapSeqSnoc(copied, filePath, copy);
          copied := copied + [filePath];
          copies := copies + [copy(filePath)];
        } else {
          assert filePath !in changed;
        }
      } else {
        DestinationsHashedStep(done, src, destinationHash, filePath);
        MapSeqSnoc(deleted, filePath, delete);
        deleted := deleted + [filePath];
        deletes := deletes + [delete(filePath)];
      }
      PartitionStep(todo, done, dst, filePath);
      done := done + {filePath};
      todo := todo - {filePath};
    }
    ExactlyOfTracks(copied, done, changed, copy);
    ExactlyOfTracks(deleted, done, dst - src, delete);
    r := Ok((copies, deletes));
  }

  lemma ChangedUnder(src: set<string>, dst: set<string>, sourcePath: string, destinationPath: string,
                     join: (string, string) -> string, hash: string -> Outcome<string>)
    ensures (src - dst) + Changed(src, dst, HashUnder(sourcePath, join, hash), HashUnder(destinationPath, join, hash))
         == CopyPaths(src, dst, sourcePath, destinationPath, join, hash)
  {
  }

  lemma SyncSucceeds(t: TaskSyncDirectory, sourcePath: string, destinationPath: string,
                     join: (string, string) -> string, walk: string -> seq<Visit>,
                     globMatch: (string, string) -> Outcome<bool>, hash: string -> Outcome<string>,
                     copies: seq<Copy>, deletes: seq<Delete>)
    requires Walked(t, walk(sourcePath), globMatch).Ok? && Walked(t, walk(destinationPath), globMatch).Ok?
    requires var src, dst := Walked(t, walk(sourcePath), globMatch).value, Walked(t, walk(destinationPath), globMatch).value;
             && HashesOk(src, dst, sourcePath, destinationPath, join, hash)
             && CopiesExactly(copies, CopyPaths(src, dst, sourcePath, destinationPath, join, hash), sourcePath, t.destination, join)
             && DeletesExactly(deletes, DeletePaths(src, dst), t.destination, join)
    ensures SyncOutcome(t, sourcePath, destinationPath, join, walk, globMatch, hash, Ok(Some(Result(copies, deletes, []))))
  {
  }

  lemma SyncSourceHashFails(t: TaskSyncDirectory, sourcePath: string, destinationPath: string,
                            join: (string, string) -> string, walk: string -> seq<Visit>,
                            globMatch: (string, string) -> Outcome<bool>, hash: string -> Outcome<string>, p: string, e: Error)
    requires Walked(t, walk(sourcePath), globMatch).Ok? && Walked(t, walk(destinationPath), globMatch).Ok?
    requires p in Walked(t, walk(sourcePath), globMatch).value && p in Walked(t, walk(destinationPath), globMatch).value
    requires hash(join(sourcePath, p)) == Fail(e)
    ensures SyncOutcome(t, sourcePath, destinationPath, join, walk, globMatch, hash, Fail(e))
  {
    var src, dst := Walked(t, walk(sourcePath), globMatch).value, Walked(t, walk(destinationPath), globMatch).value;
    assert !SideHashesOk(src, dst, sourcePath, join, hash);
    assert HashFailedUnder(src, dst, sourcePath, join, hash, e);
  }

  lemma SyncDestinationHashFails(t: TaskSyncDirectory, sourcePath: string, destinationPath: string,
                                 join: (string, string) -> string, walk: string -> seq<Visit>,
                                 globMatch: (string, string) -> Outcome<bool>, hash: string -> Outcome<string>, p: string, e: Error)
    requires Walked(t, walk(sourcePath), globMatch).Ok? && Walked(t, walk(destinationPath), globMatch).Ok?
    requires SideHashesOk(Walked(t, walk(sourcePath), globMatch).value, Walked(t, walk(destinationPath), globMatch).value,
                          sourcePath, join, hash)
    requires p in Walked(t, walk(sourcePath), globMatch).value && p in Walked(t, walk(destinationPath), globMatch).value
    requires hash(join(destinationPath, p)) == Fail(e)
    ensures SyncOutcome(t, sourcePath, destinationPath, join, walk, globMatch, hash, Fail(e))
  {
    var src, dst := Walked(t, walk(sourcePath), globMatch).value, Walked(t, walk(destinationPath), globMatch).value;
    assert !HashesOk(src, dst, sourcePath, destinationPath, join, hash);
    assert HashFailedUnder(src, dst, destinationPath, join, hash, e);
  }

  /**
   * TaskSyncDirectory.run. `walk` stands for filepath.Walk (the visits under a root), `hash` for
   * the SHA-256 hex digest of a file (which may fail), `join` for filepath.Join. The two map
   * loops pick their keys in an unspecified order, as Go's map iteration does.
   */
  method Run(t: TaskSyncDirectory, afterDir: string, rootPath: string,
             join: (string, string) -> string, walk: string -> seq<Visit>,
             globMatch: (string, string) -> Outcome<bool>, hash: string -> Outcome<string>)
    returns (r: Outcome<Option<Result>>)
    ensures SyncOutcome(t, join(afterDir, t.source), join(rootPath, t.destination), join, walk, globMatch, hash, r)
  {
    var sourcePath := join(afterDir, t.source);
    var destinationPath := join(rootPath, t.destination);

    var walkedSource := WalkDirectory(t, walk(sourcePath), globMatch);
    if walkedSource.Fail? {
      return Fail(walkedSource.error);
    }
    var walkedDestination := WalkDirectory(t, walk(destinationPath), globMatch);
    if walkedDestination.Fail? {
      return Fail(walkedDestination.error);
    }
    var sourceFiles := walkedSource.value;
    var destinationFiles := walkedDestination.value;
    var sourceHash := HashUnder(sourcePath, join, hash);
    var destinationHash := HashUnder(destinationPath, join, hash);
    var copy := CopyUnder(sourcePath, t.destination, join);
    var delete := DeleteUnder(t.destination, join);

    var hashed := HashSources(sourceFiles, destinationFiles.Keys, sourceHash, copy);
    if hashed.Fail? {
      ghost var p :| p in sourceFiles && p in destinationFiles.Keys && sourceHash(p) == Fail(hashed.error);
      SyncSourceHashFails(t, sourcePath, destinationPath, join, walk, globMatch, hash, p, hashed.error);
      return Fail(hashed.error);
    }
    var compared := CompareDestinations(hashed.value.0, destinationFiles, sourceHash, destinationHash, copy, delete);
    if compared.Fail? {
      ghost var p :| p in hashed.value.0 && p in destinationFiles && destinationHash(p) == Fail(compared.error);
      assert SideHashesOk(sourceFiles.Keys, destinationFiles.Keys, sourcePath, join, hash);
      SyncDestinationHashFails(t, sourcePath, destinationPath, join, walk, globMatch, hash, p, compared.error);
      return Fail(compared.error);
    }
    ghost var src, dst := sourceFiles.Keys, destinationFiles.Keys;
    ExactlyConcat(hashed.value.1, compared.value.0, src - dst, Changed(src, dst, sourceHash, destinationHash), copy);
    ChangedUnder(src, dst, sourcePath, destinationPath, join, hash);
    SyncSucceeds(t, sourcePath, destinationPath, join, walk, globMatch, hash, hashed.value.1 + compared.value.0, compared.value.1);
    r := Ok(Some(Result(hashed.value.1 + compared.value.0, compared.value.1, [])));
  }
}
