/** The change set a task produces (Result), its parts, and how change sets are merged. */
module TaskResults {
  import opened Errors

  /** A unified-diff body, paths already rewritten to the destination tree. */
  datatype Patch = Patch(body: seq<char>)

  /** A file to copy from the downloaded module into the project (destination relative to the root). */
  datatype Copy = Copy(source: string, destination: string)
  {
    /** Copy.Apply is a stub: it touches nothing and reports no error. */
    function Apply(): (err: Option<Error>)
      ensures err.None?
    {
      None
    }
  }

  /** A file to delete, relative to the project root. */
  datatype Delete = Delete(path: string)
  {
    /** Delete.Apply is a stub: it touches nothing and reports no error. */
    function Apply(): (err: Option<Error>)
      ensures err.None?
    {
      None
    }
  }

  /** Result: three independent change lists. */
  datatype Result = Result(filesToCopy: seq<Copy>, filesToDelete: seq<Delete>, patches: seq<Patch>)
  {
    function IsEmpty(): (b: bool)
      ensures b <==> filesToCopy == [] && filesToDelete == [] && patches == []
    {
      if |filesToCopy| > 0 then false
      else if |filesToDelete| > 0 then false
      else if |patches| > 0 then false
      else true
    }

    /**
     * Result.Apply: hands every patch, in order, to the patch tool (whose outcome is only logged)
     * and always reports success; copies and deletes are never carried out. `attempted` records the
     * patches handed to the tool.
     */
    method Apply() returns (err: Option<Error>, ghost attempted: seq<Patch>)
      ensures err.None?
      ensures attempted == patches
    {
      attempted := [];
      var pos := 0;
      while pos < |patches|
        invariant 0 <= pos <= |patches|
        invariant attempted == patches[..pos]
      {
        // `patch -p 1` runs here on patches[pos].body; an error is only logged
        attempted := attempted + [patches[pos]];
        pos := pos + 1;
      }
      err := None;
    }
  }

  const Empty := Result([], [], [])

  function CopiesOf(r: Result): seq<Copy> { r.filesToCopy }
  function DeletesOf(r: Result): seq<Delete> { r.filesToDelete }
  function PatchesOf(r: Result): seq<Patch> { r.patches }

  /** The in-order concatenation of one list of every non-nil result. */
  function Gather<T>(rs: seq<Option<Result>>, part: Result -> seq<T>): seq<T>
  {
    if rs == [] then []
    else Gather(rs[..|rs| - 1], part) + (match rs[|rs| - 1] case None => [] case Some(r) => part(r))
  }

  lemma {:induction false} GatherAppend<T>(a: seq<Option<Result>>, b: seq<Option<Result>>, part: Result -> seq<T>)
    ensures Gather(a + b, part) == Gather(a, part) + Gather(b, part)
  {
    if b == [] {
      assert a + b == a;
    } else {
      assert (a + b)[..|a + b| - 1] == a + b[..|b| - 1];
      GatherAppend(a, b[..|b| - 1], part);
    }
  }

  /** An element is gathered iff it belongs to that list of some non-nil result: nothing leaks between lists. */
  lemma {:induction false} GatherMembers<T>(rs: seq<Option<Result>>, part: Result -> seq<T>, x: T)
    ensures x in Gather(rs, part) <==> exists i :: 0 <= i < |rs| && rs[i].Some? && x in part(rs[i].value)
  {
    if rs != [] {
      var init := rs[..|rs| - 1];
      GatherMembers(init, part, x);
      if x in Gather(rs, part) && x !in Gather(init, part) {
        assert rs[|rs| - 1].Some? && x in part(rs[|rs| - 1].value);
      }
      if exists i :: 0 <= i < |rs| && rs[i].Some? && x in part(rs[i].value) {
        var i :| 0 <= i < |rs| && rs[i].Some? && x in part(rs[i].value);
        if i < |rs| - 1 {
          assert init[i] == rs[i];
        }
      }
    }
  }

  /** Gathering gives the empty list iff every non-nil result has that list empty. */
  lemma {:induction false} GatherEmpty<T>(rs: seq<Option<Result>>, part: Result -> seq<T>)
    ensures Gather(rs, part) == [] <==> forall i :: 0 <= i < |rs| && rs[i].Some? ==> part(rs[i].value) == []
  {
    if rs != [] {
      var init := rs[..|rs| - 1];
      GatherEmpty(init, part);
      assert forall i :: 0 <= i < |init| ==> init[i] == rs[i];
    }
  }

  /** AggregateResult: skips nil results and concatenates each list across the rest, in order. */
  method AggregateResult(results: seq<Option<Result>>) returns (aggregate: Result)
    ensures aggregate.filesToCopy == Gather(results, CopiesOf)
    ensures aggregate.filesToDelete == Gather(results, DeletesOf)
    ensures aggregate.patches == Gather(results, PatchesOf)
  {
    aggregate := Empty;
    var i := 0;
    while i < |results|
      invariant 0 <= i <= |results|
      invariant aggregate.filesToCopy == Gather(results[..i], CopiesOf)
      invariant aggregate.filesToDelete == Gather(results[..i], DeletesOf)
      invariant aggregate.patches == Gather(results[..i], PatchesOf)
    {
      assert results[..i + 1][..i] == results[..i];
      if results[i].Some? {
        var r := results[i].value;
        aggregate := Result(aggregate.filesToCopy + r.filesToCopy,
                            aggregate.filesToDelete + r.filesToDelete,
                            aggregate.patches + r.patches);
      }
      i := i + 1;
    }
    assert results[..i] == results;
  }

  /** The aggregate is empty iff every non-nil input is empty. */
  lemma AggregateEmpty(results: seq<Option<Result>>)
    ensures Result(Gather(results, CopiesOf), Gather(results, DeletesOf), Gather(results, PatchesOf)).IsEmpty()
        <==> forall i :: 0 <= i < |results| && results[i].Some? ==> results[i].value.IsEmpty()
  {
    GatherEmpty(results, CopiesOf);
    GatherEmpty(results, DeletesOf);
    GatherEmpty(results, PatchesOf);
  }

  /** Aggregating {copy: [a]} and {delete: [b]} yields {copy: [a], delete: [b]}. */
  lemma AggregateExample(a: Copy, b: Delete)
    ensures var rs := [Some(Result([a], [], [])), Some(Result([], [b], []))];
      Gather(rs, CopiesOf) == [a] && Gather(rs, DeletesOf) == [b] && Gather(rs, PatchesOf) == []
  {
    var r0, r1 := Some(Result([a], [], [])), Some(Result([], [b], []));
    var rs := [r0, r1];
    assert rs[..|rs| - 1] == [r0];
    assert [r0][..0] == [];
    assert Gather([r0], CopiesOf) == [a];
    assert Gather([r0], DeletesOf) == [];
    assert Gather([r0], PatchesOf) == [];
  }
}
