/**
 * The rename-constraint execution step as its own comments and messages say
 * it should behave: the collision check refuses a new name that is already a
 * key (the source tests the opposite), and a successful run hands back the
 * renamed constraint map instead of returning with nothing renamed.
 */
module SqlCorrected {
  import opened Sql

  /** The constraint map with the entry `name` moved to the key `newName`. */
  function Renamed(constraints: ConstraintMap, name: string, newName: string): (r: ConstraintMap)
    requires name in constraints
    ensures r.Keys == constraints.Keys - {name} + {newName}
    ensures newName in r && r[newName] == constraints[name]
    ensures forall k :: k in constraints && k != name && k != newName ==> k in r && r[k] == constraints[k]
  {
    (constraints - {name})[newName := constraints[name]]
  }

  /** Renaming to a free name keeps the number of constraints. */
  lemma RenamedKeepsCount(constraints: ConstraintMap, name: string, newName: string)
    requires name in constraints && newName !in constraints
    ensures |Renamed(constraints, name, newName)| == |constraints|
  {
    var r := Renamed(constraints, name, newName);
    assert r.Keys == (constraints.Keys - {name}) + {newName};
    assert |constraints.Keys - {name}| == |constraints.Keys| - 1;
  }

  /** Renaming back to the old name restores the original map. */
  lemma RenameRoundTrip(constraints: ConstraintMap, name: string, newName: string)
    requires name in constraints && newName !in constraints
    ensures name !in Renamed(constraints, name, newName)
    ensures Renamed(Renamed(constraints, name, newName), newName, name) == constraints
  {
    var back := Renamed(Renamed(constraints, name, newName), newName, name);
    assert back.Keys == constraints.Keys;
    forall k | k in constraints ensures back[k] == constraints[k] { }
  }

  /** The checks of the corrected step, in order; the collision check now
      fails when the new name IS a key, as its message says. */
  function CorrectedChecks(n: RenameRequest, constraints: ConstraintMap, validation: Option<Error>): seq<Check>
  {
    [ if n.newName == "" then Fail(EmptyConstraintName) else Pass,
      if n.name in constraints then Pass else Fail(ConstraintDoesNotExist(n.name)),
      if n.newName in constraints then Fail(ConstraintNameAlreadyExists(n.newName)) else Pass,
      if validation.None? then Pass else Fail(validation.value) ]
  }

  /** The corrected execution step, given the table's constraint map and the
      verdict of validation on the renamed descriptor. On failure nothing of
      the candidate escapes; on success the renamed map is the result. */
  function CorrectedStartExec(node: RenameConstraintNode, constraints: ConstraintMap, validation: Option<Error>): (r: Result<ConstraintMap>)
    // success exactly when the new name is non-empty and free, the old name exists, and validation passes
    ensures r.Ok? <==>
              node.n.newName != "" && node.n.name in constraints && node.n.newName !in constraints && validation.None?
    // a name that is already taken is refused once the old name is found
    ensures node.n.newName != "" && node.n.name in constraints && node.n.newName in constraints ==>
              r == Err(ConstraintNameAlreadyExists(node.n.newName))
    // on success exactly one entry is renamed
    ensures r.Ok? ==> node.n.name in constraints && r.value == Renamed(constraints, node.n.name, node.n.newName)
  {
    var n := node.n;
    if n.newName == "" then Err(EmptyConstraintName)
    else if n.name !in constraints then Err(ConstraintDoesNotExist(n.name))
    else if n.newName in constraints then Err(ConstraintNameAlreadyExists(n.newName))
    else if validation.Some? then Err(validation.value)
    else Ok(Renamed(constraints, n.name, n.newName))
  }

  /** The corrected step keeps the order of the original: its error is the
      first failing check's. */
  lemma CorrectedIsFirstFailure(node: RenameConstraintNode, constraints: ConstraintMap, validation: Option<Error>)
    ensures CorrectedStartExec(node, constraints, validation).Err? <==>
              FirstFailure(CorrectedChecks(node.n, constraints, validation)).Some?
    ensures CorrectedStartExec(node, constraints, validation).Err? ==>
              FirstFailure(CorrectedChecks(node.n, constraints, validation)) == Some(CorrectedStartExec(node, constraints, validation).error)
  {
    var n, checks := node.n, CorrectedChecks(node.n, constraints, validation);
    FirstFailureIsEarliest(checks);
    if n.newName == "" {
      assert FirstFailingAt(checks, 0);
    } else if n.name !in constraints {
      assert FirstFailingAt(checks, 1);
    } else if n.newName in constraints {
      assert FirstFailingAt(checks, 2);
    } else if validation.Some? {
      assert FirstFailingAt(checks, 3);
    }
  }

  /** A successful rename of a non-empty name is undone by renaming back,
      when validation passes both times. (An empty old name cannot be
      renamed back to: the empty-name check comes first.) */
  lemma CorrectedRenameUndone(node: RenameConstraintNode, constraints: ConstraintMap)
    requires node.n.name != ""
    requires CorrectedStartExec(node, constraints, None).Ok?
    ensures var back := RenameConstraintNode(RenameRequest(node.n.table, node.n.ifExists, node.n.newName, node.n.name), node.tableDesc);
            CorrectedStartExec(back, CorrectedStartExec(node, constraints, None).value, None) == Ok(constraints)
  {
    RenameRoundTrip(constraints, node.n.name, node.n.newName);
  }

  /** On a table with constraints `pk` and `uq1`: renaming `uq1` to `uq2`
      gives `pk` and `uq2`; renaming `ck1` fails as absent; renaming `uq1` to
      `pk` fails as taken; renaming `uq1` to the empty name fails first. */
  lemma CorrectedScenarios(desc: TableDescriptor)
    ensures var constraints := map["pk" := ConstraintDetail(PrimaryKey), "uq1" := ConstraintDetail(Unique)];
            var r := CorrectedStartExec(RenameConstraintNode(RenameRequest("t", false, "uq1", "uq2"), desc), constraints, None);
            && r.Ok? && r.value.Keys == {"pk", "uq2"} && r.value["uq2"] == ConstraintDetail(Unique)
            && CorrectedStartExec(RenameConstraintNode(RenameRequest("t", false, "ck1", "ck2"), desc), constraints, None)
               == Err(ConstraintDoesNotExist("ck1"))
            && CorrectedStartExec(RenameConstraintNode(RenameRequest("t", false, "uq1", "pk"), desc), constraints, None)
               == Err(ConstraintNameAlreadyExists("pk"))
            && CorrectedStartExec(RenameConstraintNode(RenameRequest("t", false, "uq1", ""), desc), constraints, None)
               == Err(EmptyConstraintName)
  {
    var constraints := map["pk" := ConstraintDetail(PrimaryKey), "uq1" := ConstraintDetail(Unique)];
    assert constraints.Keys == {"pk", "uq1"};
  }
}
