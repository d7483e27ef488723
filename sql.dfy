/**
 * The `ALTER TABLE ... RENAME CONSTRAINT` statement of the SQL layer, as its
 * source file pkg/sql/rename_constraint.go writes it: the planning step
 * `RenameConstraint` and the pre-execution checks of `renameConstraintNode`.
 *
 * Both are pure decisions. The collaborators the file calls (descriptor
 * resolution, privilege checking, `GetConstraintInfo`, `Validate`) are not
 * part of this model: their answers are parameters.
 */
module Sql {

  datatype Option<+T> = None | Some(value: T)

  datatype Result<+T> = Ok(value: T) | Err(error: Error)

  /** The errors the file raises itself, and the errors of its collaborators,
      which it hands back unchanged. */
  datatype Error =
    | EmptyConstraintName                        // errEmptyConstraintName
    | ConstraintDoesNotExist(name: string)       // "constraint %s does not exist"
    | ConstraintNameAlreadyExists(name: string)  // "constraint name %s already exists"
    | External(message: string)                  // from resolution, privileges or validation

  type TableName = string

  datatype Privilege = All | Create | Drop | Grant | Select | Insert | Delete | Update

  /** The parsed statement: `ALTER TABLE Table RENAME CONSTRAINT Name TO NewName`,
      with `IF EXISTS` on the table. */
  datatype RenameRequest = RenameRequest(table: TableName, ifExists: bool, name: string, newName: string)

  /** A table descriptor. Only its identity matters here: nothing in the file
      reads or writes its fields directly. */
  datatype TableDescriptor = TableDescriptor(id: nat, name: string, version: nat)

  datatype ConstraintKind = PrimaryKey | ForeignKey | Unique | Check

  datatype ConstraintDetail = ConstraintDetail(kind: ConstraintKind)

  /** What `GetConstraintInfo` returns: the table's constraints keyed by name. */
  type ConstraintMap = map<string, ConstraintDetail>

  datatype RenameConstraintNode = RenameConstraintNode(n: RenameRequest, tableDesc: TableDescriptor)

  /** A plan node: the zero-effect node, or the rename node. */
  datatype PlanNode = ZeroNode | RenameNode(node: RenameConstraintNode)

  /** The descriptor resolver, called with the table name and whether the
      table is required; `Ok(None)` means "not found, and not required". */
  type Resolver = (TableName, bool) -> Result<Option<TableDescriptor>>

  /** The privilege checker: `None` grants, `Some(e)` refuses with `e`. */
  type PrivilegeChecker = (TableDescriptor, Privilege) -> Option<Error>

  /** A resolver that keeps its side of the contract: a required table is
      never reported as simply absent. */
  ghost predicate HonoursRequired(resolve: Resolver) {
    forall t: TableName, required: bool :: required ==> resolve(t, required) != Ok(None)
  }

  /** Planning: resolve the table (required unless `IF EXISTS`), give back a
      zero-effect node when it is absent and optional, otherwise demand the
      CREATE privilege and package the request with the descriptor. */
  function RenameConstraint(resolve: Resolver, checkPrivilege: PrivilegeChecker, n: RenameRequest): (r: Result<PlanNode>)
    // a resolution error is returned as it is
    ensures resolve(n.table, !n.ifExists).Err? ==> r == Err(resolve(n.table, !n.ifExists).error)
    // the zero node is produced exactly when the resolver finds no table and raises nothing
    ensures r == Ok(ZeroNode) <==> resolve(n.table, !n.ifExists) == Ok(None)
    // a refused privilege is returned as it is
    ensures forall d :: resolve(n.table, !n.ifExists) == Ok(Some(d)) && checkPrivilege(d, Create).Some? ==>
              r == Err(checkPrivilege(d, Create).value)
    // a rename node is produced exactly when the table resolves and CREATE is granted,
    // and it carries the request and the resolved descriptor
    ensures r.Ok? && r.value.RenameNode? <==>
              exists d :: resolve(n.table, !n.ifExists) == Ok(Some(d)) && checkPrivilege(d, Create).None?
    ensures r.Ok? && r.value.RenameNode? ==>
              resolve(n.table, !n.ifExists) == Ok(Some(r.value.node.tableDesc)) && r.value.node.n == n
  {
    match resolve(n.table, !n.ifExists)
    case Err(e) => Err(e)
    case Ok(None) => Ok(ZeroNode)
    case Ok(Some(tableDesc)) =>
      match checkPrivilege(tableDesc, Create)
      case Some(e) => Err(e)
      case None => Ok(RenameNode(RenameConstraintNode(n, tableDesc)))
  }

  /** No privilege check takes place unless a descriptor was resolved: the
      checker's answers then make no difference. */
  lemma PrivilegeCheckedOnlyForResolvedTable(resolve: Resolver, p1: PrivilegeChecker, p2: PrivilegeChecker, n: RenameRequest)
    requires !resolve(n.table, !n.ifExists).Ok? || resolve(n.table, !n.ifExists).value.None?
    ensures RenameConstraint(resolve, p1, n) == RenameConstraint(resolve, p2, n)
  {
  }

  /** With a resolver that honours "required", the zero node only arises
      for a statement that says `IF EXISTS`. */
  lemma ZeroNodeOnlyIfExists(resolve: Resolver, checkPrivilege: PrivilegeChecker, n: RenameRequest)
    requires HonoursRequired(resolve)
    ensures RenameConstraint(resolve, checkPrivilege, n) == Ok(ZeroNode) ==> n.ifExists
  {
  }

  // ---------------------------------------------------------------------
  // Ordered checks: the first one that fails decides.

  datatype Check = Pass | Fail(error: Error)

  /** The error of the first failing check, if any. */
  function FirstFailure(checks: seq<Check>): Option<Error>
  {
    if checks == [] then None
    else if checks[0].Fail? then Some(checks[0].error)
    else FirstFailure(checks[1..])
  }

  /** Check `k` fails and every check before it passes. */
  ghost predicate FirstFailingAt(checks: seq<Check>, k: int) {
    0 <= k < |checks| && checks[k].Fail? && forall j :: 0 <= j < k ==> checks[j].Pass?
  }

  /** `FirstFailure` reports nothing exactly when every check passes, and
      otherwise the error of the earliest failing check. */
  lemma {:induction false} FirstFailureIsEarliest(checks: seq<Check>)
    ensures FirstFailure(checks).None? <==> forall i :: 0 <= i < |checks| ==> checks[i].Pass?
    ensures forall k :: FirstFailingAt(checks, k) ==> FirstFailure(checks) == Some(checks[k].error)
  {
    if checks != [] && checks[0].Pass? {
      var rest := checks[1..];
      FirstFailureIsEarliest(rest);
      forall k | FirstFailingAt(checks, k)
        ensures FirstFailure(checks) == Some(checks[k].error)
      {
        assert FirstFailingAt(rest, k - 1);
      }
      assert (forall i :: 0 <= i < |checks| ==> checks[i].Pass?) <==>
             (forall i :: 0 <= i < |rest| ==> rest[i].Pass?) by {
        forall i | 0 <= i < |rest| ensures rest[i] == checks[i + 1] { }
      }
    }
  }

  /** Once check `k` fails with every earlier check passing, the checks after
      it are not consulted: any list that agrees up to `k` gives the same answer. */
  lemma {:induction false} LaterChecksNotConsulted(checks: seq<Check>, others: seq<Check>, k: int)
    requires FirstFailingAt(checks, k)
    requires k < |others| && others[..k + 1] == checks[..k + 1]
    ensures FirstFailure(others) == FirstFailure(checks) == Some(checks[k].error)
  {
    assert forall j :: 0 <= j <= k ==> others[j] == others[..k + 1][j];
    assert FirstFailingAt(others, k);
    FirstFailureIsEarliest(checks);
    FirstFailureIsEarliest(others);
  }

  // ---------------------------------------------------------------------
  // Pre-execution checks.

  /** The outcome of `startExec`: the error, if any, and the node's descriptor
      as it stands afterwards. */
  datatype ExecResult = ExecResult(err: Option<Error>, tableDesc: TableDescriptor)

  /** The checks of `startExec`, in the order it runs them. The third one is
      kept as written: it fails when the new name is NOT a key. */
  function ExecChecks(n: RenameRequest, constraints: ConstraintMap, validation: Option<Error>): seq<Check>
  {
    [ if n.newName == "" then Fail(EmptyConstraintName) else Pass,
      if n.name in constraints then Pass else Fail(ConstraintDoesNotExist(n.name)),
      if n.newName in constraints then Pass else Fail(ConstraintNameAlreadyExists(n.newName)),
      if validation.None? then Pass else Fail(validation.value) ]
  }

  /** `renameConstraintNode.startExec`, given the table's constraint map (the
      result of `GetConstraintInfo`, whose error is discarded by the source)
      and the verdict of `Validate` on the node's descriptor.

      As written, the collision check rejects a new name that is absent and
      lets through one that is present, the opposite of what its message
      says; and the final bare `return` is read as success. No renamed
      constraint is ever built. */
  function StartExec(node: RenameConstraintNode, constraints: ConstraintMap, validation: Option<Error>): (r: ExecResult)
    // the descriptor is never changed, on any path
    ensures r.tableDesc == node.tableDesc
    // success exactly when the new name is non-empty, both names are keys, and validation passes
    ensures r.err.None? <==>
              node.n.newName != "" && node.n.name in constraints && node.n.newName in constraints && validation.None?
  {
    var n := node.n;
    if n.newName == "" then
      ExecResult(Some(EmptyConstraintName), node.tableDesc)
    else if n.name !in constraints then
      ExecResult(Some(ConstraintDoesNotExist(n.name)), node.tableDesc)
    // inverted in the source: `!ok` where `ok` was meant
    else if n.newName !in constraints then
      ExecResult(Some(ConstraintNameAlreadyExists(n.newName)), node.tableDesc)
    else if validation.Some? then
      ExecResult(validation, node.tableDesc)
    else
      ExecResult(None, node.tableDesc)
  }

  /** The checks run in a fixed order (empty new name, missing old name, the
      collision check, validation) and the first failing one decides. */
  lemma StartExecIsFirstFailure(node: RenameConstraintNode, constraints: ConstraintMap, validation: Option<Error>)
    ensures StartExec(node, constraints, validation).err == FirstFailure(ExecChecks(node.n, constraints, validation))
  {
    var n, checks := node.n, ExecChecks(node.n, constraints, validation);
    FirstFailureIsEarliest(checks);
    if n.newName == "" {
      assert FirstFailingAt(checks, 0);
    } else if n.name !in constraints {
      assert FirstFailingAt(checks, 1);
    } else if n.newName !in constraints {
      assert FirstFailingAt(checks, 2);
    } else if validation.Some? {
      assert FirstFailingAt(checks, 3);
    }
  }

  /** An empty new name is refused whatever the constraint map and the
      validation verdict: neither is consulted. */
  lemma EmptyNewNameDecidesAlone(node: RenameConstraintNode, c1: ConstraintMap, c2: ConstraintMap,
                                 v1: Option<Error>, v2: Option<Error>)
    requires node.n.newName == ""
    ensures StartExec(node, c1, v1) == StartExec(node, c2, v2) == ExecResult(Some(EmptyConstraintName), node.tableDesc)
  {
  }

  /** A non-empty new name with a missing old name gives "does not exist",
      whatever the validation verdict. */
  lemma MissingOldNameRefused(node: RenameConstraintNode, constraints: ConstraintMap, validation: Option<Error>)
    requires node.n.newName != "" && node.n.name !in constraints
    ensures StartExec(node, constraints, validation).err == Some(ConstraintDoesNotExist(node.n.name))
  {
  }

  /** As written, once the old name is found the new name must already be a
      key: an absent new name is refused as "already exists", and a present
      one goes on to validation. */
  lemma CollisionCheckInverted(node: RenameConstraintNode, constraints: ConstraintMap, validation: Option<Error>)
    requires node.n.newName != "" && node.n.name in constraints
    ensures node.n.newName !in constraints ==>
              StartExec(node, constraints, validation).err == Some(ConstraintNameAlreadyExists(node.n.newName))
    ensures node.n.newName in constraints ==> StartExec(node, constraints, validation).err == validation
  {
  }

  /** Validation is consulted last: when a name check fails, the verdict
      makes no difference; when all pass, its error is returned unchanged. */
  lemma ValidationConsultedLast(node: RenameConstraintNode, constraints: ConstraintMap, v1: Option<Error>, v2: Option<Error>)
    ensures !(node.n.newName != "" && node.n.name in constraints && node.n.newName in constraints) ==>
              StartExec(node, constraints, v1) == StartExec(node, constraints, v2)
    ensures node.n.newName != "" && node.n.name in constraints && node.n.newName in constraints ==>
              StartExec(node, constraints, v1).err == v1
  {
  }

  /** The two inputs that show the inverted collision check, on a table with
      constraints `pk` and `uq1`: renaming `uq1` to the free name `uq2` is
      refused, renaming `uq1` to the taken name `pk` succeeds, and in both
      cases the descriptor is left as it was. */
  lemma InvertedCollisionWitness(desc: TableDescriptor)
    ensures var constraints := map["pk" := ConstraintDetail(PrimaryKey), "uq1" := ConstraintDetail(Unique)];
            var toFree := RenameConstraintNode(RenameRequest("t", false, "uq1", "uq2"), desc);
            var toTaken := RenameConstraintNode(RenameRequest("t", false, "uq1", "pk"), desc);
            && StartExec(toFree, constraints, None) == ExecResult(Some(ConstraintNameAlreadyExists("uq2")), desc)
            && StartExec(toTaken, constraints, None) == ExecResult(None, desc)
  {
  }

  /** As written, success renames nothing: both the old and the new name are
      keys of the constraint map, which the call leaves as it found it, and the
      descriptor is unchanged. */
  lemma SuccessRenamesNothing(node: RenameConstraintNode, constraints: ConstraintMap, validation: Option<Error>)
    requires StartExec(node, constraints, validation).err.None?
    ensures node.n.name in constraints && node.n.newName in constraints
    ensures StartExec(node, constraints, validation).tableDesc == node.tableDesc
  {
  }
}
