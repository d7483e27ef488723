# Rename constraint

This project models `ALTER TABLE t RENAME CONSTRAINT a TO b [IF EXISTS]` in the SQL layer of
a transactional SQL database, as `pkg/sql/rename_constraint.go` implements it. The statement
runs in two steps:

- **Planning** (`RenameConstraint`). The table descriptor is resolved, and the table is
  required unless `IF EXISTS` is given. A missing optional table yields a zero-effect node.
  Otherwise the CREATE privilege is demanded, and the request is packaged with the
  descriptor into a rename node.
- **Pre-execution** (`renameConstraintNode.startExec`). This is a fixed chain of
  early-return checks over the table's constraint map, keyed by name:
  1. the new name is not empty;
  2. the old name is a key;
  3. the collision check on the new name;
  4. descriptor validation.

  The chain never assigns to the descriptor.

Both steps are pure decisions, so both are modelled as functions. The collaborators the file
calls are parameters:

- the descriptor resolver, as a function of the table name and "required";
- the privilege checker;
- the constraint map that `GetConstraintInfo` returns;
- the verdict of `Validate`.

`Sql` (`sql.dfy`) models the code as written. The order of the checks is stated against a
reference definition: `FirstFailure` over the ordered list of checks `ExecChecks`.

`SqlCorrected` (`sql_corrected.dfy`) holds the corrected behaviour for the two findings
below. The collision check's polarity is flipped, and success returns the renamed
constraint map.

Two choices where the code is unclear:

- **Line 83.** The bare `return` gives no value, and the function has no named result.
  The model reads it as returning no error (success).
- **Line 75.** The collision check is modelled as written, `!ok`. The comment at line 74
  and the message at line 76 say a clashing new name is refused. The code does the
  opposite, and the model follows the code (see Findings).

Renaming a constraint to its own name is a separate case. The corrected step refuses it,
because the name is already a key. That matches the comment at line 74.

## Model

| member | source | states |
|---|---|---|
| `Sql.RenameConstraint` | pkg/sql/rename_constraint.go:39-54 | A resolver error is returned as it is. The zero node is produced exactly when the resolver gives no descriptor and no error. A refused CREATE privilege is returned as it is. A rename node is produced exactly when the table resolves and CREATE is granted, and it carries the given request and the resolved descriptor. |
| `Sql.PrivilegeCheckedOnlyForResolvedTable` | pkg/sql/rename_constraint.go:41-49 | The privilege checker is not consulted unless a descriptor was resolved: with a resolver error or a missing table, any two checkers give the same result. |
| `Sql.ZeroNodeOnlyIfExists` | pkg/sql/rename_constraint.go:41-47 | The resolver is called with "required" set to the negation of `IF EXISTS`. If the resolver never reports a required table as merely absent, a zero node implies the statement said `IF EXISTS`. |
| `Sql.FirstFailureIsEarliest` | pkg/sql/rename_constraint.go:62-83 | An ordered chain of checks reports no error exactly when every check passes. Otherwise it reports the error of the earliest failing check. |
| `Sql.LaterChecksNotConsulted` | pkg/sql/rename_constraint.go:62-81 | Once a check fails and all earlier ones pass, the checks after it do not affect the outcome. |
| `Sql.StartExec` | pkg/sql/rename_constraint.go:56-84 | The descriptor is the same after the call as before, on every path. The call succeeds exactly when the new name is non-empty, the old and new names are both keys of the constraint map (as written), and validation passes. |
| `Sql.StartExecIsFirstFailure` | pkg/sql/rename_constraint.go:62-81 | The error of `startExec` is the first failure in the fixed order: empty new name, missing old name, collision check, validation. |
| `Sql.EmptyNewNameDecidesAlone` | pkg/sql/rename_constraint.go:61-64 | An empty new name gives the empty-constraint-name error whatever the constraint map and the validation verdict hold. Neither is consulted. |
| `Sql.MissingOldNameRefused` | pkg/sql/rename_constraint.go:69-72 | With a non-empty new name and an old name that is not a key, the result is "constraint does not exist" for the old name. |
| `Sql.CollisionCheckInverted` | pkg/sql/rename_constraint.go:74-77 | As written, once the old name is found, an absent new name gives "already exists", and a present one passes on to validation. |
| `Sql.ValidationConsultedLast` | pkg/sql/rename_constraint.go:79-83 | When any name check fails, the validation verdict makes no difference. When all pass, the validation error is returned unchanged, and no error means success. |
| `Sql.InvertedCollisionWitness` | pkg/sql/rename_constraint.go:74-77 | On a table with `pk` and `uq1`, renaming `uq1` to the free name `uq2` is refused as "already exists". Renaming `uq1` to the taken name `pk` succeeds. The descriptor is unchanged in both cases. |
| `Sql.SuccessRenamesNothing` | pkg/sql/rename_constraint.go:79-84 | As written, after a success the old and the new name are both still keys and the descriptor is unchanged. Nothing was renamed. |
| `SqlCorrected.Renamed` | pkg/sql/rename_constraint.go:35 | The renamed map has the old keys, minus the old name, plus the new name. The new name maps to the old entry, and every other entry is unchanged. |
| `SqlCorrected.RenamedKeepsCount` | pkg/sql/rename_constraint.go:35 | Renaming to a free name keeps the number of constraints. |
| `SqlCorrected.RenameRoundTrip` | pkg/sql/rename_constraint.go:35 | After a rename to a free name, the old name is gone. Renaming back restores the original map. |
| `SqlCorrected.CorrectedStartExec` | pkg/sql/rename_constraint.go:56-84 | Success exactly when the new name is non-empty and not a key, the old name is a key, and validation passes. A taken new name is refused as "already exists". On success the result is the map with exactly that one entry renamed. |
| `SqlCorrected.CorrectedIsFirstFailure` | pkg/sql/rename_constraint.go:62-81 | The corrected step fails exactly when its ordered checks have a failure, and its error is the first failure. |
| `SqlCorrected.CorrectedRenameUndone` | pkg/sql/rename_constraint.go:35-36 | A successful rename of a non-empty name is undone by the reverse rename, applied to its result. |
| `SqlCorrected.CorrectedScenarios` | pkg/sql/rename_constraint.go:61-83 | On `pk` and `uq1`: `uq1` to `uq2` gives `{pk, uq2}` and keeps the entry; `ck1` to `ck2` gives "does not exist"; `uq1` to `pk` gives "already exists"; `uq1` to the empty name gives the empty-name error. |

## Left out

- Descriptor resolution (`ResolveMutableTableDescriptor`) and privilege checking (`CheckPrivilege`) are parameters. Their own behaviour is not part of this model.
- `GetConstraintInfo` is a parameter: its constraint map is taken as given. Its error, which the source discards at line 67, is not modelled.
- `Validate` is a parameter: its verdict is given. What it checks is not part of this model.
- The context, the transaction, cluster settings and the run parameters are execution plumbing and are not modelled.
- Error codes and message formatting are not modelled. Errors are a datatype of kinds that carries the names the messages mention. Errors from collaborators are passed through as opaque values.
- The plan-node machinery is reduced to a zero-effect tag and the rename node. The file performs no persistence or catalog write, and none is modelled.
- The descriptor's contents are not modelled: nothing in the file reads or writes its fields directly. `StartExec`'s non-mutation is stated as "the descriptor of record after the call equals the one before".

## Findings

| source | as written | input that shows it | evidently intended | confidence | as-written member | corrected member |
|---|---|---|---|---|---|---|
| pkg/sql/rename_constraint.go:75-77 | The collision check tests `!ok`. It refuses a new name that is absent and lets through one that is already a key. | Constraints `{pk, uq1}`: `uq1` to `uq2` gives "constraint name uq2 already exists", and `uq1` to `pk` passes. | Refuse the new name when it is already a key, as the comment at line 74 and the message at line 76 say. | high, not executed | `Sql.InvertedCollisionWitness` | `SqlCorrected.CorrectedStartExec` |
| pkg/sql/rename_constraint.go:79-83 | After every check passes, the function returns without renaming anything. The constraint keeps its old name. | Constraints `{pk, uq1}`, `uq1` to `pk`, validation passes: success, and both names are still keys. | On success, the entry under the old name is moved to the new name and every other entry is kept, as the comment at line 35 says. | medium, not executed | `Sql.SuccessRenamesNothing` | `SqlCorrected.CorrectedStartExec` |
