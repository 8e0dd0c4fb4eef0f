# TableDiff: the table-row diff engine of Authenticator, in Dafny

Authenticator animates its token list by diffing the old rows against the
new rows. The diff engine in `Authenticator/Source/TableDiff.swift` is a
greedy shortest-edit-script search in the style of Myers' O(ND) algorithm.
It takes two row sequences, an identity predicate ("same row") and a
content predicate ("same contents"). It returns a list of `Change` values:

- `Delete(i)` removes old row `i`;
- `Insert(j)` adds new row `j`;
- `Update(i)` marks old row `i` as kept under the same identity but with
  changed contents.

This project models that engine and proves that it is correct and optimal.

The modules follow the program's structure:

- `EditScript` (`edit_script.dfy`) defines the `Change` datatype, with all
  four variants, and the index lists a script names. It defines what a
  script means as a path through the edit graph:
  - `Trace` is the step-by-step path.
  - `Aligned` is what such a path promises a table view: ordered,
    in-range `Delete`, `Insert` and `Update` indices, and kept rows that
    pair up by identity.
- `EditGraph` (`edit_graph.dfy`) is the independent reference:
  - `Dist` is the least number of insertions and deletions under the
    identity predicate, computed by the textbook recurrence.
  - `Lcs` is the longest identity-matched common subsequence.
  - `Cost` extends `Dist` to points beyond the grid, which the search
    visits.
- `Myers` (`myers.dfy`) is the search as pure functions:
  - `Furthest(D, i)` is exactly the value the Swift code stores in `V[k + MAX]`
    for path `i` of round `D`, on diagonal `k = 2i - D`.
  - `Search` is the round-by-round scan that stops at the first path past
    both ends.
  - `Diff` is the whole engine. `None` stands for the Swift code's
    `fatalError()`.
  - Its lemmas prove two directions. Soundness: every stored path is a real
    edit path with exactly `D` edits. Completeness: round `D` reaches at
    least as far as any grid point on its diagonal within `D` edits. Together they show that the
    search returns in round `Dist`, exactly at the corner `(|old|, |new|)`.
- `TableDiff` (`table_diff.dfy`) is the Swift code's imperative form. The array
  `V` of `(x, changes)` pairs is indexed by `k + MAX`. The nested `D`/`k`
  loops, the insertion-or-deletion choice and the snake loop are modelled
  as methods. Their loop invariants tie every slot the next opening edit reads to
  `Furthest`.
  This module also holds the two public `changesFrom` overloads.
- `Optimality` (`optimality.dfy`) proves that no valid script has fewer
  insertions plus deletions than the search's script. A valid script may
  still have fewer entries in all, since `Update`s are not counted. It also proves that the search's insertions
  plus deletions number `|old| + |new| - 2 * LCS`.
- `Scenarios` (`scenarios.dfy`) works through the one-row cases: an
  insertion into an empty table, a deletion to an empty table, a
  replacement, an in-place update, and a tie between two neighbouring
  diagonals.

The search ranges over diagonals that leave the grid. On those diagonals
`x` may exceed the old row count, and `y = x - k` may exceed the new row
count. No invariant assumes otherwise. Only the returning path is proved to
land exactly on `(|old|, |new|)`.

The choice at line 63 uses a strict `<`, so when the two neighbouring
diagonals reached the same `x`, the deletion branch is taken.

## Model

| member | source | states |
|---|---|---|
| TableDiff.Changes | Authenticator/Source/TableDiff.swift:50-88 | The private `changes` function, with `V` as a sequence and the rounds D = 0 .. MAX as a loop: every `V[k-1+MAX]`, `V[k+1+MAX]` and `V[k+MAX]` access is in range. The returned script is the functional search's result and a valid edit path from (0, 0) to exactly (old count, new count). The code after the loops (`fatalError()`) is unreachable. |
| TableDiff.Open | Authenticator/Source/TableDiff.swift:61-72 | The opening edit of diagonal k in round D, taken from the k+1 slot (an insertion, or no edit in round 0) or from the k-1 slot (a deletion): sliding from where it lands gives round D's furthest-reaching path on that diagonal, and its position is non-negative in both coordinates. |
| TableDiff.OpenFromAbove | Authenticator/Source/TableDiff.swift:63-67 | The insertion branch, including round 0's read of the initial slot: it starts from diagonal k + 1's path, appends the insertion of the new row just passed (no edit in round 0), and lands where round D's path on k starts its slide. |
| TableDiff.OpenFromBelow | Authenticator/Source/TableDiff.swift:68-72 | The deletion branch: it starts one old row right of diagonal k - 1's path, appends the deletion of the old row just passed, and lands where round D's path on k starts its slide. |
| TableDiff.Round | Authenticator/Source/TableDiff.swift:60-84 | One round D of the inner loop. When it returns early, its script is the one the search returns from round D. Otherwise the search continues unchanged into round D + 1, and `V` holds every path of round D, ready for that round. |
| TableDiff.Follow | Authenticator/Source/TableDiff.swift:73-79 | The snake loop stays on its diagonal, moves only forward, stops only where the rows' identities differ or a sequence ends, and appends exactly the `Update`s of the matched pairs whose contents differ. |
| TableDiff.Extend | Authenticator/Source/TableDiff.swift:61-79 | The loop body up to the store: the (x, y, changes) computed on diagonal k is round D's furthest-reaching path there, with y = x - k. |
| TableDiff.Advance | Authenticator/Source/TableDiff.swift:80-83 | Storing the new path at `V[k + MAX]` is in range and keeps the earlier round's neighbouring slots intact. The early return happens exactly when the functional search ends at this path, with the same script. |
| TableDiff.InsertSlot | Authenticator/Source/TableDiff.swift:63-64 | When the insertion branch is taken in a round after the first, the diagonal is not the top one, the k+1 slot is in range and holds the upper neighbour's path, and the choice agrees with the reference choice (lowest diagonal, or upper neighbour strictly further). |
| TableDiff.DeleteSlot | Authenticator/Source/TableDiff.swift:68-69 | When the deletion branch is taken, the diagonal is not the lowest and the round is not the first, the k-1 slot is in range and holds the lower neighbour's path, and ties go to this branch. |
| TableDiff.ChangesFrom | Authenticator/Source/TableDiff.swift:40-43 | The identity-only overload, whose equation is always false. It returns the search's script, which is aligned and is `[]` for two empty arrays. An `Update(i)` appears exactly for every old index i that is not deleted. When an array is compared with itself under a reflexive identity, every index is updated. |
| TableDiff.UpdatesAllKept | Authenticator/Source/TableDiff.swift:42 | With an always-false equation, the updated old rows of an aligned script are exactly the old rows it does not delete. |
| TableDiff.ChangesFromEquatable | Authenticator/Source/TableDiff.swift:45-48 | The `Equatable` overload returns the search's script under `==`, which is aligned and is `[]` for two empty arrays. An array compared with itself under a reflexive identity gives `[]`. |
| TableDiff.UnchangedTrace | Authenticator/Source/TableDiff.swift:74-77 | A path of an array against itself with no insertions or deletions records no change at all, when the content comparison holds of every row with itself. |
| TableDiff.SelfDiffEmpty | Authenticator/Source/TableDiff.swift:54-83 | Diffing an array against itself gives `[]` whenever the identity and the content comparison each hold of every row with itself. |
| TableDiff.RowCountsAgree | Authenticator/Source/TableDiff.swift:63-79 | The script balances as a batch update: old count - deletions + insertions = new count. |
| TableDiff.NoMoves | Authenticator/Source/TableDiff.swift:32-38 | The search never produces `Move`. |
| EditScript.TraceAligned | Authenticator/Source/TableDiff.swift:63-79 | Any edit path's script is aligned, with no `Move`. `Delete` indices are strictly increasing old indices below x. `Insert` indices are strictly increasing new indices below y. `Update` indices are strictly increasing, never deleted, and below x. The rows left alone pair up in order, all with the same identity, with an `Update` exactly for the pairs whose contents differ. |
| EditScript.AlignedDelete | Authenticator/Source/TableDiff.swift:69-71 | Appending `Delete(x)` on a horizontal step keeps the script aligned one column further. |
| EditScript.AlignedInsert | Authenticator/Source/TableDiff.swift:64-66 | Appending `Insert(y)` on a vertical step keeps the script aligned one row further down. |
| EditScript.AlignedMatch | Authenticator/Source/TableDiff.swift:74-78 | A diagonal step between rows of the same identity keeps the script aligned, adding the pair to the kept rows and an `Update(x)` exactly when the contents differ. |
| EditScript.AlignedBalance | Authenticator/Source/TableDiff.swift:63-79 | An aligned script to (x, y) keeps as many old as new rows: x - deletions + insertions = y. |
| EditScript.EditCountSplit | Authenticator/Source/TableDiff.swift:66-71 | A script's cost (insertions plus deletions) is the number of deleted plus the number of inserted indices. |
| EditGraph.DistIsLcs | Authenticator/Source/TableDiff.swift:59-72 | Edit distance and the longest identity-matched common subsequence account for every row: Dist + 2 * LCS = i + j. |
| EditGraph.TraceCost | Authenticator/Source/TableDiff.swift:59-72 | Any edit path to a point, on or off the grid, takes at least the reference cost of that point in insertions plus deletions. |
| EditGraph.TraceAtCorner | Authenticator/Source/TableDiff.swift:81-82 | A path past both ends with no more than edit-distance many edits ends exactly on the corner and is a valid script of minimal cost. |
| EditGraph.CostBeyond | Authenticator/Source/TableDiff.swift:81 | Past both ends, each step of overshoot costs exactly one more than the edit distance. |
| Myers.Slide | Authenticator/Source/TableDiff.swift:73-79 | The snake as a function: it follows the diagonal while the identities match, appending `Update(x)` for each matched pair whose contents differ, and never moves back. Its path and stopping properties are `Myers.SlideTrace` and `Myers.SlideStuck`. |
| Myers.OpensByInsert | Authenticator/Source/TableDiff.swift:63 | The branch test: the lowest diagonal inserts; otherwise the insertion branch is taken when the diagonal is not the highest and the lower neighbour's x is strictly below the upper neighbour's, so a tie deletes. `TableDiff.InsertSlot` and `TableDiff.DeleteSlot` tie it to the array test. |
| Myers.Step | Authenticator/Source/TableDiff.swift:61-72 | The opening edit of diagonal k in round D, landing where x >= 0 and y = x - k >= 0: the origin in round 0, the upper neighbour's x with `Insert(x - k - 1)`, or one past the lower neighbour's x with `Delete` of the old row passed. `Myers.StepTrace` and `Myers.StepAdvances` state what it achieves. |
| Myers.Furthest | Authenticator/Source/TableDiff.swift:61-80 | The pair stored at `V[k + MAX]` in round D: the opening edit followed by the snake, with x >= 0 and y = x - k >= 0. `Myers.FurthestTrace` and `Myers.FurthestReaches` prove it is a D-edit path and the furthest one. |
| Myers.Search | Authenticator/Source/TableDiff.swift:59-86 | The two loops from path i of round D on: the first path past both ends returns its changes, and running out of rounds past MAX is `fatalError()`, shown as `None`. `Myers.SearchSucceeds` proves that never happens. |
| Myers.Diff | Authenticator/Source/TableDiff.swift:54-57 | The whole engine: `[]` when MAX is 0, otherwise the search from round 0. `Myers.DiffSucceeds` and `Optimality.DiffMinimal` state its result. |
| TableDiff.NeverEqual | Authenticator/Source/TableDiff.swift:42 | The identity-only overload's equation, which holds of no pair of rows. `TableDiff.UpdatesAllKept` states its effect on the script. |
| TableDiff.Equal | Authenticator/Source/TableDiff.swift:47 | The `Equatable` overload's equation `==`, modelled as equality. `TableDiff.SelfDiffEmpty` states its effect on an array diffed against itself. |
| Myers.SlideTrace | Authenticator/Source/TableDiff.swift:73-79 | Following a diagonal extends an edit path without adding insertions or deletions. |
| Myers.SlideStuck | Authenticator/Source/TableDiff.swift:74 | A slide stops only where the diagonal cannot be followed. |
| Myers.StepTrace | Authenticator/Source/TableDiff.swift:63-72 | The opening edit of round D extends a round D - 1 path by exactly one edit: D edits in total. |
| Myers.FurthestTrace | Authenticator/Source/TableDiff.swift:59-80 | Every path stored in `V` during round D is a monotone edit path from the origin to its (x, x - k), with exactly D insertions plus deletions. |
| Myers.StepAdvances | Authenticator/Source/TableDiff.swift:63-72 | Round D gets at least as far as the upper neighbour of round D - 1, and at least one past the lower neighbour. |
| Myers.FurthestReaches | Authenticator/Source/TableDiff.swift:59-80 | Furthest-reaching: if a grid point on diagonal k is within D edits of the origin, round D's path on k gets at least that far. |
| Myers.SearchSucceeds | Authenticator/Source/TableDiff.swift:59-85 | Scanning on from any path of a round below the edit distance, or from a path of the round equal to the edit distance whose diagonal is at most old count - new count, the loop returns a valid script with exactly edit-distance many edits. |
| Myers.WalkSolves | Authenticator/Source/TableDiff.swift:81-83 | A path of D edits that passes the `x >= count && y >= count` test without exceeding the edit distance ends on the corner itself, only in the round equal to the edit distance, and its script is a valid script of that many edits. |
| Myers.CornerReached | Authenticator/Source/TableDiff.swift:59-83 | In the round equal to the edit distance, the path on diagonal old count - new count passes both ends. |
| Myers.DiagonalParity | Authenticator/Source/TableDiff.swift:60 | In the round equal to the edit distance, a diagonal below old count - new count lies at least two below it, so stepping k by two lands on that diagonal. |
| Myers.DiffSucceeds | Authenticator/Source/TableDiff.swift:54-86 | The engine always returns, so `fatalError()` is unreachable. Its script is valid and has exactly edit-distance many insertions plus deletions. |
| Optimality.NoShorterScript | Authenticator/Source/TableDiff.swift:59-72 | No valid script has fewer insertions plus deletions than the edit distance. |
| Optimality.DiffMinimal | Authenticator/Source/TableDiff.swift:54-86 | The engine's insertions plus deletions are no more than any valid script's, and they number old count + new count - 2 * LCS. |
| Optimality.DiffWithinMax | Authenticator/Source/TableDiff.swift:54 | The engine's insertions plus deletions are at most MAX = old count + new count. |
| Optimality.DistAttained | Authenticator/Source/TableDiff.swift:59-72 | Some valid script has exactly the edit distance in edits, and none has fewer. |
| Scenarios.InsertIntoEmpty | Authenticator/Source/TableDiff.swift:63-67 | From [] to [X] the engine returns [Insert(0)]. |
| Scenarios.DeleteToEmpty | Authenticator/Source/TableDiff.swift:68-71 | From [X] to [] the engine returns [Delete(0)]. |
| Scenarios.ReplaceOne | Authenticator/Source/TableDiff.swift:59-83 | From [A] to [B] with different identities, the engine returns [Delete(0), Insert(0)]: round 2 inserts after the deletion path, which got further in round 1. |
| Scenarios.TieGoesToDeletion | Authenticator/Source/TableDiff.swift:63-71 | From [p, q] to [r, p], where p matches itself with equal contents and r matches neither p nor q, the engine returns [Insert(0), Delete(1)]. In round 2 both neighbours of diagonal 0 reached column 1, and the strict `<` sends the tie to the deletion branch. |
| Scenarios.UpdateInPlace | Authenticator/Source/TableDiff.swift:73-79 | From [A] to [B] with the same identity but different contents, the engine returns [Update(0)]. |

## Left out

- `Authenticator/Source/AppModel.swift` is not part of this model. It coordinates UI state through observer callbacks and services that are outside the diff engine, such as the token store and the QR scanner.
- The commented-out recursive formulation at `TableDiff.swift:90-161` is not modelled. It is never compiled.
- Consolidating matching insertions and deletions into `Move` (the TODO at line 36) is not modelled, because the code does not implement it. `Move` is kept as a variant of `Change` and is proved never to be produced.
- The fallback expression after `fatalError()` at line 87 is not modelled. `fatalError()` never returns, so that line cannot run. The model instead proves that `fatalError()` itself is never reached.
- The `Identifiable` protocol and the closures become predicate parameters `same` and `eq`:
  - the identity-only overload passes `NeverEqual`;
  - the `Equatable` overload passes `Equal`, modelled as equality.
  Reflexivity of the identity is a hypothesis only where a property needs it.
- `ArraySlice` becomes `seq`. The slices are built from whole arrays, so they start at index 0, and `oldRows[x+1 - 1]` is `a[x]`.
- Swift's fixed-width `Int` is modelled as unbounded `int`. All indices and counts stay within `2 * (old count + new count) + 1`, the length of an array the program has already allocated, so no arithmetic here overflows.
- TableDiff.Equal: Swift's `==` at line 47 is the row type's own `Equatable` implementation, which the protocol requires to be an equivalence but the compiler does not enforce. The model takes it to be equality, so `ChangesFromEquatable` promises `[]` for an array against itself. For a row type whose `==` is not reflexive (one holding a floating-point NaN), `TableDiff.SelfDiffEmpty` does not apply and each such row is reported as updated, as `Scenarios.UpdateInPlace` shows.
- The "apply the changes and get the new sequence" reading of a script is stated as alignment, not as an executable replay:
  - kept old and new rows pair up in order by identity;
  - deletions and insertions name strictly increasing in-range indices;
  - the row counts balance.
  Replaying changes against a mutating table is the table view's job, outside this code.
