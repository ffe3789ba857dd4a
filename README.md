# EpLfs: the "existing path, least free space" union policy

A Dafny model of rclone's `eplfs` policy for the union backend
(`backend/union/policy/eplfs.go`). A union remote spreads one logical
filesystem over several upstreams. For every operation a policy decides
which upstream, or which directory entry gathered from the upstreams,
receives it. EpLfs keeps the candidates on which the path already exists
(the embedded `EpAll` policy decides that) and then picks the one whose
upstream reports the least free space.

The model has three modules:

- `Values` (`values.dfy`): Go's `int64` as a bounded newtype, so that
  `math.MaxInt64` is exact; nil as `Option`; a Go `(value, error)` pair as
  `Outcome`; `Result` for a collaborator's answer; the upstream handle
  `Upstream`, carrying the answer its `GetFreeSpace()` gives; and `Entry`,
  carrying its upstream (`UpstreamFs()`).
- `LeastFreeSpace` (`least_free_space.dfy`): the walk both reductions
  perform, as a left fold `Scan` over the free-space answers from a seed.
  The lemmas prove:
  - the fold fails exactly when a query fails, and then with the first
    failure's error;
  - nothing after a failure matters;
  - when every query succeeds, the winner is exactly the first candidate
    with the least value, provided that value is strictly below the seed.
- `EpLfs` (`eplfs.dfy`) has three parts:
  - `lfs` and `lfsEntries` as the loops they are (methods `Lfs` and
    `LfsEntries`, each proved equal to its specification function);
  - the six category policies as functions;
  - lemmas stating what the policies promise.

The two reductions are modelled as the code has them, and they differ:

- `lfs` starts its minimum at `math.MaxInt64`. It reports
  `ErrorObjectNotFound` when no upstream is strictly below that: no
  candidates at all, or every one reporting exactly `math.MaxInt64`.
- `lfsEntries` starts its minimum at Go's zero value `0`. It has no
  not-found branch. `EntryPoliciesNeverSelectNonNegative` proves what
  follows: while every filtered entry's upstream reports non-negative free
  space, `ActionEntries` and `CreateEntries` answer `[nil]` with a nil error;
  on non-empty input whose upstreams all report non-negative free space,
  `SearchEntries` answers a nil entry with a nil error.
- `Search` returns not-found for an empty input before the filter is
  consulted, then filters with `epall`. `SearchEntries` has no filter step
  at all.

The existing-path filters (`EpAll.Action`, `EpAll.ActionEntries`,
`EpAll.Create`, `EpAll.CreateEntries`, `epall`) are not part of this model.
Each is a function parameter returning either a sequence of candidates or
an error. Nothing is assumed about what they return. Where a conclusion needs
the filter to keep only candidates it was given, that condition is stated as
the premise of that conclusion.

## Model

| member | source | states |
|---|---|---|
| `LeastFreeSpace.Scan` | backend/union/policy/eplfs.go:22-33 | the running minimum never exceeds the seed; if there is a winner, it is an index of the input whose query answered exactly the minimum, and that minimum is strictly below the seed; with no winner the minimum is still the seed |
| `LeastFreeSpace.ScanAfterFailure` | backend/union/policy/eplfs.go:24-28 | once a query has failed, candidates after it never change the outcome (they are never consulted) |
| `LeastFreeSpace.ScanOkIffAllOk` | backend/union/policy/eplfs.go:24-28 | the walk ends without error if and only if every free-space query succeeds |
| `LeastFreeSpace.ScanFailsAtFirstError` | backend/union/policy/eplfs.go:24-28 | the walk returns exactly the error of the first failing query |
| `LeastFreeSpace.ScanFindsFirstLeast` | backend/union/policy/eplfs.go:29-32 | with every query successful, no winner means every value is at least the seed; a winner is the first candidate with the least value (strictly less than all earlier, no greater than all later) |
| `LeastFreeSpace.ScanWinner` | backend/union/policy/eplfs.go:29-32 | with every query successful, index k wins if and only if k is the first least and its value is strictly below the seed |
| `EpLfs.LfsOutcome` | backend/union/policy/eplfs.go:21-38 | a returned upstream is an element of the input and comes with a nil error; no upstream always comes with an error |
| `EpLfs.Lfs` | backend/union/policy/eplfs.go:21-38 | the loop with its strict `<` update and early error return computes exactly `LfsOutcome`; it issues one query per upstream up to and including the first failing one, and none after |
| `EpLfs.LfsEntriesOutcome` | backend/union/policy/eplfs.go:40-54 | a returned entry is an element of the input, comes with a nil error, and its upstream reported negative free space |
| `EpLfs.LfsEntries` | backend/union/policy/eplfs.go:40-54 | the loop seeded at 0 computes exactly `LfsEntriesOutcome`; it issues one query per entry up to and including the first failing one, and none after |
| `EpLfs.LfsFailsAtFirstError` | backend/union/policy/eplfs.go:24-28 | `lfs` returns no handle and exactly the first query error |
| `EpLfs.LfsSelectsFirstLeast` | backend/union/policy/eplfs.go:22-37 | `lfs` returns the first upstream with the least free space, or `ErrorObjectNotFound` when that least value is `math.MaxInt64` |
| `EpLfs.LfsNotFound` | backend/union/policy/eplfs.go:22-36 | with every query successful, `lfs` reports `ErrorObjectNotFound` if and only if every upstream reports `math.MaxInt64`, which includes the empty input |
| `EpLfs.LfsEntriesFailsAtFirstError` | backend/union/policy/eplfs.go:43-47 | `lfsEntries` returns no entry and exactly the first query error |
| `EpLfs.LfsEntriesSelectsFirstLeast` | backend/union/policy/eplfs.go:41-53 | `lfsEntries` returns the first entry with the least free space when that value is negative, and otherwise a nil entry with a nil error |
| `EpLfs.LfsEntriesErrorsOnlyFromQueries` | backend/union/policy/eplfs.go:41-53 | `lfsEntries` errs if and only if a query fails (never `ErrorObjectNotFound` of its own); with every query successful it returns nil/nil if and only if no upstream reports negative free space |
| `EpLfs.Action` | backend/union/policy/eplfs.go:57-64 | a filter error comes back unchanged with a nil slice; otherwise a one-element slice holding `lfs`'s result on the filtered set, nil exactly when the error is set, and a member of the filtered set otherwise |
| `EpLfs.ActionEntries` | backend/union/policy/eplfs.go:67-74 | a filter error comes back unchanged with a nil slice; otherwise a one-element slice holding `lfsEntries`'s result on the filtered entries, nil whenever an error is set, and a member of the filtered entries otherwise |
| `EpLfs.Create` | backend/union/policy/eplfs.go:77-84 | as Action, with EpAll's Create filter |
| `EpLfs.CreateEntries` | backend/union/policy/eplfs.go:87-94 | as ActionEntries, with EpAll's CreateEntries filter |
| `EpLfs.Search` | backend/union/policy/eplfs.go:97-106 | empty input gives `ErrorObjectNotFound` whatever the filter; otherwise a filter error is returned with no handle, else the result of `lfs` on the filtered set |
| `EpLfs.SearchEntries` | backend/union/policy/eplfs.go:109-114 | empty input gives `ErrorObjectNotFound`; otherwise `lfsEntries` on the unfiltered entries; a returned entry is one of the input |
| `EpLfs.ActionPicksFirstLeastExisting` | backend/union/policy/eplfs.go:57-84 | Action and Create return the first filtered upstream with the least free space, in a one-element slice with a nil error, when that value is below `math.MaxInt64` |
| `EpLfs.SearchPicksFirstLeastExisting` | backend/union/policy/eplfs.go:97-106 | Search returns the first filtered upstream with the least free space, with a nil error, when that value is below `math.MaxInt64`; it is one of the given candidates when the filter keeps only given candidates |
| `EpLfs.SearchFailsAtFirstError` | backend/union/policy/eplfs.go:101-105 | a failing query on a filtered upstream fails Search with that error and no handle |
| `EpLfs.EntryPoliciesNeverSelectNonNegative` | backend/union/policy/eplfs.go:41-53 | when the filter succeeds and every filtered entry's upstream reports non-negative free space, ActionEntries and CreateEntries give `[nil]` with a nil error; on non-empty input whose upstreams all report non-negative free space, SearchEntries gives nil with a nil error |
| `EpLfs.ScenarioLeastWins` | backend/union/policy/eplfs.go:21-38 | A(500), B(100), C(300): B wins |
| `EpLfs.ScenarioTieFirstSeen` | backend/union/policy/eplfs.go:29-32 | A(100), B(100): A wins |
| `EpLfs.ScenarioQueryFailure` | backend/union/policy/eplfs.go:24-28 | B's query fails: the result is B's error whatever A and C report |
| `EpLfs.ScenarioNoCandidates` | backend/union/policy/eplfs.go:97-100 | no candidates: Search gives not-found whatever the filter; Action, when its filter returns an empty set, gives `[nil]` with not-found |

## Left out

- `init` and the `registerPolicy` call (lines 11-13): process-wide registry wiring with no behaviour of its own.
- `EpAll` and `epall`, with their path-existence checks: not part of this model. They are function parameters that return candidates or an error; the filters' `context.Context` and the path are passed to them and to nothing else.
- `GetFreeSpace` and `UpstreamFs()`: remote queries on foreign types. Each upstream carries the answer its query gives, so one call sees the same answer for an upstream each time it is queried.
- Handle identity: upstreams and entries are values, so two equal candidates cannot be told apart; the lemmas speak of positions in the input to say which one wins.
- Go's nil slice and empty slice are both the empty sequence; the filter's slice is ignored when the filter errs, as in the code.
- Concurrency and cancellation: the code has none of its own.
