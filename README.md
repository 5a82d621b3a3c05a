# lmdb_merge, modelled in Dafny

lmdb_merge is a command-line tool with two operations over LMDB stores.
`merge` copies every (key, value) entry of the unnamed database of each
input store, in list order and within a store in native key order, into the
unnamed database of an output store. It commits the destination write
transaction whenever its per-input counter, an `i32` (src/main.rs:64), is a
multiple of 1,000,000, and once more at the end. For an input of fewer than
2^31 entries, that is after every 1,000,000th entry of the input; the model
covers only such inputs (see "## Left out"). `count` opens each input store
and prints the number of keys of its unnamed database and then the total.

The model has four modules:

- `Store` (store.dfy) holds the data and the destination:
  - byte-string entries;
  - sources as the engines see them through one read transaction: failing to open, holding no unnamed database, or holding a table snapshot in key order, possibly with a read failure part way;
  - the overwrite fold `Apply`, which is what a sequence of puts does to a table;
  - the destination environment `Env`, a class whose fields are the committed table and the puts of the open write transaction, updated in place by `Begin`, `Put`, `Commit` and `Abort`.
- `MergeEngine` (merge.dfy) is the batched copy loop.
  - `Merge` is the whole run. `MergeInputs` is the loop over the inputs, `MergeSource` handles one input, `CopyEntries` is the loop over one input's entries, and `CopyEntry` is one turn of that loop, with its per-input counter and periodic commit.
  - Ghost functions give the specification: `AllPuts` is every put of a full run, `Made` the puts made up to a given entry, and `Durable` and `Settled` the puts made durable by the commits so far.
- `CountEngine` (count.dfy) is the counting loop and its total.
- `Scenario` (scenario.dfy) is a worked run. It merges two sources that share a key into an empty destination, then counts them.

The code's batch counter is declared inside the loop over inputs
(src/main.rs:64). It therefore restarts at every input. A commit happens
after every 1,000,000th entry of the current input: a batch is counted per
input, not across the whole merge. `MergeEngine.PendingBound` states the
bound that the code does keep. `MergeEngine.PerInputCounterResidue` shows
the residue that short inputs leave in the open transaction.

`.expect("Database not found")` (src/main.rs:62, 93) panics. The panic
unwinds and drops the open write transaction, just as an error returned
by `?` does. The model therefore treats a source without an unnamed
database as the error `DatabaseNotFound`.

## Model

| member | source | states |
|---|---|---|
| Store.Env.constructor | src/main.rs:44-49 | the opened destination holds its existing contents, durably, with no transaction open |
| Store.Env.Begin | src/main.rs:73 | a new write transaction starts with no puts of its own; the committed table is unchanged |
| Store.Env.Put | src/main.rs:68 | the put succeeds exactly when its key is already visible or the table has room; it then appends the entry to the transaction's puts; a failed put changes nothing and is one that the capacity cannot hold |
| Store.Env.Commit | src/main.rs:72 | the committed table becomes the transaction's view (committed table plus its puts), the transaction's puts are emptied, and the durable history grows by exactly those puts |
| Store.Env.Abort | src/main.rs:57-73 | dropping the transaction on an error discards its puts and keeps the last committed table |
| Store.ApplySnoc | src/main.rs:68 | one more put updates the table at its key to its value |
| Store.ApplyAppend | src/main.rs:66-68 | putting `s` then `t` equals putting `s + t` |
| Store.ApplyOverlay | src/main.rs:71-74 | a transaction's puts overlay the table it started from with their own key-value table |
| Store.BatchingTransparent | src/main.rs:71-78 | committing `s`, then `t` in a fresh transaction, leaves the same table as committing `s + t` at once |
| Store.ApplyKeys | src/main.rs:66-68 | the keys after the puts are exactly the old keys plus every key put: no put is lost |
| Store.ApplyLastWins | src/main.rs:68 | a key ends with the value of its last put |
| Store.ApplyUntouched | src/main.rs:68 | a key that no put names keeps its presence and value |
| Store.ApplyIdempotent | src/main.rs:68 | putting the same entries again leaves the table unchanged |
| Store.ApplyGrows | src/main.rs:68 | puts never remove keys, so more puts never mean fewer keys |
| Store.OrderedKeysDistinct | src/main.rs:66 | entries that the iterator yields in strictly increasing key order have distinct keys |
| Store.DistinctKeysCount | src/main.rs:95 | puts with distinct keys fill an empty table with exactly as many keys as entries |
| MergeEngine.MadeAll | src/main.rs:66 | after all entries of input `i`, the puts made are those of the first `i + 1` inputs |
| MergeEngine.PutsPrefix | src/main.rs:54-66 | the puts of fewer inputs are a prefix of the puts of more inputs |
| MergeEngine.MadeIsPrefix | src/main.rs:54-68 | the puts made at any point of the run are a prefix of all the puts of the run |
| MergeEngine.CounterStep | src/main.rs:69-71 | after each entry, a commit happens exactly when the counter is a multiple of 1,000,000; otherwise the last multiple reached stays where it was |
| MergeEngine.PendingBound | src/main.rs:64-74 | the durable puts are a prefix of the puts made; once an input has 1,000,000 entries, fewer than 1,000,000 puts are uncommitted, all from that input; before that, the earlier inputs' residue remains, at most 999,999 per input |
| MergeEngine.PerInputCounterResidue | src/main.rs:64 | two inputs of 999,999 entries each leave 1,999,998 puts in the open transaction and nothing durable, because the counter restarts per input |
| MergeEngine.BatchBoundary | src/main.rs:71-74 | a single input of 2,000,001 entries commits the first 1,000,000, then the first 2,000,000, and its final state is the fold of all its entries |
| MergeEngine.CopyEntry | src/main.rs:67-74 | a successful put extends the puts made by the entry and bumps the counter; a commit follows exactly when the counter reaches a multiple of 1,000,000; a failed put changes nothing and is one that overflows |
| MergeEngine.CopyStep | src/main.rs:66-74 | one turn of the entry loop keeps the loop's relation between the counter, the puts made and the durable puts |
| MergeEngine.CopyEntries | src/main.rs:64-75 | the entry loop puts a prefix of the entries (all of them on success); the durable puts end at the last multiple of 1,000,000 within this input, or where the earlier inputs left them; it stops at the first overflowing put |
| MergeEngine.MergeSource | src/main.rs:57-75 | one input either is clean and copied in full, or stops the run with its own error (open, missing database, read) after its yielded entries, or with a map-full put part way |
| MergeEngine.SourceStep | src/main.rs:54-75 | the result of one input's copy, in terms of the whole run: either the run continues with the first `i + 1` inputs clean, or it is stopped at that input |
| MergeEngine.MergeInputs | src/main.rs:54-76 | the input loop either copies every input cleanly, leaving all puts of the run made, or stops at the first failing input with the puts made and the durable puts up to that point |
| MergeEngine.Merge | src/main.rs:42-82 | the run passes exactly when every input is clean and the full fold fits; it then commits the overwrite fold of all puts over the existing contents, the same as one transaction; on failure the destination keeps the fold of the puts up to the last commit, the open transaction is discarded, and the error is that input's own or a map-full put |
| MergeEngine.MapFullAtRun | src/main.rs:68 | a run that overflows part way also overflows when folded in full, so a map-full stop rules out success |
| MergeEngine.MergeComplete | src/main.rs:66-78 | every key that any input yields is in the merged table |
| MergeEngine.RemergeIdempotent | src/main.rs:68 | merging the same inputs into the result of a successful merge fits again and leaves that table unchanged |
| MergeEngine.PutsFrom | src/main.rs:54-66 | every put after those of the first `i` inputs comes from a later input |
| MergeEngine.LaterKeysAvoid | src/main.rs:54-68 | a key that no later input yields is named by no put after the current input's |
| MergeEngine.OwnValueAfterInput | src/main.rs:66-68 | right after an input, each of its entries holds its own value in the table |
| MergeEngine.LaterSourceWins | src/main.rs:54-68 | an entry whose key no later input yields ends in the merged table with its own value |
| CountEngine.TotalSizeAppend | src/main.rs:97 | the total over a concatenation is the sum of the totals |
| CountEngine.RemoveAt | src/main.rs:97 | removing one input lowers the total by that input's count |
| CountEngine.TotalSizeOrderIndependent | src/main.rs:87-97 | inputs listed in any order give the same total |
| CountEngine.TableSizeIsKeyCount | src/main.rs:95 | a table's reported size is its number of distinct keys |
| CountEngine.Count | src/main.rs:84-103 | each opened input reports its entry count, in order; the run succeeds exactly when every input opens and has its database, with the total equal to the sum of all counts; otherwise it stops at the first failing input with that input's error |
| Scenario.RunPuts | src/main.rs:54-68 | merging A then B puts A's entries then B's |
| Scenario.MergedTable | src/main.rs:68 | those puts over an empty table give {a: 1, b: 20, c: 3} |
| Scenario.CountedTotal | src/main.rs:97 | A and B total 4 keys |
| Scenario.TwoSources | src/main.rs:42-103 | merging A = {a: 1, b: 2} then B = {b: 20, c: 3} commits {a: 1, b: 20, c: 3}; counting them reports 2 and 2, total 4 |

## Left out

- Command-line parsing and dispatch (src/main.rs:7-40): argument plumbing only.
- `println!` progress and result lines (src/main.rs:55, 79, 96, 100): console output. `Count` returns the per-input counts it would print instead.
- LMDB itself is not part of this model: B-tree, memory map, lock file and concurrent readers. A read transaction is a fixed snapshot of entries. The destination is a committed table plus the puts of one write transaction.
- Store.Env.Put: the destination's `map_size` byte budget (src/main.rs:46) is modelled as a capacity in keys, and map-full is the only way a put fails.
- Store.Env.Commit: does not model a failing commit (src/main.rs:72, 78), which can only be abstract here; a commit always succeeds.
- Store.Env.Begin: does not model a failing `write_txn` (src/main.rs:51, 73).
- MergeEngine.Merge: starts from an opened destination. `create_dir_all`, opening the output environment and `create_database` (src/main.rs:43-52) are filesystem and library setup, and their failures are not modelled. `max_dbs(10)` is configuration.
- MergeEngine.MergeSource: the failures of opening an input's environment, its read transaction and its unnamed database (src/main.rs:57-61) are one kind of source, `OpenFailed`, carrying the error. An iterator that fails to start (src/main.rs:66) is a `Present` source whose read failure comes after 0 entries. `merge` then stops with that error before any put, while `count`, which never iterates (src/main.rs:88-95), still counts the store.
- MergeEngine.CopyEntry: the batch counter is an unbounded `nat`, while the source's `counter` is an `i32` (src/main.rs:64). On the 2^31-th entry of one input, `counter += 1` (src/main.rs:69) overflows. A debug build panics there: the in-flight batch is dropped and the run fails. A release build wraps to -2^31, and the truncating `%` (src/main.rs:71) then commits at other entry counts. The contracts of CopyEntry, CopyEntries, MergeSource, MergeInputs, Merge and CounterStep describe inputs of fewer than 2^31 entries each, where the two agree.
- MergeEngine.CounterStep: its arithmetic is over an unbounded counter; it matches the `i32` counter (src/main.rs:64, 69-71) only below 2^31 entries per input, as the CopyEntry line above says.
- MergeEngine.CopyEntries: the durable puts it states (`CopyLog`) are those of the source only for inputs of fewer than 2^31 entries; beyond that the `i32` counter panics or wraps (see the CopyEntry line).
- MergeEngine.MergeSource: for an input of 2^31 or more entries, neither the debug-build panic nor the commit points after the release-build wrap are modelled (see the CopyEntry line).
- MergeEngine.MergeInputs: its stop state (`Durable`) and its all-clean success match the source only while every input has fewer than 2^31 entries (see the CopyEntry line).
- MergeEngine.Merge: its Pass condition and its failure-branch committed table match the source only while every input has fewer than 2^31 entries; the `i32` counter's panic or wrap beyond that is not modelled (see the CopyEntry line).
- CountEngine.Count: does not model a failing `len` (src/main.rs:95). The key count of a table is its number of entries.
- The u64 `total` (src/main.rs:85) is an unbounded `nat`. The code does not handle overflow, and no realistic input reaches it.
