# In-memory key-value store with nested transactions, in Dafny

This project models the Go package `in_memory`. It is a string-to-string
store with nested transactions. The committed state lives in a `storage`
map. Open transactions form a chain of `transaction` records, linked by
`parent` and `nested` pointers and headed by `onGoingTransaction`. Each
record holds two overlays:
- `toSet`, the pending writes;
- `toDelete`, the pending deletes.

`Get`, `Set` and `Delete` act on the innermost record, which `getLast`
finds by walking the `nested` links. With no transaction open, they act on
`storage` directly. `StartTransaction` pushes a record. The first record
starts empty; a nested one starts as a copy of the innermost record's
overlays. `Commit` merges the innermost record into its parent, or applies
it to `storage` if it is the outermost one. `Rollback` unlinks the
innermost record. An absent key reads as `""`.

The project has three modules:

- `TxnSpec` (`txn_spec.dfy`) is the store as a value. A `State` holds the
  storage and the sequence of overlays, outermost first. Every operation
  is a function on `State`. Two things are defined independently of the
  operations:
  - the invariant `Valid`: no frame both sets and deletes a key, and every
    key a frame touches is touched by its nested frame too;
  - the reference map `Effective`: what a caller sees, which is the storage
    with the innermost frame applied.
  
  Lemmas relate the operations to these definitions, and relate whole
  runs of operations to plain map updates.
- `InMemoryDb` (`in_memory.dfy`) is the Go code in its own imperative form.
  It has the classes `InMemory` and `Transaction`, the pointer walk of
  `getLast`, and one method per loop over a map. A ghost sequence `chain`
  lists the transaction objects. The ghost `Abstract()` reads the object
  graph back as a `TxnSpec.State`. Each method is proved to change that
  state exactly as the matching `TxnSpec` function does, and to keep the
  pointer structure a simple path that matches `chain`.
- `Scenarios` (`scenarios.dfy`) replays the deeply nested rollback test on
  the value model.

## Model

| member | source | states |
|---|---|---|
| TxnSpec.Apply | in_memory.go:114-123 | applying a frame's deletes, then its sets, gives a map whose every lookup is what `Get` resolves through that frame; keys the frame does not touch keep their presence |
| TxnSpec.ReadIsEffective | in_memory.go:33-56 | in every state, `Get(k)` equals a lookup of `k` in the caller-visible map |
| TxnSpec.Write | in_memory.go:60-70 | after `Set(k, v)`, `Get(k)` is `v` and every other key reads as before; the visible map is updated at `k`; with a transaction open, the storage and the outer frames are untouched; the invariant is kept |
| TxnSpec.Erase | in_memory.go:74-84 | after `Delete(k)`, `Get(k)` is `""` and every other key reads as before; `k` leaves the visible map; with a transaction open, the storage and the outer frames are untouched; the invariant is kept |
| TxnSpec.Begin | in_memory.go:87-104 | `StartTransaction` adds exactly one frame, leaves the storage and the existing frames unchanged, changes no read and keeps the invariant |
| TxnSpec.Merge | in_memory.go:131-145 | the merged parent touches exactly the keys either frame touched, stays disjoint, and resolves every key as the child did |
| TxnSpec.MergeApply | in_memory.go:131-145 | applying the merged parent to any storage gives the same map as applying the child alone |
| TxnSpec.Commit | in_memory.go:107-149 | no transaction: nothing changes; otherwise depth drops by one; the outermost frame is applied to the storage; a nested commit leaves the storage and the frames below the parent untouched |
| TxnSpec.CommitPreserves | in_memory.go:107-149 | a commit keeps the invariant and the visible map, so every `Get` returns what it returned before |
| TxnSpec.Rollback | in_memory.go:152-167 | no transaction: nothing changes; otherwise depth drops by one and the storage and remaining frames are exactly the old ones; the invariant is kept |
| TxnSpec.CommitThenRollback | in_memory.go:107-167 | committing a nested transaction and then rolling back its parent equals rolling back both |
| TxnSpec.RollbackUndoesBegin | in_memory.go:87-104 | a rollback right after `StartTransaction` restores the state |
| TxnSpec.RunValid | in_memory.go:60-167 | every sequence of operations keeps the invariant |
| TxnSpec.RunMatchesDirect | in_memory.go:60-149 | without rollbacks, the visible map after a run is the map obtained by applying its sets and deletes directly, whatever the transaction boundaries |
| TxnSpec.CommittedRunIsDirect | in_memory.go:107-149 | a rollback-free run that ends with every transaction committed leaves the storage as if each set and delete had been applied to it directly |
| TxnSpec.RunKeepsOuterFrames | in_memory.go:60-167 | a run that never closes frame `d` leaves the storage and the frames below `d` untouched |
| TxnSpec.RollbackRestores | in_memory.go:152-167 | rolling back a transaction after any work inside it (nested commits and rollbacks included) restores the state from before its `StartTransaction` |
| InMemoryDb.Transaction.constructor | in_memory.go:88-103 | a new record has the given parent and overlays and no nested record |
| InMemoryDb.InMemory.OnlyOutermostHasNoParent | in_memory.go:114 | in the chain, the record without a parent is exactly the outermost one, which is what `Commit` and `Rollback` test to tell the two cases apart |
| InMemoryDb.InMemory.OnlyInnermostHasNoNested | in_memory.go:177-182 | in the chain, the record without a nested record is exactly the innermost one |
| InMemoryDb.InMemory.ChainIsSimple | in_memory.go:177-183 | no record occurs twice in the chain, so the `nested` walk is a finite path |
| InMemoryDb.InMemory.InMemoryDatabase | in_memory.go:25-29 | a new database has empty storage and no transaction, and satisfies the invariant |
| InMemoryDb.InMemory.GetLast | in_memory.go:170-185 | returns null exactly when no transaction is open, and otherwise the innermost record of the chain (by OnlyInnermostHasNoNested, the only one whose `nested` is null); the walk terminates and its final `return nil` is unreachable |
| InMemoryDb.InMemory.Get | in_memory.go:33-56 | returns the value the value model reads for the key |
| InMemoryDb.InMemory.Set | in_memory.go:60-70 | changes the object graph as `TxnSpec.Write`, keeps the invariant and the chain |
| InMemoryDb.InMemory.Delete | in_memory.go:74-84 | changes the object graph as `TxnSpec.Erase`, keeps the invariant and the chain |
| InMemoryDb.InMemory.StartTransaction | in_memory.go:87-104 | changes the object graph as `TxnSpec.Begin`; the chain grows by one fresh record and keeps its old records |
| InMemoryDb.InMemory.StartNested | in_memory.go:98-103 | the nested branch: links a fresh record holding copies of the innermost overlays, as `TxnSpec.Begin`, and returns it as the chain's new last record |
| InMemoryDb.InMemory.Commit | in_memory.go:107-149 | changes the object graph as `TxnSpec.Commit` and drops the innermost record from the chain; with no transaction nothing changes |
| InMemoryDb.InMemory.CommitNested | in_memory.go:131-148 | the nested branch: the parent's overlays become the merge and its `nested` link is cleared, as `TxnSpec.Commit` |
| InMemoryDb.InMemory.Rollback | in_memory.go:152-167 | changes the object graph as `TxnSpec.Rollback` and drops the innermost record from the chain; with no transaction nothing changes |
| InMemoryDb.ApplyToStorage | in_memory.go:116-123 | the two loops of the outermost commit compute `TxnSpec.Apply` |
| InMemoryDb.RemoveKeys | in_memory.go:116-118 | the storage loses exactly the pending deletes and keeps the other values |
| InMemoryDb.WriteEntries | in_memory.go:121-123 | the storage gains exactly the pending sets, which override old values |
| InMemoryDb.MergeIntoParent | in_memory.go:131-145 | the two loops of a nested commit compute `TxnSpec.Merge` |
| InMemoryDb.TransferDeletes | in_memory.go:132-137 | the parent's deletes grow by the child's deletes, and those keys leave the parent's sets |
| InMemoryDb.TransferSets | in_memory.go:140-145 | the child's sets override the parent's sets, and those keys leave the parent's deletes |
| InMemoryDb.CopyToSetMap | in_memory.go:187-195 | the copy has exactly the same entries |
| InMemoryDb.CopyToDeleteMap | in_memory.go:197-205 | the copy has exactly the same keys |
| Scenarios.ReadsBeforeCommit | in_memory_test.go:157-179 | the reads the test expects at each step before the first commit |
| Scenarios.ReadsAfterInnerCommit | in_memory_test.go:180-183 | after committing the third transaction, `key1` is `val5` and `key3` is `""` |
| Scenarios.RollbackDiscardsInner | in_memory_test.go:185-187 | rolling back the second transaction returns to the state of the first, discarding the committed third |
| Scenarios.RollbackDeeplyNested | in_memory_test.go:156-191 | the whole test: after the final commit no transaction is open, `key1` is `val2` and `key3` is `val3` |

## Left out

- Go map iteration order: each loop over a map takes any remaining key (`:|`). None of the results depends on the order.
- Aliasing of Go maps: the maps are values here. The source never shares a map between two records, because a nested record starts from copies.
- InMemoryDb.InMemory.CommitNested: the two merge loops run on copies of the parent's overlays, and the results are then stored into the parent record. The Go loops update the parent's maps in place. Both end in the same state, and no reader exists in between.
- `parent` is declared `const`, since the source sets it only when a record is created.
- The ghost `Repr` only grows. Records unlinked by `Commit` or `Rollback` stay in it, and garbage collection is not modelled.
- Concurrency: the source has no locking and assumes one caller at a time.
- Missing key versus `""`: both read as `""`, as in Go.
- The test harness itself is not modelled. One test is restated in `Scenarios`.
