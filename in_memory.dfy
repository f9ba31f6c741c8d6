/**
 * The in-memory database as the Go code builds it: a storage map, and a
 * chain of transaction objects linked by `parent` and `nested` pointers
 * that every operation walks to find the innermost one.
 *
 * The ghost sequence `chain` lists the transaction objects outermost first;
 * `Abstract()` reads the heap back as a TxnSpec.State, and every method is
 * proved to act on it as the matching TxnSpec function does.
 */
module InMemoryDb {
  import opened TxnSpec

  /** One transaction frame with its pending writes and deletes. */
  class Transaction {
    /** Set once, when the frame is created; the source never reassigns it. */
    const parent: Transaction?
    var nested: Transaction?
    var toSet: map<string, string>
    var toDelete: set<string>

    constructor (parent: Transaction?, toSet: map<string, string>, toDelete: set<string>)
      ensures this.parent == parent && this.nested == null
      ensures this.toSet == toSet && this.toDelete == toDelete
    {
      this.parent := parent;
      this.nested := null;
      this.toSet := toSet;
      this.toDelete := toDelete;
    }
  }

  class InMemory {
    var storage: Storage
    var onGoingTransaction: Transaction?

    /** The transaction objects, from `onGoingTransaction` down the `nested` links. */
    ghost var chain: seq<Transaction>
    /** The overlays of the objects in `chain`, as values. */
    ghost var frames: seq<Overlay>
    ghost var Repr: set<object>

    ghost predicate ChainInRepr()
      reads this
    {
      this in Repr && forall i | 0 <= i < |chain| :: chain[i] in Repr
    }

    /** The database as a value: storage and the chain's overlays. */
    ghost function Abstract(): State
      reads this
    {
      State(storage, frames)
    }

    /** The pointers form the simple path `chain`. */
    ghost predicate Linked()
      reads this, Repr
    {
      && ChainInRepr()
      && (onGoingTransaction == null <==> chain == [])
      && (chain != [] ==>
            && onGoingTransaction == chain[0]
            && chain[0].parent == null
            && chain[|chain| - 1].nested == null)
      && (forall i | 0 <= i < |chain| - 1 :: chain[i].nested == chain[i + 1])
      && (forall i | 0 < i < |chain| :: chain[i].parent == chain[i - 1])
      && |frames| == |chain|
      && (forall i | 0 <= i < |chain| :: frames[i] == Overlay(chain[i].toSet, chain[i].toDelete))
    }

    /** In a linked chain the outermost frame is the only one without a parent. */
    lemma OnlyOutermostHasNoParent(i: nat)
      requires Linked() && i < |chain|
      ensures chain[i].parent == null <==> i == 0
    {
      if i > 0 {
        assert chain[i].parent == chain[i - 1];
      }
    }

    /** In a linked chain the innermost frame is the only one without a nested frame. */
    lemma OnlyInnermostHasNoNested(i: nat)
      requires Linked() && i < |chain|
      ensures chain[i].nested == null <==> i == |chain| - 1
    {
      if i < |chain| - 1 {
        assert chain[i].nested == chain[i + 1];
      }
    }

    /** The chain is a simple path: no transaction object occurs twice. */
    lemma {:induction false} ChainIsSimple(i: nat, j: nat)
      requires Linked() && i < j < |chain|
      ensures chain[i] != chain[j]
      decreases |chain| - j
    {
      if j == |chain| - 1 {
        OnlyInnermostHasNoNested(i);
      } else {
        ChainIsSimple(i + 1, j + 1);
        assert chain[i].nested == chain[i + 1] && chain[j].nested == chain[j + 1];
      }
    }

    /** The object invariant: a linked chain whose overlays are valid. */
    ghost predicate Valid()
      reads this, Repr
    {
      Linked() && TxnSpec.Valid(Abstract())
    }

    /** `InMemoryDatabase`: an empty storage and no transaction. */
    constructor InMemoryDatabase()
      ensures Valid() && fresh(Repr)
      ensures Abstract() == State(map[], [])
    {
      storage := map[];
      onGoingTransaction := null;
      chain := [];
      frames := [];
      Repr := {this};
    }

    /**
     * `getLast`: walk the `nested` links from the outermost transaction.
     * Returns null exactly when no transaction is open, and otherwise the
     * one frame of the chain without a nested transaction.
     */
    method GetLast() returns (tr: Transaction?)
      requires Valid()
      ensures tr == null <==> chain == []
      ensures chain != [] ==> tr == chain[|chain| - 1]
    {
      if onGoingTransaction == null {
        return null;
      }
      var last := onGoingTransaction;
      ghost var i := 0;
      while last != null
        invariant 0 <= i < |chain| && last == chain[i]
        decreases |chain| - i
      {
        if last.nested == null {
          OnlyInnermostHasNoNested(i);
          return last;
        }
        last := last.nested;
        i := i + 1;
      }
      assert false;
      return null;
    }

    /** `Get`: resolve `key` against the innermost frame, then the storage. */
    method Get(key: string) returns (r: string)
      requires Valid()
      ensures r == Read(Abstract(), key)
    {
      if onGoingTransaction == null {
        return Lookup(storage, key);
      }
      var tr := GetLast();
      if key in tr.toSet {
        return tr.toSet[key];
      }
      if key in tr.toDelete {
        return "";
      }
      return Lookup(storage, key);
    }

    /** `Set`: write the storage, or the innermost frame's overlays. */
    method Set(key: string, value: string)
      requires Valid()
      modifies Repr
      ensures Abstract() == Write(old(Abstract()), key, value)
      ensures Valid() && Repr == old(Repr) && chain == old(chain)
    {
      if onGoingTransaction == null {
        storage := storage[key := value];
        return;
      }
      var tr := GetLast();
      forall i | 0 <= i < |chain| - 1
        ensures chain[i] != tr
      {
        ChainIsSimple(i, |chain| - 1);
      }
      tr.toSet := tr.toSet[key := value];
      tr.toDelete := tr.toDelete - {key};
      frames := frames[|frames| - 1 := Overlay(tr.toSet, tr.toDelete)];
    }

    /** `Delete`: delete from the storage, or record it in the innermost frame. */
    method Delete(key: string)
      requires Valid()
      modifies Repr
      ensures Abstract() == Erase(old(Abstract()), key)
      ensures Valid() && Repr == old(Repr) && chain == old(chain)
    {
      if onGoingTransaction == null {
        storage := storage - {key};
        return;
      }
      var tr := GetLast();
      forall i | 0 <= i < |chain| - 1
        ensures chain[i] != tr
      {
        ChainIsSimple(i, |chain| - 1);
      }
      frames := frames[|frames| - 1 := Overlay(tr.toSet - {key}, tr.toDelete + {key})];
      tr.toDelete := tr.toDelete + {key};
      tr.toSet := tr.toSet - {key};
    }

    /** `StartTransaction`: open a frame, nested frames starting as copies. */
    method StartTransaction()
      requires Valid()
      modifies Repr
      ensures Abstract() == Begin(old(Abstract()))
      ensures Valid() && fresh(Repr - old(Repr))
      ensures |chain| == |old(chain)| + 1 && chain[..|old(chain)|] == old(chain)
      ensures fresh(chain[|chain| - 1])
    {
      var tr := GetLast();
      if tr == null {
        onGoingTransaction := new Transaction(null, map[], {});
        chain := [onGoingTransaction];
        frames := [Overlay(map[], {})];
        Repr := Repr + {onGoingTransaction};
        return;
      }
      var t := StartNested(tr);
    }

    /** The nested branch of `StartTransaction`: link a copy of the innermost frame. */
    method StartNested(tr: Transaction) returns (t: Transaction)
      requires Valid() && chain != [] && tr == chain[|chain| - 1]
      modifies Repr
      ensures Abstract() == Begin(old(Abstract()))
      ensures Valid() && fresh(Repr - old(Repr))
      ensures fresh(t) && chain == old(chain) + [t]
    {
      var toDelete := CopyToDeleteMap(tr.toDelete);
      var toSet := CopyToSetMap(tr.toSet);
      t := new Transaction(tr, toSet, toDelete);
      ghost var n := |chain|;
      chain := chain + [t];
      frames := frames + [Overlay(toSet, toDelete)];
      Repr := Repr + {t};
      tr.nested := t;
      forall i | 0 <= i < n
        ensures chain[i] == old(chain[i]) && frames[i] == old(frames[i])
        ensures chain[i].toSet == old(chain[i].toSet) && chain[i].toDelete == old(chain[i].toDelete)
        ensures i < n - 1 ==> chain[i].nested == chain[i + 1]
      {
      }
    }

    /**
     * `Commit`: apply the outermost frame to the storage and close the
     * chain, or merge a nested frame into its parent and unlink it.
     */
    method Commit()
      requires Valid()
      modifies Repr
      ensures Abstract() == TxnSpec.Commit(old(Abstract()))
      ensures Valid() && Repr == old(Repr)
      ensures old(chain) != [] ==> chain == old(chain)[..|old(chain)| - 1]
      ensures old(chain) == [] ==> unchanged(this)
    {
      var tr := GetLast();
      if tr == null {
        return;
      }
      var n := |chain|;
      OnlyOutermostHasNoParent(n - 1);
      if tr.parent == null {
        TxnSpec.CommitPreserves(Abstract());
        storage := ApplyToStorage(storage, tr.toSet, tr.toDelete);
        onGoingTransaction := null;
        chain := [];
        frames := [];
        assert |old(frames)| == 1 && storage == Apply(old(storage), old(frames)[0]);
        return;
      }
      CommitNested(tr);
    }

    /** The nested branch of `Commit`: merge the innermost frame into its parent. */
    method CommitNested(tr: Transaction)
      requires Valid() && |chain| >= 2 && tr == chain[|chain| - 1]
      modifies Repr
      ensures Abstract() == TxnSpec.Commit(old(Abstract()))
      ensures Valid() && Repr == old(Repr)
      ensures chain == old(chain)[..|old(chain)| - 1]
    {
      TxnSpec.CommitPreserves(Abstract());
      var n := |chain|;
      assert tr.parent == chain[n - 2];
      forall i | 0 <= i < n - 2
        ensures chain[i] != tr.parent
      {
        ChainIsSimple(i, n - 2);
      }
      var merged := MergeIntoParent(Overlay(tr.parent.toSet, tr.parent.toDelete), Overlay(tr.toSet, tr.toDelete));
      chain := chain[..n - 1];
      frames := frames[..n - 2] + [merged];
      tr.parent.toSet, tr.parent.toDelete := merged.toSet, merged.toDelete;
      tr.parent.nested := null;
      forall i | 0 <= i < n - 2
        ensures chain[i].nested == chain[i + 1] && frames[i] == Overlay(chain[i].toSet, chain[i].toDelete)
      {
        assert old(chain[i].nested) == old(chain[i + 1]);
      }
      assert frames == old(frames)[..n - 2] + [Merge(old(frames)[n - 2], old(frames)[n - 1])];
    }

    /** `Rollback`: unlink the innermost frame without merging it. */
    method Rollback()
      requires Valid()
      modifies Repr
      ensures Abstract() == TxnSpec.Rollback(old(Abstract()))
      ensures Valid() && Repr == old(Repr)
      ensures old(chain) != [] ==> chain == old(chain)[..|old(chain)| - 1]
      ensures old(chain) == [] ==> unchanged(this)
    {
      var tr := GetLast();
      if tr == null {
        return;
      }
      var n := |chain|;
      if tr.parent == null {
        OnlyOutermostHasNoParent(n - 1);
        onGoingTransaction := null;
        chain := [];
        frames := [];
        return;
      }
      assert tr.parent == chain[n - 2];
      forall i | 0 <= i < n - 2
        ensures chain[i] != tr.parent
      {
        ChainIsSimple(i, n - 2);
      }
      tr.parent.nested := null;
      chain := chain[..n - 1];
      frames := frames[..n - 1];
    }
  }

  /**
   * The two loops of an outermost commit: delete every pending delete from
   * the storage, then write every pending set.
   */
  method ApplyToStorage(storage: Storage, toSet: map<string, string>, toDelete: set<string>) returns (s: Storage)
    ensures s == Apply(storage, Overlay(toSet, toDelete))
  {
    s := RemoveKeys(storage, toDelete);
    s := WriteEntries(s, toSet);
  }

  /** First loop of an outermost commit: `delete(db.storage, k)` for each pending delete. */
  method RemoveKeys(storage: Storage, keys: set<string>) returns (s: Storage)
    ensures s.Keys == storage.Keys - keys
    ensures forall k | k in s :: s[k] == storage[k]
  {
    s := storage;
    var rest := keys;
    while rest != {}
      invariant rest <= keys
      invariant s == storage - (keys - rest)
      decreases rest
    {
      var k :| k in rest;
      s := s - {k};
      rest := rest - {k};
    }
  }

  /** Second loop of an outermost commit: `db.storage[k] = v` for each pending set. */
  method WriteEntries(storage: Storage, entries: map<string, string>) returns (s: Storage)
    ensures s.Keys == storage.Keys + entries.Keys
    ensures forall k | k in s :: s[k] == if k in entries then entries[k] else storage[k]
  {
    s := storage;
    var rest := entries.Keys;
    while rest != {}
      invariant rest <= entries.Keys
      invariant s.Keys == storage.Keys + (entries.Keys - rest)
      invariant forall k | k in s :: s[k] == if k in entries && k !in rest then entries[k] else storage[k]
      decreases rest
    {
      var k :| k in rest;
      s := s[k := entries[k]];
      rest := rest - {k};
    }
  }

  /**
   * The two loops of a nested commit, run on the parent's overlays: the
   * child's deletes are transferred first, then the child's sets.
   */
  method MergeIntoParent(parent: Overlay, child: Overlay) returns (merged: Overlay)
    ensures merged == Merge(parent, child)
  {
    var toSet, toDelete := TransferDeletes(parent.toSet, parent.toDelete, child.toDelete);
    toSet, toDelete := TransferSets(toSet, toDelete, child.toSet);
    merged := Overlay(toSet, toDelete);
  }

  /**
   * First loop of a nested commit: each delete of the child becomes a
   * pending delete of the parent and cancels the parent's pending set.
   */
  method TransferDeletes(toSet: map<string, string>, toDelete: set<string>, deletes: set<string>)
    returns (toSet': map<string, string>, toDelete': set<string>)
    ensures toDelete' == toDelete + deletes
    ensures toSet'.Keys == toSet.Keys - deletes
    ensures forall k | k in toSet' :: toSet'[k] == toSet[k]
  {
    toSet', toDelete' := toSet, toDelete;
    var rest := deletes;
    while rest != {}
      invariant rest <= deletes
      invariant toDelete' == toDelete + (deletes - rest)
      invariant toSet' == toSet - (deletes - rest)
      decreases rest
    {
      var k :| k in rest;
      toDelete' := toDelete' + {k};
      toSet' := toSet' - {k};
      rest := rest - {k};
    }
  }

  /**
   * Second loop of a nested commit: each set of the child becomes a
   * pending set of the parent and cancels the parent's pending delete.
   */
  method TransferSets(toSet: map<string, string>, toDelete: set<string>, sets: map<string, string>)
    returns (toSet': map<string, string>, toDelete': set<string>)
    ensures toDelete' == toDelete - sets.Keys
    ensures toSet'.Keys == toSet.Keys + sets.Keys
    ensures forall k | k in toSet' :: toSet'[k] == if k in sets then sets[k] else toSet[k]
  {
    toSet', toDelete' := toSet, toDelete;
    var rest := sets.Keys;
    while rest != {}
      invariant rest <= sets.Keys
      invariant toDelete' == toDelete - (sets.Keys - rest)
      invariant toSet'.Keys == toSet.Keys + (sets.Keys - rest)
      invariant forall k | k in toSet' :: toSet'[k] == if k in sets && k !in rest then sets[k] else toSet[k]
      decreases rest
    {
      var k :| k in rest;
      toSet' := toSet'[k := sets[k]];
      toDelete' := toDelete' - {k};
      rest := rest - {k};
    }
  }

  /** `copyToSetMap`: a fresh map with the same entries. */
  method CopyToSetMap(toSet: map<string, string>) returns (copied: map<string, string>)
    ensures copied == toSet
  {
    copied := map[];
    var keys := toSet.Keys;
    while keys != {}
      invariant keys <= toSet.Keys
      invariant copied.Keys == toSet.Keys - keys
      invariant forall k | k in copied :: copied[k] == toSet[k]
      decreases keys
    {
      var k :| k in keys;
      copied := copied[k := toSet[k]];
      keys := keys - {k};
    }
  }

  /** `copyToDeleteMap`: a fresh set with the same keys. */
  method CopyToDeleteMap(toDelete: set<string>) returns (copied: set<string>)
    ensures copied == toDelete
  {
    copied := {};
    var keys := toDelete;
    while keys != {}
      invariant keys <= toDelete
      invariant copied == toDelete - keys
      decreases keys
    {
      var k :| k in keys;
      copied := copied + {k};
      keys := keys - {k};
    }
  }
}
