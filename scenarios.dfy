/**
 * The deeply nested rollback scenario of in_memory_test.go, replayed on
 * the value model: three nested transactions, the innermost committed
 * into the second, the second rolled back, the outermost committed.
 */
module Scenarios {
  import opened TxnSpec

  /** `key1` = `val1` written outside any transaction. */
  function Initial(): State
  {
    Write(State(map[], []), "key1", "val1")
  }

  /** First transaction: `key1` = `val2`, `key3` = `val3`. */
  function First(): State
  {
    Write(Write(Begin(Initial()), "key1", "val2"), "key3", "val3")
  }

  /** Second transaction: delete `key1`, `key3` = `val4`. */
  function Second(): State
  {
    Write(Erase(Begin(First()), "key1"), "key3", "val4")
  }

  /** Third transaction: `key1` = `val5`, delete `key3`. */
  function Third(): State
  {
    Erase(Write(Begin(Second()), "key1", "val5"), "key3")
  }

  lemma ReadsBeforeCommit()
    ensures Valid(First()) && Valid(Third())
    ensures Read(Initial(), "key1") == "val1"
    ensures Read(First(), "key1") == "val2" && Read(First(), "key3") == "val3"
    ensures Read(Begin(First()), "key1") == "val2"
    ensures Read(Second(), "key1") == "" && Read(Second(), "key3") == "val4"
    ensures Read(Third(), "key1") == "val5" && Read(Third(), "key3") == ""
  {
    assert Valid(State(map[], []));
  }

  /** Committing the third transaction keeps what it reads. */
  lemma ReadsAfterInnerCommit()
    ensures Read(Commit(Third()), "key1") == "val5" && Read(Commit(Third()), "key3") == ""
  {
    ReadsBeforeCommit();
    CommitPreserves(Third());
    ReadIsEffective(Third(), "key1");
    ReadIsEffective(Third(), "key3");
    ReadIsEffective(Commit(Third()), "key1");
    ReadIsEffective(Commit(Third()), "key3");
  }

  /** Rolling back the second transaction discards the committed third one too. */
  lemma RollbackDiscardsInner()
    ensures Rollback(Commit(Third())) == First()
  {
    var a := First();
    var b0 := Erase(Begin(a), "key1");
    var b := Write(b0, "key3", "val4");
    var c0 := Write(Begin(b), "key1", "val5");
    var c := Erase(c0, "key3");
    assert Depth(a) == 1;
    assert b0.frames[..1] == Begin(a).frames[..1] == a.frames;
    assert b.frames[..1] == a.frames;
    assert c0.frames[..2] == Begin(b).frames[..2] == b.frames;
    assert c.frames[..2] == b.frames && Depth(c) == 3;
    CommitThenRollback(c);
    assert c.frames[..1] == c.frames[..2][..1];
  }

  lemma RollbackDeeplyNested()
    ensures Read(Commit(Third()), "key1") == "val5" && Read(Commit(Third()), "key3") == ""
    ensures Rollback(Commit(Third())) == First()
    ensures var f := Commit(Rollback(Commit(Third())));
            f.frames == [] && Read(f, "key1") == "val2" && Read(f, "key3") == "val3"
  {
    ReadsAfterInnerCommit();
    RollbackDiscardsInner();
    ReadsBeforeCommit();
    CommitPreserves(First());
    ReadIsEffective(First(), "key1");
    ReadIsEffective(First(), "key3");
    ReadIsEffective(Commit(First()), "key1");
    ReadIsEffective(Commit(First()), "key3");
  }
}
