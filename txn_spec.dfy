/**
 * Value-level model of the nested-transaction key-value store.
 *
 * A `State` is the base storage plus the chain of transaction frames,
 * outermost first, innermost (the active frame) last. Every operation of
 * the store is a function on `State`; the imperative classes in module
 * InMemoryDb are proved to follow these functions.
 */
module TxnSpec {

  /** Committed key/value pairs. A key that is absent reads as "". */
  type Storage = map<string, string>

  /** The two pending overlays of one transaction frame. */
  datatype Overlay = Overlay(toSet: map<string, string>, toDelete: set<string>)

  /** Base storage and the transaction chain, outermost frame first. */
  datatype State = State(storage: Storage, frames: seq<Overlay>)

  /** The operations a caller can issue that may change the state. */
  datatype Op =
    | SetOp(key: string, value: string)
    | DeleteOp(key: string)
    | StartOp
    | CommitOp
    | RollbackOp

  // ---------------------------------------------------------------------
  // Reading

  /** Map lookup with the zero value "" for a missing key. */
  function Lookup(s: Storage, k: string): string
  {
    if k in s then s[k] else ""
  }

  /** What `Get` returns when `o` is the innermost frame over storage `s`. */
  function Resolve(o: Overlay, s: Storage, k: string): string
  {
    if k in o.toSet then o.toSet[k]
    else if k in o.toDelete then ""
    else Lookup(s, k)
  }

  function Depth(st: State): nat
  {
    |st.frames|
  }

  function Last(frames: seq<Overlay>): Overlay
    requires frames != []
  {
    frames[|frames| - 1]
  }

  /** The value `Get(k)` returns in state `st`. */
  function Read(st: State, k: string): string
  {
    if st.frames == [] then Lookup(st.storage, k)
    else Resolve(Last(st.frames), st.storage, k)
  }

  // ---------------------------------------------------------------------
  // Invariants

  /** No key is both pending-set and pending-deleted in one frame. */
  predicate Disjoint(o: Overlay)
  {
    o.toSet.Keys !! o.toDelete
  }

  /** The keys a frame has an opinion about. */
  function Touched(o: Overlay): set<string>
  {
    o.toSet.Keys + o.toDelete
  }

  /**
   * A nested frame starts as a copy of its parent and only ever adds keys
   * to its overlays, so every key its parent touched it touches too.
   */
  predicate Extends(parent: Overlay, child: Overlay)
  {
    Touched(parent) <= Touched(child)
  }

  predicate Valid(st: State)
  {
    && (forall i | 0 <= i < |st.frames| :: Disjoint(st.frames[i]))
    && (forall i | 0 < i < |st.frames| :: Extends(st.frames[i - 1], st.frames[i]))
  }

  // ---------------------------------------------------------------------
  // Reference definition: the map a caller sees

  /** Outermost commit: apply the deletes to the storage, then the sets. */
  function Apply(s: Storage, o: Overlay): (r: Storage)
    ensures forall k :: Lookup(r, k) == Resolve(o, s, k)
    ensures forall k | k !in Touched(o) :: k in r <==> k in s
  {
    (s - o.toDelete) + o.toSet
  }

  /**
   * The whole key/value map visible to a caller: the storage when no
   * transaction is open, else the storage with the active frame applied.
   */
  function Effective(st: State): Storage
  {
    if st.frames == [] then st.storage else Apply(st.storage, Last(st.frames))
  }

  /** Every read is a lookup in the effective map. */
  lemma ReadIsEffective(st: State, k: string)
    ensures Read(st, k) == Lookup(Effective(st), k)
  {
  }

  // ---------------------------------------------------------------------
  // Writing

  /** `Set(k, v)`. */
  function Write(st: State, k: string, v: string): (r: State)
    ensures Read(r, k) == v
    ensures forall j | j != k :: Read(r, j) == Read(st, j)
    ensures Effective(r) == Effective(st)[k := v]
    ensures Depth(r) == Depth(st)
    ensures st.frames != [] ==> r.storage == st.storage && r.frames[..Depth(st) - 1] == st.frames[..Depth(st) - 1]
    ensures Valid(st) ==> Valid(r)
  {
    if st.frames == [] then
      State(st.storage[k := v], [])
    else
      var n := |st.frames|;
      var tr := st.frames[n - 1];
      var tr' := Overlay(tr.toSet[k := v], tr.toDelete - {k});
      var r := State(st.storage, st.frames[n - 1 := tr']);
      assert Touched(tr) <= Touched(tr');
      r
  }

  /** `Delete(k)`. */
  function Erase(st: State, k: string): (r: State)
    ensures Read(r, k) == ""
    ensures forall j | j != k :: Read(r, j) == Read(st, j)
    ensures Effective(r) == Effective(st) - {k}
    ensures Depth(r) == Depth(st)
    ensures st.frames != [] ==> r.storage == st.storage && r.frames[..Depth(st) - 1] == st.frames[..Depth(st) - 1]
    ensures Valid(st) ==> Valid(r)
  {
    if st.frames == [] then
      State(st.storage - {k}, [])
    else
      var n := |st.frames|;
      var tr := st.frames[n - 1];
      var tr' := Overlay(tr.toSet - {k}, tr.toDelete + {k});
      var r := State(st.storage, st.frames[n - 1 := tr']);
      assert Touched(tr) <= Touched(tr');
      r
  }

  // ---------------------------------------------------------------------
  // Transaction control

  /** `StartTransaction`: push an empty frame, or a copy of the active one. */
  function Begin(st: State): (r: State)
    ensures Depth(r) == Depth(st) + 1
    ensures r.storage == st.storage && r.frames[..Depth(st)] == st.frames
    ensures forall k :: Read(r, k) == Read(st, k)
    ensures Effective(r) == Effective(st)
    ensures Valid(st) ==> Valid(r)
  {
    if st.frames == [] then
      State(st.storage, [Overlay(map[], {})])
    else
      State(st.storage, st.frames + [Last(st.frames)])
  }

  /** Nested commit: fold the child's overlays into its parent's. */
  function Merge(parent: Overlay, child: Overlay): (r: Overlay)
    ensures Touched(r) == Touched(parent) + Touched(child)
    ensures Disjoint(parent) ==> Disjoint(r)
    ensures Disjoint(child) && Extends(parent, child) ==>
              forall s, k :: Resolve(r, s, k) == Resolve(child, s, k)
  {
    var toSet := (parent.toSet - child.toDelete) + child.toSet;
    var toDelete := (parent.toDelete + child.toDelete) - child.toSet.Keys;
    Overlay(toSet, toDelete)
  }

  /** The merged frame applies to the same map as the child alone. */
  lemma MergeApply(s: Storage, parent: Overlay, child: Overlay)
    requires Disjoint(child) && Extends(parent, child)
    ensures Apply(s, Merge(parent, child)) == Apply(s, child)
  {
    var a, b := Apply(s, Merge(parent, child)), Apply(s, child);
    forall k
      ensures k in a <==> k in b
      ensures k in a ==> a[k] == b[k]
    {
      if k !in Touched(child) {
        assert k !in Touched(parent);
      }
    }
  }

  /**
   * `Commit`: a no-op without a transaction; the outermost frame is applied
   * to the storage; a nested frame is merged into its parent.
   */
  function Commit(st: State): (r: State)
    ensures st.frames == [] ==> r == st
    ensures st.frames != [] ==> Depth(r) == Depth(st) - 1
    ensures Depth(st) == 1 ==> r.storage == Apply(st.storage, st.frames[0])
    ensures Depth(st) > 1 ==> r.storage == st.storage && r.frames[..Depth(st) - 2] == st.frames[..Depth(st) - 2]
  {
    var n := |st.frames|;
    if n == 0 then st
    else if n == 1 then
      State(Apply(st.storage, st.frames[0]), [])
    else
      State(st.storage, st.frames[..n - 2] + [Merge(st.frames[n - 2], st.frames[n - 1])])
  }

  /**
   * A commit keeps the invariant and changes nothing a caller can read:
   * the merged (or applied) frame shows the same map as the frame it
   * replaces.
   */
  lemma CommitPreserves(st: State)
    requires Valid(st)
    ensures Valid(Commit(st)) && Effective(Commit(st)) == Effective(st)
    ensures forall k :: Read(Commit(st), k) == Read(st, k)
  {
    var n := |st.frames|;
    if n > 1 {
      var parent, child := st.frames[n - 2], st.frames[n - 1];
      var r := Commit(st);
      assert Disjoint(child) && Disjoint(parent) && Extends(parent, child);
      MergeApply(st.storage, parent, child);
      forall i | 0 < i < |r.frames|
        ensures Extends(r.frames[i - 1], r.frames[i])
      {
        if i == n - 2 {
          assert r.frames[i - 1] == st.frames[i - 1];
          assert Extends(st.frames[i - 1], st.frames[i]);
        } else {
          assert r.frames[i - 1] == st.frames[i - 1] && r.frames[i] == st.frames[i];
        }
      }
    }
    forall k
      ensures Read(Commit(st), k) == Read(st, k)
    {
      ReadIsEffective(st, k);
      ReadIsEffective(Commit(st), k);
    }
  }

  /** `Rollback`: drop the active frame, if there is one, without merging. */
  function Rollback(st: State): (r: State)
    ensures st.frames == [] ==> r == st
    ensures st.frames != [] ==> Depth(r) == Depth(st) - 1
    ensures r.storage == st.storage && r.frames == st.frames[..Depth(r)]
    ensures Valid(st) ==> Valid(r)
  {
    var n := |st.frames|;
    if n == 0 then st
    else if n == 1 then State(st.storage, [])
    else State(st.storage, st.frames[..n - 1])
  }

  /**
   * Committing a nested transaction and then rolling back its parent is
   * the same as rolling back both: the parent's rollback discards what the
   * nested commit merged into it.
   */
  lemma CommitThenRollback(st: State)
    requires Depth(st) >= 2
    ensures Rollback(Commit(st)) == Rollback(Rollback(st))
  {
    var n := Depth(st);
    assert Rollback(Commit(st)).frames == st.frames[..n - 2][..n - 2];
    assert Rollback(Rollback(st)).frames == st.frames[..n - 1][..n - 2];
  }

  /** Rolling back right after starting a transaction restores the state. */
  lemma RollbackUndoesBegin(st: State)
    ensures Rollback(Begin(st)) == st
  {
    assert Begin(st).frames[..Depth(st)] == st.frames;
  }

  // ---------------------------------------------------------------------
  // Runs of operations

  function Step(st: State, op: Op): State
  {
    match op
    case SetOp(k, v) => Write(st, k, v)
    case DeleteOp(k) => Erase(st, k)
    case StartOp => Begin(st)
    case CommitOp => Commit(st)
    case RollbackOp => Rollback(st)
  }

  function Run(st: State, ops: seq<Op>): State
    decreases |ops|
  {
    if ops == [] then st else Run(Step(st, ops[0]), ops[1..])
  }

  /** The operations applied straight to a base store, transactions ignored. */
  function Direct(s: Storage, ops: seq<Op>): Storage
    decreases |ops|
  {
    if ops == [] then s
    else
      var s' := match ops[0]
        case SetOp(k, v) => s[k := v]
        case DeleteOp(k) => s - {k}
        case _ => s;
      Direct(s', ops[1..])
  }

  predicate NoRollback(ops: seq<Op>)
  {
    forall i | 0 <= i < |ops| :: !ops[i].RollbackOp?
  }

  /** Every step of a run preserves the invariant. */
  lemma {:induction false} RunValid(st: State, ops: seq<Op>)
    requires Valid(st)
    ensures Valid(Run(st, ops))
    decreases |ops|
  {
    if ops != [] {
      if ops[0].CommitOp? {
        CommitPreserves(st);
      }
      RunValid(Step(st, ops[0]), ops[1..]);
    }
  }

  /**
   * Without rollbacks, transaction boundaries do not matter: the map a
   * caller sees after a run is the map obtained by applying the run's
   * sets and deletes directly.
   */
  lemma {:induction false} RunMatchesDirect(st: State, ops: seq<Op>)
    requires Valid(st) && NoRollback(ops)
    ensures Effective(Run(st, ops)) == Direct(Effective(st), ops)
    decreases |ops|
  {
    if ops != [] {
      if ops[0].CommitOp? {
        CommitPreserves(st);
      }
      var st' := Step(st, ops[0]);
      assert NoRollback(ops[1..]) by {
        forall i | 0 <= i < |ops[1..]| ensures !ops[1..][i].RollbackOp? {
          assert ops[1..][i] == ops[i + 1];
        }
      }
      RunMatchesDirect(st', ops[1..]);
    }
  }

  /**
   * Committing every transaction opened in a run (no rollbacks) leaves the
   * base store exactly as if all sets and deletes had been applied to it
   * directly, in the same order.
   */
  lemma CommittedRunIsDirect(s: Storage, ops: seq<Op>)
    requires NoRollback(ops)
    requires Run(State(s, []), ops).frames == []
    ensures Run(State(s, []), ops).storage == Direct(s, ops)
  {
    RunMatchesDirect(State(s, []), ops);
  }

  /** Every state of the run from `st` has at least `d` frames. */
  predicate StaysAtDepth(st: State, ops: seq<Op>, d: nat)
    decreases |ops|
  {
    Depth(st) >= d && (ops != [] ==> StaysAtDepth(Step(st, ops[0]), ops[1..], d))
  }

  /**
   * A run that never closes frame `d` leaves the storage and the frames
   * below it untouched.
   */
  lemma {:induction false} RunKeepsOuterFrames(st: State, ops: seq<Op>, d: nat)
    requires d >= 1 && StaysAtDepth(st, ops, d)
    ensures Run(st, ops).storage == st.storage
    ensures Depth(Run(st, ops)) >= d && Run(st, ops).frames[..d - 1] == st.frames[..d - 1]
    decreases |ops|
  {
    if ops != [] {
      var st' := Step(st, ops[0]);
      assert st'.storage == st.storage && st'.frames[..d - 1] == st.frames[..d - 1] by {
        var n := Depth(st);
        assert StaysAtDepth(st', ops[1..], d);
        assert st.frames[..d - 1] == st.frames[..n - 1][..d - 1];
        if n >= d + 1 {
          assert st.frames[..d - 1] == st.frames[..n - 2][..d - 1];
        }
        if ops[0].StartOp? && n > 0 {
          assert st'.frames[..n] == st.frames;
        }
      }
      RunKeepsOuterFrames(st', ops[1..], d);
    }
  }

  /**
   * Rolling back a transaction restores exactly the state from before it
   * was started, whatever ran inside it (including nested transactions
   * that were committed or rolled back).
   */
  lemma RollbackRestores(st: State, ops: seq<Op>)
    requires StaysAtDepth(Begin(st), ops, Depth(st) + 1)
    requires Depth(Run(Begin(st), ops)) == Depth(st) + 1
    ensures Rollback(Run(Begin(st), ops)) == st
  {
    RunKeepsOuterFrames(Begin(st), ops, Depth(st) + 1);
  }
}
