/** Properties of the pool that relate several operations: lookups round-trip,
    indices stay stable, freed slots are reused, the class invariant holds
    along every sequence of calls, and every object constructed along such a
    sequence is destroyed exactly once, by `_delete` or by the destructor. */
module MemReserverProps {
  import opened Wrappers
  import opened MemReserver

  /** After a successful `_delete(i)`, `get(i)` throws `EmptySlot(i)` and
      `_delete(i)` a second time throws too: nothing is destroyed twice. */
  lemma GetAfterDelete<T>(p: Reserver<T>, i: nat)
    requires Valid(p) && Delete(p, i).Success?
    ensures Get(Delete(p, i).value.0, i) == Failure(EmptySlot(i))
    ensures Delete(Delete(p, i).value.0, i) == Failure(EmptySlot(i))
  {
  }

  /** A freshly created object is found again both by index and by reference. */
  lemma CreateThenLookup<T>(p: Reserver<T>, obj: T)
    requires Valid(p) && Create(p, obj).Success?
    ensures var (q, ref) := Create(p, obj).value;
      Get(q, ref.slot) == Success(ref) && Position(q, ref) == Success(ref.slot)
  {
  }

  /** `position` and `get` are inverse: the reference `get(i)` returns is
      located at `i`, and a located reference names the slot `get` reads. */
  lemma PositionGetRoundTrip<T>(p: Reserver<T>, i: nat, ref: Ref<T>)
    ensures Get(p, i).Success? ==> Position(p, Get(p, i).value) == Success(i)
    ensures Position(p, ref) == Success(i) ==>
      Get(p, i).Success? && Get(p, i).value.slot == ref.slot
  {
  }

  /** A reference into one pool is never located in another: `position`
      compares the pool's storage, not just the slot index. */
  lemma PositionRejectsOtherPool<T>(p: Reserver<T>, other: Reserver<T>, i: nat)
    requires p.id != other.id && Get(other, i).Success?
    ensures Position(p, Get(other, i).value) == Failure(ObjectNotFound)
  {
  }

  /** Index stability: creating an object never disturbs an object that is
      already live, so its index keeps resolving to it. */
  lemma CreateKeepsLiveObjects<T>(p: Reserver<T>, obj: T, i: nat)
    requires Valid(p) && Create(p, obj).Success? && Get(p, i).Success?
    ensures Get(Create(p, obj).value.0, i) == Get(p, i)
    ensures Create(p, obj).value.1.slot != i
  {
  }

  /** Index stability: destroying one object never disturbs another. */
  lemma DeleteKeepsOtherObjects<T>(p: Reserver<T>, j: nat, i: nat)
    requires Valid(p) && Delete(p, j).Success? && i != j
    ensures Get(Delete(p, j).value.0, i) == Get(p, i)
  {
  }

  /** Reuse: once slot `i` has been freed, the next `create` succeeds and
      lands at `i` or below (first fit); with capacity one it lands at `i`. */
  lemma CreateReusesFreedSlot<T>(p: Reserver<T>, i: nat, obj: T)
    requires Valid(p) && Delete(p, i).Success?
    ensures Create(Delete(p, i).value.0, obj).Success?
    ensures Create(Delete(p, i).value.0, obj).value.1.slot <= i
    ensures |p.slots| == 1 ==> Create(Delete(p, i).value.0, obj).value.1.slot == i
  {
    var q := Delete(p, i).value.0;
    assert q.slots[i].None?;
  }

  /** `create` adds exactly the new object to the live ones. */
  lemma CreateAddsLive<T>(p: Reserver<T>, obj: T)
    requires Valid(p) && Create(p, obj).Success?
    ensures Live(Create(p, obj).value.0) == Live(p) + multiset{Create(p, obj).value.1}
  {
    var (q, ref) := Create(p, obj).value;
    assert q.slots == p.slots[ref.slot := Some(obj)];
    LiveFill(p.id, p.slots, ref.slot, obj, 0);
  }

  /** `_delete` removes exactly the destroyed object from the live ones. */
  lemma DeleteRemovesLive<T>(p: Reserver<T>, i: nat)
    requires Valid(p) && Delete(p, i).Success?
    ensures Live(Delete(p, i).value.0) + multiset{Delete(p, i).value.1} == Live(p)
  {
    var (q, gone) := Delete(p, i).value;
    assert q.slots == p.slots[i := None];
    LiveClear(p.id, p.slots, i, 0);
  }

  /** One call on the pool, as a caller would make it. */
  datatype Op<T> =
    | CreateOp(obj: T)
    | DeleteOp(index: nat)
    | GetOp(index: nat)
    | PositionOp(ref: Ref<T>)
    | CountOp

  /** What calls leave behind: the pool afterwards, and the objects they
      constructed and destroyed, in order. */
  datatype Outcome<T> = Outcome(pool: Reserver<T>, constructed: seq<Ref<T>>, destroyed: seq<Ref<T>>)

  /** One call. The body is the definition: it invokes `Create` or `Delete`
      and records the object constructed or destroyed when the call succeeds;
      the pool is unchanged and nothing is recorded when the call throws or
      only observes. The contract states what every call keeps: the objects
      live before, plus those constructed, are those live after, plus those
      destroyed. */
  function Step<T>(p: Reserver<T>, op: Op<T>): (r: Outcome<T>)
    requires Valid(p)
    ensures Valid(r.pool) && r.pool.id == p.id && |r.pool.slots| == |p.slots|
    ensures Live(p) + multiset(r.constructed) == Live(r.pool) + multiset(r.destroyed)
    ensures op.CreateOp? && Create(p, op.obj).Failure? ==> r == Outcome(p, [], [])
    ensures op.DeleteOp? && Delete(p, op.index).Failure? ==> r == Outcome(p, [], [])
    ensures op.GetOp? || op.PositionOp? || op.CountOp? ==> r == Outcome(p, [], [])
  {
    match op
    case CreateOp(obj) =>
      (match Create(p, obj)
       case Success((q, ref)) => CreateAddsLive(p, obj); Outcome(q, [ref], [])
       case Failure(_) => Outcome(p, [], []))
    case DeleteOp(index) =>
      (match Delete(p, index)
       case Success((q, gone)) => DeleteRemovesLive(p, index); Outcome(q, [], [gone])
       case Failure(_) => Outcome(p, [], []))
    case GetOp(_) => Outcome(p, [], [])
    case PositionOp(_) => Outcome(p, [], [])
    case CountOp => Outcome(p, [], [])
  }

  /** A sequence of calls, each throwing or not: the pool afterwards and the
      objects constructed and destroyed along the way. */
  function Run<T>(p: Reserver<T>, ops: seq<Op<T>>): (r: Outcome<T>)
    requires Valid(p)
    ensures Valid(r.pool) && r.pool.id == p.id && |r.pool.slots| == |p.slots|
    ensures Count(r.pool) <= |p.slots|
    ensures Live(p) + multiset(r.constructed) == Live(r.pool) + multiset(r.destroyed)
    decreases |ops|
  {
    if ops == [] then Outcome(p, [], [])
    else
      var first := Step(p, ops[0]);
      var rest := Run(first.pool, ops[1..]);
      LedgerCompose(Live(p), multiset(first.constructed), multiset(first.destroyed),
        Live(first.pool), multiset(rest.constructed), multiset(rest.destroyed), Live(rest.pool));
      Outcome(rest.pool, first.constructed + rest.constructed, first.destroyed + rest.destroyed)
  }

  /** Two ledgers chained: what is live before plus everything constructed is
      what is live after plus everything destroyed. */
  lemma LedgerCompose<X>(before: multiset<X>, made1: multiset<X>, gone1: multiset<X>,
                         middle: multiset<X>, made2: multiset<X>, gone2: multiset<X>, after: multiset<X>)
    requires before + made1 == middle + gone1
    requires middle + made2 == after + gone2
    ensures before + (made1 + made2) == after + (gone1 + gone2)
  {
    forall x ensures (before + (made1 + made2))[x] == (after + (gone1 + gone2))[x] {
      assert (before + made1)[x] == (middle + gone1)[x];
      assert (middle + made2)[x] == (after + gone2)[x];
    }
  }

  /** A ledger that starts with nothing live: everything constructed is
      everything destroyed plus what is still live. */
  lemma LedgerFromNothing<X>(before: multiset<X>, made: multiset<X>, gone: multiset<X>, after: multiset<X>)
    requires before == multiset{}
    requires before + made == after + gone
    ensures made == gone + after
  {
    forall x ensures made[x] == (gone + after)[x] {
      assert (before + made)[x] == (after + gone)[x];
    }
  }

  /** The capacity invariant: along every sequence of calls starting from a
      default-constructed pool of capacity `n`, the counter matches the
      occupied slots and `0 <= count() <= n`. */
  lemma CapacityInvariant<T>(id: nat, n: nat, ops: seq<Op<T>>)
    ensures Valid(Run(Empty<T>(id, n), ops).pool)
    ensures |Run(Empty<T>(id, n), ops).pool.slots| == n
    ensures 0 <= Count(Run(Empty<T>(id, n), ops).pool) <= n
  {
  }

  /** Every object constructed along a sequence of calls on a
      default-constructed pool is destroyed exactly once: either by a
      `_delete` during the calls or by the destructor afterwards. */
  lemma ConstructedDestroyedOnce<T>(id: nat, n: nat, ops: seq<Op<T>>)
    ensures var r := Run(Empty<T>(id, n), ops);
      multiset(r.constructed) == multiset(r.destroyed) + multiset(Teardown(r.pool).1)
  {
    var p := Empty<T>(id, n);
    var r := Run(p, ops);
    LiveNone(id, p.slots, 0);
    var torn := multiset(Teardown(r.pool).1);
    assert torn == Live(r.pool);
    LedgerFromNothing(Live(p), multiset(r.constructed), multiset(r.destroyed), torn);
  }
}
