/** The console scenario of the pool's example driver, replayed on the model:
    a pool of two slots holding objects whose state is one integer id, the id
    being the sum of up to three constructor arguments (0 by default). */
module MemReserverScenario {
  import opened Wrappers
  import opened MemReserver

  /** The identity of the driver's one pool. */
  const DriverPool: nat := 0

  /** The id the example type computes from its constructor arguments. */
  function SomeClassId(a: int, b: int, c: int): int {
    a + b + c
  }

  /** The pool after the driver's two successful creations. */
  function Full(): (p: Reserver<int>)
    ensures Valid(p)
  {
    Reserver(DriverPool, [Some(0), Some(6)], 2)
  }

  /** The pool after the driver deletes its first object. */
  function AfterDelete(): (p: Reserver<int>)
    ensures Valid(p)
  {
    Reserver(DriverPool, [None, Some(6)], 1)
  }

  /** The default-constructed object lands in slot 0 of the empty pool. */
  lemma DriverCreatesFirst()
    ensures Create(Empty<int>(DriverPool, 2), SomeClassId(0, 0, 0))
      == Success((Reserver(DriverPool, [Some(0), None], 1), Ref(DriverPool, 0, 0)))
  {
    EmptyPairOfSlots();
    var s: seq<Option<int>> := [None, None];
    assert FirstFree(s, 0) == Some(0);
    assert s[0 := Some(0)] == [Some(0), None];
  }

  /** The driver's pool starts as two empty slots and a zero counter. */
  lemma EmptyPairOfSlots()
    ensures Empty<int>(DriverPool, 2) == Reserver(DriverPool, [None, None], 0)
  {
  }

  /** The object built from `(1, 2, 3)` has id 6 and lands in slot 1,
      filling the pool. */
  lemma DriverCreatesSecond()
    ensures Create(Reserver(DriverPool, [Some(0), None], 1), SomeClassId(1, 2, 3))
      == Success((Full(), Ref(DriverPool, 1, 6)))
  {
    var s: seq<Option<int>> := [Some(0), None];
    assert FirstFree(s, 0) == Some(1);
    assert s[1 := Some(6)] == [Some(0), Some(6)];
  }

  /** With both slots taken: `count()` is 2, a third `create` throws
      `NotEnoughSlots(2)`, and the first object is located at slot 0. */
  lemma DriverExhausts()
    ensures Count(Full()) == 2
    ensures Create(Full(), SomeClassId(0, 0, 0)) == Failure(NotEnoughSlots(2))
    ensures Get(Full(), 0) == Success(Ref(DriverPool, 0, 0))
    ensures Position(Full(), Ref(DriverPool, 0, 0)) == Success(0)
  {
  }

  /** Deleting slot 0 leaves one live object, `get(0)` then throws
      `EmptySlot(0)`, and teardown destroys only the object with id 6. */
  lemma DriverDeletes()
    ensures Delete(Full(), 0) == Success((AfterDelete(), Ref(DriverPool, 0, 0)))
    ensures Count(AfterDelete()) == 1
    ensures Get(AfterDelete(), 0) == Failure(EmptySlot(0))
    ensures Teardown(AfterDelete()).1 == [Ref(DriverPool, 1, 6)]
  {
    assert [Some(0), Some(6)][0 := None] == [None, Some(6)];
    var log := Teardown(AfterDelete()).1;
    assert |log| == 1;
    assert log[0].slot == 1;
  }
}
