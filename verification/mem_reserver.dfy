/** A fixed-capacity object pool: `N` slots, each either empty or holding one
    live object, plus a counter of live objects. Objects are created into the
    lowest-indexed empty slot, destroyed by index, looked up by index and
    located by reference; tearing the pool down destroys every remaining object
    in ascending slot order.

    The raw, aligned storage of a slot is modelled as `Option<T>`; the
    capacity `N` is the length of the slot sequence and never changes. Each
    pool carries an identity `id` standing for its address, and a reference is
    identified by the pool and the slot whose storage it points into, which is
    what comparing addresses amounts to. */
module MemReserver {
  import opened Wrappers
  import opened Ascending

  /** The three exceptions the pool throws, with the data each carries. */
  datatype PoolError =
    | NotEnoughSlots(currentCount: nat)  // every slot is taken; carries the live count
    | EmptySlot(index: nat)              // index out of range, or its slot is empty
    | ObjectNotFound                     // no occupied slot holds the referenced object

  /** A reference handed out by `Create` or `Get`, or the record of a
      destroyed object that `Delete` returns: the pool and the slot whose
      storage it points into, and the object seen through it. */
  datatype Ref<T> = Ref(pool: nat, slot: nat, obj: T)

  /** The pool: its identity, one entry per slot (`None` when the slot is
      empty) and the live-object counter. */
  datatype Reserver<T> = Reserver(id: nat, slots: seq<Option<T>>, activeCount: nat)

  /** The number of occupied slots. */
  function ActiveCount<T>(s: seq<Option<T>>): (n: nat)
    ensures n <= |s|
    ensures n == |s| <==> forall j :: 0 <= j < |s| ==> s[j].Some?
  {
    if s == [] then 0
    else (if s[0].Some? then 1 else 0) + ActiveCount(s[1..])
  }

  /** The class invariant: the counter equals the number of occupied slots. */
  ghost predicate Valid<T>(p: Reserver<T>) {
    p.activeCount == ActiveCount(p.slots)
  }

  /** Filling an empty slot adds one occupied slot. */
  lemma {:induction false} FillSlot<T>(s: seq<Option<T>>, i: nat, obj: T)
    requires i < |s| && s[i].None?
    ensures ActiveCount(s[i := Some(obj)]) == ActiveCount(s) + 1
  {
    if i > 0 {
      assert s[i := Some(obj)][1..] == s[1..][i - 1 := Some(obj)];
      FillSlot(s[1..], i - 1, obj);
    } else {
      assert s[i := Some(obj)][1..] == s[1..];
    }
  }

  /** Emptying an occupied slot removes one occupied slot. */
  lemma {:induction false} ClearSlot<T>(s: seq<Option<T>>, i: nat)
    requires i < |s| && s[i].Some?
    ensures ActiveCount(s[i := None]) + 1 == ActiveCount(s)
  {
    if i > 0 {
      assert s[i := None][1..] == s[1..][i - 1 := None];
      ClearSlot(s[1..], i - 1);
    } else {
      assert s[i := None][1..] == s[1..];
    }
  }

  /** The pool as default-constructed at identity `id`: `n` empty slots and a
      zero counter. */
  function Empty<T>(id: nat, n: nat): (p: Reserver<T>)
    ensures p.id == id && |p.slots| == n && Valid(p)
    ensures forall i :: 0 <= i < n ==> p.slots[i].None?
  {
    var p := Reserver(id, seq(n, i => None), 0);
    EmptyCount(p.slots);
    p
  }

  /** A sequence of empty slots has no occupied slot. */
  lemma {:induction false} EmptyCount<T>(s: seq<Option<T>>)
    requires forall j :: 0 <= j < |s| ==> s[j].None?
    ensures ActiveCount(s) == 0
  {
    if s != [] {
      EmptyCount(s[1..]);
    }
  }

  /** The first-fit scan of `create`: the lowest index at or after `from`
      whose slot is empty, or `None` when every slot from there on is taken. */
  function FirstFree<T>(s: seq<Option<T>>, from: nat): (r: Option<nat>)
    requires from <= |s|
    ensures r.None? <==> forall j :: from <= j < |s| ==> s[j].Some?
    ensures r.Some? ==> from <= r.value < |s| && s[r.value].None?
    ensures r.Some? ==> forall j :: from <= j < r.value ==> s[j].Some?
    decreases |s| - from
  {
    if from == |s| then None
    else if s[from].None? then Some(from)
    else FirstFree(s, from + 1)
  }

  /** `create`: constructs `obj` in the lowest-indexed empty slot and returns
      the pool after the construction together with a reference to the new
      object; throws `NotEnoughSlots` with the live count when every slot is
      occupied. */
  function Create<T>(p: Reserver<T>, obj: T): (r: Result<(Reserver<T>, Ref<T>), PoolError>)
    requires Valid(p)
    ensures r.Failure? <==> forall i :: 0 <= i < |p.slots| ==> p.slots[i].Some?
    ensures r.Failure? ==> r.error == NotEnoughSlots(p.activeCount) && p.activeCount == |p.slots|
    ensures r.Success? ==>
      var (q, ref) := r.value;
      // first fit: the chosen slot was empty and every slot below it occupied
      && ref.slot < |p.slots| && p.slots[ref.slot].None?
      && (forall j :: 0 <= j < ref.slot ==> p.slots[j].Some?)
      // the chosen slot now holds the new object, which the reference names
      && ref.pool == p.id && ref.obj == obj
      && q.id == p.id && |q.slots| == |p.slots| && q.slots[ref.slot] == Some(obj)
      // every other slot is untouched
      && (forall j :: 0 <= j < |p.slots| && j != ref.slot ==> q.slots[j] == p.slots[j])
      && q.activeCount == p.activeCount + 1
      && Valid(q)
  {
    match FirstFree(p.slots, 0)
    case None =>
      Failure(NotEnoughSlots(p.activeCount))
    case Some(i) =>
      FillSlot(p.slots, i, obj);
      Success((Reserver(p.id, p.slots[i := Some(obj)], p.activeCount + 1), Ref(p.id, i, obj)))
  }

  /** `_delete`: destroys the object at `index` and empties its slot; throws
      `EmptySlot(index)` when the index is out of range or the slot is empty.
      Returns the pool afterwards and a reference to the destroyed object. */
  function Delete<T>(p: Reserver<T>, index: nat): (r: Result<(Reserver<T>, Ref<T>), PoolError>)
    requires Valid(p)
    ensures r.Failure? <==> index >= |p.slots| || p.slots[index].None?
    ensures r.Failure? ==> r.error == EmptySlot(index)
    ensures r.Success? ==>
      var (q, gone) := r.value;
      // the destroyed object is the one that lived at `index`
      && gone.pool == p.id && gone.slot == index && p.slots[index] == Some(gone.obj)
      && q.id == p.id && |q.slots| == |p.slots| && q.slots[index].None?
      && (forall j :: 0 <= j < |p.slots| && j != index ==> q.slots[j] == p.slots[j])
      && q.activeCount + 1 == p.activeCount
      && Valid(q)
  {
    if index >= |p.slots| || p.slots[index].None? then
      Failure(EmptySlot(index))
    else
      ClearSlot(p.slots, index);
      Success((Reserver(p.id, p.slots[index := None], p.activeCount - 1),
               Ref(p.id, index, p.slots[index].value)))
  }

  /** `count`: the number of live objects, never more than the capacity. */
  function Count<T>(p: Reserver<T>): (n: nat)
    requires Valid(p)
    ensures n == ActiveCount(p.slots)
    ensures n <= |p.slots|
  {
    p.activeCount
  }

  /** `get`: a reference to the object at `index`; throws `EmptySlot(index)`
      when the index is out of range or the slot is empty. The pool is not
      changed (the function returns no new pool). */
  function Get<T>(p: Reserver<T>, index: nat): (r: Result<Ref<T>, PoolError>)
    ensures r.Failure? <==> index >= |p.slots| || p.slots[index].None?
    ensures r.Failure? ==> r.error == EmptySlot(index)
    ensures r.Success? ==>
      r.value.pool == p.id && r.value.slot == index && p.slots[index] == Some(r.value.obj)
  {
    if index >= |p.slots| || p.slots[index].None? then
      Failure(EmptySlot(index))
    else
      Success(Ref(p.id, index, p.slots[index].value))
  }

  /** The scan of `position` from slot `from` on: the first occupied slot whose
      storage (pool `p.id`, that slot) is the one `ref` points into. */
  function PositionFrom<T>(p: Reserver<T>, ref: Ref<T>, from: nat): (r: Option<nat>)
    requires from <= |p.slots|
    ensures r.Some? <==>
      ref.pool == p.id && from <= ref.slot < |p.slots| && p.slots[ref.slot].Some?
    ensures r.Some? ==> r.value == ref.slot
    decreases |p.slots| - from
  {
    if from == |p.slots| then None
    else if p.slots[from].Some? && p.id == ref.pool && from == ref.slot then Some(from)
    else PositionFrom(p, ref, from + 1)
  }

  /** `position`: the index of the occupied slot the reference points into;
      throws `ObjectNotFound` when no occupied slot matches (the slot was
      emptied since, or the reference is into another pool). */
  function Position<T>(p: Reserver<T>, ref: Ref<T>): (r: Result<nat, PoolError>)
    ensures r.Success? <==>
      ref.pool == p.id && ref.slot < |p.slots| && p.slots[ref.slot].Some?
    ensures r.Success? ==> r.value == ref.slot
    ensures r.Failure? ==> r.error == ObjectNotFound
  {
    match PositionFrom(p, ref, 0)
    case Some(i) => Success(i)
    case None => Failure(ObjectNotFound)
  }

  /** The slots named by a destruction log, in log order. */
  function LoggedSlots<T>(log: seq<Ref<T>>): (xs: seq<int>)
    ensures |xs| == |log|
    ensures forall k :: 0 <= k < |log| ==> xs[k] == log[k].slot
  {
    seq(|log|, k requires 0 <= k < |log| => log[k].slot)
  }

  /** The destructor's loop from slot `from` on: every occupied slot is
      destroyed and emptied, in ascending index order. Returns the slots
      afterwards and the log of destroyed objects, one entry per destructor
      call. */
  function TeardownFrom<T>(id: nat, s: seq<Option<T>>, from: nat): (r: (seq<Option<T>>, seq<Ref<T>>))
    requires from <= |s|
    ensures |r.0| == |s|
    decreases |s| - from
  {
    if from == |s| then (s, [])
    else if s[from].Some? then
      var r := TeardownFrom(id, s[from := None], from + 1);
      (r.0, [Ref(id, from, s[from].value)] + r.1)
    else
      TeardownFrom(id, s, from + 1)
  }

  /** The loop leaves the slots below `from` alone and empties all others. */
  lemma {:induction false} TeardownEmpties<T>(id: nat, s: seq<Option<T>>, from: nat)
    requires from <= |s|
    ensures forall j :: 0 <= j < from ==> TeardownFrom(id, s, from).0[j] == s[j]
    ensures forall j :: from <= j < |s| ==> TeardownFrom(id, s, from).0[j].None?
    decreases |s| - from
  {
    if from < |s| {
      if s[from].Some? {
        TeardownEmpties(id, s[from := None], from + 1);
      } else {
        TeardownEmpties(id, s, from + 1);
      }
    }
  }

  /** Every logged destruction is of an object that was live in its slot, at
      or after `from`, and the log visits slots in strictly ascending order. */
  lemma {:induction false} TeardownLogSound<T>(id: nat, s: seq<Option<T>>, from: nat)
    requires from <= |s|
    ensures forall k :: 0 <= k < |TeardownFrom(id, s, from).1| ==>
      var d := TeardownFrom(id, s, from).1[k];
      from <= d.slot < |s| && s[d.slot] == Some(d.obj)
    ensures forall k1, k2 :: 0 <= k1 < k2 < |TeardownFrom(id, s, from).1| ==>
      TeardownFrom(id, s, from).1[k1].slot < TeardownFrom(id, s, from).1[k2].slot
    decreases |s| - from
  {
    if from < |s| {
      if s[from].Some? {
        var s' := s[from := None];
        TeardownLogSound(id, s', from + 1);
        var log := TeardownFrom(id, s', from + 1).1;
        var log' := TeardownFrom(id, s, from).1;
        assert log' == [Ref(id, from, s[from].value)] + log;
        forall k | 0 <= k < |log'|
          ensures from <= log'[k].slot < |s| && s[log'[k].slot] == Some(log'[k].obj)
        {
          if k > 0 {
            assert log'[k] == log[k - 1];
            assert s'[log[k - 1].slot] == s[log[k - 1].slot];
          }
        }
        forall k1, k2 | 0 <= k1 < k2 < |log'| ensures log'[k1].slot < log'[k2].slot {
          assert log'[k2] == log[k2 - 1];
          if k1 > 0 { assert log'[k1] == log[k1 - 1]; }
        }
      } else {
        assert TeardownFrom(id, s, from) == TeardownFrom(id, s, from + 1);
        TeardownLogSound(id, s, from + 1);
      }
    }
  }

  /** Every slot at or after `from` that holds a live object is logged, and
      the log is exactly as long as the number of such slots. */
  lemma {:induction false} TeardownLogComplete<T>(id: nat, s: seq<Option<T>>, from: nat)
    requires from <= |s|
    ensures forall j :: from <= j < |s| && s[j].Some? ==>
      j in Elements(LoggedSlots(TeardownFrom(id, s, from).1))
    ensures |TeardownFrom(id, s, from).1| == ActiveCount(s[from..])
    decreases |s| - from
  {
    if from < |s| {
      assert s[from..][1..] == s[from + 1..];
      if s[from].Some? {
        var s' := s[from := None];
        TeardownLogComplete(id, s', from + 1);
        assert s'[from + 1..] == s[from + 1..];
        var log := TeardownFrom(id, s', from + 1).1;
        var log' := TeardownFrom(id, s, from).1;
        assert log' == [Ref(id, from, s[from].value)] + log;
        forall j | from <= j < |s| && s[j].Some?
          ensures j in Elements(LoggedSlots(log'))
        {
          if j == from {
            assert LoggedSlots(log')[0] == j;
          } else {
            assert s'[j].Some?;
            var k :| 0 <= k < |log| && LoggedSlots(log)[k] == j;
            assert LoggedSlots(log')[k + 1] == j;
          }
        }
      } else {
        assert TeardownFrom(id, s, from) == TeardownFrom(id, s, from + 1);
        TeardownLogComplete(id, s, from + 1);
      }
    }
  }

  /** The objects live in slots `from` on, one reference per occupied slot. */
  ghost function LiveFrom<T>(id: nat, s: seq<Option<T>>, from: nat): (m: multiset<Ref<T>>)
    requires from <= |s|
    decreases |s| - from
  {
    if from == |s| then multiset{}
    else
      (if s[from].Some? then multiset{Ref(id, from, s[from].value)} else multiset{})
      + LiveFrom(id, s, from + 1)
  }

  /** The objects live in a pool: one reference per occupied slot. */
  ghost function Live<T>(p: Reserver<T>): (m: multiset<Ref<T>>) {
    LiveFrom(p.id, p.slots, 0)
  }

  /** The live objects from `from` on depend only on the slots from `from` on. */
  lemma {:induction false} LiveFrame<T>(id: nat, s: seq<Option<T>>, t: seq<Option<T>>, from: nat)
    requires from <= |s| == |t|
    requires forall j :: from <= j < |s| ==> s[j] == t[j]
    ensures LiveFrom(id, s, from) == LiveFrom(id, t, from)
    decreases |s| - from
  {
    if from < |s| {
      LiveFrame(id, s, t, from + 1);
    }
  }

  /** Filling an empty slot adds exactly the new object to the live ones. */
  lemma {:induction false} LiveFill<T>(id: nat, s: seq<Option<T>>, i: nat, obj: T, from: nat)
    requires from <= i < |s| && s[i].None?
    ensures LiveFrom(id, s[i := Some(obj)], from) == LiveFrom(id, s, from) + multiset{Ref(id, i, obj)}
    decreases i - from
  {
    if from == i {
      LiveFrame(id, s[i := Some(obj)], s, i + 1);
    } else {
      LiveFill(id, s, i, obj, from + 1);
    }
  }

  /** Emptying an occupied slot removes exactly its object from the live ones. */
  lemma LiveClear<T>(id: nat, s: seq<Option<T>>, i: nat, from: nat)
    requires from <= i < |s| && s[i].Some?
    ensures LiveFrom(id, s[i := None], from) + multiset{Ref(id, i, s[i].value)} == LiveFrom(id, s, from)
  {
    var s' := s[i := None];
    LiveFill(id, s', i, s[i].value, from);
    assert s'[i := Some(s[i].value)] == s;
  }

  /** Slots that are all empty hold no live object. */
  lemma {:induction false} LiveNone<T>(id: nat, s: seq<Option<T>>, from: nat)
    requires from <= |s|
    requires forall j :: from <= j < |s| ==> s[j].None?
    ensures LiveFrom(id, s, from) == multiset{}
    decreases |s| - from
  {
    if from < |s| {
      LiveNone(id, s, from + 1);
    }
  }

  /** The destructor loop from `from` on calls a destructor exactly once for
      each object live there: its log is those objects, as a multiset. */
  lemma {:induction false} TeardownLogLive<T>(id: nat, s: seq<Option<T>>, from: nat)
    requires from <= |s|
    ensures multiset(TeardownFrom(id, s, from).1) == LiveFrom(id, s, from)
    decreases |s| - from
  {
    if from < |s| {
      if s[from].Some? {
        var s' := s[from := None];
        TeardownLogLive(id, s', from + 1);
        LiveFrame(id, s', s, from + 1);
        assert TeardownFrom(id, s, from).1
          == [Ref(id, from, s[from].value)] + TeardownFrom(id, s', from + 1).1;
      } else {
        TeardownLogLive(id, s, from + 1);
      }
    }
  }

  /** The destructor: destroys each remaining object exactly once, in ascending
      slot order, and leaves every slot empty. Returns the slots afterwards and
      the ordered log of destroyed objects. */
  function Teardown<T>(p: Reserver<T>): (r: (seq<Option<T>>, seq<Ref<T>>))
    requires Valid(p)
    ensures |r.0| == |p.slots|
    ensures forall j :: 0 <= j < |p.slots| ==> r.0[j].None?
    ensures StrictlyAscending(LoggedSlots(r.1))
    ensures forall k :: 0 <= k < |r.1| ==> r.1[k].slot < |p.slots| && p.slots[r.1[k].slot] == Some(r.1[k].obj)
    ensures forall j :: j in Elements(LoggedSlots(r.1)) <==> 0 <= j < |p.slots| && p.slots[j].Some?
    ensures |r.1| == p.activeCount
    ensures multiset(r.1) == Live(p)
  {
    var r := TeardownFrom(p.id, p.slots, 0);
    TeardownEmpties(p.id, p.slots, 0);
    TeardownLogSound(p.id, p.slots, 0);
    TeardownLogComplete(p.id, p.slots, 0);
    TeardownLogLive(p.id, p.slots, 0);
    assert p.slots[0..] == p.slots;
    r
  }
}
