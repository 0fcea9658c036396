# Fixed-capacity object pool and cyclic 0/1 mask

A Dafny model of two small C++ templates and proofs about them.

- **`MemReserver<T, N>`** is a pool of `N` slots. Each slot is either empty or
  holds one live object, and the pool keeps a live-object counter. `create`
  builds an object in the lowest-indexed empty slot. `_delete` and `get` work
  by index. `position` goes from a reference back to its index. The
  destructor destroys every remaining object in ascending slot order. The
  pool throws `NotEnoughSlotsError`, `EmptySlotError` and
  `ObjectNotFoundError`.
- **`Mask<N>`** is a fixed array of 0s and 1s. It is applied cyclically over a
  container: mask value `idx % N` governs the element at original position
  `idx`. `slice` erases the elements under a 0. `transform` returns a copy with
  `func` applied under each 1. `slice_and_transform` returns `func` of only
  the elements under a 1.

How the model is built:

- `wrappers.dfy` (`Wrappers`): `Option` for a slot, and `Result` for a call
  that either returns or throws.
- `ascending.dfy` (`Ascending`): strictly ascending index sequences. Such a
  sequence holds as many distinct values as it has elements.
- `mem_reserver.dfy` (`MemReserver`): the pool is the value
  `Reserver(slots: seq<Option<T>>, activeCount)`, with `N = |slots|`. Every
  operation is a pure function. A throwing call returns `Failure(error)` and no
  new pool, so a failure changes nothing by construction. Each pool carries an
  identity `id` that stands for its address. A reference is a
  `Ref(pool, slot, obj)`: the pool and slot whose storage it points into, and
  the object seen through it. `position` compares the reference's address
  with the storage of each occupied slot in turn, and throws
  `ObjectNotFoundError` when none matches (`MemReserver.h:117-125`). In the
  model that means comparing pool and slot: a reference into an emptied slot,
  out of range, or into another pool gives `ObjectNotFound`. C++ `_delete`
  returns nothing; the model's `Delete` adds a destruction record, a reference
  to the object it destroyed, and the multiset `Live` of
  references to the occupied slots tracks which objects are alive. The class
  invariant `Valid` says that the counter equals the number
  of occupied slots. Every operation that needs it takes it as a
  precondition. It holds for a default-constructed pool and is preserved by
  every operation, and callers cannot reach the private state to break it.
- `mem_reserver_props.dfy` (`MemReserverProps`): properties that relate
  several calls. These are lookup round trips, index stability, slot reuse,
  the capacity invariant along any sequence of calls, and the fact that every
  object constructed is destroyed exactly once.
- `mem_reserver_scenario.dfy` (`MemReserverScenario`): the pool driver's
  scenario with `N = 2`, replayed step by step.
- `cyclic_mask.dfy` (`CyclicMask`): the constructor, `size` and `at` are
  functions. `slice`, `transform` and `slice_and_transform` are methods whose
  loops follow the C++ loops. Each method is proved equal to an
  independent reference definition. `Kept` is built on `KeptIndices`, the
  ascending list of positions under a 1. `Applied` is position-wise
  application.
- `cyclic_mask_examples.dfy` (`CyclicMaskExamples`): the mask driver's worked
  examples, evaluated by the modelled operations.

## Model

| member | source | states |
|---|---|---|
| MemReserver.Empty | Task3_MemReserver/MemReserver.h:43-51 | A default-constructed pool at identity `id` has `n` slots, all empty, a zero counter, and satisfies the class invariant. |
| MemReserver.FirstFree | Task3_MemReserver/MemReserver.h:69-70 | The first-fit scan returns the lowest empty index at or after `from`. It returns nothing exactly when every slot from there on is occupied. |
| MemReserver.Create | Task3_MemReserver/MemReserver.h:66-83 | `create` fails exactly when all `N` slots are occupied. It then throws `NotEnoughSlots` carrying the counter, which equals `N`, and changes nothing. Otherwise it fills the lowest-indexed empty slot with the new object, leaves every other slot as it was, increments the counter, keeps the invariant, and returns a reference to that slot of this pool. |
| MemReserver.Delete | Task3_MemReserver/MemReserver.h:86-96 | `_delete(i)` throws `EmptySlot(i)` exactly when `i >= N` or slot `i` is empty, and then changes nothing. Otherwise it destroys the object that lived in slot `i` and empties exactly slot `i`, leaves the others untouched, decrements the counter, and keeps the invariant. The model also returns a reference to the destroyed object as a destruction record; C++ `_delete` returns nothing. |
| MemReserver.Count | Task3_MemReserver/MemReserver.h:99-101 | `count()` is the number of occupied slots and is at most `N`. |
| MemReserver.Get | Task3_MemReserver/MemReserver.h:104-109 | `get(i)` throws `EmptySlot(i)` exactly when `i >= N` or slot `i` is empty. Otherwise it returns a reference to slot `i` of this pool holding that slot's object. It returns no new pool, so it has no side effects. |
| MemReserver.PositionFrom | Task3_MemReserver/MemReserver.h:117-124 | The scan of `position` finds a slot exactly when the reference is into this pool and its slot lies in the scanned range and is occupied. The slot it finds is that one. |
| MemReserver.Position | Task3_MemReserver/MemReserver.h:112-126 | `position(ref)` succeeds exactly when the reference points into an occupied slot of this pool, and returns that slot's index. It throws `ObjectNotFound` for a reference into an empty slot, past the end, or into another pool. |
| MemReserver.TeardownEmpties | Task3_MemReserver/MemReserver.h:55-62 | The destructor loop started at `from` leaves the slots below `from` alone and empties every slot from `from` on. |
| MemReserver.TeardownLogSound | Task3_MemReserver/MemReserver.h:55-62 | Every destructor call the loop makes is on an object that was live in its slot, at or after `from`. The calls come in strictly ascending slot order, so no object is destroyed twice. |
| MemReserver.TeardownLogComplete | Task3_MemReserver/MemReserver.h:55-62 | Every slot from `from` on that held a live object gets a destructor call. The number of calls equals the number of such slots. |
| MemReserver.LiveFill | Task3_MemReserver/MemReserver.h:73-76 | Constructing an object in an empty slot adds exactly that object to the live ones. |
| MemReserver.LiveClear | Task3_MemReserver/MemReserver.h:91-95 | Destroying the object of an occupied slot removes exactly that object from the live ones. |
| MemReserver.LiveNone | Task3_MemReserver/MemReserver.h:43-51 | Slots that are all empty hold no live object. |
| MemReserver.TeardownLogLive | Task3_MemReserver/MemReserver.h:55-62 | The destructor loop from `from` on calls a destructor exactly once for each object live there: its log, as a multiset, is those objects. |
| MemReserver.Teardown | Task3_MemReserver/MemReserver.h:54-63 | The destructor leaves every slot empty. It destroys, in strictly ascending slot order, exactly the objects that were live, each once: its log, as a multiset, is the live objects. The number of destructor calls equals the counter. |
| MemReserverProps.GetAfterDelete | Task3_MemReserver/MemReserver.h:86-109 | After a successful `_delete(i)`, both `get(i)` and a second `_delete(i)` throw `EmptySlot(i)`. |
| MemReserverProps.CreateThenLookup | Task3_MemReserver/MemReserver.h:73-78 | The reference `create` returns resolves again through `get` at its slot, and `position` maps it back to that slot. |
| MemReserverProps.PositionGetRoundTrip | Task3_MemReserver/MemReserver.h:104-126 | `position` of the reference `get(i)` returns is `i`. A reference that `position` locates at `i` names the slot that `get(i)` reads. |
| MemReserverProps.PositionRejectsOtherPool | Task3_MemReserver/MemReserver.h:114-125 | A reference `get` returns from one pool is never located in another pool: `position` there throws `ObjectNotFound`. |
| MemReserverProps.CreateKeepsLiveObjects | Task3_MemReserver/MemReserver.h:69-78 | `create` never picks an occupied slot. Every index that resolved before the call resolves to the same object after it. |
| MemReserverProps.DeleteKeepsOtherObjects | Task3_MemReserver/MemReserver.h:91-95 | `_delete(j)` leaves what `get(i)` returns unchanged for every `i != j`. |
| MemReserverProps.CreateReusesFreedSlot | Task3_MemReserver/MemReserver.h:69-78 | After slot `i` is freed, the next `create` succeeds and lands at index `i` or lower. With capacity one it lands at `i`. |
| MemReserverProps.CreateAddsLive | Task3_MemReserver/MemReserver.h:69-78 | A successful `create` adds exactly the object it returns to the live objects. |
| MemReserverProps.DeleteRemovesLive | Task3_MemReserver/MemReserver.h:86-96 | A successful `_delete` removes exactly the object it destroyed from the live objects. |
| MemReserverProps.Step | Task3_MemReserver/MemReserver.h:66-126 | Any single call keeps the invariant, the pool identity and the capacity, and balances the ledger: the objects live before plus those the call constructed equal the objects live after plus those it destroyed. |
| MemReserverProps.Run | Task3_MemReserver/MemReserver.h:47-48 | After any sequence of calls the invariant holds, the capacity is unchanged, `count()` is at most the capacity, and the ledger balances over the whole sequence. |
| MemReserverProps.CapacityInvariant | Task3_MemReserver/MemReserver.h:47-48 | From a default-constructed pool of capacity `n`, every sequence of calls keeps the counter equal to the occupied slots and `0 <= count() <= n`. |
| MemReserverProps.ConstructedDestroyedOnce | Task3_MemReserver/MemReserver.h:54-96 | Along any sequence of calls on a default-constructed pool, followed by its destructor, the objects constructed are, as a multiset, exactly the objects destroyed by `_delete` plus those the destructor destroys: each constructed object is destroyed exactly once. |
| MemReserverScenario.DriverCreatesFirst | Task3_MemReserver/main.cpp:21-26 | In an empty pool of two slots, the default object (id 0) lands in slot 0. |
| MemReserverScenario.DriverCreatesSecond | Task3_MemReserver/main.cpp:28-29 | The object built from `(1, 2, 3)` has id 6, lands in slot 1, and fills the pool. |
| MemReserverScenario.DriverExhausts | Task3_MemReserver/main.cpp:31-46 | With both slots taken, `count()` is 2 and a third `create` throws `NotEnoughSlots(2)`. `get(0)` returns the id-0 object, and `position` maps it back to slot 0. |
| MemReserverScenario.DriverDeletes | Task3_MemReserver/main.cpp:48-64 | `_delete(0)` succeeds, destroying the id-0 object, and `count()` becomes 1. `get(0)` then throws `EmptySlot(0)`, and teardown destroys only the id-6 object. |
| CyclicMask.AllBinaryFrom | Task2_Mask/Mask.h:23-27 | The constructor's check passes exactly when every value from `from` on is 0 or 1. |
| CyclicMask.NewMask | Task2_Mask/Mask.h:19-28 | Construction succeeds exactly when every value is 0 or 1, and the mask then holds the values as given. Otherwise it throws `InvalidArgument`. |
| CyclicMask.Size | Task2_Mask/Mask.h:31-33 | `size()` is `N`, which is positive, and `at(i)` succeeds exactly for `i < size()`. |
| CyclicMask.At | Task2_Mask/Mask.h:36-41 | `at(i)` returns mask value `i`, which is 0 or 1, exactly when `i < N`. Otherwise it throws `OutOfRange`. |
| CyclicMask.KeptIndicesSpec | Task2_Mask/Mask.h:54-67 | The positions `slice` keeps form a strictly ascending list. It contains exactly the positions below the length whose mask value `i % N` is 1. |
| CyclicMask.Slice | Task2_Mask/Mask.h:47-68 | `slice` keeps the element at original position `i` exactly when mask value `i % N` is 1. The kept elements stay in their original order. An empty container stays empty, and the result is never longer than the input. |
| CyclicMask.Transform | Task2_Mask/Mask.h:74-85 | `transform` returns a container of the same length. Element `i` is `func(c[i])` when mask value `i % N` is 1 and `c[i]` otherwise. The input is left unchanged. |
| CyclicMask.SliceAndTransform | Task2_Mask/Mask.h:90-108 | `slice_and_transform` is `func` mapped over exactly the elements `slice` keeps, in order. Its length is the number of kept positions. |
| CyclicMask.KeptCount | Task2_Mask/Mask.h:97-105 | The number of elements kept equals the number of positions `i` below the length with mask value `i % N` equal to 1. |
| CyclicMask.SliceAfterTransform | Task2_Mask/Mask.h:99-103 | `slice_and_transform(c, func)` equals `transform(c, func)` followed by `slice`. |
| CyclicMask.SliceAllOnes | Task2_Mask/Mask.h:59-65 | A mask of all ones keeps the whole container. |
| CyclicMaskExamples.ConstructorExamples | Task2_Mask/Mask.h:23-27 | The constructor accepts `{1, 0, 0}` and throws `InvalidArgument` for `{1, 2, 0}`. |
| CyclicMaskExamples.SliceExample | Task2_Mask/main.cpp:9-25 | Mask `{1, 0, 0}` sliced over `1..7` gives `1 4 7`. |
| CyclicMaskExamples.TransformExample | Task2_Mask/main.cpp:30-44 | Mask `{1, 1, 0}` doubling `10 .. 60` gives `20 40 30 80 100 60`. |
| CyclicMaskExamples.SliceAndTransformExample | Task2_Mask/main.cpp:50-56 | Mask `{1, 1, 0}`, multiplying by ten and keeping the masked elements of `10 .. 60`, gives `100 200 400 500`. |

## Left out

- Raw storage is not modelled: the `alignas` byte arrays, placement `new` and `reinterpret_cast`. A slot is `Option<T>`. `create(args...)` receives the object its constructor would build, Construction and destruction events appear as `Ref` records: `Create`'s result, `Delete`'s second result, `Run`'s constructed and destroyed logs, and the teardown log. The side effects of a `T` constructor or destructor themselves (the example type's printing) are not modelled.
- Pointer identity is modelled only as far as `position` needs it. A reference is the pool identity and the slot it points into, so `position` compares those, not values. Distinct pools are assumed to be given distinct identities.
- MemReserver.Create: a `T` constructor that throws is not modelled. In C++ the exception propagates out of `create` and the slot stays free; here the object is given already built, so `create` fails only with `NotEnoughSlots`.
- MemReserver.Get: mutating the pooled object through the returned `T&` is not modelled. `Ref` is a read-only view, and no operation changes the object in an occupied slot.
- MemReserver.Teardown: the C++ destructor empties the slots but leaves `active_count` as it is, because the object is dead afterwards. The model therefore returns the emptied slots and the destruction log, not a pool.
- `size_t` wrap-around of `active_count` is not modelled. It cannot happen because the counter stays between 0 and `N`.
- Copying or moving a `MemReserver` is not modelled. The implicit copy would duplicate raw bytes, and it is never used.
- The pool's operations other than `get` and `position` require the class invariant `Valid`. The private state always satisfies it, so no caller can violate it.
- Exception message texts are left out. Only the exception kind and its payload (count or index) are modelled.
- Mask's compile-time `static_assert` on the argument count is left out. The length of the value sequence plays the role of `N`.
- The `static_cast<int>` of the constructor arguments is left out. Values are taken as integers.
- `N > 0` is a precondition of the mask (`Mask.Valid`, and `NewMask` requires a non-empty sequence), because `idx % N` with `N == 0` is undefined.
- Containers are sequences. The in-place erase of `slice` is modelled as returning the edited container, and `transform` and `slice_and_transform` return new sequences.
- `func` is a total, pure `T -> T`. C++ `int` overflow inside the example lambdas is not modelled; the example values are far from it.
- The random-number generator exercise is not modelled because it is floating-point arithmetic with an epsilon-based stop.
- The lazy pipeline exercise is not modelled because it is template metaprogramming and object-lifetime tricks.
- The console drivers are not modelled because they are I/O. Their expected outputs appear as the scenario and example members above.
- Concurrency is not modelled. The code is single-threaded.
