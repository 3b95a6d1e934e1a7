# lazycpp in Dafny

A model of the lazycpp header library: a lazily computed, cached value.

- `NotLazy<T>` always holds a value.
- `VariantLazy<T>` holds a two-alternative union: either a pending evaluator or the value it produced. The first dereference runs the evaluator, stores the result in place of the evaluator and returns it. Later dereferences return the stored value. Reassignment always lands on the value alternative.
- `SharedLazy<T>` is a read-only handle. Its only field is a constant pointer to one lazy instance. Copies of a handle share that instance, so evaluation through one copy is visible through every copy.

The model has three modules:

- `LazyConcept` (`lazy_concept.dfy`) holds the data model. `Storage` is the variant storage (`Ready(value)` or `Pending(evaluator)`). `Lazy` is the closed sum of the two implementations (`NotLazy` or `VariantLazy`). The concept's operations are pure transitions: `IsEvaluated`, `DoDeref` and `Reassign`. An evaluator is an opaque total function `() -> T`. Every dereference reports how many times it invoked the evaluator. This count is what the library's evaluate-once test measures with a side-effecting counter.
- `LazyTrace` (`lazy_trace.dfy`) describes sequences of concept operations (`operator*`, `get_value`, `operator=`, `isEvaluated`) on one instance. `Apply` performs one operation and `Run` performs a sequence. The lemmas state evaluate-once, the stability of the cache, the fact that evaluated is never left, and last-assignment-wins, each for every sequence of operations.
- `Sharing` (`sharing.dfy`) holds the heap model. A `LazyObject` is one heap-allocated instance with a ghost count of evaluator runs. A `SharedLazy` handle has a `const pimpl` reference to it and offers `Star`, `GetValue`, `IsEvaluated` and `Copy`, and no reassignment. Copying a handle creates a new handle object that refers to the same `LazyObject`.

## Model

| member | source | states |
|---|---|---|
| LazyConcept.FromValue | include/lazycpp.hpp:53-58 | A NotLazy built from `v` is evaluated from the start and holds `v`. |
| LazyConcept.FromEvaluator | include/lazycpp.hpp:84-87 | A VariantLazy built from evaluator `f` starts on the evaluator alternative holding exactly `f`, so it is not evaluated. |
| LazyConcept.IsEvaluated | include/lazycpp.hpp:89-92 | A NotLazy always reports evaluated (line 58). A VariantLazy reports evaluated exactly when no evaluator is pending in its storage. |
| LazyConcept.EvaluatedIffHolds | include/lazycpp.hpp:89-92 | `isEvaluated` is true exactly when the instance holds a concrete value, and that value is the cached one. |
| LazyConcept.DoDeref | include/lazycpp.hpp:95-111 | A dereference always leaves the instance evaluated and holding the returned value. It calls the evaluator at most once, and exactly when the instance was unevaluated. An evaluated instance is returned unchanged with its cached value. A pending instance returns the evaluator's result. The implementation kind is preserved. |
| LazyConcept.ConstDerefAgrees | include/lazycpp.hpp:104-117 | The const dereference has the same evaluate-and-cache effect and result as the mutable one. The two overload bodies (lines 95-102 and 104-111) are identical and the storage is `mutable`, so `DoDeref` has one body for both and this holds by construction. |
| LazyConcept.Reassign | include/lazycpp.hpp:113-115 | Reassigning `v` leaves any instance evaluated and holding `v`, whether it was pending or held another value. A NotLazy stays a NotLazy and a VariantLazy stays a VariantLazy. |
| LazyTrace.Apply | include/lazycpp.hpp:22-34 | Each concept operation calls the evaluator at most once, and only when it is a dereference of an unevaluated instance. Dereferences return the value the instance then holds, which for a pending VariantLazy is the evaluator's result. `operator=` overwrites. `isEvaluated` reports the state and changes nothing. No operation leaves the evaluated state. |
| LazyTrace.Run | include/lazycpp.hpp:95-115 | Over any sequence of operations the evaluator runs at most once in total. An evaluated instance stays evaluated and never runs an evaluator. The implementation kind never changes. |
| LazyTrace.EvaluatorCalls | include/lazycpp.hpp:97-101 | Evaluate-once for every sequence of operations: the evaluator runs exactly once if the instance starts unevaluated and some dereference comes before every reassignment, and it never runs otherwise. |
| LazyTrace.FreshEvaluatedOnce | test/tests.cpp:40-55 | The evaluator of a fresh VariantLazy runs exactly once when the first operation is an access, however many accesses follow. |
| LazyTrace.ReadsKeepCache | include/lazycpp.hpp:95-102 | Once evaluated, any run of dereferences and queries without reassignment leaves the instance unchanged and calls no evaluator. Every dereference in the run returns the cached value and every query reports evaluated. |
| LazyTrace.LastAssignmentWins | include/lazycpp.hpp:113-115 | After any sequence of operations that contains a reassignment, the instance is evaluated and holds the value of the last reassignment in the sequence. |
| LazyTrace.EvaluatedAfterAnyAccess | include/lazycpp.hpp:95-115 | A sequence that contains any dereference or reassignment ends in the evaluated state. |
| LazyTrace.NotLazyNeverEvaluates | include/lazycpp.hpp:58-63 | A NotLazy never runs an evaluator and is never changed by reads, and every dereference returns its value. |
| LazyTrace.GetValueTwice | test/tests.cpp:40-55 | Two `get_value` calls on a fresh VariantLazy both return the evaluator's result, and the evaluator runs once, not twice. |
| LazyTrace.NotLazyScenario | test/tests.cpp:15-23 | On a NotLazy built from `v`: a dereference returns `v` and the instance reports evaluated. After it is reassigned `w`, a dereference returns `w`. |
| LazyTrace.VariantLazyScenario | test/tests.cpp:26-38 | A fresh VariantLazy reports unevaluated. A dereference returns the evaluator's result, and the instance then reports evaluated. A value copy of it is evaluated, and after the copy is reassigned `w` it returns `w`. |
| Sharing.SharedLazy.constructor | include/lazycpp.hpp:137-140 | A handle built from a pointer refers to exactly that instance. |
| Sharing.SharedLazy.Copy | include/lazycpp.hpp:130-132 | Copying a handle (the implicit copy constructor, which copies the `const` shared pointer) yields a new handle object whose `pimpl` is the same instance, not a copy of it. |
| Sharing.LazyObject.Perform | include/lazycpp.hpp:22-34 | Any concept operation run on a heap instance updates that instance exactly as `Apply` prescribes and returns `Apply`'s outcome. The ghost call counter grows by the number of evaluator calls the operation made. |
| Sharing.LazyObject.GetValue | include/lazycpp.hpp:26 | `get_value` on a heap instance, the call that `SharedLazy`'s `operator*` and `get_value` make (lines 142 and 144). Afterwards the instance is evaluated and holds the returned value. An evaluated instance is unchanged and the counter stays the same. A pending one runs its evaluator once, which adds one to the counter, and returns its result. The implementation kind is kept. |
| Sharing.SharedLazy.IsEvaluated | include/lazycpp.hpp:146 | A handle reports whether its shared instance is evaluated. |
| Sharing.HandlesAgree | include/lazycpp.hpp:146 | Two handles on the same instance, such as a handle and its copy, always agree on `isEvaluated`. |
| Sharing.SharedLazy.Star | include/lazycpp.hpp:142 | `operator*` goes through the shared instance's `get_value`. Afterwards the instance is evaluated and holds the returned value. An evaluated instance is unchanged and the evaluator count stays the same. A pending one runs its evaluator once and returns its result. The implementation kind is kept. |
| Sharing.SharedLazy.GetValue | include/lazycpp.hpp:144 | `get_value` has the same contract as `operator*`: evaluate the shared instance if needed, at most one evaluator call, then return the held value. |
| Sharing.ShareThenForce | test/tests.cpp:58-73 | A handle and a copy made before evaluation both report unevaluated. A dereference through the original returns the evaluator's result and makes every copy report evaluated, including a copy made afterwards. A dereference through that later copy returns the same value. The evaluator runs once in all. |
| Sharing.ReadThroughCopies | include/lazycpp.hpp:128-147 | For any number of copies of one handle, read in any order: every read returns the evaluator's result. Afterwards every handle reports evaluated exactly when some read happened. The evaluator runs once if anything was read and never otherwise. |

## Left out

- Exceptions thrown by the evaluator are not modelled. The evaluator is a total function, so the failure path cannot happen here, and neither can a retry on the next access.
- Thread safety is not modelled. The library is single-threaded: its check-evaluate-store sequence is not atomic.
- `std::shared_ptr` reference counting and object lifetime are not modelled. A `LazyObject` lives while anything refers to it; only the aliasing of handles is modelled.
- Virtual dispatch and `std::function` type erasure are replaced by the closed datatype `Lazy` and by an opaque `() -> T`.
- The evaluator's own side effects, such as the counter an evaluator may increment, are represented only by the count of evaluator calls that every step reports.
- The lvalue and rvalue overloads of `operator=` and `do_reassign` are one operation here. Both `operator=` overloads pass a named (lvalue) argument to `do_reassign`, so both copy the value; the effect is the same.
- The copy and move constructors and assignments of `NotLazy` and `VariantLazy` themselves are not separate operations. A `Lazy` is a value in Dafny, so a copy has its own storage, as the VariantLazy scenario shows for an evaluated copy. The copy of a pending `VariantLazy` is independent only as far as the evaluator is. Copying copies the `std::function` (line 117), and two copies of a stateful evaluator still share whatever it captured by reference. `SharedLazy` copies are modelled explicitly by `SharedLazy.Copy`.
- LazyConcept.FromEvaluator: the evaluator is a pure total `() -> T`, so two calls always return the same `f()`. This leaves out two cases:
  - Evaluators that return a different value on each call, such as the counter lambda of test/tests.cpp:44, cannot be expressed. With such an evaluator, two pending copies each evaluate on first dereference and can return different values (1, then 2).
  - An empty `std::function` evaluator cannot be expressed either. The source accepts one at line 84, and the first dereference then throws `std::bad_function_call` at line 99.
- LazyConcept.DoDeref and LazyTrace.Apply return the dereferenced value as a copy. The source's non-const `operator*` and `get_value` (lines 22 and 26) return a `value_type&` into the storage. A caller can write through that reference, as in `*lazy = 7`, without calling `operator=`. Such a write is not an operation here. Its effect equals a dereference followed by `Assign`: the dereference leaves the value alternative held, and the write replaces that value in place. So `ReadsKeepCache` and `LastAssignmentWins` describe programs that change the value only through `operator=`.
- Sharing.SharedLazy cannot be built from an empty `std::shared_ptr` (lines 137-140), because `pimpl` is a non-null `LazyObject` reference. Dereferencing such a handle is undefined behaviour in the source.
- The header's missing `<functional>` and `<memory>` includes are a build issue and not part of the behaviour.
