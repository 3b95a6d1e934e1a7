/**
 Heap instances and the SharedLazy handle.

 A LazyObject is one heap-allocated lazy instance, the object a shared
 pointer to the concept points at. A SharedLazy is a read-only handle whose
 only field is a constant reference to such an object; copying a handle
 copies the reference, so every copy reads and evaluates the same instance.
 Reference counting and lifetime are not modelled: an object lives as long
 as anything refers to it.
 */
module Sharing {
  import opened LazyConcept
  import opened LazyTrace

  /** One lazy instance on the heap. `calls` counts the evaluator runs made
      through this instance; it is bookkeeping, not program state. */
  class LazyObject<T> {
    var state: Lazy<T>
    ghost var calls: nat

    constructor (l: Lazy<T>)
      ensures state == l && calls == 0
    {
      state := l;
      calls := 0;
    }

    predicate IsEvaluated()
      reads this
    {
      LazyConcept.IsEvaluated(state)
    }

    /** Runs one operation of the concept on this instance. */
    method Perform(op: Op<T>) returns (out: Outcome<T>)
      modifies this
      ensures var s := Apply(old(state), op);
              state == s.after && out == s.out && calls == old(calls) + s.calls
    {
      var s := Apply(state, op);
      state := s.after;
      calls := calls + s.calls;
      out := s.out;
    }

    /** get_value on the instance. */
    method GetValue() returns (v: T)
      modifies this
      ensures LazyConcept.IsEvaluated(state) && Holds(state, v)
      ensures state.NotLazy? <==> old(state).NotLazy?
      ensures old(LazyConcept.IsEvaluated(state)) ==> state == old(state) && calls == old(calls)
      ensures !old(LazyConcept.IsEvaluated(state)) ==> calls == old(calls) + 1
      ensures old(state).VariantLazy? && old(state).storage.Pending? ==> v == old(state).storage.evaluator()
    {
      var out := Perform(LazyTrace.GetValue(Mutable));
      v := out.value;
    }
  }

  /** The read-only handle. It offers dereference, get_value and
      isEvaluated, all delegated to the shared instance, and no
      reassignment. */
  class SharedLazy<T> {
    const pimpl: LazyObject<T>

    constructor (ptr: LazyObject<T>)
      ensures pimpl == ptr
    {
      pimpl := ptr;
    }

    /** Copying a handle yields a new handle on the same instance. */
    method Copy() returns (h: SharedLazy<T>)
      ensures fresh(h) && h.pimpl == pimpl
    {
      h := new SharedLazy(pimpl);
    }

    /** isEvaluated, delegated to the shared instance: every handle on the
        same instance gives the same answer. */
    function IsEvaluated(): (b: bool)
      reads pimpl
      ensures b <==> LazyConcept.IsEvaluated(pimpl.state)
    {
      pimpl.IsEvaluated()
    }

    /** operator*, which goes through the instance's get_value. */
    method Star() returns (v: T)
      modifies pimpl
      ensures pimpl.IsEvaluated() && Holds(pimpl.state, v)
      ensures pimpl.state.NotLazy? <==> old(pimpl.state).NotLazy?
      ensures old(pimpl.IsEvaluated()) ==> pimpl.state == old(pimpl.state) && pimpl.calls == old(pimpl.calls)
      ensures !old(pimpl.IsEvaluated()) ==> pimpl.calls == old(pimpl.calls) + 1
      ensures old(pimpl.state).VariantLazy? && old(pimpl.state).storage.Pending? ==> v == old(pimpl.state).storage.evaluator()
    {
      v := pimpl.GetValue();
    }

    /** get_value, which goes through the instance's get_value. */
    method GetValue() returns (v: T)
      modifies pimpl
      ensures pimpl.IsEvaluated() && Holds(pimpl.state, v)
      ensures pimpl.state.NotLazy? <==> old(pimpl.state).NotLazy?
      ensures old(pimpl.IsEvaluated()) ==> pimpl.state == old(pimpl.state) && pimpl.calls == old(pimpl.calls)
      ensures !old(pimpl.IsEvaluated()) ==> pimpl.calls == old(pimpl.calls) + 1
      ensures old(pimpl.state).VariantLazy? && old(pimpl.state).storage.Pending? ==> v == old(pimpl.state).storage.evaluator()
    {
      v := pimpl.GetValue();
    }
  }

  /** Handle aliasing: a handle on a fresh VariantLazy and a copy made before
      evaluation both report unevaluated; dereferencing through the original
      makes both report evaluated, and dereferencing through the copy then
      returns the same value without running the evaluator again. A second
      copy made after evaluation reports evaluated at once. */
  method ShareThenForce<T>(f: Evaluator<T>)
    returns (before: seq<bool>, first: T, after: seq<bool>, second: T, ghost calls: nat)
    ensures before == [false, false]
    ensures first == f() && second == first
    ensures after == [true, true, true]
    ensures calls == 1
  {
    var obj := new LazyObject(FromEvaluator(f));
    var h := new SharedLazy(obj);
    var copy1 := h.Copy();
    before := [copy1.IsEvaluated(), h.IsEvaluated()];
    first := h.Star();
    var copy2 := h.Copy();
    after := [h.IsEvaluated(), copy1.IsEvaluated(), copy2.IsEvaluated()];
    second := copy2.Star();
    calls := obj.calls;
  }

  /** Evaluation at most once across all copies: a handle on a fresh
      VariantLazy is copied `copies` times, and the handles are then read
      in the order `order` names (0 is the original). Every read returns
      the evaluator's result, every handle afterwards reports evaluated
      exactly when some read happened, and the evaluator ran once if
      anything was read and never otherwise. */
  method ReadThroughCopies<T>(f: Evaluator<T>, copies: nat, order: seq<nat>)
    returns (values: seq<T>, evaluated: seq<bool>, ghost calls: nat)
    requires forall k | 0 <= k < |order| :: order[k] <= copies
    ensures |values| == |order|
    ensures forall k | 0 <= k < |order| :: values[k] == f()
    ensures |evaluated| == copies + 1
    ensures forall k | 0 <= k < |evaluated| :: evaluated[k] == (|order| > 0)
    ensures calls == (if |order| > 0 then 1 else 0)
  {
    var obj := new LazyObject(FromEvaluator(f));
    var original := new SharedLazy(obj);
    var handles := [original];
    while |handles| < copies + 1
      invariant 1 <= |handles| <= copies + 1
      invariant forall k | 0 <= k < |handles| :: handles[k].pimpl == obj
      invariant obj.state == FromEvaluator(f) && obj.calls == 0
    {
      var h := handles[0].Copy();
      handles := handles + [h];
    }
    values := [];
    var k := 0;
    while k < |order|
      invariant 0 <= k <= |order|
      invariant |values| == k
      invariant forall j | 0 <= j < k :: values[j] == f()
      invariant obj.state == if k == 0 then FromEvaluator(f) else VariantLazy(Ready(f()))
      invariant obj.calls == if k == 0 then 0 else 1
    {
      var v := handles[order[k]].GetValue();
      values := values + [v];
      k := k + 1;
    }
    evaluated := [];
    while |evaluated| < |handles|
      invariant |evaluated| <= |handles|
      invariant forall j | 0 <= j < |evaluated| :: evaluated[j] == (|order| > 0)
    {
      evaluated := evaluated + [handles[|evaluated|].IsEvaluated()];
    }
    calls := obj.calls;
  }

  /** Two handles on the same instance, such as a handle and its copy,
      always agree on whether the value is evaluated. */
  lemma HandlesAgree<T>(h1: SharedLazy<T>, h2: SharedLazy<T>)
    requires h1.pimpl == h2.pimpl
    ensures h1.IsEvaluated() == h2.IsEvaluated()
  {
  }
}
