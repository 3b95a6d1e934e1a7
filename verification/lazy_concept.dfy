/**
 The lazy concept of lazycpp and its two implementations.

 A lazy value is either a NotLazy, which always holds its value, or a
 VariantLazy, whose storage is a two-alternative union of a pending
 evaluator and the value it produced. Every operation is a pure function
 from the instance before the call to the instance after it; the class
 wrappers in module Sharing put these transitions behind heap objects.
 */
module LazyConcept {

  /** The zero-argument computation a VariantLazy defers. It is opaque and
      total: failures of the computation are not modelled. */
  type Evaluator<T> = () -> T

  /** The storage of a VariantLazy: exactly one of the two alternatives. */
  datatype Storage<T> = Ready(value: T) | Pending(evaluator: Evaluator<T>)

  /** The two implementations of the lazy concept, as a closed sum. */
  datatype Lazy<T> = NotLazy(stored: T) | VariantLazy(storage: Storage<T>)

  /** Whether a dereference goes through a mutable or a const object.
      Both overloads exist in the concept; the model shows they agree. */
  datatype Access = Mutable | Const

  /** What one dereference yields: the instance afterwards, the value it
      returned, and how many times it invoked the evaluator. */
  datatype Deref<T> = Deref(after: Lazy<T>, value: T, calls: nat)

  /** True when the instance holds a concrete value and no evaluator is
      outstanding; a pure query. A NotLazy is always evaluated. */
  function IsEvaluated<T>(l: Lazy<T>): (b: bool)
    ensures l.NotLazy? ==> b
    ensures l.VariantLazy? ==> (b <==> !l.storage.Pending?)
  {
    match l
    case NotLazy(_) => true
    case VariantLazy(s) => s.Ready?
  }

  /** The value an evaluated instance holds. */
  function Cached<T>(l: Lazy<T>): T
    requires IsEvaluated(l)
  {
    match l
    case NotLazy(v) => v
    case VariantLazy(s) => s.value
  }

  /** True when `l` holds exactly the value `v`, independently of which
      implementation holds it. */
  ghost predicate Holds<T>(l: Lazy<T>, v: T)
  {
    l == NotLazy(v) || l == VariantLazy(Ready(v))
  }

  /** The NotLazy constructor: an instance that holds `v` from the start. */
  function FromValue<T>(v: T): (l: Lazy<T>)
    ensures IsEvaluated(l) && Holds(l, v)
    ensures l.NotLazy?
  {
    NotLazy(v)
  }

  /** The VariantLazy constructor: the storage starts on the evaluator
      alternative, so the instance starts unevaluated. */
  function FromEvaluator<T>(f: Evaluator<T>): (l: Lazy<T>)
    ensures !IsEvaluated(l)
    ensures l.VariantLazy? && l.storage.Pending? && l.storage.evaluator == f
  {
    VariantLazy(Pending(f))
  }

  /** Dereference (operator* and get_value, either overload). An evaluated
      instance returns its cached value and is left alone; a pending
      VariantLazy runs its evaluator once, stores the result in place of the
      evaluator and returns it. The const overload has the same effect,
      because the variant storage is declared mutable: both overloads share
      one body, so the access qualifier is not consulted. */
  function DoDeref<T>(l: Lazy<T>, a: Access): (d: Deref<T>)
    ensures IsEvaluated(d.after) && Holds(d.after, d.value)
    ensures d.calls <= 1
    ensures d.calls == 0 <==> IsEvaluated(l)
    ensures IsEvaluated(l) ==> d.after == l && Holds(l, d.value)
    ensures l.VariantLazy? && l.storage.Pending? ==> d.value == l.storage.evaluator()
    ensures d.after.NotLazy? <==> l.NotLazy?
  {
    match l
    case NotLazy(v) => Deref(l, v, 0)
    case VariantLazy(Ready(v)) => Deref(l, v, 0)
    case VariantLazy(Pending(f)) =>
      var v := f();
      Deref(VariantLazy(Ready(v)), v, 1)
  }

  /** Reassignment (operator=, either overload): whatever the instance held,
      pending evaluator or earlier value, it now holds `v`. The
      implementation kind is kept: a NotLazy stays a NotLazy. */
  function Reassign<T>(l: Lazy<T>, v: T): (r: Lazy<T>)
    ensures IsEvaluated(r) && Holds(r, v)
    ensures r.NotLazy? <==> l.NotLazy?
  {
    match l
    case NotLazy(_) => NotLazy(v)
    case VariantLazy(_) => VariantLazy(Ready(v))
  }

  /** Holding some value is exactly being evaluated, and the value held is
      the cached one. */
  lemma EvaluatedIffHolds<T>(l: Lazy<T>)
    ensures IsEvaluated(l) <==> exists v :: Holds(l, v)
    ensures IsEvaluated(l) ==> Holds(l, Cached(l))
  {
    if IsEvaluated(l) {
      assert Holds(l, Cached(l));
    }
  }

  /** The const and the mutable dereference perform the same transition and
      return the same value; this holds by construction, since `DoDeref`
      does not consult the qualifier. */
  lemma ConstDerefAgrees<T>(l: Lazy<T>)
    ensures DoDeref(l, Const) == DoDeref(l, Mutable)
  {
  }
}
