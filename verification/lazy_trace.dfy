/**
 Sequences of operations on one lazy instance.

 A program that holds a lazy value issues dereferences, reassignments and
 evaluation queries in some order. `Run` threads the instance through such
 a sequence and totals the evaluator calls, which makes the "evaluated at
 most once" promise of the concept a statement about every sequence.
 */
module LazyTrace {
  import opened LazyConcept

  /** One operation of the concept's interface. */
  datatype Op<T> =
    | Star(access: Access)       // operator*
    | GetValue(access: Access)   // get_value
    | Assign(newValue: T)        // operator=
    | Query                      // isEvaluated
  {
    /** Dereferencing operations, the ones that may run the evaluator. */
    predicate Forces()
    {
      Star? || GetValue?
    }
  }

  /** What an operation returns to its caller. */
  datatype Outcome<T> = Value(value: T) | Flag(evaluated: bool) | Done

  /** One operation's effect: the instance afterwards, the returned
      outcome, and the evaluator calls it made. */
  datatype Step<T> = Step(after: Lazy<T>, out: Outcome<T>, calls: nat)

  /** The effect of a whole sequence of operations. */
  datatype Trace<T> = Trace(after: Lazy<T>, outs: seq<Outcome<T>>, calls: nat)

  /** Performs one operation on an instance. */
  function Apply<T>(l: Lazy<T>, op: Op<T>): (s: Step<T>)
    ensures s.calls <= 1
    ensures s.calls == 1 <==> op.Forces() && !IsEvaluated(l)
    ensures op.Forces() ==> IsEvaluated(s.after) && s.out.Value? && Holds(s.after, s.out.value)
    ensures op.Forces() && IsEvaluated(l) ==> s.after == l && s.out == Value(Cached(l))
    ensures op.Forces() && l.VariantLazy? && l.storage.Pending? ==> s.out == Value(l.storage.evaluator())
    ensures op.Assign? ==> IsEvaluated(s.after) && Holds(s.after, op.newValue) && s.out == Done
    ensures op.Query? ==> s.after == l && s.out == Flag(IsEvaluated(l))
    ensures IsEvaluated(l) ==> IsEvaluated(s.after)
    ensures s.after.NotLazy? <==> l.NotLazy?
  {
    match op
    case Star(a) =>
      var d := DoDeref(l, a);
      Step(d.after, Value(d.value), d.calls)
    case GetValue(a) =>
      var d := DoDeref(l, a);
      Step(d.after, Value(d.value), d.calls)
    case Assign(v) => Step(Reassign(l, v), Done, 0)
    case Query => Step(l, Flag(IsEvaluated(l)), 0)
  }

  /** Performs a sequence of operations, first to last. */
  function Run<T>(l: Lazy<T>, ops: seq<Op<T>>): (r: Trace<T>)
    ensures |r.outs| == |ops|
    ensures r.calls <= 1
    ensures IsEvaluated(l) ==> IsEvaluated(r.after) && r.calls == 0
    ensures r.after.NotLazy? <==> l.NotLazy?
    decreases |ops|
  {
    if ops == [] then Trace(l, [], 0)
    else
      var s := Apply(l, ops[0]);
      var t := Run(s.after, ops[1..]);
      Trace(t.after, [s.out] + t.outs, s.calls + t.calls)
  }

  /** Some dereference in `ops` comes before any reassignment: the
      condition under which a pending evaluator gets run. */
  ghost predicate ForcedBeforeReassigned<T>(ops: seq<Op<T>>)
  {
    exists i | 0 <= i < |ops| :: ops[i].Forces() && forall j | 0 <= j < i :: !ops[j].Assign?
  }

  /** Dropping a leading query does not change whether a dereference comes
      before the first reassignment. */
  lemma ForcedAfterQuery<T>(ops: seq<Op<T>>)
    requires ops != [] && ops[0].Query?
    ensures ForcedBeforeReassigned(ops) <==> ForcedBeforeReassigned(ops[1..])
  {
  }

  /** Evaluate once: over any sequence of operations the evaluator is
      called exactly once if the instance starts unevaluated and some
      dereference precedes every reassignment, and never otherwise. */
  lemma {:induction false} EvaluatorCalls<T>(l: Lazy<T>, ops: seq<Op<T>>)
    ensures Run(l, ops).calls == (if !IsEvaluated(l) && ForcedBeforeReassigned(ops) then 1 else 0)
    decreases |ops|
  {
    if ops == [] {
      assert !ForcedBeforeReassigned(ops);
    } else {
      var s := Apply(l, ops[0]);
      EvaluatorCalls(s.after, ops[1..]);
      match ops[0]
      case Query =>
        ForcedAfterQuery(ops);
      case Assign(_) =>
        assert !ForcedBeforeReassigned(ops) by {
          forall i | 0 <= i < |ops| && ops[i].Forces()
            ensures exists j | 0 <= j < i :: ops[j].Assign?
          {
            assert i > 0 && ops[0].Assign?;
          }
        }
      case _ =>
        assert ops[0].Forces();
        assert ForcedBeforeReassigned(ops);
    }
  }

  /** The evaluator of a fresh VariantLazy runs exactly once as soon as
      anything dereferences it, however many accesses follow. */
  lemma FreshEvaluatedOnce<T>(f: Evaluator<T>, ops: seq<Op<T>>)
    requires ops != [] && ops[0].Forces()
    ensures Run(FromEvaluator(f), ops).calls == 1
  {
    EvaluatorCalls(FromEvaluator(f), ops);
    assert ForcedBeforeReassigned(ops);
  }

  /** Running `a` then `b` is running their concatenation. */
  lemma {:induction false} RunAppend<T>(l: Lazy<T>, a: seq<Op<T>>, b: seq<Op<T>>)
    ensures var ra := Run(l, a);
            var rb := Run(ra.after, b);
            Run(l, a + b) == Trace(rb.after, ra.outs + rb.outs, ra.calls + rb.calls)
    decreases |a|
  {
    if a == [] {
      assert a + b == b;
    } else {
      var s := Apply(l, a[0]);
      RunAppend(s.after, a[1..], b);
      assert (a + b)[0] == a[0];
      assert (a + b)[1..] == a[1..] + b;
    }
  }

  /** Once evaluated, reads never disturb the cache: with no reassignment
      among the operations, the instance is unchanged, no evaluator runs,
      every dereference returns the cached value and every query says
      evaluated. */
  lemma {:induction false} ReadsKeepCache<T>(l: Lazy<T>, ops: seq<Op<T>>)
    requires IsEvaluated(l)
    requires forall k | 0 <= k < |ops| :: !ops[k].Assign?
    ensures Run(l, ops).after == l
    ensures Run(l, ops).calls == 0
    ensures forall k | 0 <= k < |ops| ::
      Run(l, ops).outs[k] == (if ops[k].Query? then Flag(true) else Value(Cached(l)))
    decreases |ops|
  {
    if ops != [] {
      var s := Apply(l, ops[0]);
      assert s.after == l;
      ReadsKeepCache(l, ops[1..]);
      var r := Run(l, ops);
      forall k | 0 <= k < |ops|
        ensures r.outs[k] == (if ops[k].Query? then Flag(true) else Value(Cached(l)))
      {
        if k > 0 {
          assert r.outs[k] == Run(l, ops[1..]).outs[k - 1];
          assert ops[k] == ops[1..][k - 1];
        }
      }
    }
  }

  /** Reassignment overwrites: after a sequence of operations the instance
      holds the value of the last reassignment in it, whatever it held or
      deferred before. */
  lemma LastAssignmentWins<T>(l: Lazy<T>, ops: seq<Op<T>>, i: nat)
    requires i < |ops| && ops[i].Assign?
    requires forall j | i < j < |ops| :: !ops[j].Assign?
    ensures IsEvaluated(Run(l, ops).after)
    ensures Holds(Run(l, ops).after, ops[i].newValue)
    ensures Cached(Run(l, ops).after) == ops[i].newValue
  {
    var pre, post := ops[..i + 1], ops[i + 1..];
    assert ops == pre + post;
    RunAppend(l, pre, post);
    assert pre == ops[..i] + [ops[i]];
    RunAppend(l, ops[..i], [ops[i]]);
    var m := Run(l, pre).after;
    assert IsEvaluated(m) && Holds(m, ops[i].newValue);
    ReadsKeepCache(m, post);
  }

  /** Evaluated is never left, and any operation other than a query leaves
      the instance evaluated. */
  lemma {:induction false} EvaluatedAfterAnyAccess<T>(l: Lazy<T>, ops: seq<Op<T>>, k: nat)
    requires k < |ops| && !ops[k].Query?
    ensures IsEvaluated(Run(l, ops).after)
    decreases |ops|
  {
    var s := Apply(l, ops[0]);
    if k > 0 {
      EvaluatedAfterAnyAccess(s.after, ops[1..], k - 1);
    }
  }

  /** A NotLazy never runs anything: it stays a NotLazy, reports evaluated
      and answers every dereference with the value it was last given. */
  lemma NotLazyNeverEvaluates<T>(v: T, ops: seq<Op<T>>)
    requires forall k | 0 <= k < |ops| :: !ops[k].Assign?
    ensures Run(FromValue(v), ops).calls == 0
    ensures Run(FromValue(v), ops).after == FromValue(v)
    ensures forall k | 0 <= k < |ops| && ops[k].Forces() :: Run(FromValue(v), ops).outs[k] == Value(v)
  {
    ReadsKeepCache(FromValue(v), ops);
  }

  /** The evaluate-once counter scenario: a fresh VariantLazy read twice
      through get_value returns the evaluator's result both times and runs
      the evaluator once, not twice. */
  lemma GetValueTwice<T>(f: Evaluator<T>)
    ensures Run(FromEvaluator(f), [GetValue(Mutable), GetValue(Mutable)]).outs == [Value(f()), Value(f())]
    ensures Run(FromEvaluator(f), [GetValue(Mutable), GetValue(Mutable)]).calls == 1
  {
    var ops := [GetValue(Mutable), GetValue(Mutable)];
    var s := Apply(FromEvaluator(f), ops[0]);
    ReadsKeepCache(s.after, ops[1..]);
  }

  /** The NotLazy scenario: dereferencing returns the constructor's value,
      the instance reports evaluated, and after reassigning `w` a
      dereference returns `w`. */
  lemma NotLazyScenario<T>(v: T, w: T)
    ensures Run(FromValue(v), [Star(Mutable), Query, Assign(w), Star(Mutable)]).outs
         == [Value(v), Flag(true), Done, Value(w)]
    ensures Run(FromValue(v), [Star(Mutable), Query, Assign(w), Star(Mutable)]).calls == 0
  {
    var ops := [Star(Mutable), Query, Assign(w), Star(Mutable)];
    var s0 := Apply(FromValue(v), ops[0]);
    var s1 := Apply(s0.after, ops[1]);
    var s2 := Apply(s1.after, ops[2]);
    assert Run(s2.after, ops[3..]).outs == [Value(w)];
    assert Run(s1.after, ops[2..]).outs == [Done, Value(w)];
    assert Run(s0.after, ops[1..]).outs == [Flag(true), Done, Value(w)];
  }

  /** The VariantLazy scenario: a fresh instance reports unevaluated, a
      dereference returns the evaluator's result and leaves it evaluated; a
      value copy of it is evaluated too, and after reassigning `w` the copy
      returns `w`. */
  lemma VariantLazyScenario<T>(f: Evaluator<T>, w: T)
    ensures Run(FromEvaluator(f), [Query, Star(Mutable), Query]).outs
         == [Flag(false), Value(f()), Flag(true)]
    ensures var copy := Run(FromEvaluator(f), [Query, Star(Mutable), Query]).after;
            Run(copy, [Query, Assign(w), Star(Mutable)]).outs == [Flag(true), Done, Value(w)]
  {
    var ops := [Query, Star(Mutable), Query];
    var s0 := Apply(FromEvaluator(f), ops[0]);
    var s1 := Apply(s0.after, ops[1]);
    assert Run(s1.after, ops[2..]).outs == [Flag(true)];
    var copy := Run(FromEvaluator(f), ops).after;
    var more := [Query, Assign(w), Star(Mutable)];
    var t0 := Apply(copy, more[0]);
    var t1 := Apply(t0.after, more[1]);
    assert Run(t1.after, more[2..]).outs == [Value(w)];
  }
}
