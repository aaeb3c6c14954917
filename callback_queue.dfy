/**
 The deferred-callback queue that every project request owns
 (`ProjectRequest` in Source/Tools/Editor/Project/ProjectRequest.h).

 Listeners queue a callback with an integer priority; the issuer of the
 request then invokes the pending callback with the highest priority.
 Callbacks are opaque: only their identity and priority matter here.
 The queue is an `ea::priority_queue`, whose tie-break among equal
 priorities is not visible, so the model keeps the pending entries as a
 multiset and lets `InvokeProcessCallback` take any entry of maximal
 priority.
 */
module CallbackQueue {

  /** The C++ `int` of `CallbackDesc::priority_`. */
  newtype Int32 = x: int | -0x8000_0000 <= x < 0x8000_0000

  /** Identity of a queued `ea::function<void()>`. */
  type CallbackId = nat

  /** One queued callback together with its priority. */
  datatype CallbackDesc = CallbackDesc(callback: CallbackId, priority: Int32)

  datatype Option<T> = None | Some(value: T)

  /** `d` is pending in `m` and no pending entry has a higher priority. */
  predicate IsHighest(d: CallbackDesc, m: multiset<CallbackDesc>)
  {
    d in m && forall e | e in m :: e.priority <= d.priority
  }

  /**
   `order` is what repeated invocations report when they start from the
   pending entries `m` and nothing is queued in between: each one is a
   highest entry of what is still pending, and in the end nothing is.
   */
  ghost predicate IsDrain(order: seq<CallbackDesc>, m: multiset<CallbackDesc>)
    decreases |order|
  {
    if order == [] then m == multiset{}
    else IsHighest(order[0], m) && IsDrain(order[1..], m - multiset{order[0]})
  }

  /** A non-empty queue always has an entry that can be invoked next. */
  lemma {:induction false} HighestExists(m: multiset<CallbackDesc>)
    requires m != multiset{}
    ensures exists d :: IsHighest(d, m)
    decreases |m|
  {
    var x :| x in m;
    var rest := m - multiset{x};
    assert m == rest + multiset{x};
    if rest == multiset{} {
      assert forall e | e in m :: e == x;
      assert IsHighest(x, m);
    } else {
      HighestExists(rest);
      var d :| IsHighest(d, rest);
      if d.priority <= x.priority {
        assert forall e | e in m :: e == x || e in rest;
        assert IsHighest(x, m);
      } else {
        assert forall e | e in m :: e == x || e in rest;
        assert IsHighest(d, m);
      }
    }
  }

  /** All highest entries share one priority: only the order among ties is left open. */
  lemma HighestPriorityIsUnique(d1: CallbackDesc, d2: CallbackDesc, m: multiset<CallbackDesc>)
    requires IsHighest(d1, m) && IsHighest(d2, m)
    ensures d1.priority == d2.priority
  {
  }

  /** Every entry pending at the start is reported exactly once by a drain. */
  lemma {:induction false} DrainIsPermutation(order: seq<CallbackDesc>, m: multiset<CallbackDesc>)
    requires IsDrain(order, m)
    ensures multiset(order) == m
    decreases |order|
  {
    if order != [] {
      DrainIsPermutation(order[1..], m - multiset{order[0]});
      assert order == [order[0]] + order[1..];
    }
  }

  /** A drain reports callbacks in non-increasing order of priority. */
  lemma {:induction false} DrainIsNonIncreasing(order: seq<CallbackDesc>, m: multiset<CallbackDesc>)
    requires IsDrain(order, m)
    ensures forall i, j | 0 <= i < j < |order| :: order[j].priority <= order[i].priority
    decreases |order|
  {
    if order != [] {
      var tail := order[1..];
      var rest := m - multiset{order[0]};
      DrainIsNonIncreasing(tail, rest);
      DrainIsPermutation(tail, rest);
      forall j | 0 < j < |order| ensures order[j].priority <= order[0].priority {
        assert order[j] == tail[j - 1];
        assert order[j] in multiset(tail);
      }
      forall i, j | 0 <= i < j < |order| ensures order[j].priority <= order[i].priority {
        if 0 < i {
          assert order[i] == tail[i - 1] && order[j] == tail[j - 1];
        }
      }
    }
  }

  /** Whatever is pending, some drain of it exists: invoking never gets stuck early. */
  lemma {:induction false} DrainExists(m: multiset<CallbackDesc>)
    ensures exists order :: IsDrain(order, m)
    decreases |m|
  {
    if m == multiset{} {
      assert IsDrain([], m);
    } else {
      HighestExists(m);
      var d :| IsHighest(d, m);
      DrainExists(m - multiset{d});
      var tail :| IsDrain(tail, m - multiset{d});
      assert ([d] + tail)[1..] == tail;
      assert IsDrain([d] + tail, m);
    }
  }

  /**
   A callback queued with a priority above every pending one is the only
   entry the next invocation can report.
   */
  lemma PushedAboveAllIsNext(m: multiset<CallbackDesc>, d: CallbackDesc)
    requires forall e | e in m :: e.priority < d.priority
    ensures IsHighest(d, m + multiset{d})
    ensures forall e | IsHighest(e, m + multiset{d}) :: e == d
  {
  }

  /** A project-wide request; here only its callback queue. */
  class ProjectRequest {
    /** `callbacks_`: the entries queued but not yet invoked. */
    var callbacks: multiset<CallbackDesc>

    constructor ()
      ensures callbacks == multiset{}
    {
      callbacks := multiset{};
    }

    /** Queue `callback` with `priority` (0 when omitted). */
    method QueueProcessCallback(callback: CallbackId, priority: Int32 := 0)
      modifies this
      ensures callbacks == old(callbacks) + multiset{CallbackDesc(callback, priority)}
    {
      callbacks := callbacks + multiset{CallbackDesc(callback, priority)};
    }

    /**
     Remove one pending entry of highest priority and report it; the
     caller then runs its callback. On an empty queue nothing happens.
     */
    method InvokeProcessCallback() returns (invoked: Option<CallbackDesc>)
      modifies this
      ensures old(callbacks) == multiset{} ==> invoked == None && callbacks == multiset{}
      ensures old(callbacks) != multiset{} ==>
                invoked.Some? && IsHighest(invoked.value, old(callbacks)) &&
                callbacks == old(callbacks) - multiset{invoked.value}
      ensures invoked.Some? ==> forall e | e in callbacks :: e.priority <= invoked.value.priority
    {
      if callbacks == multiset{} {
        invoked := None;
      } else {
        HighestExists(callbacks);
        var d :| IsHighest(d, callbacks);
        callbacks := callbacks - multiset{d};
        invoked := Some(d);
      }
    }
  }
}
