/**
 * The reentrant object pool (`ReentrantGenericObjectPool`): a pool that hands
 * the same object back to a thread however often that thread borrows, and
 * keeps a reference count per thread so that the object goes back to the
 * underlying pool only when the thread has returned it as often as it
 * borrowed it.
 *
 * The calling thread, implicit in Java's `ThreadLocal`, is an explicit
 * parameter. The underlying commons-pool `GenericObjectPool` is reduced to
 * what the reentrant layer and its test observe: the set of active (lent)
 * objects, the LIFO deque of idle objects, the objects created so far and
 * the borrow/return counters. Objects are identified by number.
 *
 * `Backing`, `PoolState` and the functions on them are the specification;
 * the classes `BackingPool` and `ReentrantGenericObjectPool` implement them
 * in place. A thread's `ReentrantObject` is the value `Holder` in its slot,
 * and its reference count is updated by replacing that slot's value.
 */
module ObjectPool {
  import opened Wrappers

  /** An object's identity; Java compares pooled objects by reference. */
  type Obj = nat
  type ThreadId = nat

  datatype PoolError =
    | NullObject       // `Objects.requireNonNull` throws
    | WrongThread      // the caller's slot is empty or holds another object
    | AlreadyReturned  // the object is idle in the underlying pool
    | NotInPool        // the object is not (or no longer) part of the underlying pool

  // ---------------------------------------------------------------------
  // The underlying pool

  /**
   * The underlying pool. `maxIdle` below zero means no limit; the created
   * objects are numbered 0 .. created - 1.
   */
  datatype Backing = Backing(
    active: set<Obj>,
    idle: seq<Obj>,
    created: nat,
    maxIdle: int,
    borrowedCount: nat,
    returnedCount: nat)

  predicate NoDuplicates(s: seq<Obj>) {
    forall i, j :: 0 <= i < j < |s| ==> s[i] != s[j]
  }

  /** Every object is active, idle or destroyed, never two of these at once. */
  predicate BackingInv(b: Backing) {
    && NoDuplicates(b.idle)
    && (forall i :: 0 <= i < |b.idle| ==> b.idle[i] < b.created && b.idle[i] !in b.active)
    && (forall o :: o in b.active ==> o < b.created)
    && (b.maxIdle < 0 || |b.idle| <= b.maxIdle)
  }

  function EmptyBacking(maxIdle: int): (b: Backing)
    ensures BackingInv(b)
  {
    Backing({}, [], 0, maxIdle, 0, 0)
  }

  /** `pool.borrowObject()`: the first idle object, or a newly created one when none is idle. */
  function Take(b: Backing): (r: (Backing, Obj))
    ensures r.0.active == b.active + {r.1}
    ensures r.0.borrowedCount == b.borrowedCount + 1 && r.0.returnedCount == b.returnedCount
    ensures BackingInv(b) ==> r.1 !in b.active && BackingInv(r.0)
  {
    if b.idle != [] then
      (b.(active := b.active + {b.idle[0]}, idle := b.idle[1..], borrowedCount := b.borrowedCount + 1), b.idle[0])
    else
      (b.(active := b.active + {b.created}, created := b.created + 1, borrowedCount := b.borrowedCount + 1), b.created)
  }

  /**
   * `pool.returnObject(obj)`: an active object goes to the front of the idle
   * deque, or is destroyed when `maxIdle` objects are idle already.
   */
  function Give(b: Backing, obj: Obj): (r: (Backing, Outcome<PoolError>))
    ensures r.1.Pass? <==> obj in b.active
    ensures r.0.active == b.active - {obj}
    ensures r.0.returnedCount == (if r.1.Pass? then b.returnedCount + 1 else b.returnedCount)
    ensures BackingInv(b) ==> BackingInv(r.0)
  {
    ConsNoDuplicates(obj, b.idle);
    if obj in b.active then
      var b1 := b.(active := b.active - {obj}, returnedCount := b.returnedCount + 1);
      if b.maxIdle >= 0 && b.maxIdle <= |b.idle| then (b1, Pass)
      else (b1.(idle := [obj] + b.idle), Pass)
    else if obj in b.idle then (b, Fail(AlreadyReturned))
    else (b, Fail(NotInPool))
  }

  /** `s` without the occurrences of `x`. */
  function Without(s: seq<Obj>, x: Obj): (r: seq<Obj>)
    ensures forall y :: y in r <==> y in s && y != x
    ensures forall i :: 0 <= i < |r| ==> exists j :: 0 <= j < |s| && s[j] == r[i]
    ensures |r| <= |s|
  {
    if s == [] then []
    else
      var rest := Without(s[1..], x);
      assert forall y :: y in s[1..] ==> y in s;
      if s[0] == x then rest else [s[0]] + rest
  }

  /** Putting an object that is not there in front keeps a deque free of duplicates. */
  lemma ConsNoDuplicates(x: Obj, s: seq<Obj>)
    ensures NoDuplicates(s) && x !in s ==> NoDuplicates([x] + s)
  {
    if NoDuplicates(s) && x !in s {
      var r := [x] + s;
      forall i, j | 0 <= i < j < |r| ensures r[i] != r[j] {
        assert r[j] == s[j - 1];
        if i > 0 {
          assert r[i] == s[i - 1];
        }
      }
    }
  }

  lemma {:induction false} WithoutNoDuplicates(s: seq<Obj>, x: Obj)
    ensures NoDuplicates(s) ==> NoDuplicates(Without(s, x))
  {
    if s != [] && NoDuplicates(s) {
      var tail := s[1..];
      assert NoDuplicates(tail) by {
        forall i, j | 0 <= i < j < |tail| ensures tail[i] != tail[j] {
          assert tail[i] == s[i + 1] && tail[j] == s[j + 1];
        }
      }
      WithoutNoDuplicates(tail, x);
      var rest := Without(tail, x);
      if s[0] != x {
        assert s[0] !in tail by {
          forall k | 0 <= k < |tail| ensures tail[k] != s[0] {
            assert tail[k] == s[k + 1];
          }
        }
        var r := [s[0]] + rest;
        forall i, j | 0 <= i < j < |r| ensures r[i] != r[j] {
          if i == 0 {
            assert r[j] == rest[j - 1] && r[j] in rest;
          } else {
            assert r[i] == rest[i - 1] && r[j] == rest[j - 1];
          }
        }
      }
    }
  }

  /** `pool.invalidateObject(obj)`: an object of the pool, lent or idle, is destroyed. */
  function Destroy(b: Backing, obj: Option<Obj>): (r: (Backing, Outcome<PoolError>))
    ensures r.1.Pass? <==> obj.Some? && (obj.value in b.active || obj.value in b.idle)
    ensures obj.Some? ==> obj.value !in r.0.active && obj.value !in r.0.idle
    ensures r.1.Pass? ==> r.0.active == b.active - {obj.value} && r.0.idle == Without(b.idle, obj.value)
    ensures r.1.Fail? ==> r.0 == b
    ensures && r.0.created == b.created && r.0.maxIdle == b.maxIdle
            && r.0.borrowedCount == b.borrowedCount && r.0.returnedCount == b.returnedCount
    ensures BackingInv(b) ==> BackingInv(r.0)
  {
    if obj.Some? && (obj.value in b.active || obj.value in b.idle) then
      WithoutNoDuplicates(b.idle, obj.value);
      (b.(active := b.active - {obj.value}, idle := Without(b.idle, obj.value)), Pass)
    else (b, Fail(NotInPool))
  }

  // ---------------------------------------------------------------------
  // The reentrant layer

  /** A `ReentrantObject` as a value: the object and its reference count. */
  datatype Holder = Holder(obj: Obj, count: int)

  /** `local` is the `ThreadLocal` slot of each thread that has one. */
  datatype PoolState = PoolState(local: map<ThreadId, Holder>, backing: Backing)

  /**
   * The invariant: counts are positive, a held object is never idle, and no
   * two threads hold the same object.
   */
  predicate Inv(s: PoolState) {
    && BackingInv(s.backing)
    && (forall t :: t in s.local ==>
          && s.local[t].count >= 1
          && s.local[t].obj < s.backing.created
          && s.local[t].obj !in s.backing.idle)
    && (forall t, u :: t in s.local && u in s.local && t != u ==> s.local[t].obj != s.local[u].obj)
  }

  function Empty(maxIdle: int): (s: PoolState)
    ensures Inv(s)
  {
    PoolState(map[], EmptyBacking(maxIdle))
  }

  /** `borrowObject()` called from thread `t`. */
  function Borrowed(s: PoolState, t: ThreadId): (r: (PoolState, Obj))
    ensures t in r.0.local && r.0.local[t].obj == r.1
    ensures forall u :: u in s.local && u != t ==> u in r.0.local && r.0.local[u] == s.local[u]
  {
    if t in s.local then
      var h := s.local[t];
      (s.(local := s.local[t := h.(count := h.count + 1)]), h.obj)
    else
      var (b, o) := Take(s.backing);
      (PoolState(s.local[t := Holder(o, 1)], b), o)
  }

  /** `returnObject(obj)` called from thread `t`; `None` is Java's `null`. */
  function Returned(s: PoolState, t: ThreadId, obj: Option<Obj>): (r: (PoolState, Outcome<PoolError>))
    ensures r.1.Pass? ==> obj.Some? && t in s.local && s.local[t].obj == obj.value
    ensures forall u :: u in s.local && u != t ==> u in r.0.local && r.0.local[u] == s.local[u]
  {
    if obj.None? then (s, Fail(NullObject))
    else if t !in s.local || s.local[t].obj != obj.value then (s.(local := s.local - {t}), Fail(WrongThread))
    else
      var h := s.local[t];
      if h.count - 1 > 0 then (s.(local := s.local[t := h.(count := h.count - 1)]), Pass)
      else
        var (b, r) := Give(s.backing, obj.value);
        (PoolState(s.local - {t}, b), r)
  }

  /** `invalidateObject(obj)` called from thread `t`. */
  function Invalidated(s: PoolState, t: ThreadId, obj: Option<Obj>): (r: (PoolState, Outcome<PoolError>))
    ensures t !in r.0.local
    ensures forall u :: u in s.local && u != t ==> u in r.0.local && r.0.local[u] == s.local[u]
    ensures r.1.Pass? <==> obj.Some? && (obj.value in s.backing.active || obj.value in s.backing.idle)
  {
    var (b, r) := Destroy(s.backing, obj);
    (PoolState(s.local - {t}, b), r)
  }

  /** `getNumActive()`: the objects the underlying pool has lent out. */
  function ActiveCount(s: PoolState): nat {
    |s.backing.active|
  }

  /** `getReturnedCount()` as written: it reports the underlying pool's borrowed count. */
  function ReturnedCountAsWritten(s: PoolState): (n: nat)
    ensures n == s.backing.borrowedCount
  {
    s.backing.borrowedCount
  }

  /** `getReturnedCount()` as its name promises: the underlying pool's returned count. */
  function ReturnedCount(s: PoolState): nat {
    s.backing.returnedCount
  }

  // ---------------------------------------------------------------------
  // Properties

  /**
   * The first borrow of a thread with no slot takes one object from the
   * underlying pool (the first idle one, else a new one), makes it active,
   * and records it with count 1.
   */
  lemma FirstBorrow(s: PoolState, t: ThreadId)
    requires Inv(s) && t !in s.local
    ensures var (s1, o) := Borrowed(s, t);
      && o == (if s.backing.idle != [] then s.backing.idle[0] else s.backing.created)
      && o !in s.backing.active
      && s1.local == s.local[t := Holder(o, 1)]
      && s1.backing.active == s.backing.active + {o}
      && ActiveCount(s1) == ActiveCount(s) + 1
  {
    var (s1, o) := Borrowed(s, t);
    if s.backing.idle != [] {
      assert o == s.backing.idle[0];
    }
    assert o !in s.backing.active;
  }

  /** A later borrow in the same thread returns the same object and only increments its count. */
  lemma Reborrow(s: PoolState, t: ThreadId)
    requires t in s.local
    ensures var (s1, o) := Borrowed(s, t);
      && o == s.local[t].obj
      && s1.local == s.local[t := Holder(o, s.local[t].count + 1)]
      && s1.backing == s.backing
  {
  }

  /** Borrowing preserves the invariant: in particular two threads never hold the same object. */
  lemma BorrowKeepsInv(s: PoolState, t: ThreadId)
    requires Inv(s)
    ensures Inv(Borrowed(s, t).0)
  {
    if t !in s.local {
      var (s1, o) := Borrowed(s, t);
      var b := s.backing;
      if b.idle != [] {
        assert o == b.idle[0];
        forall i | 0 <= i < |s1.backing.idle|
          ensures s1.backing.idle[i] != o && s1.backing.idle[i] !in s1.backing.active
        {
          assert s1.backing.idle[i] == b.idle[i + 1];
        }
        forall u | u in s.local ensures s.local[u].obj != o {
          assert b.idle[0] in b.idle;
        }
        assert forall y :: y in s1.backing.idle ==> y in b.idle;
      } else {
        forall u | u in s.local ensures s.local[u].obj != o {
        }
      }
    }
  }

  /**
   * `returnObject` from the holding thread decrements the count; only when
   * it reaches 0 is the slot cleared and the object given back to the
   * underlying pool, where it leaves the active set (and becomes the first
   * idle object unless `maxIdle` objects are idle already). Otherwise
   * nothing else changes.
   */
  lemma ReturnByHolder(s: PoolState, t: ThreadId)
    requires Inv(s) && t in s.local
    ensures var h := s.local[t];
      Returned(s, t, Some(h.obj)).1 == if h.count > 1 || h.obj in s.backing.active then Pass else Fail(NotInPool)
    ensures var h := s.local[t]; var s1 := Returned(s, t, Some(h.obj)).0;
      h.count > 1 ==> s1.local == s.local[t := Holder(h.obj, h.count - 1)] && s1.backing == s.backing
    ensures var h := s.local[t]; var s1 := Returned(s, t, Some(h.obj)).0;
      h.count == 1 ==> s1.local == s.local - {t} && h.obj !in s1.backing.active
    ensures var h := s.local[t]; var s1 := Returned(s, t, Some(h.obj)).0;
      h.count == 1 && h.obj in s.backing.active ==>
        && s1.backing.active == s.backing.active - {h.obj}
        && ActiveCount(s1) == ActiveCount(s) - 1
        && s1.backing.idle == (if 0 <= s.backing.maxIdle <= |s.backing.idle| then s.backing.idle
                               else [h.obj] + s.backing.idle)
  {
  }

  /**
   * `returnObject(null)` fails and changes nothing; a return from a thread
   * whose slot is empty or holds another object fails with the
   * `IllegalStateException` and clears that thread's slot, and nothing else.
   */
  lemma ReturnErrors(s: PoolState, t: ThreadId, obj: Option<Obj>)
    ensures obj.None? ==> Returned(s, t, obj) == (s, Fail(NullObject))
    ensures obj.Some? && (t !in s.local || s.local[t].obj != obj.value) ==>
      Returned(s, t, obj) == (PoolState(s.local - {t}, s.backing), Fail(WrongThread))
  {
  }

  /** Returning preserves the invariant. */
  lemma ReturnKeepsInv(s: PoolState, t: ThreadId, obj: Option<Obj>)
    requires Inv(s)
    ensures Inv(Returned(s, t, obj).0)
  {
    if obj.Some? && t in s.local && s.local[t].obj == obj.value && s.local[t].count == 1 {
      var o := obj.value;
      var (s1, r) := Returned(s, t, obj);
      var b := s.backing;
      if o in b.active && !(0 <= b.maxIdle <= |b.idle|) {
        assert s1.backing.idle == [o] + b.idle;
        assert o !in b.idle;
        forall i | 0 <= i < |s1.backing.idle| ensures s1.backing.idle[i] !in s1.backing.active {
          if i > 0 {
            assert s1.backing.idle[i] == b.idle[i - 1];
          }
        }
        forall u | u in s1.local ensures s1.local[u].obj !in s1.backing.idle {
          assert u != t;
        }
      }
    }
  }

  /**
   * A thread that borrows and returns once, without holding anything
   * before, leaves the slots and the active objects as they were, and the
   * idle objects too when one was idle.
   */
  lemma BorrowReturnRestores(s: PoolState, t: ThreadId)
    requires Inv(s) && t !in s.local
    ensures var (s1, o) := Borrowed(s, t); var (s2, r) := Returned(s1, t, Some(o));
      && r == Pass
      && s2.local == s.local
      && s2.backing.active == s.backing.active
      && ActiveCount(s2) == ActiveCount(s)
      && (s.backing.idle != [] ==> s2.backing.idle == s.backing.idle)
  {
    var (s1, o) := Borrowed(s, t);
    FirstBorrow(s, t);
    assert s1.local - {t} == s.local;
    if s.backing.idle != [] {
      assert [o] + s1.backing.idle == s.backing.idle;
    }
  }

  /** A nested borrow and return in a thread that already holds an object changes nothing. */
  lemma ReborrowReturnRestores(s: PoolState, t: ThreadId)
    requires Inv(s) && t in s.local
    ensures var (s1, o) := Borrowed(s, t); Returned(s1, t, Some(o)) == (s, Pass)
  {
    var h := s.local[t];
    var (s1, o) := Borrowed(s, t);
    assert s1.local[t].count - 1 == h.count;
    assert s1.local[t := h] == s.local;
  }

  /**
   * `invalidateObject` always clears the calling thread's slot, whatever
   * its count; it destroys an object of the underlying pool, keeping every
   * other active and idle object, and fails for any other object with the
   * underlying pool unchanged. `getNumActive()` drops by one exactly when
   * the object was lent out.
   */
  lemma InvalidateEffect(s: PoolState, t: ThreadId, obj: Option<Obj>)
    ensures var (s1, r) := Invalidated(s, t, obj);
      && s1.local == s.local - {t}
      && (r == Pass <==> obj.Some? && (obj.value in s.backing.active || obj.value in s.backing.idle))
      && (obj.Some? ==> obj.value !in s1.backing.active && obj.value !in s1.backing.idle)
      && (obj.Some? && r == Pass ==> s1.backing.active == s.backing.active - {obj.value}
                                     && s1.backing.idle == Without(s.backing.idle, obj.value))
      && (r != Pass ==> s1.backing == s.backing)
      && ActiveCount(s1) == (if obj.Some? && obj.value in s.backing.active then ActiveCount(s) - 1 else ActiveCount(s))
      && s1.backing.created == s.backing.created
  {
  }

  lemma InvalidateKeepsInv(s: PoolState, t: ThreadId, obj: Option<Obj>)
    requires Inv(s)
    ensures Inv(Invalidated(s, t, obj).0)
  {
    var (s1, r) := Invalidated(s, t, obj);
    if obj.Some? {
      WithoutNoDuplicates(s.backing.idle, obj.value);
    }
    forall i | 0 <= i < |s1.backing.idle|
      ensures s1.backing.idle[i] < s1.backing.created && s1.backing.idle[i] !in s1.backing.active
    {
      assert s1.backing.idle[i] in s.backing.idle;
    }
  }

  /**
   * The slot is per thread only: after another thread invalidates the
   * object a thread holds, that thread still borrows the destroyed object,
   * and its last return then fails in the underlying pool.
   */
  lemma ForeignInvalidate(s: PoolState, t: ThreadId, u: ThreadId)
    requires Inv(s) && t in s.local && u != t
    ensures var o := s.local[t].obj;
      var (s1, _) := Invalidated(s, u, Some(o));
      var (s2, o2) := Borrowed(s1, t);
      && o !in s1.backing.active
      && o2 == o
      && Returned(s2, t, Some(o)).0.local == s1.local
  {
  }

  /**
   * The test scenario: a main thread borrows twice (one active object, the
   * same one both times), a second thread borrows (two active), a third
   * borrows and returns (still two), and the main thread returns twice
   * (two, then one).
   */
  lemma ReentrantScenario(main: ThreadId, second: ThreadId, third: ThreadId, maxIdle: int)
    requires main != second && main != third && second != third
    ensures
      var s0 := Empty(maxIdle);
      var (s1, broker1) := Borrowed(s0, main);
      var (s2, broker2) := Borrowed(s1, main);
      var s3 := Borrowed(s2, second).0;
      var s4 := BorrowReturn(s3, third);
      var (s5, r5) := Returned(s4, main, Some(broker1));
      var (s6, r6) := Returned(s5, main, Some(broker2));
      && ActiveCount(s1) == 1 && broker2 == broker1 && ActiveCount(s2) == 1
      && ActiveCount(s3) == 2 && ActiveCount(s4) == 2
      && r5 == Pass && ActiveCount(s5) == 2 && r6 == Pass && ActiveCount(s6) == 1
  {
    ScenarioBorrows(main, second, maxIdle);
    var s0 := Empty(maxIdle);
    var (s1, broker1) := Borrowed(s0, main);
    var (s2, broker2) := Borrowed(s1, main);
    var s3 := Borrowed(s2, second).0;
    ScenarioReturns(s3, main, third, broker1);
  }

  /**
   * The returns of the test scenario: a third thread borrows and returns,
   * then the main thread, holding its object twice, returns it twice; only
   * the second return gives it back to the underlying pool.
   */
  lemma ScenarioReturns(s3: PoolState, main: ThreadId, third: ThreadId, broker: Obj)
    requires Inv(s3) && main != third && third !in s3.local
    requires main in s3.local && s3.local[main] == Holder(broker, 2) && broker in s3.backing.active
    ensures
      var s4 := BorrowReturn(s3, third);
      var (s5, r5) := Returned(s4, main, Some(broker));
      var (s6, r6) := Returned(s5, main, Some(broker));
      && ActiveCount(s4) == ActiveCount(s3)
      && r5 == Pass && ActiveCount(s5) == ActiveCount(s3)
      && r6 == Pass && ActiveCount(s6) == ActiveCount(s3) - 1
  {
    var s4 := BorrowReturn(s3, third);
    assert s4.local == s3.local && s4.backing.active == s3.backing.active && Inv(s4) by {
      BorrowReturnRestores(s3, third);
      BorrowKeepsInv(s3, third);
      ReturnKeepsInv(Borrowed(s3, third).0, third, Some(Borrowed(s3, third).1));
    }
    ReturnByHolder(s4, main);
    var (s5, r5) := Returned(s4, main, Some(broker));
    ReturnByHolder(s5, main);
  }

  /** The borrows of the test scenario: the main thread twice, then a second thread. */
  lemma ScenarioBorrows(main: ThreadId, second: ThreadId, maxIdle: int)
    requires main != second
    ensures
      var s0 := Empty(maxIdle);
      var (s1, broker1) := Borrowed(s0, main);
      var (s2, broker2) := Borrowed(s1, main);
      var s3 := Borrowed(s2, second).0;
      && ActiveCount(s1) == 1 && broker2 == broker1 && ActiveCount(s2) == 1
      && Inv(s3) && ActiveCount(s3) == 2 && s3.local.Keys == {main, second}
      && s3.local[main] == Holder(broker1, 2)
      && broker1 in s3.backing.active
  {
    var s0 := Empty(maxIdle);
    var (s1, broker1) := Borrowed(s0, main);
    var (s2, broker2) := Borrowed(s1, main);
    FirstBorrow(s0, main);
    BorrowKeepsInv(s0, main);
    Reborrow(s1, main);
    BorrowKeepsInv(s1, main);
    FirstBorrow(s2, second);
    BorrowKeepsInv(s2, second);
  }

  /** A thread that borrows an object and returns it straight away. */
  function BorrowReturn(s: PoolState, t: ThreadId): PoolState
  {
    var (s1, o) := Borrowed(s, t);
    Returned(s1, t, Some(o)).0
  }

  /**
   * `getReturnedCount` as written reports the borrowed count: after a single
   * borrow it reports one return although nothing was returned.
   */
  lemma ReturnedCountMismatch(t: ThreadId, maxIdle: int)
    ensures var (s1, _) := Borrowed(Empty(maxIdle), t);
      ReturnedCountAsWritten(s1) == 1 && ReturnedCount(s1) == 0
  {
  }

  /**
   * The returned count counts the objects given back to the underlying
   * pool: a borrow leaves it alone, the last return of a held object adds one.
   */
  lemma ReturnedCountCounts(s: PoolState, t: ThreadId)
    requires Inv(s)
    ensures ReturnedCount(Borrowed(s, t).0) == ReturnedCount(s)
    ensures t in s.local && s.local[t].count == 1 && s.local[t].obj in s.backing.active ==>
      ReturnedCount(Returned(s, t, Some(s.local[t].obj)).0) == ReturnedCount(s) + 1
  {
  }

  // ---------------------------------------------------------------------
  // The implementation

  /** The underlying `GenericObjectPool`, reduced as described above. */
  class BackingPool {
    var active: set<Obj>
    var idle: seq<Obj>
    var created: nat
    const maxIdle: int
    var borrowedCount: nat
    var returnedCount: nat

    ghost function Model(): Backing
      reads this
    {
      Backing(active, idle, created, maxIdle, borrowedCount, returnedCount)
    }

    constructor (maxIdle: int)
      ensures Model() == EmptyBacking(maxIdle)
    {
      active := {};
      idle := [];
      created := 0;
      this.maxIdle := maxIdle;
      borrowedCount := 0;
      returnedCount := 0;
    }

    method BorrowObject() returns (obj: Obj)
      modifies this
      ensures (Model(), obj) == Take(old(Model()))
    {
      if idle != [] {
        obj := idle[0];
        idle := idle[1..];
      } else {
        obj := created;
        created := created + 1;
      }
      active := active + {obj};
      borrowedCount := borrowedCount + 1;
    }

    method ReturnObject(obj: Obj) returns (result: Outcome<PoolError>)
      modifies this
      ensures (Model(), result) == Give(old(Model()), obj)
    {
      if obj !in active {
        return if obj in idle then Fail(AlreadyReturned) else Fail(NotInPool);
      }
      active := active - {obj};
      returnedCount := returnedCount + 1;
      if !(maxIdle >= 0 && maxIdle <= |idle|) {
        idle := [obj] + idle;
      }
      result := Pass;
    }

    method InvalidateObject(obj: Option<Obj>) returns (result: Outcome<PoolError>)
      modifies this
      ensures (Model(), result) == Destroy(old(Model()), obj)
    {
      if obj.None? || (obj.value !in active && obj.value !in idle) {
        return Fail(NotInPool);
      }
      active := active - {obj.value};
      idle := Without(idle, obj.value);
      result := Pass;
    }

    function NumActive(): (n: nat)
      reads this
      ensures n == |Model().active|
    {
      |active|
    }
  }

  class ReentrantGenericObjectPool {
    const pool: BackingPool
    /** The `ThreadLocal` slots, each holding a `ReentrantObject`. */
    var localObject: map<ThreadId, Holder>

    ghost function Model(): PoolState
      reads this, pool
    {
      PoolState(localObject, pool.Model())
    }

    ghost predicate Valid()
      reads this, pool
    {
      Inv(Model())
    }

    constructor (maxIdle: int)
      ensures Valid() && Model() == Empty(maxIdle)
    {
      pool := new BackingPool(maxIdle);
      localObject := map[];
    }

    /** `referenceCount.addAndGet(delta)` on the holder of thread `t`. */
    method AddToCount(t: ThreadId, delta: int) returns (count: int)
      requires t in localObject
      modifies this`localObject
      ensures count == old(localObject[t].count) + delta
      ensures localObject == old(localObject)[t := old(localObject[t]).(count := count)]
    {
      var holder := localObject[t];
      count := holder.count + delta;
      localObject := localObject[t := holder.(count := count)];
    }

    /** `borrowObject()` called from thread `t`. */
    method BorrowObject(t: ThreadId) returns (obj: Obj)
      requires Valid()
      modifies this, pool
      ensures Valid()
      ensures (Model(), obj) == Borrowed(old(Model()), t)
    {
      ghost var s := Model();
      BorrowKeepsInv(s, t);
      if t !in localObject {
        var o := pool.BorrowObject();
        localObject := localObject[t := Holder(o, 0)];
      }
      var count := AddToCount(t, 1);
      obj := localObject[t].obj;
      assert localObject == Borrowed(s, t).0.local;
    }

    /** `returnObject(obj)` called from thread `t`; `None` is Java's `null`. */
    method ReturnObject(t: ThreadId, obj: Option<Obj>) returns (result: Outcome<PoolError>)
      requires Valid()
      modifies this, pool
      ensures Valid()
      ensures (Model(), result) == Returned(old(Model()), t, obj)
    {
      ghost var s := Model();
      ReturnKeepsInv(s, t, obj);
      if obj.None? {
        return Fail(NullObject);
      }
      if t !in localObject || localObject[t].obj != obj.value {
        localObject := localObject - {t};
        return Fail(WrongThread);
      }
      var count := AddToCount(t, -1);
      if count > 0 {
        return Pass;
      }
      result := pool.ReturnObject(obj.value);
      localObject := localObject - {t};
      assert localObject == s.local - {t};
    }

    /** `invalidateObject(obj)` called from thread `t`. */
    method InvalidateObject(t: ThreadId, obj: Option<Obj>) returns (result: Outcome<PoolError>)
      requires Valid()
      modifies this, pool
      ensures Valid()
      ensures (Model(), result) == Invalidated(old(Model()), t, obj)
    {
      ghost var s := Model();
      InvalidateKeepsInv(s, t, obj);
      result := pool.InvalidateObject(obj);
      localObject := localObject - {t};
    }

    /** `getNumActive()`. */
    function NumActive(): (n: nat)
      reads this, pool
      ensures n == ActiveCount(Model())
    {
      pool.NumActive()
    }

    /** `getBorrowedCount()`. */
    function BorrowedCount(): (n: nat)
      reads this, pool
      ensures n == Model().backing.borrowedCount
    {
      pool.borrowedCount
    }

    /** `getReturnedCount()`, reading the returned count rather than the borrowed one. */
    function ReturnedCountOf(): (n: nat)
      reads this, pool
      ensures n == ReturnedCount(Model())
    {
      pool.returnedCount
    }
  }
}
