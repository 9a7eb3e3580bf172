/** The ready and the wait queue as the singly-linked tail queues (STAILQ) of the BSD sys/queue.h: each thread has one
    link, its `list` field, whichever queue it is in. What my_pthread.c does to its queues, done on the links; elsewhere
    the queues are sequences. */
module TailQueues {
  import opened Util
  import S = Scheduling

  type Links = seq<Option<Tid>>

  /** STAILQ_HEAD: the first element and the last, None in an empty queue. */
  datatype Head = Head(first: Option<Tid>, last: Option<Tid>)

  function LinkAt(q: seq<Tid>, i: nat): (t: Option<Tid>) { if i < |q| then Some(q[i]) else None }

  /** Following the links from `h` visits the elements of `q`. */
  ghost predicate Linked(next: Links, h: Head, q: seq<Tid>) {
    && NoDuplicates(q)
    && h.first == LinkAt(q, 0)
    && (q == [] <==> h.last.None?)
    && (q != [] ==> h.last == Some(q[|q| - 1]))
    && forall i :: 0 <= i < |q| ==> q[i] < |next| && next[q[i]] == LinkAt(q, i + 1)
  }

  lemma UnlinkFirst(next: Links, h: Head, q: seq<Tid>)
    requires Linked(next, h, q) && q != []
    ensures q[0] < |next| && Linked(next, Head(next[q[0]], if next[q[0]].None? then None else h.last), Without(q, 0))
  {
    NoDuplicatesWithout(q, 0);
    assert Without(q, 0) == q[1..];
  }

  lemma UnlinkHead(next: Links, h: Head, q: seq<Tid>)
    requires Linked(next, h, q) && q != []
    ensures q[0] < |next| && h.first == Some(q[0])
    ensures Linked(next, Head(next[q[0]], if next[q[0]].None? then None else h.last), q[1..])
  {
    UnlinkFirst(next, h, q);
    assert Without(q, 0) == q[1..];
  }

  lemma Unlink(next: Links, h: Head, q: seq<Tid>, i: nat)
    requires Linked(next, h, q) && 0 < i < |q|
    ensures q[i - 1] < |next| && q[i] < |next|
    ensures Linked(next[q[i - 1] := next[q[i]]],
                   Head(h.first, if next[q[i]].None? then Some(q[i - 1]) else h.last), Without(q, i))
  {
    NoDuplicatesWithout(q, i);
    var next', r := next[q[i - 1] := next[q[i]]], Without(q, i);
    forall k | 0 <= k < |r|
      ensures r[k] < |next'| && next'[r[k]] == LinkAt(r, k + 1)
    {
      assert r[k] == if k < i then q[k] else q[k + 1];
    }
  }

  class TailQueues {
    const next: array<Option<Tid>>   // the list field of each thread
    var ready: Head
    var wait: Head

    constructor (n: nat)
      ensures fresh(next) && Linked(next[..], ready, []) && Linked(next[..], wait, [])
    {
      next := new Option<Tid>[n](_ => None);
      ready := Head(None, None);
      wait := Head(None, None);
    }

    /** STAILQ_INSERT_TAIL(&g_queue_ready, t, list) */
    method InsertReady(t: Tid, ghost q: seq<Tid>)
      requires Linked(next[..], ready, q) && t < next.Length && t !in q
      modifies next, this`ready
      ensures Linked(next[..], ready, q + [t]) && next[t] == None
      ensures forall u :: 0 <= u < next.Length && u !in q && u != t ==> next[u] == old(next[u])
    {
      NoDuplicatesSnoc(q, t);
      next[t] := None;
      if ready.last.None? {
        ready := Head(Some(t), Some(t));
      } else {
        next[ready.last.value] := Some(t);
        ready := Head(ready.first, Some(t));
      }
    }

    /** STAILQ_INSERT_TAIL(&g_queue_wait, t, list) */
    method InsertWait(t: Tid, ghost q: seq<Tid>)
      requires Linked(next[..], wait, q) && t < next.Length && t !in q
      modifies next, this`wait
      ensures Linked(next[..], wait, q + [t])
      ensures forall u :: 0 <= u < next.Length && u !in q && u != t ==> next[u] == old(next[u])
    {
      NoDuplicatesSnoc(q, t);
      next[t] := None;
      if wait.last.None? {
        wait := Head(Some(t), Some(t));
      } else {
        next[wait.last.value] := Some(t);
        wait := Head(wait.first, Some(t));
      }
    }

    /** STAILQ_FIRST and STAILQ_REMOVE_HEAD of g_queue_ready: the link of the removed element stays as it was. */
    method RemoveReadyHead(ghost q: seq<Tid>) returns (t: Tid)
      requires Linked(next[..], ready, q) && q != []
      modifies this`ready
      ensures t == q[0] && Linked(next[..], ready, q[1..])
    {
      UnlinkHead(next[..], ready, q);
      hide Linked;
      t := ready.first.value;
      ready := Head(next[t], if next[t].None? then None else ready.last);
    }

    /** The two queues spell those of `s`, and CURRENT is in neither. */
    ghost predicate Spells(s: S.Sched)
      reads this, next
    {
      && Linked(next[..], wait, s.wait) && Linked(next[..], ready, s.ready) && Apart(s.wait, s.ready)
      && (s.cur.Some? ==> s.cur.value < next.Length && s.cur.value !in s.wait && s.cur.value !in s.ready)
    }

    /** schedule: the new CURRENT */
    method Schedule(cur: Option<Tid>, ghost s: S.Sched) returns (cur': Option<Tid>)
      requires Spells(s) && cur == s.cur
      modifies next, this`ready
      ensures Spells(S.Schedule(s)) && cur' == S.Schedule(s).cur
    {
      ghost var before := next[..];
      EmptyIs(before, ready, s.ready);
      hide Linked;
      if ready.first.None? {
        return cur;
      }
      HeadIsFirst(s.ready);
      DispatchStaysApart(s);
      hide Apart;
      var t := RemoveReadyHead(s.ready);
      if cur.Some? {
        InsertReady(cur.value, s.ready[1..]);
        SameLinks(before, next[..], wait, s.wait);
      }
      return Some(t);
    }

    /** schedule_swap_current_to_wait: the new CURRENT */
    method ScheduleSwapCurrentToWait(cur: Tid, ghost s: S.Sched) returns (cur': Tid)
      requires Spells(s) && Some(cur) == s.cur
      modifies next, this`ready, this`wait
      ensures Spells(S.BlockCurrent(s)) && Some(cur') == S.BlockCurrent(s).cur
    {
      ghost var before := next[..];
      EmptyIs(before, ready, s.ready);
      hide Linked;
      if ready.first.None? {
        return cur;
      }
      HeadIsFirst(s.ready);
      cur' := RemoveReadyHead(s.ready);
      InsertWait(cur, s.wait);
      SameLinks(before, next[..], ready, s.ready[1..]);
    }

    /** STAILQ_REMOVE(&g_queue_wait, t, ...): the link of the removed element stays as it was. */
    method RemoveWaiting(t: Tid, ghost q: seq<Tid>, ghost i: nat)
      requires Linked(next[..], wait, q) && i < |q| && q[i] == t
      modifies next, this`wait
      ensures Linked(next[..], wait, Without(q, i)) && next[t] == old(next[t])
      ensures forall u :: 0 <= u < next.Length && u !in q ==> next[u] == old(next[u])
    {
      if wait.first == Some(t) {
        UnlinkFirst(next[..], wait, q);
        wait := Head(next[t], if next[t].None? then None else wait.last);
      } else {
        var cur := Before(t, q, i);
        Unlink(next[..], wait, q, i);
        next[cur] := next[t];
        if next[t].None? {
          wait := Head(wait.first, Some(cur));
        }
      }
    }

    /** The walk of STAILQ_REMOVE to the element whose link is `t`. */
    method Before(t: Tid, ghost q: seq<Tid>, ghost i: nat) returns (cur: Tid)
      requires Linked(next[..], wait, q) && 0 < i < |q| && q[i] == t
      ensures cur == q[i - 1] && cur < next.Length
    {
      cur := wait.first.value;
      ghost var k := 0;
      while next[cur] != Some(t)
        invariant 0 <= k < i && cur == q[k]
        decreases i - k
      {
        cur := next[cur].value;
        k := k + 1;
      }
    }

    /** The body of an `if (ti->mu == ...)` in release_thread and release_all_thread. */
    method MoveToReady(t: Tid, ghost s: S.Sched, ghost i: nat)
      requires Spells(s) && i < |s.wait| && s.wait[i] == t
      modifies next, this`wait, this`ready
      ensures t < next.Length && next[t] == None && Spells(s.(wait := Without(s.wait, i), ready := s.ready + [t]))
    {
      hide Linked;
      Move(t, s.wait, s.ready, i);
    }

    method Move(t: Tid, ghost w: seq<Tid>, ghost r: seq<Tid>, ghost i: nat)
      requires Linked(next[..], wait, w) && Linked(next[..], ready, r) && Apart(w, r) && i < |w| && w[i] == t
      modifies next, this`wait, this`ready
      ensures Linked(next[..], wait, Without(w, i)) && Linked(next[..], ready, r + [t])
      ensures Apart(Without(w, i), r + [t]) && t < next.Length && next[t] == None
    {
      NoDuplicatesWithout(w, i);
      RemoveWaiting(t, w, i);
      InsertReady(t, r);
    }

    /** The first waiter is moved. */
    method ReleaseFirst(t: Tid, m: nat, ghost s: S.Sched, ghost i: nat)
      requires Spells(s) && i < |s.wait| && s.wait[i] == t && S.WaitsOn(s.mu, m)(t)
      requires forall k :: 0 <= k < i ==> !S.WaitsOn(s.mu, m)(s.wait[k])
      modifies next, this`wait, this`ready
      ensures Spells(S.Release(s, m)) && t < next.Length && next[t] == None
    {
      hide Linked;
      FindIs(s.wait, S.WaitsOn(s.mu, m), i);
      MoveToReady(t, s, i);
    }

    /** release_thread */
    method ReleaseThread(m: nat, mu: array<nat>, ghost s: S.Sched)
      requires Spells(s) && mu.Length == next.Length && s.mu == mu[..]
      modifies next, this`wait, this`ready
      ensures Spells(S.Release(s, m))
    {
      WalkStarts(next[..], wait, s.wait);
      hide Linked;
      ghost var i := 0;
      var ti := wait.first;
      while ti.Some?
        invariant i <= |s.wait| && ti == LinkAt(s.wait, i) && Spells(s)
        invariant forall k :: 0 <= k < i ==> !S.WaitsOn(s.mu, m)(s.wait[k])
        decreases |s.wait| - i
      {
        WalkGoesOn(next[..], wait, s.wait, i);
        if mu[ti.value] == m {
          ReleaseFirst(ti.value, m, s, i);
          return;
        }
        ti := next[ti.value];
        i := i + 1;
      }
      FindIs(s.wait, S.WaitsOn(s.mu, m), i);
    }

    /** release_all_thread: the same walk without a return. Its next step follows the link of the moved thread, which is
        now null, so it ends after the first match. */
    method ReleaseAllThread(m: nat, mu: array<nat>, ghost s: S.Sched)
      requires Spells(s) && mu.Length == next.Length && s.mu == mu[..]
      modifies next, this`wait, this`ready
      ensures Spells(S.Release(s, m))
    {
      WalkStarts(next[..], wait, s.wait);
      hide Linked;
      ghost var i := 0;
      ghost var moved := false;
      var ti := wait.first;
      while ti.Some?
        invariant if moved then ti.None? && Spells(S.Release(s, m)) else ti == LinkAt(s.wait, i) && Spells(s)
        invariant i <= |s.wait| && forall k :: 0 <= k < i ==> !S.WaitsOn(s.mu, m)(s.wait[k])
        decreases |s.wait| - i, !moved
      {
        WalkGoesOn(next[..], wait, s.wait, i);
        if mu[ti.value] == m {
          ReleaseFirst(ti.value, m, s, i);
          moved := true;
        } else {
          i := i + 1;
        }
        ti := next[ti.value];
      }
      if !moved {
        FindIs(s.wait, S.WaitsOn(s.mu, m), i);
      }
    }
  }

  lemma DispatchStaysApart(s: S.Sched)
    requires NoDuplicates(s.ready) && s.ready != [] && Apart(s.wait, s.ready)
    requires s.cur.Some? ==> s.cur.value !in s.wait && s.cur.value !in s.ready
    ensures var s' := S.Schedule(s);
            && s'.cur == Some(s.ready[0]) && Apart(s.wait, s'.ready)
            && s.ready[0] !in s.wait && s.ready[0] !in s'.ready
  {
    HeadIsFirst(s.ready);
  }

  lemma EmptyIs(next: Links, h: Head, q: seq<Tid>)
    requires Linked(next, h, q)
    ensures (h.first.None? <==> q == []) && NoDuplicates(q) && forall t :: t in q ==> t < |next|
  {
  }

  lemma SameLinks(next: Links, next': Links, h: Head, q: seq<Tid>)
    requires Linked(next, h, q) && |next'| == |next| && forall t :: t in q && t < |next| ==> next'[t] == next[t]
    ensures Linked(next', h, q)
  {
  }

  lemma WalkStarts(next: Links, h: Head, q: seq<Tid>)
    requires Linked(next, h, q)
    ensures h.first == LinkAt(q, 0)
  {
  }

  lemma WalkGoesOn(next: Links, h: Head, q: seq<Tid>, i: nat)
    requires Linked(next, h, q) && i < |q|
    ensures q[i] < |next| && next[q[i]] == LinkAt(q, i + 1)
  {
  }

  ghost predicate Apart(w: seq<Tid>, r: seq<Tid>) { forall t :: t in w ==> t !in r }

  lemma HeadIsFirst(q: seq<Tid>)
    requires NoDuplicates(q) && q != []
    ensures q[0] !in q[1..] && forall t :: t in q <==> t == q[0] || t in q[1..]
  {
  }
}
