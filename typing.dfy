/** Typing signals. Outbound: a per-thread debounce timer that is either
    armed or not. Inbound: per thread, the remote users shown as typing,
    each with the id of the timer that will hide them again. Timers are
    explicit: a timer id is live until it fires or is cleared. */
module Typing {
  import opened ChatModel

  // ---------------------------------------------------------------------
  // Outbound debounce

  /** `sendTyping` on the set of threads with an armed timer: `typing` is
      pushed only when none is armed, and afterwards one always is. */
  function SignalTyping(armed: set<ThreadId>, tid: ThreadId): (r: (set<ThreadId>, seq<Event>))
    ensures tid in r.0 && forall t :: t != tid ==> (t in r.0 <==> t in armed)
    ensures r.1 == [] <==> tid in armed
    ensures r.1 == [] || r.1 == [Typing]
  {
    (armed + {tid}, if tid in armed then [] else [Typing])
  }

  /** The debounce timer of `tid` fires. */
  function DebounceFired(armed: set<ThreadId>, tid: ThreadId): (r: (set<ThreadId>, seq<Event>))
    ensures tid !in r.0 && forall t :: t != tid ==> (t in r.0 <==> t in armed)
    ensures r.1 == [StopTyping]
  {
    (armed - {tid}, [StopTyping])
  }

  /** `n` keystrokes in a row within one debounce window. */
  function Burst(armed: set<ThreadId>, tid: ThreadId, n: nat): (set<ThreadId>, seq<Event>) {
    if n == 0 then (armed, [])
    else
      var (a, evs) := Burst(armed, tid, n - 1);
      var (a', more) := SignalTyping(a, tid);
      (a', evs + more)
  }

  /** A burst of keystrokes pushes `typing` at most once, and exactly once
      when no timer was armed; the timer's firing then pushes one
      `stop_typing` and disarms. */
  lemma {:induction false} BurstSignalsOnce(armed: set<ThreadId>, tid: ThreadId, n: nat)
    requires n >= 1
    ensures Burst(armed, tid, n) == (armed + {tid}, if tid in armed then [] else [Typing])
    ensures var (a, evs) := Burst(armed, tid, n);
      var (a', stop) := DebounceFired(a, tid);
      evs + stop == (if tid in armed then [] else [Typing]) + [StopTyping] && tid !in a'
  {
    var first: seq<Event> := if tid in armed then [] else [Typing];
    if n > 1 {
      BurstSignalsOnce(armed, tid, n - 1);
      assert first + [] == first;
    } else {
      assert [] + first == first;
    }
  }

  // ---------------------------------------------------------------------
  // Inbound typing indicators

  /** A remote user shown as typing, and the id of the timer that hides them. */
  datatype Typist = Typist(name: string, timer: nat)

  datatype Slot = Slot(tid: ThreadId, userId: UserId)

  type Typists = map<ThreadId, map<UserId, Typist>>

  /** Live hide timers, by id, with the entry each one hides when it fires. */
  type HideTimers = map<nat, Slot>

  /** Every entry has its own live timer that points back at it, no thread
      keeps an empty map, and `next` is a fresh timer id. */
  ghost predicate Consistent(users: Typists, timers: HideTimers, next: nat) {
    && (forall tid :: tid in users ==> users[tid] != map[])
    && (forall tid, uid :: tid in users && uid in users[tid] ==>
          users[tid][uid].timer in timers && timers[users[tid][uid].timer] == Slot(tid, uid))
    && (forall t :: t in timers ==> t < next)
  }

  /** `showTyping`: clear the user's old timer, if any, and record the user
      under a fresh timer `next`. */
  function Show(users: Typists, timers: HideTimers, tid: ThreadId, uid: UserId, name: string, next: nat)
    : (r: (Typists, HideTimers))
    ensures tid in r.0 && uid in r.0[tid] && r.0[tid][uid] == Typist(name, next)
    ensures next in r.1 && r.1[next] == Slot(tid, uid)
    ensures r.0.Keys == users.Keys + {tid} && forall t :: t in users && t != tid ==> r.0[t] == users[t]
    ensures tid in users ==> forall u :: u in users[tid] && u != uid ==> u in r.0[tid] && r.0[tid][u] == users[tid][u]
    ensures tid in users && uid in users[tid] && users[tid][uid].timer != next ==> users[tid][uid].timer !in r.1
    ensures r.1.Keys <= timers.Keys + {next}
  {
    var inner := if tid in users then users[tid] else map[];
    var cleared := if uid in inner then timers - {inner[uid].timer} else timers;
    (users[tid := inner[uid := Typist(name, next)]], cleared[next := Slot(tid, uid)])
  }

  /** `hideTyping`: clear the user's timer and entry, and drop the thread's
      map once it is empty; a thread with no map is left alone. */
  function Hide(users: Typists, timers: HideTimers, tid: ThreadId, uid: UserId): (r: (Typists, HideTimers))
    ensures tid in r.0 ==> uid !in r.0[tid]
    ensures r.0.Keys <= users.Keys && forall t :: t in users && t != tid ==> t in r.0 && r.0[t] == users[t]
    ensures tid in r.0 ==> forall u :: u in users[tid] && u != uid ==> u in r.0[tid] && r.0[tid][u] == users[tid][u]
    ensures tid in users && uid in users[tid] ==> users[tid][uid].timer !in r.1
    ensures r.1.Keys <= timers.Keys
  {
    if tid !in users then (users, timers)
    else
      var inner := users[tid];
      var cleared := if uid in inner then timers - {inner[uid].timer} else timers;
      var rest := inner - {uid};
      (if rest == map[] then users - {tid} else users[tid := rest], cleared)
  }

  /** A fired hide timer: it is no longer live, and it hides its entry. */
  function Expire(users: Typists, timers: HideTimers, t: nat): (r: (Typists, HideTimers))
    requires t in timers
    ensures t !in r.1 && r.1.Keys <= timers.Keys
    ensures timers[t].tid in r.0 ==> timers[t].userId !in r.0[timers[t].tid]
  {
    var (users', timers') := Hide(users, timers, timers[t].tid, timers[t].userId);
    (users', timers' - {t})
  }

  lemma ShowConsistent(users: Typists, timers: HideTimers, tid: ThreadId, uid: UserId, name: string, next: nat)
    requires Consistent(users, timers, next)
    ensures var (users', timers') := Show(users, timers, tid, uid, name, next);
      Consistent(users', timers', next + 1) &&
      tid in users' && uid in users'[tid] && users'[tid][uid] == Typist(name, next)
  {
    var (users', timers') := Show(users, timers, tid, uid, name, next);
    forall t, u | t in users' && u in users'[t]
      ensures users'[t][u].timer in timers' && timers'[users'[t][u].timer] == Slot(t, u)
    {
      if t == tid && u == uid {
      } else {
        assert users'[t][u] == users[t][u];
        if t == tid && uid in users[tid] {
          assert users[tid][uid].timer != users[t][u].timer;
        }
      }
    }
  }

  lemma HideConsistent(users: Typists, timers: HideTimers, tid: ThreadId, uid: UserId, next: nat)
    requires Consistent(users, timers, next)
    ensures var (users', timers') := Hide(users, timers, tid, uid);
      Consistent(users', timers', next) && (tid in users' ==> uid !in users'[tid])
  {
    if tid in users {
      var (users', timers') := Hide(users, timers, tid, uid);
      forall t, u | t in users' && u in users'[t]
        ensures users'[t][u].timer in timers' && timers'[users'[t][u].timer] == Slot(t, u)
      {
        assert users'[t][u] == users[t][u];
        if uid in users[tid] {
          assert users[tid][uid].timer != users[t][u].timer;
        }
      }
    }
  }

  /** An explicit `stop_typing` right after `typing` undoes it: the entries
      and live timers are as if the user had only been hidden. */
  lemma HideUndoesShow(users: Typists, timers: HideTimers, tid: ThreadId, uid: UserId, name: string, next: nat)
    requires Consistent(users, timers, next)
    ensures var (users', timers') := Show(users, timers, tid, uid, name, next);
      Hide(users', timers', tid, uid) == Hide(users, timers, tid, uid)
  {
    var (users', timers') := Show(users, timers, tid, uid, name, next);
    var inner := if tid in users then users[tid] else map[];
    var cleared := if uid in inner then timers - {inner[uid].timer} else timers;
    UpdateThenRemove(inner, uid, Typist(name, next));
    assert next !in cleared;
    UpdateThenRemove(cleared, next, Slot(tid, uid));
    assert cleared - {next} == cleared;
    if tid !in users {
      assert inner - {uid} == map[];
      UpdateThenRemove(users, tid, users'[tid]);
      assert users - {tid} == users;
    } else if inner - {uid} != map[] {
      UpdateTwice(users, tid, users'[tid], inner - {uid});
    } else {
      UpdateThenRemove(users, tid, users'[tid]);
    }
  }

  lemma UpdateThenRemove<K, V>(m: map<K, V>, k: K, v: V)
    ensures m[k := v] - {k} == m - {k}
  {
  }

  lemma UpdateTwice<K, V>(m: map<K, V>, k: K, v: V, w: V)
    ensures m[k := v][k := w] == m[k := w]
  {
  }

  /** A `typing` indicator that nothing hides is removed when its timer
      fires, with the same outcome as an explicit `stop_typing`. */
  lemma ExpireIsHide(users: Typists, timers: HideTimers, tid: ThreadId, uid: UserId, name: string, next: nat)
    requires Consistent(users, timers, next)
    ensures var (users', timers') := Show(users, timers, tid, uid, name, next);
      next in timers' && Expire(users', timers', next) == Hide(users, timers, tid, uid)
  {
    var (users', timers') := Show(users, timers, tid, uid, name, next);
    HideUndoesShow(users, timers, tid, uid, name, next);
    var (h, ht) := Hide(users', timers', tid, uid);
    assert next !in ht;
    assert ht - {next} == ht;
  }

  /** Firing any live hide timer keeps the bookkeeping consistent, also a
      timer whose entry is gone (its thread's map was deleted while the timer
      stayed live): it then hides whatever entry holds its slot by now. */
  lemma ExpireKeepsConsistent(users: Typists, timers: HideTimers, t: nat, next: nat)
    requires Consistent(users, timers, next) && t in timers
    ensures var (users', timers') := Expire(users, timers, t);
      Consistent(users', timers', next)
  {
    var slot := timers[t];
    HideConsistent(users, timers, slot.tid, slot.userId, next);
    var (users', timers') := Expire(users, timers, t);
    var (hu, ht) := Hide(users, timers, slot.tid, slot.userId);
    forall tid, uid | tid in users' && uid in users'[tid]
      ensures users'[tid][uid].timer in timers' && timers'[users'[tid][uid].timer] == Slot(tid, uid)
    {
      assert ht[hu[tid][uid].timer] == Slot(tid, uid);
      assert hu[tid][uid].timer != t;
    }
  }

  /** Closing a window drops the thread's entries but not their hide
      timers. When the same user is shown as typing again in that thread
      (a window opened again), the new entry gets the fresh timer `next`,
      while the orphaned timer `t0` still names the same slot. When `t0`
      fires, it hides the new indicator and clears the new timer, before
      the new timer's own delay has run. */
  lemma OrphanTimerHidesNewIndicator(users: Typists, timers: HideTimers, tid: ThreadId, uid: UserId,
                                     name: string, next: nat)
    requires Consistent(users, timers, next) && tid in users && uid in users[tid]
    ensures var t0 := users[tid][uid].timer;
      var (u1, h1) := Show(users - {tid}, timers, tid, uid, name, next);
      && t0 != next && t0 in h1 && h1[t0] == Slot(tid, uid)
      && u1[tid][uid] == Typist(name, next) && next in h1
      && var (u2, h2) := Expire(u1, h1, t0);
         tid !in u2 && next !in h2 && t0 !in h2
  {
    var t0 := users[tid][uid].timer;
    var (u1, h1) := Show(users - {tid}, timers, tid, uid, name, next);
    assert u1[tid] == map[uid := Typist(name, next)];
    assert u1[tid] - {uid} == map[];
  }

  /** `delete this.typingUsers[tid]` (closing the window) leaves the
      thread's timers live but keeps the bookkeeping consistent. */
  lemma DropThreadConsistent(users: Typists, timers: HideTimers, tid: ThreadId, next: nat)
    requires Consistent(users, timers, next)
    ensures Consistent(users - {tid}, timers, next) && tid !in users - {tid}
  {
  }
}
