/** The values the chat controller keeps: messages, reactions, chat windows
    and the pushes it sends on its channels, together with the pure
    operations on the insertion-ordered window table. */
module ChatModel {

  type ThreadId = string
  type UserId = string
  type MessageId = string

  datatype Option<T> = None | Some(value: T) {
    function GetOr(default: T): T {
      match this
      case Some(v) => v
      case None => default
    }
  }

  /** The window budget: at most this many windows stay non-minimized when a
      join completes or a window is restored. */
  const MaxOpenWindows: nat := 3

  datatype Friend = Friend(id: UserId, displayName: string)

  /** An inbound message; the payload fields the controller never inspects
      (timestamps, shared posts) are not part of the model. */
  datatype Message = Message(id: MessageId, senderId: UserId, body: string)

  datatype Reaction = Reaction(emoji: string, userId: UserId, userName: string)

  /** One chat window, as the controller stores it per thread. */
  datatype Window = Window(
    friendId: UserId,
    friendName: string,
    minimized: bool,
    unread: nat,
    messages: seq<Message>,
    seen: bool,
    reactions: map<MessageId, seq<Reaction>>)

  /** A key/value pair of the window table, in the table's enumeration order. */
  datatype Entry = Entry(tid: ThreadId, win: Window)

  /** The control channel `presence:lobby` or the thread channel `chat:<tid>`. */
  datatype Channel = Lobby | Topic(tid: ThreadId)

  /** Everything the controller asks of a channel: a named push, or a join or
      leave of the channel itself. */
  datatype Event =
    | OpenChatReq(friendId: UserId)
    | Join
    | Leave
    | NewMessage(body: string)
    | Typing
    | StopTyping
    | MarkRead
    | React(messageId: MessageId, emoji: string)

  datatype Push = Push(channel: Channel, event: Event)

  /** The events pushed, in order, on one channel. */
  function Pushes(ch: Channel, evs: seq<Event>): (r: seq<Push>)
    ensures |r| == |evs| && forall i :: 0 <= i < |evs| ==> r[i] == Push(ch, evs[i])
  {
    seq(|evs|, i requires 0 <= i < |evs| => Push(ch, evs[i]))
  }

  /** A join of `chat:<tid>` that has been requested and not yet answered,
      with the friend and display name captured when it was requested. */
  datatype JoinRequest = JoinRequest(tid: ThreadId, friendId: UserId, friendName: string)

  /** What is persisted per thread. */
  datatype Saved = Saved(friendId: UserId, friendName: string, minimized: bool)

  datatype SavedEntry = SavedEntry(tid: ThreadId, info: Saved)

  // ---------------------------------------------------------------------
  // The window table

  function ThreadIds(ws: seq<Entry>): set<ThreadId> {
    set e | e in ws :: e.tid
  }

  predicate DistinctThreads(ws: seq<Entry>) {
    forall i, j :: 0 <= i < j < |ws| ==> ws[i].tid != ws[j].tid
  }

  /** Position of `tid` in the table (`this.windows[tid]`). */
  function IndexOf(ws: seq<Entry>, tid: ThreadId): (r: Option<nat>)
    ensures r.None? <==> tid !in ThreadIds(ws)
    ensures r.Some? ==> r.value < |ws| && ws[r.value].tid == tid
    ensures r.Some? ==> forall j :: 0 <= j < r.value ==> ws[j].tid != tid
  {
    if ws == [] then None
    else if ws[0].tid == tid then Some(0)
    else
      assert ThreadIds(ws) == {ws[0].tid} + ThreadIds(ws[1..]) by {
        assert ws == [ws[0]] + ws[1..];
      }
      match IndexOf(ws[1..], tid)
      case None => None
      case Some(k) => Some(k + 1)
  }

  lemma {:induction false} IndexOfIs(ws: seq<Entry>, tid: ThreadId, k: nat)
    requires k < |ws| && ws[k].tid == tid
    requires forall j :: 0 <= j < k ==> ws[j].tid != tid
    ensures IndexOf(ws, tid) == Some(k)
  {
    if k > 0 {
      IndexOfIs(ws[1..], tid, k - 1);
    }
  }

  lemma IndexOfDistinct(ws: seq<Entry>, k: nat)
    requires DistinctThreads(ws) && k < |ws|
    ensures IndexOf(ws, ws[k].tid) == Some(k)
  {
  }

  /** Two tables that hold the same thread at every position. */
  predicate SameThreads(ws: seq<Entry>, vs: seq<Entry>) {
    |ws| == |vs| && forall i :: 0 <= i < |ws| ==> ws[i].tid == vs[i].tid
  }

  lemma SameThreadsKeepTable(ws: seq<Entry>, vs: seq<Entry>)
    requires SameThreads(ws, vs)
    ensures ThreadIds(vs) == ThreadIds(ws)
    ensures DistinctThreads(ws) ==> DistinctThreads(vs)
  {
    forall t | t in ThreadIds(ws) ensures t in ThreadIds(vs) {
      var i :| 0 <= i < |ws| && ws[i].tid == t;
      assert vs[i] in vs;
    }
    forall t | t in ThreadIds(vs) ensures t in ThreadIds(ws) {
      var i :| 0 <= i < |vs| && vs[i].tid == t;
      assert ws[i] in ws;
    }
  }

  /** `this.windows[tid].field = ...` for the thread at position `k`: only
      that window changes, and the table keeps its threads. */
  function SetWindow(ws: seq<Entry>, k: nat, w: Window): (r: seq<Entry>)
    requires k < |ws|
    ensures SameThreads(ws, r) && ThreadIds(r) == ThreadIds(ws)
    ensures DistinctThreads(ws) ==> DistinctThreads(r)
    ensures r[k].win == w && forall i :: 0 <= i < |ws| && i != k ==> r[i] == ws[i]
  {
    var r := ws[k := Entry(ws[k].tid, w)];
    SameThreadsKeepTable(ws, r);
    r
  }

  /** 1 for a window that is showing, 0 for a minimized one. */
  function Shown(e: Entry): nat {
    if e.win.minimized then 0 else 1
  }

  /** Number of non-minimized windows. */
  function OpenCount(ws: seq<Entry>): (n: nat)
    ensures n <= |ws|
  {
    if ws == [] then 0 else Shown(ws[0]) + OpenCount(ws[1..])
  }

  lemma {:induction false} OpenCountUpdate(ws: seq<Entry>, k: nat, e: Entry)
    requires k < |ws|
    ensures OpenCount(ws[k := e]) == OpenCount(ws) - Shown(ws[k]) + Shown(e)
  {
    if k > 0 {
      assert ws[k := e][1..] == ws[1..][k - 1 := e];
      OpenCountUpdate(ws[1..], k - 1, e);
    } else {
      assert ws[k := e][1..] == ws[1..];
    }
  }

  lemma {:induction false} OpenCountAppend(ws: seq<Entry>, e: Entry)
    ensures OpenCount(ws + [e]) == OpenCount(ws) + Shown(e)
  {
    if ws == [] {
      assert [] + [e] == [e];
    } else {
      assert (ws + [e])[1..] == ws[1..] + [e];
      OpenCountAppend(ws[1..], e);
    }
  }

  /** Position of the first non-minimized window in table order. */
  function FirstOpen(ws: seq<Entry>): (r: Option<nat>)
    ensures r.None? <==> OpenCount(ws) == 0
    ensures r.Some? ==> r.value < |ws| && !ws[r.value].win.minimized
    ensures r.Some? ==> forall j :: 0 <= j < r.value ==> ws[j].win.minimized
  {
    if ws == [] then None
    else if !ws[0].win.minimized then Some(0)
    else
      match FirstOpen(ws[1..])
      case None => None
      case Some(k) => Some(k + 1)
  }

  function Minimized(e: Entry): Entry {
    Entry(e.tid, e.win.(minimized := true))
  }

  /** `enforceMaxWindows`: when the budget is already used up, minimize the
      oldest window that is showing. */
  function EnforceMax(ws: seq<Entry>): (r: seq<Entry>)
    ensures SameThreads(ws, r)
    ensures OpenCount(r) == if OpenCount(ws) >= MaxOpenWindows then OpenCount(ws) - 1 else OpenCount(ws)
  {
    if OpenCount(ws) >= MaxOpenWindows then
      var k := FirstOpen(ws).value;
      OpenCountUpdate(ws, k, Minimized(ws[k]));
      ws[k := Minimized(ws[k])]
    else ws
  }

  /** The oldest window that is showing: non-minimized, and every window
      before it in the table is minimized. */
  predicate IsOldestShown(ws: seq<Entry>, i: nat)
    requires i < |ws|
  {
    !ws[i].win.minimized && forall j :: 0 <= j < i ==> ws[j].win.minimized
  }

  /** `enforceMaxWindows` changes exactly one entry, the oldest window that is
      showing, and only when at least `MaxOpenWindows` are showing; in that
      entry it only sets the minimized flag. */
  lemma EnforceMaxMinimizesOldest(ws: seq<Entry>)
    ensures var r := EnforceMax(ws);
      forall i :: 0 <= i < |ws| ==>
        (r[i] != ws[i] <==> OpenCount(ws) >= MaxOpenWindows && IsOldestShown(ws, i))
    ensures var r := EnforceMax(ws);
      forall i :: 0 <= i < |ws| ==> r[i] == ws[i] || r[i] == Minimized(ws[i])
  {
    var r := EnforceMax(ws);
    if OpenCount(ws) >= MaxOpenWindows {
      var k := FirstOpen(ws).value;
      forall i | 0 <= i < |ws|
        ensures r[i] != ws[i] <==> IsOldestShown(ws, i)
      {
        if i < k {
          assert !IsOldestShown(ws, i);
        } else if i > k {
          assert !IsOldestShown(ws, i) by { assert !ws[k].win.minimized; }
        }
      }
    }
  }

  /** `this.windows[tid] = w`: an existing key keeps its place in the
      enumeration order, a new key goes last. */
  function Put(ws: seq<Entry>, tid: ThreadId, w: Window): (r: seq<Entry>)
    ensures ThreadIds(r) == ThreadIds(ws) + {tid}
    ensures DistinctThreads(ws) ==> DistinctThreads(r)
    ensures IndexOf(r, tid).Some? && r[IndexOf(r, tid).value].win == w
    ensures tid in ThreadIds(ws) ==> |r| == |ws| && IndexOf(r, tid) == IndexOf(ws, tid)
    ensures tid !in ThreadIds(ws) ==> r == ws + [Entry(tid, w)]
    ensures forall i :: 0 <= i < |ws| && ws[i].tid != tid ==> r[i] == ws[i]
  {
    match IndexOf(ws, tid)
    case Some(k) =>
      var r := ws[k := Entry(tid, w)];
      assert ThreadIds(r) == ThreadIds(ws) by {
        forall t | t in ThreadIds(ws) ensures t in ThreadIds(r) {
          var i :| 0 <= i < |ws| && ws[i].tid == t;
          assert r[i] in r && r[i].tid == t;
        }
        forall t | t in ThreadIds(r) ensures t in ThreadIds(ws) {
          var i :| 0 <= i < |r| && r[i].tid == t;
          assert ws[i] in ws && ws[i].tid == t;
        }
      }
      IndexOfIs(r, tid, k);
      r
    case None =>
      var r := ws + [Entry(tid, w)];
      assert ThreadIds(r) == ThreadIds(ws) + {tid} by {
        assert forall e | e in r :: e == Entry(tid, w) || e in ws;
      }
      assert r[|ws|].tid == tid;
      r
  }

  /** `delete this.windows[tid]`: the entry goes, the others keep their order. */
  function Remove(ws: seq<Entry>, tid: ThreadId): (r: seq<Entry>)
    ensures tid !in ThreadIds(ws) ==> r == ws
    ensures |r| == if tid in ThreadIds(ws) then |ws| - 1 else |ws|
    ensures DistinctThreads(ws) ==> DistinctThreads(r) && ThreadIds(r) == ThreadIds(ws) - {tid}
    ensures forall e :: e in r ==> e in ws
    ensures DistinctThreads(ws) ==> forall i, j :: 0 <= i < j < |r| ==> InOrder(ws, r[i].tid, r[j].tid)
  {
    match IndexOf(ws, tid)
    case None => ws
    case Some(k) =>
      DeleteAt(ws, k);
      ws[..k] + ws[k + 1..]
  }

  /** Thread `a` comes before thread `b` in the table. */
  predicate InOrder(ws: seq<Entry>, a: ThreadId, b: ThreadId) {
    IndexOf(ws, a).Some? && IndexOf(ws, b).Some? && IndexOf(ws, a).value < IndexOf(ws, b).value
  }

  lemma DeleteAt(ws: seq<Entry>, k: nat)
    requires k < |ws|
    ensures var r := ws[..k] + ws[k + 1..];
      && (forall e :: e in r ==> e in ws)
      && (DistinctThreads(ws) ==> DistinctThreads(r) && ThreadIds(r) == ThreadIds(ws) - {ws[k].tid})
      && (DistinctThreads(ws) ==> forall i, j :: 0 <= i < j < |r| ==> InOrder(ws, r[i].tid, r[j].tid))
  {
    var r := ws[..k] + ws[k + 1..];
    DeleteAtShifts(ws, k);
    if DistinctThreads(ws) {
      DeleteAtThreads(ws, k);
      DeleteAtOrder(ws, k);
    }
  }

  /** After deleting position `k`, position `i` holds what was at `i`
      before `k` and at `i + 1` from `k` on. */
  lemma DeleteAtShifts(ws: seq<Entry>, k: nat)
    requires k < |ws|
    ensures var r := ws[..k] + ws[k + 1..];
      |r| == |ws| - 1 && forall i :: 0 <= i < |r| ==> r[i] == if i < k then ws[i] else ws[i + 1]
  {
  }

  lemma DeleteAtThreads(ws: seq<Entry>, k: nat)
    requires k < |ws| && DistinctThreads(ws)
    ensures var r := ws[..k] + ws[k + 1..];
      DistinctThreads(r) && ThreadIds(r) == ThreadIds(ws) - {ws[k].tid}
  {
    var r := ws[..k] + ws[k + 1..];
    DeleteAtShifts(ws, k);
    var tid := ws[k].tid;
    forall t | t in ThreadIds(ws) - {tid} ensures t in ThreadIds(r) {
      var i :| 0 <= i < |ws| && ws[i].tid == t;
      if i < k { assert r[i] in r; } else { assert i > k; assert r[i - 1] in r; }
    }
    forall t | t in ThreadIds(r) ensures t in ThreadIds(ws) - {tid} {
      var i :| 0 <= i < |r| && r[i].tid == t;
      if i < k { assert ws[i] in ws; } else { assert ws[i + 1] in ws; }
    }
  }

  lemma DeleteAtOrder(ws: seq<Entry>, k: nat)
    requires k < |ws| && DistinctThreads(ws)
    ensures var r := ws[..k] + ws[k + 1..];
      forall i, j :: 0 <= i < j < |r| ==> InOrder(ws, r[i].tid, r[j].tid)
  {
    var r := ws[..k] + ws[k + 1..];
    DeleteAtShifts(ws, k);
    forall i, j | 0 <= i < j < |r| ensures InOrder(ws, r[i].tid, r[j].tid) {
      var i' := if i < k then i else i + 1;
      var j' := if j < k then j else j + 1;
      assert r[i] == ws[i'] && r[j] == ws[j'];
      IndexOfDistinct(ws, i');
      IndexOfDistinct(ws, j');
    }
  }

  /** Position of the first window opened with `friendId` (the loop at the
      top of `openChat`). */
  function FriendWindow(ws: seq<Entry>, friendId: UserId): (r: Option<nat>)
    ensures r.None? <==> forall i :: 0 <= i < |ws| ==> ws[i].win.friendId != friendId
    ensures r.Some? ==> r.value < |ws| && ws[r.value].win.friendId == friendId
    ensures r.Some? ==> forall j :: 0 <= j < r.value ==> ws[j].win.friendId != friendId
  {
    if ws == [] then None
    else if ws[0].win.friendId == friendId then Some(0)
    else
      match FriendWindow(ws[1..], friendId)
      case None => None
      case Some(k) => Some(k + 1)
  }

  /** The window a successful join creates. */
  function FreshWindow(friendId: UserId, friendName: string, messages: seq<Message>): Window {
    Window(friendId, friendName, false, 0, messages, false, map[])
  }

  /** The table after a join completes: the budget step, then the fresh
      window stored under the thread. The thread is in the table afterwards
      and no other thread comes or goes. */
  function JoinCompleted(ws: seq<Entry>, tid: ThreadId, w: Window): (r: seq<Entry>)
    ensures ThreadIds(r) == ThreadIds(ws) + {tid}
    ensures DistinctThreads(ws) ==> DistinctThreads(r)
  {
    SameThreadsKeepTable(ws, EnforceMax(ws));
    Put(EnforceMax(ws), tid, w)
  }

  /** A join completion first enforces the budget and then stores a showing
      window; if the budget held before, it holds after, and a thread new to
      the table makes the count grow by one unless the budget was full. */
  lemma JoinKeepsBudget(ws: seq<Entry>, tid: ThreadId, w: Window)
    requires DistinctThreads(ws) && !w.minimized
    ensures var r := JoinCompleted(ws, tid, w);
      OpenCount(ws) <= MaxOpenWindows ==> OpenCount(r) <= MaxOpenWindows
    ensures var r := JoinCompleted(ws, tid, w);
      tid !in ThreadIds(ws) ==>
        OpenCount(r) == if OpenCount(ws) >= MaxOpenWindows then OpenCount(ws) else OpenCount(ws) + 1
  {
    var m := EnforceMax(ws);
    EnforceMaxMinimizesOldest(ws);
    SameThreadsKeepTable(ws, m);
    match IndexOf(m, tid)
    case Some(k) =>
      OpenCountUpdate(m, k, Entry(tid, w));
    case None =>
      OpenCountAppend(m, Entry(tid, w));
  }

  /** The table after `restoreWindow`: the window is shown with no unread
      messages, and then the budget is enforced. */
  function RestoreAt(ws: seq<Entry>, k: nat): (r: seq<Entry>)
    requires k < |ws|
    ensures SameThreads(ws, r) && ThreadIds(r) == ThreadIds(ws)
    ensures DistinctThreads(ws) ==> DistinctThreads(r)
    ensures r[k].tid == ws[k].tid && r[k].win == ws[k].win.(minimized := r[k].win.minimized, unread := 0)
    ensures forall i :: 0 <= i < |ws| && i != k && r[i] != ws[i] ==> r[i] == Minimized(ws[i])
  {
    var shown := SetWindow(ws, k, ws[k].win.(minimized := false, unread := 0));
    SameThreadsKeepTable(shown, EnforceMax(shown));
    EnforceMaxMinimizesOldest(shown);
    EnforceMax(SetWindow(ws, k, ws[k].win.(minimized := false, unread := 0)))
  }

  /** Restoring a window never pushes the count of showing windows above the
      budget if it was within the budget before. */
  lemma RestoreKeepsBudget(ws: seq<Entry>, k: nat)
    requires k < |ws| && OpenCount(ws) <= MaxOpenWindows
    ensures OpenCount(RestoreAt(ws, k)) <= MaxOpenWindows
  {
    var e := Entry(ws[k].tid, ws[k].win.(minimized := false, unread := 0));
    OpenCountUpdate(ws, k, e);
  }

  /** As written, `restoreWindow` enforces the budget after un-minimizing, so
      the restored window itself is minimized again exactly when it is the
      oldest window showing and the budget is then exceeded. */
  lemma RestoreMayReminimize(ws: seq<Entry>, k: nat)
    requires k < |ws|
    ensures var shown := SetWindow(ws, k, ws[k].win.(minimized := false, unread := 0));
      RestoreAt(ws, k)[k].win.minimized <==>
        OpenCount(shown) >= MaxOpenWindows && forall j :: 0 <= j < k ==> ws[j].win.minimized
  {
    var shown := SetWindow(ws, k, ws[k].win.(minimized := false, unread := 0));
    EnforceMaxMinimizesOldest(shown);
    assert RestoreAt(ws, k)[k] != shown[k] <==> RestoreAt(ws, k)[k].win.minimized;
    assert IsOldestShown(shown, k) <==> forall j :: 0 <= j < k ==> ws[j].win.minimized by {
      assert forall j :: 0 <= j < k ==> shown[j] == ws[j];
    }
  }

  /** Showing a window again without enforcing the budget, as `openChat`
      and `joinThread` do for a thread that already has a window, can take
      the count of showing windows past the budget. */
  lemma ReuseMayExceedBudget(ws: seq<Entry>, k: nat)
    requires k < |ws| && ws[k].win.minimized && OpenCount(ws) == MaxOpenWindows
    ensures OpenCount(SetWindow(ws, k, ws[k].win.(minimized := false))) == MaxOpenWindows + 1
    ensures OpenCount(SetWindow(ws, k, ws[k].win.(minimized := false, unread := 0))) == MaxOpenWindows + 1
  {
    OpenCountUpdate(ws, k, Entry(ws[k].tid, ws[k].win.(minimized := false)));
    OpenCountUpdate(ws, k, Entry(ws[k].tid, ws[k].win.(minimized := false, unread := 0)));
  }

  /** A join completion does not look for an existing window: for a thread
      that has one by then, the window keeps its place and is replaced by
      the fresh one, dropping its messages, unread count and reactions. */
  lemma JoinReplacesWindow(ws: seq<Entry>, tid: ThreadId, w: Window)
    requires DistinctThreads(ws) && tid in ThreadIds(ws)
    ensures var r := JoinCompleted(ws, tid, w);
      |r| == |ws| && IndexOf(r, tid) == IndexOf(ws, tid) && r[IndexOf(ws, tid).value].win == w
  {
    var m := EnforceMax(ws);
    SameThreadsKeepTable(ws, m);
    var k := IndexOf(ws, tid).value;
    IndexOfIs(m, tid, k);
  }

  /** At most one window per friend: the design's intent for `openChat`. */
  predicate OneWindowPerFriend(ws: seq<Entry>) {
    forall i, j :: 0 <= i < j < |ws| ==> ws[i].win.friendId != ws[j].win.friendId
  }

  /** The intent does not hold. `openChat` looks for a window with the
      friend, but a window exists only once a join completes. Two
      `openChat` calls for one friend before either reply find no window,
      so both send `open_chat`; when the replies name two threads, both are
      joined (no window has either thread), and the two completions leave
      two windows with the same friend. */
  lemma TwoRepliesTwoWindows(out: seq<Push>, friends: seq<Friend>, f: UserId,
                             t1: ThreadId, t2: ThreadId, msgs: seq<Message>)
    requires t1 != t2
    ensures FriendWindow([], f).None?
    ensures var n := FriendName(friends, f);
      var (ws1, out1, joins1) := RequestJoin([], out, [], friends, t1, f);
      RequestJoin(ws1, out1, joins1, friends, t2, f)
        == ([], out + [Push(Topic(t1), Join), Push(Topic(t2), Join)], [JoinRequest(t1, f, n), JoinRequest(t2, f, n)])
    ensures var w := FreshWindow(f, FriendName(friends, f), msgs);
      var r := JoinCompleted(JoinCompleted([], t1, w), t2, w);
      && r == [Entry(t1, w), Entry(t2, w)]
      && !OneWindowPerFriend(r)
  {
    var n := FriendName(friends, f);
    assert IndexOf([], t1) == None && IndexOf([], t2) == None;
    assert out + [Push(Topic(t1), Join)] + [Push(Topic(t2), Join)] == out + [Push(Topic(t1), Join), Push(Topic(t2), Join)];
    assert [] + [JoinRequest(t1, f, n)] + [JoinRequest(t2, f, n)] == [JoinRequest(t1, f, n), JoinRequest(t2, f, n)];
    TwoCompletions(FreshWindow(f, n, msgs), t1, t2);
  }

  /** Below the budget, a completion for a thread with no window appends
      the fresh window at the end of the table. */
  lemma JoinCompletedAppends(ws: seq<Entry>, tid: ThreadId, w: Window)
    requires tid !in ThreadIds(ws) && OpenCount(ws) < MaxOpenWindows
    ensures JoinCompleted(ws, tid, w) == ws + [Entry(tid, w)]
  {
    assert EnforceMax(ws) == ws;
  }

  /** Two completions for two new threads, into an empty table, store two
      windows in completion order. */
  lemma TwoCompletions(w: Window, t1: ThreadId, t2: ThreadId)
    requires t1 != t2 && !w.minimized
    ensures JoinCompleted(JoinCompleted([], t1, w), t2, w) == [Entry(t1, w), Entry(t2, w)]
  {
    JoinCompletedAppends([], t1, w);
    var r1 := [Entry(t1, w)];
    assert [] + [Entry(t1, w)] == r1;
    assert OpenCount(r1) == 1 by { assert r1[1..] == []; }
    assert ThreadIds(r1) == {t1};
    JoinCompletedAppends(r1, t2, w);
  }

  // ---------------------------------------------------------------------
  // Inbound messages

  predicate HasMessage(msgs: seq<Message>, id: MessageId) {
    exists i :: 0 <= i < |msgs| && msgs[i].id == id
  }

  /** How many messages carry this id. */
  function IdCount(msgs: seq<Message>, id: MessageId): nat {
    if msgs == [] then 0
    else (if msgs[|msgs| - 1].id == id then 1 else 0) + IdCount(msgs[..|msgs| - 1], id)
  }

  lemma {:induction false} IdCountZero(msgs: seq<Message>, id: MessageId)
    ensures IdCount(msgs, id) == 0 <==> !HasMessage(msgs, id)
  {
    if msgs != [] {
      var init := msgs[..|msgs| - 1];
      IdCountZero(init, id);
      assert HasMessage(msgs, id) <==> HasMessage(init, id) || msgs[|msgs| - 1].id == id by {
        if HasMessage(msgs, id) {
          var i :| 0 <= i < |msgs| && msgs[i].id == id;
          if i < |msgs| - 1 { assert init[i] == msgs[i]; }
        }
        if HasMessage(init, id) {
          var i :| 0 <= i < |init| && init[i].id == id;
          assert msgs[i] == init[i];
        }
      }
    }
  }

  /** `handleNewMessage` on the window of its thread: the new window, and
      whether a `mark_read` is pushed. */
  function Receive(w: Window, msg: Message, me: UserId): (r: (Window, bool))
    ensures HasMessage(r.0.messages, msg.id)
    ensures |w.messages| <= |r.0.messages| <= |w.messages| + 1 && r.0.messages[..|w.messages|] == w.messages
    ensures r.1 ==> msg.senderId != me && !w.minimized && !HasMessage(w.messages, msg.id)
  {
    if HasMessage(w.messages, msg.id) then (w, false)
    else
      var w1 := w.(messages := w.messages + [msg], seen := false);
      assert w1.messages[|w.messages|] == msg;
      if msg.senderId == me then (w1, false)
      else if w.minimized then (w1.(unread := w.unread + 1), false)
      else (w1, true)
  }

  /** A redelivered message changes nothing, and a new one is appended at the
      end with `seen` reset; only `messages`, `seen` and `unread` ever change. */
  lemma ReceiveDedup(w: Window, msg: Message, me: UserId)
    ensures var (w', markRead) := Receive(w, msg, me);
      HasMessage(w.messages, msg.id) ==> w' == w && !markRead
    ensures var (w', markRead) := Receive(w, msg, me);
      !HasMessage(w.messages, msg.id) ==> w'.messages == w.messages + [msg] && !w'.seen
    ensures var (w', _) := Receive(w, msg, me);
      w'.friendId == w.friendId && w'.friendName == w.friendName &&
      w'.minimized == w.minimized && w'.reactions == w.reactions
  {
  }

  /** Unread and mark-read routing for a message not seen before: one's own
      message does neither; a remote one bumps `unread` by one if the window
      is minimized and otherwise asks for one `mark_read`. */
  lemma ReceiveRouting(w: Window, msg: Message, me: UserId)
    requires !HasMessage(w.messages, msg.id)
    ensures var (w', markRead) := Receive(w, msg, me);
      msg.senderId == me ==> w'.unread == w.unread && !markRead
    ensures var (w', markRead) := Receive(w, msg, me);
      msg.senderId != me && w.minimized ==> w'.unread == w.unread + 1 && !markRead
    ensures var (w', markRead) := Receive(w, msg, me);
      msg.senderId != me && !w.minimized ==> w'.unread == w.unread && markRead
  {
  }

  /** Delivering a message twice is delivering it once, and leaves exactly
      one copy of its id when there was none before. */
  lemma {:induction false} ReceiveTwice(w: Window, msg: Message, me: UserId)
    ensures var (w1, _) := Receive(w, msg, me);
      Receive(w1, msg, me) == (w1, false)
    ensures var (w1, _) := Receive(w, msg, me);
      !HasMessage(w.messages, msg.id) ==> IdCount(w1.messages, msg.id) == 1
  {
    var (w1, _) := Receive(w, msg, me);
    if !HasMessage(w.messages, msg.id) {
      IdCountZero(w.messages, msg.id);
      assert w1.messages[..|w1.messages| - 1] == w.messages;
    }
  }

  /** Distinct message ids stay distinct. */
  lemma ReceiveKeepsIdsDistinct(w: Window, msg: Message, me: UserId)
    requires forall i, j :: 0 <= i < j < |w.messages| ==> w.messages[i].id != w.messages[j].id
    ensures var (w', _) := Receive(w, msg, me);
      forall i, j :: 0 <= i < j < |w'.messages| ==> w'.messages[i].id != w'.messages[j].id
  {
  }

  // ---------------------------------------------------------------------
  // Persisted snapshot and join requests

  function SavedOf(e: Entry): SavedEntry {
    SavedEntry(e.tid, Saved(e.win.friendId, e.win.friendName, e.win.minimized))
  }

  /** `saveState`'s object `{tid: {friendId, friendName, minimized}}`, in
      the table's order. */
  function Snapshot(ws: seq<Entry>): (r: seq<SavedEntry>)
    ensures |r| == |ws|
  {
    seq(|ws|, i requires 0 <= i < |ws| => SavedOf(ws[i]))
  }

  /** The table's windows with the flags recorded in a snapshot (and as
      they are otherwise) give back the snapshot: the three saved fields are
      all the snapshot depends on. */
  lemma SnapshotIgnoresTransientState(ws: seq<Entry>, vs: seq<Entry>)
    requires |ws| == |vs|
    requires forall i :: 0 <= i < |ws| ==> SavedOf(ws[i]) == SavedOf(vs[i])
    ensures Snapshot(ws) == Snapshot(vs)
  {
  }

  /** `friend ? friend.display_name : "Chat"` with `this.friends.find(f => f.id === friendId)`. */
  function FriendName(friends: seq<Friend>, friendId: UserId): (name: string)
    ensures (exists i :: 0 <= i < |friends| && friends[i].id == friendId) ==>
      exists i :: 0 <= i < |friends| && friends[i].id == friendId && name == friends[i].displayName
    ensures (forall i :: 0 <= i < |friends| ==> friends[i].id != friendId) ==> name == "Chat"
  {
    if friends == [] then "Chat"
    else if friends[0].id == friendId then friends[0].displayName
    else
      var name := FriendName(friends[1..], friendId);
      assert forall i :: 1 <= i < |friends| ==> friends[i] == friends[1..][i - 1];
      name
  }

  /** Extending a prefix by one element, after a fixed sequence. */
  lemma AppendPrefixStep<T>(a: seq<T>, s: seq<T>, i: nat)
    requires i < |s|
    ensures a + s[..i + 1] == (a + s[..i]) + [s[i]]
  {
    assert s[..i + 1] == s[..i] + [s[i]];
  }

  /** `joinThread` at request time, on the window table, the pushes so far
      and the joins in flight: a known thread is only un-minimized; an
      unknown one gets a join of its channel. */
  function RequestJoin(ws: seq<Entry>, out: seq<Push>, joins: seq<JoinRequest>,
                       friends: seq<Friend>, tid: ThreadId, friendId: UserId)
    : (r: (seq<Entry>, seq<Push>, seq<JoinRequest>))
    ensures ThreadIds(r.0) == ThreadIds(ws) && (DistinctThreads(ws) ==> DistinctThreads(r.0))
    ensures || (IndexOf(r.0, tid).Some? && !r.0[IndexOf(r.0, tid).value].win.minimized && r.1 == out && r.2 == joins)
            || (tid !in ThreadIds(ws) && r.0 == ws && r.1 == out + [Push(Topic(tid), Join)]
                && r.2 == joins + [JoinRequest(tid, friendId, FriendName(friends, friendId))])
    ensures tid in ThreadIds(ws) ==>
      var k := IndexOf(ws, tid).value;
      && r.1 == out && r.2 == joins && |r.0| == |ws|
      && r.0[k].win == ws[k].win.(minimized := false)
      && forall i :: 0 <= i < |ws| && i != k ==> r.0[i] == ws[i]
  {
    match IndexOf(ws, tid)
    case Some(k) => (SetWindow(ws, k, ws[k].win.(minimized := false)), out, joins)
    case None =>
      (ws, out + [Push(Topic(tid), Join)], joins + [JoinRequest(tid, friendId, FriendName(friends, friendId))])
  }

  /** A join request never adds or removes a window. */
  lemma RequestJoinKeepsTable(ws: seq<Entry>, out: seq<Push>, joins: seq<JoinRequest>,
                              friends: seq<Friend>, tid: ThreadId, friendId: UserId)
    ensures var (ws', out', joins') := RequestJoin(ws, out, joins, friends, tid, friendId);
      |ws'| == |ws| && (forall i :: 0 <= i < |ws| ==> ws'[i].tid == ws[i].tid) &&
      (tid in ThreadIds(ws) ==> out' == out && joins' == joins) &&
      (tid !in ThreadIds(ws) ==> ws' == ws && out' == out + [Push(Topic(tid), Join)])
  {
  }

  /** For a thread that already has a window, a second join request finds
      the same window already showing and changes nothing more. */
  lemma {:induction false} RequestJoinReuseIdempotent(ws: seq<Entry>, out: seq<Push>, joins: seq<JoinRequest>,
                                                      friends: seq<Friend>, tid: ThreadId, friendId: UserId)
    requires tid in ThreadIds(ws)
    ensures var r := RequestJoin(ws, out, joins, friends, tid, friendId);
      RequestJoin(r.0, r.1, r.2, friends, tid, friendId) == r
  {
    var r := RequestJoin(ws, out, joins, friends, tid, friendId);
    var k := IndexOf(ws, tid).value;
    assert IndexOf(r.0, tid) == Some(k) by {
      assert r.0[k].tid == tid;
    }
    assert r.0[k].win.(minimized := false) == r.0[k].win;
    assert SetWindow(r.0, k, r.0[k].win) == r.0;
  }

  /** The joins `attemptRestore` issues, one per persisted thread, in order. */
  function RequestJoins(ws: seq<Entry>, out: seq<Push>, joins: seq<JoinRequest>,
                        friends: seq<Friend>, pending: seq<SavedEntry>)
    : (r: (seq<Entry>, seq<Push>, seq<JoinRequest>))
    ensures ThreadIds(r.0) == ThreadIds(ws) && (DistinctThreads(ws) ==> DistinctThreads(r.0))
    ensures joins <= r.2
  {
    if pending == [] then (ws, out, joins)
    else
      var last := pending[|pending| - 1];
      var (ws1, out1, joins1) := RequestJoins(ws, out, joins, friends, pending[..|pending| - 1]);
      RequestJoin(ws1, out1, joins1, friends, last.tid, last.info.friendId)
  }

  /** One join push per pending thread, in order. */
  function JoinPushes(pending: seq<SavedEntry>): (r: seq<Push>)
    ensures |r| == |pending|
    ensures forall i :: 0 <= i < |pending| ==> r[i] == Push(Topic(pending[i].tid), Join)
  {
    if pending == [] then []
    else JoinPushes(pending[..|pending| - 1]) + [Push(Topic(pending[|pending| - 1].tid), Join)]
  }

  /** One join request per pending thread, in order, named from the friend list. */
  function JoinRequests(friends: seq<Friend>, pending: seq<SavedEntry>): (r: seq<JoinRequest>)
    ensures |r| == |pending|
    ensures forall i :: 0 <= i < |pending| ==>
      r[i] == JoinRequest(pending[i].tid, pending[i].info.friendId, FriendName(friends, pending[i].info.friendId))
  {
    if pending == [] then []
    else
      var last := pending[|pending| - 1];
      JoinRequests(friends, pending[..|pending| - 1]) + [JoinRequest(last.tid, last.info.friendId, FriendName(friends, last.info.friendId))]
  }

  /** On an empty table, `attemptRestore`'s joins push one join per pending
      thread and request one join per pending thread, in order. */
  lemma {:induction false} JoinsOnEmptyTable(out: seq<Push>, joins: seq<JoinRequest>,
                                             friends: seq<Friend>, pending: seq<SavedEntry>)
    ensures RequestJoins([], out, joins, friends, pending)
         == ([], out + JoinPushes(pending), joins + JoinRequests(friends, pending))
  {
    if pending != [] {
      var n := |pending| - 1;
      var init := pending[..n];
      JoinsOnEmptyTable(out, joins, friends, init);
      var (ws1, out1, joins1) := RequestJoins([], out, joins, friends, init);
      var last := pending[n];
      assert IndexOf(ws1, last.tid) == None;
      assert RequestJoins([], out, joins, friends, pending)
          == ([], out1 + [Push(Topic(last.tid), Join)],
              joins1 + [JoinRequest(last.tid, last.info.friendId, FriendName(friends, last.info.friendId))]);
      assert out1 + [Push(Topic(last.tid), Join)] == out + JoinPushes(pending);
      assert joins1 + [JoinRequest(last.tid, last.info.friendId, FriendName(friends, last.info.friendId))]
          == joins + JoinRequests(friends, pending);
    } else {
      assert out + JoinPushes(pending) == out && joins + JoinRequests(friends, pending) == joins;
    }
  }

  /** The round trip from `saveState` to `attemptRestore` on a fresh page,
      whose table is empty: the restore pushes, in table order, one join of
      every saved window's channel, and requests each join for the saved
      friend, with the name looked up in the friend list; no window exists
      until a join completes. The settle timers are the snapshot itself, so
      timer `i` carries window `i`'s thread and minimized flag. */
  lemma RestoreRejoinsSnapshot(ws: seq<Entry>, out: seq<Push>, friends: seq<Friend>)
    ensures RequestJoins([], out, [], friends, Snapshot(ws))
         == ([], out + JoinPushes(Snapshot(ws)), JoinRequests(friends, Snapshot(ws)))
    ensures |JoinPushes(Snapshot(ws))| == |ws|
    ensures forall i :: 0 <= i < |ws| ==> JoinPushes(Snapshot(ws))[i] == Push(Topic(ws[i].tid), Join)
    ensures |JoinRequests(friends, Snapshot(ws))| == |ws|
    ensures forall i :: 0 <= i < |ws| ==>
      JoinRequests(friends, Snapshot(ws))[i] == JoinRequest(ws[i].tid, ws[i].win.friendId, FriendName(friends, ws[i].win.friendId))
    ensures forall i :: 0 <= i < |ws| ==>
      Snapshot(ws)[i].tid == ws[i].tid && Snapshot(ws)[i].info.minimized == ws[i].win.minimized
  {
    JoinsOnEmptyTable(out, [], friends, Snapshot(ws));
    assert [] + JoinRequests(friends, Snapshot(ws)) == JoinRequests(friends, Snapshot(ws));
  }

  /** After the restore's joins, every persisted thread either has a window
      that is showing or has a join of its channel in flight for the
      persisted friend; the table holds the same threads as before. */
  lemma {:induction false} RestoreCoversSnapshot(ws: seq<Entry>, out: seq<Push>, joins: seq<JoinRequest>,
                                                 friends: seq<Friend>, pending: seq<SavedEntry>)
    requires DistinctThreads(ws)
    ensures var (ws', _, joins') := RequestJoins(ws, out, joins, friends, pending);
      forall p :: p in pending ==>
        (p.tid in ThreadIds(ws') && !ws'[IndexOf(ws', p.tid).value].win.minimized) ||
        JoinRequest(p.tid, p.info.friendId, FriendName(friends, p.info.friendId)) in joins'
  {
    if pending != [] {
      var init := pending[..|pending| - 1];
      var last := pending[|pending| - 1];
      RestoreCoversSnapshot(ws, out, joins, friends, init);
      var (ws1, out1, joins1) := RequestJoins(ws, out, joins, friends, init);
      var (ws2, out2, joins2) := RequestJoin(ws1, out1, joins1, friends, last.tid, last.info.friendId);
      RequestJoinKeepsTable(ws1, out1, joins1, friends, last.tid, last.info.friendId);
      SameThreadsKeepTable(ws1, ws2);
      forall p | p in pending
        ensures (p.tid in ThreadIds(ws2) && !ws2[IndexOf(ws2, p.tid).value].win.minimized) ||
                JoinRequest(p.tid, p.info.friendId, FriendName(friends, p.info.friendId)) in joins2
      {
        if p == last {
          if IndexOf(ws1, p.tid).Some? {
            IndexOfDistinct(ws2, IndexOf(ws1, p.tid).value);
          } else {
            assert joins2[|joins2| - 1] == JoinRequest(p.tid, p.info.friendId, FriendName(friends, p.info.friendId));
          }
        } else {
          assert p in init;
          if p.tid in ThreadIds(ws1) && !ws1[IndexOf(ws1, p.tid).value].win.minimized {
            var i := IndexOf(ws1, p.tid).value;
            IndexOfDistinct(ws2, i);
          } else {
            assert joins1 <= joins2;
          }
        }
      }
    }
  }
}
