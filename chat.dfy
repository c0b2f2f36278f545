/** The chat session controller: one `Chat` object per page, holding the
    friend list, presence, the table of open chat windows and the typing
    bookkeeping, driven by user actions, channel events and timers.

    Pushes and channel joins and leaves are appended to `outbox`. A request
    whose reply arrives later (`open_chat`, a thread join) is kept in a list
    of requests in flight; the reply or failure is a separate method that
    names the request by its position. Timers are explicit in the same way:
    the debounce timers are the set `typingTimers`, the hide timers the map
    `hideTimers`, and the timers set by a restore the list `settleTimers`. */
module ChatSession {
  import opened ChatModel
  import opened JsText
  import opened Reactions
  import opened Typing
  import opened Contacts

  class Chat {
    const userId: UserId
    var friends: seq<Friend>
    var friendsLoaded: bool
    var onlineUserIds: set<UserId>
    var windows: seq<Entry>
    var contactsFilter: string
    var typingTimers: set<ThreadId>
    var typingUsers: Typists
    var hideTimers: HideTimers
    var nextTimer: nat
    var pendingRestore: Option<seq<SavedEntry>>
    var restored: bool
    /** The value under `pb_chat_windows` in session storage. */
    var stored: Option<seq<SavedEntry>>
    var outbox: seq<Push>
    /** Friends whose `open_chat` push is waiting for its reply. */
    var openRequests: seq<UserId>
    var joinRequests: seq<JoinRequest>
    /** The 500 ms timers `attemptRestore` sets, one per persisted thread. */
    var settleTimers: seq<SavedEntry>

    /** `render` restores the persisted windows as soon as friends are known. */
    predicate RestoreDue()
      reads this`friends, this`pendingRestore, this`restored
    {
      |friends| > 0 && pendingRestore.Some? && !restored
    }

    /** The window table has one entry per thread, a debounce timer only
        runs for a thread with a window, the typing indicators agree with
        their hide timers, and no restore is left waiting for a render. */
    ghost predicate Valid()
      reads this`windows, this`typingTimers, this`typingUsers, this`hideTimers, this`nextTimer
      reads this`friends, this`pendingRestore, this`restored
    {
      && DistinctThreads(windows)
      && typingTimers <= ThreadIds(windows)
      && Consistent(typingUsers, hideTimers, nextTimer)
      && !RestoreDue()
    }

    /** The controller after construction, with the persisted windows (if
        any could be read) waiting to be restored. */
    constructor (userId: UserId, saved: Option<seq<SavedEntry>>)
      ensures Valid()
      ensures this.userId == userId && friends == [] && !friendsLoaded && onlineUserIds == {}
      ensures windows == [] && contactsFilter == "" && typingTimers == {}
      ensures typingUsers == map[] && hideTimers == map[] && nextTimer == 0
      ensures pendingRestore == saved && !restored && stored == saved
      ensures outbox == [] && openRequests == [] && joinRequests == [] && settleTimers == []
    {
      this.userId := userId;
      friends := [];
      friendsLoaded := false;
      onlineUserIds := {};
      windows := [];
      contactsFilter := "";
      typingTimers := {};
      typingUsers := map[];
      hideTimers := map[];
      nextTimer := 0;
      pendingRestore := saved;
      restored := false;
      stored := saved;
      outbox := [];
      openRequests := [];
      joinRequests := [];
      settleTimers := [];
    }

    // -------------------------------------------------------------------
    // Lobby

    /** The answer to `get_friends`: the list on success; on an error or a
        timeout (of the push or of the lobby join) the old list. Either way
        loading is over, and the render that follows restores the persisted
        windows once there are friends. */
    method ReceiveFriends(result: Option<seq<Friend>>)
      requires Valid()
      modifies this`friends, this`friendsLoaded, this`windows, this`outbox, this`joinRequests
      modifies this`settleTimers, this`pendingRestore, this`restored
      ensures Valid()
      ensures friendsLoaded && friends == result.GetOr(old(friends))
      ensures if |friends| > 0 && old(pendingRestore).Some? && !old(restored) then
          && (windows, outbox, joinRequests)
             == RequestJoins(old(windows), old(outbox), old(joinRequests), friends, old(pendingRestore).value)
          && settleTimers == old(settleTimers) + old(pendingRestore).value
          && pendingRestore == None && restored
        else
          && windows == old(windows) && outbox == old(outbox) && joinRequests == old(joinRequests)
          && settleTimers == old(settleTimers) && pendingRestore == old(pendingRestore)
          && restored == old(restored)
    {
      if result.Some? {
        friends := result.value;
      }
      friendsLoaded := true;
      if RestoreDue() {
        AttemptRestore();
      }
    }

    /** `updateOnlineStatus`: the online set is the set of presence keys. */
    method UpdateOnlineStatus(presenceKeys: set<UserId>)
      requires Valid()
      modifies this`onlineUserIds
      ensures Valid() && onlineUserIds == presenceKeys
    {
      onlineUserIds := presenceKeys;
    }

    /** The contact search box: the filter is kept lower-cased. */
    method SetContactsFilter(value: string)
      requires Valid()
      modifies this`contactsFilter
      ensures Valid() && contactsFilter == ToLower(value)
    {
      contactsFilter := ToLower(value);
    }

    // -------------------------------------------------------------------
    // Opening and joining

    /** `openChat`: a window already open with the friend (the first in
        table order) is shown with no unread messages; otherwise an
        `open_chat` push goes to the lobby. */
    method OpenChat(friendId: UserId)
      requires Valid()
      modifies this`windows, this`outbox, this`openRequests
      ensures Valid()
      ensures match FriendWindow(old(windows), friendId)
        case Some(k) =>
          && windows == SetWindow(old(windows), k, old(windows)[k].win.(minimized := false, unread := 0))
          && outbox == old(outbox) && openRequests == old(openRequests)
        case None =>
          && windows == old(windows)
          && outbox == old(outbox) + [Push(Lobby, OpenChatReq(friendId))]
          && openRequests == old(openRequests) + [friendId]
    {
      var i := 0;
      while i < |windows|
        invariant 0 <= i <= |windows|
        invariant forall j :: 0 <= j < i ==> windows[j].win.friendId != friendId
      {
        if windows[i].win.friendId == friendId {
          windows := SetWindow(windows, i, windows[i].win.(minimized := false, unread := 0));
          return;
        }
        i := i + 1;
      }
      outbox := outbox + [Push(Lobby, OpenChatReq(friendId))];
      openRequests := openRequests + [friendId];
    }

    /** The `ok` reply to the `i`-th `open_chat` push: join the thread. */
    method OpenChatReplied(i: nat, tid: ThreadId)
      requires Valid() && i < |openRequests|
      modifies this`openRequests, this`windows, this`outbox, this`joinRequests
      ensures Valid()
      ensures openRequests == old(openRequests[..i] + openRequests[i + 1..])
      ensures (windows, outbox, joinRequests)
           == RequestJoin(old(windows), old(outbox), old(joinRequests), friends, tid, old(openRequests[i]))
    {
      var friendId := openRequests[i];
      openRequests := openRequests[..i] + openRequests[i + 1..];
      JoinThread(tid, friendId);
    }

    /** The `error` reply to the `i`-th `open_chat` push. */
    method OpenChatFailed(i: nat)
      requires Valid() && i < |openRequests|
      modifies this`openRequests
      ensures Valid() && openRequests == old(openRequests[..i] + openRequests[i + 1..])
    {
      openRequests := openRequests[..i] + openRequests[i + 1..];
    }

    /** `joinThread`: a thread with a window is only un-minimized; otherwise
        its channel is joined, with the friend's display name looked up now. */
    method JoinThread(tid: ThreadId, friendId: UserId)
      requires DistinctThreads(windows)
      modifies this`windows, this`outbox, this`joinRequests
      ensures (windows, outbox, joinRequests)
           == RequestJoin(old(windows), old(outbox), old(joinRequests), friends, tid, friendId)
      ensures DistinctThreads(windows) && ThreadIds(windows) == old(ThreadIds(windows))
    {
      match IndexOf(windows, tid)
      case Some(k) =>
        windows := SetWindow(windows, k, windows[k].win.(minimized := false));
      case None =>
        var friendName := FriendName(friends, friendId);
        outbox := outbox + [Push(Topic(tid), Join)];
        joinRequests := joinRequests + [JoinRequest(tid, friendId, friendName)];
    }

    /** The `ok` reply to the `i`-th join: enforce the budget, then store a
        fresh showing window under the thread (replacing any window there),
        and save. */
    method JoinOk(i: nat, messages: Option<seq<Message>>)
      requires Valid() && i < |joinRequests|
      modifies this`joinRequests, this`windows, this`stored
      ensures Valid()
      ensures joinRequests == old(joinRequests[..i] + joinRequests[i + 1..])
      ensures var r := old(joinRequests[i]);
        windows == JoinCompleted(old(windows), r.tid, FreshWindow(r.friendId, r.friendName, messages.GetOr([])))
      ensures stored == Some(Snapshot(windows))
    {
      var r := joinRequests[i];
      joinRequests := joinRequests[..i] + joinRequests[i + 1..];
      OpenJoined(r.tid, FreshWindow(r.friendId, r.friendName, messages.GetOr([])));
    }

    /** The window of a completed join goes into the table, which is then saved. */
    method OpenJoined(tid: ThreadId, w: Window)
      requires Valid()
      modifies this`windows, this`stored
      ensures Valid()
      ensures windows == JoinCompleted(old(windows), tid, w)
      ensures stored == Some(Snapshot(windows))
    {
      windows := JoinCompleted(windows, tid, w);
      var state := SaveState(windows);
      stored := Some(state);
    }

    /** The `error` reply to the `i`-th join. */
    method JoinFailed(i: nat)
      requires Valid() && i < |joinRequests|
      modifies this`joinRequests
      ensures Valid() && joinRequests == old(joinRequests[..i] + joinRequests[i + 1..])
    {
      joinRequests := joinRequests[..i] + joinRequests[i + 1..];
    }

    /** `enforceMaxWindows`. */
    method EnforceMaxWindows()
      requires DistinctThreads(windows)
      modifies this`windows
      ensures windows == EnforceMax(old(windows))
      ensures DistinctThreads(windows) && ThreadIds(windows) == old(ThreadIds(windows))
    {
      SameThreadsKeepTable(windows, EnforceMax(windows));
      windows := EnforceMax(windows);
    }

    // -------------------------------------------------------------------
    // Thread channel events

    /** `new_message` on a thread: see `Receive`; a `mark_read` push goes to
        the thread's channel when it asks for one. */
    method HandleNewMessage(tid: ThreadId, msg: Message)
      requires Valid()
      modifies this`windows, this`outbox
      ensures Valid()
      ensures match IndexOf(old(windows), tid)
        case None => windows == old(windows) && outbox == old(outbox)
        case Some(k) =>
          var (w, markRead) := Receive(old(windows)[k].win, msg, userId);
          && windows == SetWindow(old(windows), k, w)
          && outbox == old(outbox) + (if markRead then [Push(Topic(tid), MarkRead)] else [])
    {
      match IndexOf(windows, tid)
      case None =>
      case Some(k) =>
        var (w, markRead) := Receive(windows[k].win, msg, userId);
        windows := SetWindow(windows, k, w);
        if markRead {
          outbox := outbox + [Push(Topic(tid), MarkRead)];
        }
    }

    /** `typing` on a thread: one's own echo is ignored. */
    method HandleTyping(tid: ThreadId, uid: UserId, displayName: string)
      requires Valid()
      modifies this`typingUsers, this`hideTimers, this`nextTimer
      ensures Valid()
      ensures uid == userId ==>
        typingUsers == old(typingUsers) && hideTimers == old(hideTimers) && nextTimer == old(nextTimer)
      ensures uid != userId ==>
        (typingUsers, hideTimers) == Show(old(typingUsers), old(hideTimers), tid, uid, displayName, old(nextTimer))
        && nextTimer == old(nextTimer) + 1
    {
      if uid != userId {
        ShowTyping(tid, uid, displayName);
      }
    }

    /** `read_receipt` on a thread: a receipt from the other side marks the
        window seen. */
    method HandleReadReceipt(tid: ThreadId, uid: UserId)
      requires Valid()
      modifies this`windows
      ensures Valid()
      ensures match IndexOf(old(windows), tid)
        case Some(k) => uid != userId ==> windows == SetWindow(old(windows), k, old(windows)[k].win.(seen := true))
        case None => true
      ensures uid == userId || IndexOf(old(windows), tid).None? ==> windows == old(windows)
    {
      if uid != userId {
        match IndexOf(windows, tid)
        case Some(k) =>
          windows := SetWindow(windows, k, windows[k].win.(seen := true));
        case None =>
      }
    }

    /** `handleReaction`: the message's list (created empty if missing) is
        updated as `ApplyReaction` says. */
    method HandleReaction(tid: ThreadId, messageId: MessageId, uid: UserId, userName: string,
                          emoji: string, action: string)
      requires Valid()
      modifies this`windows
      ensures Valid()
      ensures match IndexOf(old(windows), tid)
        case None => windows == old(windows)
        case Some(k) =>
          var w := old(windows)[k].win;
          var rs := if messageId in w.reactions then w.reactions[messageId] else [];
          windows == SetWindow(old(windows), k,
            w.(reactions := w.reactions[messageId := ApplyReaction(rs, uid, userName, emoji, action)]))
    {
      match IndexOf(windows, tid)
      case None =>
      case Some(k) =>
        var w := windows[k].win;
        var rs := if messageId in w.reactions then w.reactions[messageId] else [];
        var updated := ApplyReaction(rs, uid, userName, emoji, action);
        windows := SetWindow(windows, k, w.(reactions := w.reactions[messageId := updated]));
    }

    // -------------------------------------------------------------------
    // User actions on a window

    /** `sendMessage`: a blank body sends nothing; otherwise the trimmed
        body is pushed on the thread's channel, the debounce timer is
        cleared and `stop_typing` follows. */
    method SendMessage(tid: ThreadId, body: string)
      requires Valid()
      modifies this`outbox, this`typingTimers
      ensures Valid()
      ensures if Trim(body) == [] || tid !in ThreadIds(windows) then
          outbox == old(outbox) && typingTimers == old(typingTimers)
        else
          && outbox == old(outbox) + [Push(Topic(tid), NewMessage(Trim(body))), Push(Topic(tid), StopTyping)]
          && typingTimers == old(typingTimers) - {tid}
    {
      var trimmed := Trim(body);
      if trimmed == [] {
        return;
      }
      if tid !in ThreadIds(windows) {
        return;
      }
      outbox := outbox + [Push(Topic(tid), NewMessage(trimmed))];
      ClearTypingTimer(tid);
      outbox := outbox + [Push(Topic(tid), StopTyping)];
    }

    /** `sendReaction`: a `react` push on the thread's channel. */
    method SendReaction(tid: ThreadId, messageId: MessageId, emoji: string)
      requires Valid()
      modifies this`outbox
      ensures Valid()
      ensures outbox == old(outbox) + (if tid in ThreadIds(windows) then [Push(Topic(tid), React(messageId, emoji))] else [])
    {
      if tid in ThreadIds(windows) {
        outbox := outbox + [Push(Topic(tid), React(messageId, emoji))];
      }
    }

    /** `sendTyping`: see `SignalTyping`; the debounce timer is (re)armed. */
    method SendTyping(tid: ThreadId)
      requires Valid()
      modifies this`outbox, this`typingTimers
      ensures Valid()
      ensures tid !in ThreadIds(windows) ==> outbox == old(outbox) && typingTimers == old(typingTimers)
      ensures tid in ThreadIds(windows) ==>
        var (armed, evs) := SignalTyping(old(typingTimers), tid);
        typingTimers == armed && outbox == old(outbox) + Pushes(Topic(tid), evs)
    {
      if tid !in ThreadIds(windows) {
        return;
      }
      if tid !in typingTimers {
        outbox := outbox + [Push(Topic(tid), Typing)];
      }
      typingTimers := typingTimers + {tid};
    }

    /** The debounce timer of `tid` fires: see `DebounceFired`. */
    method TypingTimerFired(tid: ThreadId)
      requires Valid() && tid in typingTimers
      modifies this`outbox, this`typingTimers
      ensures Valid()
      ensures var (armed, evs) := DebounceFired(old(typingTimers), tid);
        typingTimers == armed && outbox == old(outbox) + Pushes(Topic(tid), evs)
    {
      outbox := outbox + [Push(Topic(tid), StopTyping)];
      typingTimers := typingTimers - {tid};
    }

    /** `clearTypingTimer`. */
    method ClearTypingTimer(tid: ThreadId)
      modifies this`typingTimers
      ensures typingTimers == old(typingTimers) - {tid}
    {
      typingTimers := typingTimers - {tid};
    }

    /** `showTyping`, with `nextTimer` as the id of the new hide timer. */
    method ShowTyping(tid: ThreadId, uid: UserId, displayName: string)
      requires Consistent(typingUsers, hideTimers, nextTimer)
      modifies this`typingUsers, this`hideTimers, this`nextTimer
      ensures (typingUsers, hideTimers) == Show(old(typingUsers), old(hideTimers), tid, uid, displayName, old(nextTimer))
      ensures nextTimer == old(nextTimer) + 1
      ensures Consistent(typingUsers, hideTimers, nextTimer)
    {
      ShowConsistent(typingUsers, hideTimers, tid, uid, displayName, nextTimer);
      var (users, timers) := Show(typingUsers, hideTimers, tid, uid, displayName, nextTimer);
      typingUsers, hideTimers := users, timers;
      nextTimer := nextTimer + 1;
    }

    /** `hideTyping`, also the `stop_typing` handler of a thread. */
    method HideTyping(tid: ThreadId, uid: UserId)
      requires Valid()
      modifies this`typingUsers, this`hideTimers
      ensures Valid()
      ensures (typingUsers, hideTimers) == Hide(old(typingUsers), old(hideTimers), tid, uid)
    {
      HideConsistent(typingUsers, hideTimers, tid, uid, nextTimer);
      var (users, timers) := Hide(typingUsers, hideTimers, tid, uid);
      typingUsers, hideTimers := users, timers;
    }

    /** The hide timer `t` fires: see `Expire`. */
    method TypingExpired(t: nat)
      requires Valid() && t in hideTimers
      modifies this`typingUsers, this`hideTimers
      ensures Valid()
      ensures (typingUsers, hideTimers) == Expire(old(typingUsers), old(hideTimers), t)
    {
      ExpireKeepsConsistent(typingUsers, hideTimers, t, nextTimer);
      var (users, timers) := Expire(typingUsers, hideTimers, t);
      typingUsers, hideTimers := users, timers;
    }

    /** `closeWindow`: leave the thread's channel, drop its window and its
        typing indicators (their hide timers stay live), clear its debounce
        timer and save. */
    method CloseWindow(tid: ThreadId)
      requires Valid()
      modifies this`outbox, this`windows, this`typingUsers, this`typingTimers, this`stored
      ensures Valid()
      ensures outbox == old(outbox) + (if tid in old(ThreadIds(windows)) then [Push(Topic(tid), Leave)] else [])
      ensures windows == Remove(old(windows), tid) && ThreadIds(windows) == old(ThreadIds(windows)) - {tid}
      ensures typingUsers == old(typingUsers) - {tid} && typingTimers == old(typingTimers) - {tid}
      ensures stored == Some(Snapshot(windows))
    {
      if tid in ThreadIds(windows) {
        outbox := outbox + [Push(Topic(tid), Leave)];
      }
      windows := Remove(windows, tid);
      DropThreadConsistent(typingUsers, hideTimers, tid, nextTimer);
      typingUsers := typingUsers - {tid};
      ClearTypingTimer(tid);
      var state := SaveState(windows);
      stored := Some(state);
    }

    /** `minimizeWindow`. */
    method MinimizeWindow(tid: ThreadId)
      requires Valid()
      modifies this`windows, this`stored
      ensures Valid()
      ensures match IndexOf(old(windows), tid)
        case None => windows == old(windows) && stored == old(stored)
        case Some(k) =>
          windows == SetWindow(old(windows), k, old(windows)[k].win.(minimized := true))
          && stored == Some(Snapshot(windows))
    {
      match IndexOf(windows, tid)
      case None =>
      case Some(k) =>
        windows := SetWindow(windows, k, windows[k].win.(minimized := true));
        var state := SaveState(windows);
        stored := Some(state);
    }

    /** `restoreWindow`: show the window with no unread messages, push
        `mark_read`, enforce the budget and save. */
    method RestoreWindow(tid: ThreadId)
      requires Valid()
      modifies this`windows, this`outbox, this`stored
      ensures Valid()
      ensures match IndexOf(old(windows), tid)
        case None => windows == old(windows) && outbox == old(outbox) && stored == old(stored)
        case Some(k) =>
          && windows == RestoreAt(old(windows), k)
          && outbox == old(outbox) + [Push(Topic(tid), MarkRead)]
          && stored == Some(Snapshot(windows))
    {
      match IndexOf(windows, tid)
      case None =>
      case Some(k) =>
        outbox := outbox + [Push(Topic(tid), MarkRead)];
        windows := RestoreAt(windows, k);
        var state := SaveState(windows);
        stored := Some(state);
    }

    // -------------------------------------------------------------------
    // Persistence

    /** `saveState`: the list of persisted entries it builds, one per
        window in table order; the caller writes it to session storage
        (`stored`). */
    static method SaveState(ws: seq<Entry>) returns (state: seq<SavedEntry>)
      ensures state == Snapshot(ws)
    {
      state := [];
      for i := 0 to |ws|
        invariant state == Snapshot(ws[..i])
      {
        assert ws[..i + 1][..i] == ws[..i];
        state := state + [SavedEntry(ws[i].tid, Saved(ws[i].win.friendId, ws[i].win.friendName, ws[i].win.minimized))];
      }
      assert ws[..|ws|] == ws;
    }

    /** `attemptRestore`: once, join every persisted thread in order and set
        a timer per thread that re-applies its persisted minimized flag. */
    method AttemptRestore()
      requires DistinctThreads(windows)
      modifies this`windows, this`outbox, this`joinRequests, this`settleTimers
      modifies this`pendingRestore, this`restored
      ensures DistinctThreads(windows) && ThreadIds(windows) == old(ThreadIds(windows))
      ensures if old(pendingRestore).None? || old(restored) then
          && windows == old(windows) && outbox == old(outbox) && joinRequests == old(joinRequests)
          && settleTimers == old(settleTimers) && pendingRestore == old(pendingRestore)
          && restored == old(restored)
        else
          && (windows, outbox, joinRequests)
             == RequestJoins(old(windows), old(outbox), old(joinRequests), friends, old(pendingRestore).value)
          && settleTimers == old(settleTimers) + old(pendingRestore).value
          && pendingRestore == None && restored
    {
      if pendingRestore.None? || restored {
        return;
      }
      restored := true;
      var pending := pendingRestore.value;
      for i := 0 to |pending|
        invariant (windows, outbox, joinRequests)
               == RequestJoins(old(windows), old(outbox), old(joinRequests), friends, pending[..i])
        invariant settleTimers == old(settleTimers) + pending[..i]
        invariant restored
      {
        assert pending[..i + 1][..i] == pending[..i];
        AppendPrefixStep(old(settleTimers), pending, i);
        JoinThread(pending[i].tid, pending[i].info.friendId);
        settleTimers := settleTimers + [pending[i]];
      }
      assert pending[..|pending|] == pending;
      pendingRestore := None;
    }

    /** The `i`-th restore timer fires: a persisted minimized window that is
        open by now is minimized again (without saving). */
    method SettleFired(i: nat)
      requires Valid() && i < |settleTimers|
      modifies this`settleTimers, this`windows
      ensures Valid()
      ensures settleTimers == old(settleTimers[..i] + settleTimers[i + 1..])
      ensures var s := old(settleTimers[i]);
        match IndexOf(old(windows), s.tid)
        case Some(k) =>
          windows == if s.info.minimized then SetWindow(old(windows), k, old(windows)[k].win.(minimized := true))
                     else old(windows)
        case None => windows == old(windows)
    {
      var s := settleTimers[i];
      settleTimers := settleTimers[..i] + settleTimers[i + 1..];
      match IndexOf(windows, s.tid)
      case Some(k) =>
        if s.info.minimized {
          windows := SetWindow(windows, k, windows[k].win.(minimized := true));
        }
      case None =>
    }

    // -------------------------------------------------------------------
    // Views

    /** `getSortedFriends`. Without a filter the friend list itself is
        sorted in place. */
    method GetSortedFriends() returns (list: seq<Friend>)
      requires Valid()
      modifies this`friends
      ensures Valid()
      ensures list == SortedFriends(old(friends), contactsFilter, onlineUserIds)
      ensures friends == if contactsFilter == "" then list else old(friends)
    {
      list := SortedFriends(friends, contactsFilter, onlineUserIds);
      if contactsFilter == "" {
        SortedFriendsSpec(friends, contactsFilter, onlineUserIds);
        assert |list| == |friends| by {
          assert |multiset(list)| == |multiset(friends)|;
        }
        friends := list;
      }
    }

    /** `getOnlineCount`. */
    function GetOnlineCount(): (n: nat)
      reads this`friends, this`onlineUserIds
      ensures n <= |friends|
    {
      OnlineCount(friends, onlineUserIds)
    }

    /** The reactions recorded for a message, `[]` when the thread has no
        window or the message none. */
    function ReactionsOf(tid: ThreadId, messageId: MessageId): seq<Reaction>
      reads this`windows
    {
      match IndexOf(windows, tid)
      case None => []
      case Some(k) =>
        if messageId in windows[k].win.reactions then windows[k].win.reactions[messageId] else []
    }

    /** `getGroupedReactions`: one group per emoji, in order of first use,
        with the reacting users' names and their number. */
    method GetGroupedReactions(tid: ThreadId, messageId: MessageId) returns (groups: seq<Group>)
      ensures groups == GroupReactions(ReactionsOf(tid, messageId))
      ensures GroupsOf(groups, ReactionsOf(tid, messageId))
    {
      var rs := ReactionsOf(tid, messageId);
      groups := [];
      for i := 0 to |rs|
        invariant groups == GroupReactions(rs[..i])
      {
        GroupReactionsSnoc(rs, i);
        groups := AddToGroups(groups, rs[i]);
      }
      assert rs[..|rs|] == rs;
      GroupReactionsCorrect(rs);
    }
  }
}
