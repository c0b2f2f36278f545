# ParkBench chat controller, modelled in Dafny

ParkBench's in-page chat is driven by one JavaScript object, the `Chat`
class in `assets/js/chat.js`. It keeps the friend list and presence, a
table of chat windows keyed by thread id, local and remote typing
indicators, and a copy of the open windows in session storage. It reacts to
user actions (open a chat, send, react, minimize, restore, close), to
channel events (`new_message`, `typing`, `stop_typing`, `read_receipt`,
`reaction`) and to its own timers.

This project models that controller as the Dafny class
`ChatSession.Chat`. Its fields are the controller's state. Its methods are
the controller's operations, and each one is specified by the pure
functions of the other modules. Lemmas about those functions state what the
controller promises.

- `text.dfy` (`JsText`): the JavaScript string operations the controller
  uses: `trim`, `split(/\s+/)`, ASCII case mapping, `includes`, and a
  lexicographic order that stands in for `localeCompare`.
- `model.dfy` (`ChatModel`): messages, reactions and windows. It also holds
  the window table, an insertion-ordered sequence of thread/window
  entries. It defines the window budget, message delivery, the persisted
  snapshot and join requests.
- `reactions.dfy` (`Reactions`): the reaction list of one message, and the
  grouping of reactions by emoji.
- `typing.dfy` (`Typing`): the outbound debounce timer, and the inbound
  typing indicators with their hide timers.
- `contacts.dfy` (`Contacts`): the contact list (filter, online-first sort),
  and the online count.
- `avatars.dfy` (`Avatars`): the avatar colour hash and the initials.
- `chat.dfy` (`ChatSession`): the `Chat` class.

How the model represents the outside world:

- Every push is appended to `outbox`, as a channel (the lobby or
  `chat:<tid>`) plus an event. Joining and leaving a channel are recorded
  there too.
- A push whose reply comes later stays in a list of requests in flight:
  `openRequests` for `open_chat`, and `joinRequests` for a thread join. The
  reply and the failure are separate methods that take the request's
  position in that list.
- Timers are explicit:
  - `typingTimers` is the set of threads whose debounce timer is armed.
  - `hideTimers` maps a timer id to the typing indicator that timer hides.
  - `settleTimers` holds the 500 ms timers set by a restore.
  - Each kind of timer has a method that fires it.
- Session storage is the field `stored`.
- The presence set and the persisted state are passed in as values.

Windows are kept in the order in which their keys were first added, as
JavaScript enumerates string keys. JavaScript would list integer-like thread
ids in numeric order instead. The model assumes thread ids are not
integer-like. The same assumption covers the `grouped` object of
`getGroupedReactions` (chat.js:600-608), which is keyed by emoji:
`Object.values(grouped)` lists the groups in first-use order
(`GroupsInFirstUseOrder`) only because emoji keys are not integer-like.

Where the code falls short of what its comments and structure intend (at
most three showing windows, one window per friend, timers that end with
their window), the model follows the code:

- **The window budget is not an invariant.** `openChat` and `joinThread`
  show a window again without enforcing the budget (`ReuseMayExceedBudget`).
  Only a join completion and `restoreWindow` enforce it, and both keep the
  count at or below 3 when it was so before (`JoinKeepsBudget`,
  `RestoreKeepsBudget`).
- **Restoring can minimize the restored window.** `restoreWindow`
  un-minimizes first and enforces the budget after. When the restored
  window is the oldest one showing and the budget is full, it is minimized
  again (`RestoreMayReminimize`).
- **A join completion does not re-check for a window.** The check happens
  when the join is requested. If a window for the thread exists by the time
  the join completes, the completion replaces it with a fresh one
  (`JoinReplacesWindow`).
- **One friend can get two windows.** `openChat` (chat.js:264-274) looks
  for a window with the friend so that each friend has one. A window
  exists only once a join completes. Two `openChat` calls for the same
  friend before either reply both send `open_chat`. When the replies name
  two different threads, both threads are joined, and the two completions
  leave two windows for that friend (`TwoRepliesTwoWindows`, with
  `OneWindowPerFriend` as the intended property).
- **Closing a window leaves its hide timers running.** `closeWindow`
  deletes the thread's typing entries (chat.js:491) but does not clear
  their hide timers. Suppose the window is opened again and the same user
  is shown as typing. The orphaned timer still names that user's slot.
  When it fires, it hides the new indicator and clears the new timer
  before the new timer's 4-second delay has run
  (`OrphanTimerHidesNewIndicator`). The bookkeeping stays consistent all
  the same (`ExpireKeepsConsistent`).
- **The restore is driven by `render`, not by the socket connection.** It
  runs on the first render after the friend list is non-empty.
  `ReceiveFriends` is the only operation that can make the friend list
  non-empty, so the restore is modelled there. `Chat.Valid` includes the
  fact that no restore is ever left waiting, so the restore check in every
  other render does nothing.
- **A restored window gets its name from the friend list.** The persisted
  `friendName` is never read back.

## Model

| member | source | states |
|---|---|---|
| JsText.TrimProperties | assets/js/chat.js:404-405 | `trim` leaves no white space at either end, and its result is empty exactly when the body is all white space, so a blank body is dropped |
| JsText.TrimIsMiddle | assets/js/chat.js:404 | trimming a string made of a blank prefix, a trimmed middle and a blank suffix gives exactly the middle |
| JsText.TrimIdempotent | assets/js/chat.js:404 | trimming twice is trimming once |
| JsText.TrimOfTrimmed | assets/js/chat.js:404 | a string with no white space at either end is its own trim |
| JsText.Trim | assets/js/chat.js:404 | `trim` returns a string no longer than its input (that it leaves no white space at either end is `JsText.TrimProperties`) |
| JsText.SplitHead | assets/js/chat.js:61 | the first piece of `split(/\s+/)` is the string's leading run of non-space characters |
| JsText.Split | assets/js/chat.js:61 | `split(/\s+/)` returns at least one piece, and no piece holds white space |
| JsText.SplitLast | assets/js/chat.js:61 | on a string ending in a non-space character, the last piece of the split is a non-empty word with no white space |
| JsText.SplitSingle | assets/js/chat.js:61-62 | the split has one piece exactly when the string holds no white space |
| JsText.ToLowerIdempotent | assets/js/chat.js:248 | the lower-cased filter contains no upper-case ASCII letter, and lower-casing it again changes nothing |
| JsText.ToLower | assets/js/chat.js:248 | lower-casing keeps the length and maps each character on its own (ASCII letters only) |
| JsText.ToUpper | assets/js/chat.js:62-63 | upper-casing keeps the length and maps each character on its own (ASCII letters only) |
| JsText.Includes | assets/js/chat.js:579 | `includes` holds exactly when the needle occurs at some position of the name |
| JsText.LexLeTotal | assets/js/chat.js:588 | the name order used by the sort is total |
| JsText.LexLeTransitive | assets/js/chat.js:588 | the name order used by the sort is transitive |
| ChatModel.IndexOf | assets/js/chat.js:286 | the lookup `this.windows[threadId]` finds the thread's entry exactly when the thread has a window |
| ChatModel.Put | assets/js/chat.js:301-310 | assigning a thread's window adds the thread to the table, keeps an existing key in its place, appends a new key last, and leaves every other window alone |
| ChatModel.Remove | assets/js/chat.js:490 | `delete this.windows[threadId]` removes exactly that thread (one entry fewer when it was open, the same table when not), and the remaining windows keep their relative order |
| ChatModel.FriendWindow | assets/js/chat.js:266-267 | the loop in `openChat` finds the first window opened with the friend, if any |
| ChatModel.FirstOpen | assets/js/chat.js:347-352 | the oldest window showing is the first non-minimized entry in table order; there is none exactly when no window is showing |
| ChatModel.EnforceMax | assets/js/chat.js:346-355 | the budget step lowers the number of windows showing by one exactly when at least 3 are showing, and keeps every thread in its place |
| ChatModel.EnforceMaxMinimizesOldest | assets/js/chat.js:346-355 | a window changes exactly when at least 3 are showing and it is the oldest one showing, and then only its minimized flag is set |
| ChatModel.JoinCompleted | assets/js/chat.js:297-310 | after a join completes the thread is in the table, no other thread is added or removed, and the threads stay distinct |
| ChatModel.JoinKeepsBudget | assets/js/chat.js:297-310 | a join completion keeps the number of windows showing at or below 3 if it was so before; for a new thread the number grows by one unless the budget was full |
| ChatModel.JoinReplacesWindow | assets/js/chat.js:297-310 | a join completion for a thread that already has a window keeps the window's place and replaces it with the fresh window |
| ChatModel.JoinCompletedAppends | assets/js/chat.js:297-310 | below the budget, a completion for a thread with no window appends the fresh window at the end of the table |
| ChatModel.TwoCompletions | assets/js/chat.js:297-310 | two completions for two new threads into an empty table store two windows, in completion order |
| ChatModel.TwoRepliesTwoWindows | assets/js/chat.js:264-310 | with no window yet, both `openChat` calls for a friend send `open_chat`; the replies' two threads are both joined for that friend, and the two completions break the one-window-per-friend intent |
| ChatModel.RestoreAt | assets/js/chat.js:505-513 | restoring a window keeps the table's threads, position by position; the restored window keeps every field except that its unread count becomes 0 and its minimized flag is the budget step's; every other window is unchanged or only minimized |
| ChatModel.RestoreKeepsBudget | assets/js/chat.js:505-513 | restoring a window keeps the number of windows showing at or below 3 if it was so before |
| ChatModel.RestoreMayReminimize | assets/js/chat.js:505-513 | the restored window ends up minimized exactly when, with it shown, at least 3 windows are showing and every window before it is minimized |
| ChatModel.ReuseMayExceedBudget | assets/js/chat.js:266-273 | showing a minimized window again without the budget step, as `openChat` and `joinThread` do, can take the number showing to 4 |
| ChatModel.ReceiveDedup | assets/js/chat.js:357-365 | a message whose id is already there changes nothing and pushes nothing; a new one is appended at the end with `seen` reset; friend, name, minimized flag and reactions never change |
| ChatModel.ReceiveRouting | assets/js/chat.js:367-374 | one's own message neither counts as unread nor asks for `mark_read`; a remote one adds exactly 1 to `unread` if the window is minimized, and otherwise asks for exactly one `mark_read` |
| ChatModel.ReceiveTwice | assets/js/chat.js:362-364 | delivering a message twice is delivering it once, and a new id then occurs exactly once |
| ChatModel.ReceiveKeepsIdsDistinct | assets/js/chat.js:362-364 | if the message ids in a window are distinct, they stay distinct |
| ChatModel.Receive | assets/js/chat.js:357-374 | afterwards the window holds a message with the id; the old history is kept as a prefix, with at most the one new message after it; `mark_read` is asked for only for a new remote message in a showing window |
| ChatModel.IdCountZero | assets/js/chat.js:362 | an id occurs zero times exactly when no message carries it |
| ChatModel.Snapshot | assets/js/chat.js:529-537 | the saved state has one record per window |
| ChatModel.JoinsOnEmptyTable | assets/js/chat.js:558-559 | on a table with no windows, the restore loop pushes one join per saved thread and requests one join per saved thread, in the saved order |
| ChatModel.RestoreRejoinsSnapshot | assets/js/chat.js:529-566 | the round trip from saveState to attemptRestore on a fresh page: join i is pushed on window i's channel and requested for window i's friend, named from the friend list; no window exists before a join completes; settle timer i carries window i's thread and minimized flag |
| ChatModel.SnapshotIgnoresTransientState | assets/js/chat.js:531-536 | the saved state depends on nothing but those three fields: messages, unread count, seen flag and reactions are not persisted |
| ChatModel.FriendName | assets/js/chat.js:292-293 | the joined window is named after a friend with the id, or "Chat" when the friend list has none |
| ChatModel.RequestJoinKeepsTable | assets/js/chat.js:285-296 | a join request adds and removes no window; for a known thread it pushes nothing, and for an unknown one it leaves the table as it was and pushes one join of `chat:<tid>` |
| ChatModel.RequestJoin | assets/js/chat.js:285-296 | a join request keeps the table's threads and their distinctness; for a thread with a window, nothing is pushed or requested, that window keeps every field but `minimized`, which becomes false, and every other window is unchanged; for a thread without one, exactly one join is pushed on its channel and requested for the friend, named from the friend list |
| ChatModel.RequestJoinReuseIdempotent | assets/js/chat.js:285-289 | a second join request for a thread that has a window changes nothing more |
| ChatModel.RequestJoins | assets/js/chat.js:558-559 | the restore's joins, one per persisted thread in order, add and remove no thread, keep the threads distinct and only append to the joins in flight |
| ChatModel.RestoreCoversSnapshot | assets/js/chat.js:554-570 | after the restore's joins, every persisted thread either has a window that is showing or has a join in flight for the persisted friend; no window is added or removed |
| Reactions.Without | assets/js/chat.js:392-393 | filtering out a user/emoji pair keeps exactly the entries that are not that pair |
| Reactions.ApplyReactionSpec | assets/js/chat.js:386-398 | after `added` the pair occurs exactly once, as the last entry; after `removed` it does not occur; any other action leaves the list as it was |
| Reactions.OtherPairsKept | assets/js/chat.js:390-397 | with the acted-on pair filtered out, the list after `added` or `removed` is what it was before, so every other pair's entries are kept, in order |
| Reactions.AddAddRemove | assets/js/chat.js:390-397 | add, add, remove of one pair leaves no entry for it and the same list as a single remove |
| Reactions.AddIdempotent | assets/js/chat.js:390-394 | a repeated `added` event changes nothing |
| Reactions.WithoutCommutes | assets/js/chat.js:392-397 | filtering out two pairs can be done in either order, and filtering out one pair twice is filtering it once |
| Reactions.PairCountWithout | assets/js/chat.js:396-397 | after the filter, the pair occurs zero times |
| Reactions.ApplyReaction | assets/js/chat.js:386-398 | the new list holds only old entries and the new reaction; after `added` the new reaction is there; after `added` or `removed` every entry of another pair survives |
| Reactions.EmojiIndex | assets/js/chat.js:602 | the group for an emoji is found exactly when one exists |
| Reactions.AddToGroups | assets/js/chat.js:601-607 | one loop step keeps every group's emoji in place and adds one group exactly when the emoji had none; afterwards the emoji has a group |
| Reactions.GroupReactions | assets/js/chat.js:600-608 | there are no more groups than reactions, and none exactly when there are no reactions |
| Reactions.FirstUse | assets/js/chat.js:601-604 | the first reaction with the emoji, or the list's length when there is none |
| Reactions.FirstUseUsed | assets/js/chat.js:601-604 | an emoji has a first use exactly when some reaction names it |
| Reactions.GroupsInFirstUseOrder | assets/js/chat.js:600-608 | `Object.values(grouped)` lists the groups in the order in which their emojis were first used |
| Reactions.GroupReactionsCorrect | assets/js/chat.js:600-608 | the groups have distinct emojis, each holds the names of that emoji's reactions in order with `count` equal to their number, every emoji used has a group, and the groups come in the order of their emojis' first use |
| Reactions.AddToGroupsStep | assets/js/chat.js:601-607 | one iteration of the grouping loop keeps the groups exact for the reactions seen so far |
| Typing.BurstSignalsOnce | assets/js/chat.js:437-449 | any burst of `sendTyping` calls pushes `typing` once if no timer was armed and not at all otherwise, leaves the timer armed, and with the timer's firing adds exactly one `stop_typing` |
| Typing.SignalTyping | assets/js/chat.js:437-449 | after a keystroke the thread's timer is armed and no other thread's changes; `typing` is pushed, once, exactly when no timer was armed |
| Typing.DebounceFired | assets/js/chat.js:446-449 | the debounce timer's firing disarms the thread, no other, and pushes one `stop_typing` |
| Typing.ShowConsistent | assets/js/chat.js:457-469 | showing a typist replaces their old timer with a fresh one and keeps every indicator paired with its own live timer |
| Typing.Show | assets/js/chat.js:457-469 | the typist is recorded under the fresh timer, which points back at them; other threads and other typists of the thread are untouched; the typist's old timer is no longer live; no timer but the fresh one is added |
| Typing.HideConsistent | assets/js/chat.js:474-481 | hiding removes the user's indicator, drops the thread's map once it is empty, and keeps the indicators and timers paired |
| Typing.Hide | assets/js/chat.js:474-481 | the user is no longer shown in the thread; other threads and other typists of the thread are untouched; the user's timer is no longer live and no timer is added |
| Typing.HideUndoesShow | assets/js/chat.js:457-481 | `stop_typing` right after `typing` leaves the same indicators and live timers as hiding alone |
| Typing.ExpireIsHide | assets/js/chat.js:466-468 | when a typist's timer fires with nothing in between, the outcome equals an explicit `stop_typing` |
| Typing.Expire | assets/js/chat.js:466-468 | the fired timer is no longer live, no timer is added, and the slot it names is no longer shown |
| Typing.ExpireKeepsConsistent | assets/js/chat.js:466-468 | any hide timer firing, including one whose indicator was dropped when its window closed, keeps indicators and timers paired |
| Typing.OrphanTimerHidesNewIndicator | assets/js/chat.js:457-491 | after a close drops a thread's entries, a fresh `typing` from the same user gets a new timer while the old one still names the slot; the old timer's firing removes the new indicator and clears the new timer |
| Typing.DropThreadConsistent | assets/js/chat.js:491 | dropping a thread's typing indicators on close keeps the bookkeeping consistent |
| Contacts.FilterFriends | assets/js/chat.js:577-580 | the filtered list holds exactly the friends whose lower-cased name contains the filter, and takes nothing from elsewhere |
| Contacts.PrecedesTotal | assets/js/chat.js:583-589 | the sort's comparator orders any two friends one way or the other |
| Contacts.PrecedesTransitive | assets/js/chat.js:583-589 | the sort's comparator is transitive |
| Contacts.SortFriends | assets/js/chat.js:583-589 | the sort is a permutation |
| Contacts.Insert | assets/js/chat.js:583-589 | inserting into the sorted list adds exactly the one friend |
| Contacts.SortSorted | assets/js/chat.js:583-589 | the sorted list is ordered by the comparator |
| Contacts.SortedFriendsSpec | assets/js/chat.js:574-590 | the contact list is a permutation of the friends that match the filter (all friends when it is empty); every online friend precedes every offline one, and within each group the names are in order |
| Contacts.SortedFriends | assets/js/chat.js:574-590 | the contact list takes nothing but friends, and without a filter it is a permutation of them |
| Contacts.OnlineCountSort | assets/js/chat.js:592-594 | sorting does not change the online count |
| Contacts.OnlineCount | assets/js/chat.js:592-594 | the online count is at most the number of friends |
| Contacts.OnlineCountIsHeader | assets/js/chat.js:583-594 | in the unfiltered contact list, exactly the first `getOnlineCount` entries are online |
| Avatars.ToInt32 | assets/js/chat.js:54 | `| 0` wraps into the signed 32-bit range |
| Avatars.ToInt32Shift | assets/js/chat.js:54 | the wrap ignores multiples of 2^32 |
| Avatars.CodeUnits | assets/js/chat.js:53-54 | the loop reads UTF-16 code units, each below 2^16, at least one per character |
| Avatars.HashStepWraps | assets/js/chat.js:54 | one wrapped loop step on a wrapped value is the wrapped value of the next polynomial step |
| Avatars.HashStep | assets/js/chat.js:54 | one loop step lands in the signed 32-bit range |
| Avatars.HashOf | assets/js/chat.js:51-55 | the hash after the loop is in the signed 32-bit range |
| Avatars.HashIsPoly31 | assets/js/chat.js:50-57 | the hash is the base-31 polynomial hash of the code units, wrapped to 32 bits once at the end |
| Avatars.ColorIndex | assets/js/chat.js:50-57 | the palette index is always within the 8 colours |
| Avatars.PickColor | assets/js/chat.js:50-57 | the colour is the palette entry at the hash of the id (the first entry for the empty id) |
| Avatars.PartInitialsShape | assets/js/chat.js:62-63 | one or two upper-cased letters: the first piece's first character, then the last piece's when there are several |
| Avatars.InitialsOfBlank | assets/js/chat.js:59-62 | the empty name gives "?"; a name of white space only gives "" |
| Avatars.InitialsOfTrimmed | assets/js/chat.js:61-63 | for a non-empty trimmed name, the initials begin with its upper-cased first character and have a second letter exactly when it holds white space |
| Avatars.InitialsOfWords | assets/js/chat.js:59-64 | a name with a non-space character gets its upper-cased first non-space character and, exactly when it has several words, the upper-cased first character of its last word |
| Avatars.Initials | assets/js/chat.js:59-64 | the empty name gives "?", and no name gives more than two characters |
| ChatSession.Chat.constructor | assets/js/chat.js:67-91 | the initial state, with the persisted windows, if any could be read, waiting to be restored |
| ChatSession.Chat.ReceiveFriends | assets/js/chat.js:102-130 | friends are loaded (the old list on an error or timeout); the first render with friends restores the persisted windows once, as `RequestJoins`, setting one settle timer per thread |
| ChatSession.Chat.UpdateOnlineStatus | assets/js/chat.js:157-160 | the online set becomes the set of presence keys |
| ChatSession.Chat.SetContactsFilter | assets/js/chat.js:246-250 | the filter is the lower-cased input |
| ChatSession.Chat.OpenChat | assets/js/chat.js:264-283 | a window with the friend is shown with `unread` 0 and nothing is pushed; otherwise one `open_chat` goes to the lobby and no window changes |
| ChatSession.Chat.OpenChatReplied | assets/js/chat.js:277-279 | the `open_chat` reply joins the thread for that request's friend |
| ChatSession.Chat.OpenChatFailed | assets/js/chat.js:280-282 | an `open_chat` error only ends the request |
| ChatSession.Chat.JoinThread | assets/js/chat.js:285-296 | a known thread is only un-minimized; for an unknown one the channel is joined, with the name looked up at request time |
| ChatSession.Chat.JoinOk | assets/js/chat.js:297-340 | budget step, then a fresh showing window with the messages (or none), then save; there is no re-check for an existing window |
| ChatSession.Chat.OpenJoined | assets/js/chat.js:299-337 | the joined thread's window goes into the table after the budget step, and the new table is what is saved |
| ChatSession.Chat.JoinFailed | assets/js/chat.js:341-343 | a join error only ends the request |
| ChatSession.Chat.EnforceMaxWindows | assets/js/chat.js:346-355 | the table after `EnforceMax` |
| ChatSession.Chat.HandleNewMessage | assets/js/chat.js:357-380 | an unknown thread changes nothing; otherwise the window is updated as `Receive` says, and one `mark_read` is pushed when it asks for one |
| ChatSession.Chat.HandleTyping | assets/js/chat.js:316-320 | one's own `typing` echo is ignored; anyone else is shown as typing under a fresh hide timer |
| ChatSession.Chat.HandleReadReceipt | assets/js/chat.js:326-331 | a receipt from the other side on a known thread sets `seen`; nothing else changes |
| ChatSession.Chat.HandleReaction | assets/js/chat.js:382-401 | on a known thread, the message's list, created empty if missing, becomes `ApplyReaction` of it |
| ChatSession.Chat.SendMessage | assets/js/chat.js:403-418 | a blank body or unknown thread pushes nothing; otherwise `new_message` with the trimmed body then `stop_typing`, and the debounce timer is cleared |
| ChatSession.Chat.SendReaction | assets/js/chat.js:428-435 | one `react` push on a known thread |
| ChatSession.Chat.SendTyping | assets/js/chat.js:437-450 | on a known thread, `typing` is pushed only when no timer is armed, and the timer is armed afterwards |
| ChatSession.Chat.TypingTimerFired | assets/js/chat.js:446-449 | the debounce timer pushes `stop_typing` and disarms |
| ChatSession.Chat.ClearTypingTimer | assets/js/chat.js:452-455 | the thread's debounce timer is disarmed |
| ChatSession.Chat.ShowTyping | assets/js/chat.js:457-472 | the typist is recorded under a fresh timer, the old one is cleared, and the bookkeeping stays consistent |
| ChatSession.Chat.HideTyping | assets/js/chat.js:474-483 | the indicator and timer are removed as `Hide` says |
| ChatSession.Chat.TypingExpired | assets/js/chat.js:466-468 | a hide timer fires: its slot is hidden and the timer is gone |
| ChatSession.Chat.CloseWindow | assets/js/chat.js:485-495 | a known thread's channel is left; the window and its typing indicators are dropped, the debounce timer is cleared, and the state is saved |
| ChatSession.Chat.MinimizeWindow | assets/js/chat.js:497-503 | a known window is minimized and the state is saved |
| ChatSession.Chat.RestoreWindow | assets/js/chat.js:505-518 | a known window becomes `RestoreAt`, one `mark_read` is pushed, and the state is saved |
| ChatSession.Chat.SaveState | assets/js/chat.js:529-537 | the list built holds the snapshot of the table it is given; each caller then writes it to storage, as `saveState` does |
| ChatSession.Chat.AttemptRestore | assets/js/chat.js:554-570 | only once: every persisted thread is joined in order and gets a settle timer, and the pending state is dropped |
| ChatSession.Chat.SettleFired | assets/js/chat.js:561-566 | a settle timer minimizes its window again if it was persisted minimized and is open by now |
| ChatSession.Chat.GetSortedFriends | assets/js/chat.js:574-590 | the contact list as `SortedFriends`; without a filter the friend list itself becomes the sorted list |
| ChatSession.Chat.GetOnlineCount | assets/js/chat.js:592-594 | the number of friends online, at most the number of friends |
| ChatSession.Chat.GetGroupedReactions | assets/js/chat.js:596-609 | the groups of the message's reactions (none for an unknown thread or message), exact as `GroupsOf` says |

## Left out

- Rendering is not modelled: every `render*` method, `escapeHtml`, `scrollToBottom`, the contacts panel toggle and the reaction picker. The model only keeps the restore trigger that `render` contains.
- `bindEvents` is not modelled. It only dispatches DOM events to the operations above. `sendFromButton` reads the input field from the page, and `sendMessage` stands for it.
- `formatTime`, `formatDate` and `dayKey` are not modelled, because they depend on the clock and the local time zone.
- `connect` is not modelled: the socket, the lobby join and the `get_friends` push are Phoenix library calls. Their outcomes are the inputs of `ReceiveFriends`. Presence syncing is a library call too, and `UpdateOnlineStatus` receives its key set.
- Session storage and JSON (de)serialisation are not modelled. The stored value is a field, and an unreadable value is `None`.
- The constructor's early returns when the page lacks the config or root element are not modelled.
- Timer durations (3 s, 4 s, 500 ms) are not modelled. The model leaves open which pending timer or reply fires next.
- Message payload fields the controller never inspects (timestamps, shared posts) are not modelled.
- JsText.LexLe: `localeCompare` is replaced by code-point lexicographic order, because locale collation is not specified by the code.
- JsText.ToLower: `toLowerCase` is restricted to ASCII letters, because full Unicode case mapping is out of scope.
- JsText.ToUpper: `toUpperCase` is restricted to ASCII letters, for the same reason.
- Contacts.SortFriends: `Array.prototype.sort` is stable, but no contract states stability (the order among friends that compare equal); only the permutation and the ordering are proved.
- Avatars.InitialsOfWords: initials are whole characters, whereas `charAt(0)` would return half of a surrogate pair for a character above U+FFFF.
- ChatSession.Chat.HandleReadReceipt: on a thread without a window the source would throw before changing anything. The model changes nothing.
- The window table keeps values, not shared objects. A late timer or reply acts on the table's current window for its thread id, as the source's callbacks look the thread up again. The one exception is the debounce timer: it pushes on the channel object it captured, which the model records by thread id.
