/** Reactions on one message: the list update of `handleReaction` and the
    per-emoji grouping of `getGroupedReactions`. */
module Reactions {
  import opened ChatModel

  /** The reaction is `userId`'s reaction with `emoji`. */
  predicate IsPair(r: Reaction, userId: UserId, emoji: string) {
    r.userId == userId && r.emoji == emoji
  }

  /** `rs.filter(r => !(r.user_id === userId && r.emoji === emoji))`. */
  function Without(rs: seq<Reaction>, userId: UserId, emoji: string): (r: seq<Reaction>)
    ensures forall x :: x in r ==> x in rs && !IsPair(x, userId, emoji)
    ensures forall x :: x in rs && !IsPair(x, userId, emoji) ==> x in r
  {
    if rs == [] then []
    else (if IsPair(rs[0], userId, emoji) then [] else [rs[0]]) + Without(rs[1..], userId, emoji)
  }

  /** Number of entries for the pair. */
  function PairCount(rs: seq<Reaction>, userId: UserId, emoji: string): nat {
    if rs == [] then 0
    else (if IsPair(rs[0], userId, emoji) then 1 else 0) + PairCount(rs[1..], userId, emoji)
  }

  /** `handleReaction` on the list of one message (which starts as `[]`
      when the message had none). */
  function ApplyReaction(rs: seq<Reaction>, userId: UserId, userName: string, emoji: string, action: string)
    : (r: seq<Reaction>)
    ensures forall x :: x in r ==> x in rs || x == Reaction(emoji, userId, userName)
    ensures action == "added" ==> Reaction(emoji, userId, userName) in r
    ensures action == "added" || action == "removed" ==>
      forall x :: x in rs && !IsPair(x, userId, emoji) ==> x in r
  {
    if action == "added" then Without(rs, userId, emoji) + [Reaction(emoji, userId, userName)]
    else if action == "removed" then Without(rs, userId, emoji)
    else rs
  }

  lemma {:induction false} PairCountWithout(rs: seq<Reaction>, userId: UserId, emoji: string)
    ensures PairCount(Without(rs, userId, emoji), userId, emoji) == 0
  {
    if rs != [] {
      PairCountWithout(rs[1..], userId, emoji);
      var head := if IsPair(rs[0], userId, emoji) then [] else [rs[0]];
      PairCountConcat(head, Without(rs[1..], userId, emoji), userId, emoji);
    }
  }

  lemma {:induction false} PairCountConcat(a: seq<Reaction>, b: seq<Reaction>, userId: UserId, emoji: string)
    ensures PairCount(a + b, userId, emoji) == PairCount(a, userId, emoji) + PairCount(b, userId, emoji)
  {
    if a == [] {
      assert a + b == b;
    } else {
      assert (a + b)[1..] == a[1..] + b;
      PairCountConcat(a[1..], b, userId, emoji);
    }
  }

  lemma {:induction false} WithoutConcat(a: seq<Reaction>, b: seq<Reaction>, userId: UserId, emoji: string)
    ensures Without(a + b, userId, emoji) == Without(a, userId, emoji) + Without(b, userId, emoji)
  {
    if a == [] {
      assert a + b == b;
    } else {
      assert (a + b)[1..] == a[1..] + b;
      WithoutConcat(a[1..], b, userId, emoji);
    }
  }

  /** Filtering out one pair leaves every other pair's filtered view alone:
      removing (u, e) and then (u', e') is the same as removing them in the
      other order, and removing the same pair twice is removing it once. */
  lemma {:induction false} WithoutCommutes(rs: seq<Reaction>, u: UserId, e: string, u': UserId, e': string)
    ensures Without(Without(rs, u, e), u', e') == Without(Without(rs, u', e'), u, e)
    ensures Without(Without(rs, u, e), u, e) == Without(rs, u, e)
  {
    if rs != [] {
      WithoutCommutes(rs[1..], u, e, u', e');
      var h := if IsPair(rs[0], u, e) then [] else [rs[0]];
      var h' := if IsPair(rs[0], u', e') then [] else [rs[0]];
      WithoutConcat(h, Without(rs[1..], u, e), u', e');
      WithoutConcat(h', Without(rs[1..], u', e'), u, e);
      WithoutConcat(h, Without(rs[1..], u, e), u, e);
    }
  }

  /** After `added` the pair occurs exactly once, as the last entry; after
      `removed` it does not occur; in both cases the entries of every other
      pair are kept, in order. Any other action leaves the list as it was. */
  lemma ApplyReactionSpec(rs: seq<Reaction>, userId: UserId, userName: string, emoji: string, action: string)
    ensures var r := ApplyReaction(rs, userId, userName, emoji, action);
      action == "added" ==>
        PairCount(r, userId, emoji) == 1 && r[|r| - 1] == Reaction(emoji, userId, userName)
    ensures var r := ApplyReaction(rs, userId, userName, emoji, action);
      action == "removed" ==> PairCount(r, userId, emoji) == 0
    ensures action != "added" && action != "removed" ==> ApplyReaction(rs, userId, userName, emoji, action) == rs
  {
    PairCountWithout(rs, userId, emoji);
    if action == "added" {
      var added := [Reaction(emoji, userId, userName)];
      PairCountConcat(Without(rs, userId, emoji), added, userId, emoji);
    }
  }

  /** Other pairs' entries survive an add or remove unchanged and in order:
      with the acted-on pair filtered out, the list is what it was. */
  lemma OtherPairsKept(rs: seq<Reaction>, userId: UserId, userName: string, emoji: string, action: string)
    requires action == "added" || action == "removed"
    ensures Without(ApplyReaction(rs, userId, userName, emoji, action), userId, emoji)
         == Without(rs, userId, emoji)
  {
    WithoutCommutes(rs, userId, emoji, userId, emoji);
    if action == "added" {
      var one := [Reaction(emoji, userId, userName)];
      WithoutConcat(Without(rs, userId, emoji), one, userId, emoji);
      assert Without(one, userId, emoji) == [];
    }
  }

  /** The sequence add, add, remove of one pair leaves no entry for it, and
      the same list as a single remove. */
  lemma AddAddRemove(rs: seq<Reaction>, userId: UserId, userName: string, emoji: string)
    ensures var r := ApplyReaction(ApplyReaction(ApplyReaction(rs, userId, userName, emoji, "added"),
                                                 userId, userName, emoji, "added"),
                                   userId, userName, emoji, "removed");
      r == Without(rs, userId, emoji) && PairCount(r, userId, emoji) == 0
  {
    var w := Without(rs, userId, emoji);
    var one := [Reaction(emoji, userId, userName)];
    WithoutCommutes(rs, userId, emoji, userId, emoji);
    WithoutConcat(w, one, userId, emoji);
    assert Without(one, userId, emoji) == [];
    assert Without(w + one, userId, emoji) == w;
    PairCountWithout(rs, userId, emoji);
  }

  /** Re-adding the same reaction changes nothing. */
  lemma AddIdempotent(rs: seq<Reaction>, userId: UserId, userName: string, emoji: string)
    ensures var once := ApplyReaction(rs, userId, userName, emoji, "added");
      ApplyReaction(once, userId, userName, emoji, "added") == once
  {
    var w := Without(rs, userId, emoji);
    var one := [Reaction(emoji, userId, userName)];
    WithoutCommutes(rs, userId, emoji, userId, emoji);
    WithoutConcat(w, one, userId, emoji);
    assert Without(one, userId, emoji) == [];
  }

  // ---------------------------------------------------------------------
  // Grouping by emoji

  datatype Group = Group(emoji: string, count: nat, users: seq<string>)

  function EmojiIndex(gs: seq<Group>, emoji: string): (r: Option<nat>)
    ensures r.None? <==> forall i :: 0 <= i < |gs| ==> gs[i].emoji != emoji
    ensures r.Some? ==> r.value < |gs| && gs[r.value].emoji == emoji
  {
    if gs == [] then None
    else if gs[|gs| - 1].emoji == emoji then Some(|gs| - 1)
    else EmojiIndex(gs[..|gs| - 1], emoji)
  }

  /** One step of the loop in `getGroupedReactions`. */
  function AddToGroups(gs: seq<Group>, x: Reaction): (r: seq<Group>)
    ensures |r| == if EmojiIndex(gs, x.emoji).Some? then |gs| else |gs| + 1
    ensures forall i :: 0 <= i < |gs| ==> r[i].emoji == gs[i].emoji
    ensures EmojiIndex(r, x.emoji).Some?
  {
    match EmojiIndex(gs, x.emoji)
    case Some(k) => gs[k := Group(x.emoji, gs[k].count + 1, gs[k].users + [x.userName])]
    case None =>
      var r := gs + [Group(x.emoji, 1, [x.userName])];
      assert r[|gs|].emoji == x.emoji;
      r
  }

  /** `Object.values(grouped)` after the loop over the message's reactions. */
  function GroupReactions(rs: seq<Reaction>): (r: seq<Group>)
    ensures |r| <= |rs|
    ensures r == [] <==> rs == []
  {
    if rs == [] then [] else AddToGroups(GroupReactions(rs[..|rs| - 1]), rs[|rs| - 1])
  }

  /** One more reaction is one more step of the grouping loop. */
  lemma GroupReactionsSnoc(rs: seq<Reaction>, i: nat)
    requires i < |rs|
    ensures GroupReactions(rs[..i + 1]) == AddToGroups(GroupReactions(rs[..i]), rs[i])
  {
    assert rs[..i + 1][..i] == rs[..i];
  }

  /** The names of the users who reacted with `emoji`, in reaction order. */
  function NamesWith(rs: seq<Reaction>, emoji: string): seq<string> {
    if rs == [] then []
    else NamesWith(rs[..|rs| - 1], emoji) + (if rs[|rs| - 1].emoji == emoji then [rs[|rs| - 1].userName] else [])
  }

  /** The position of the first reaction with `emoji`, or `|rs|` if none. */
  function FirstUse(rs: seq<Reaction>, emoji: string): (r: nat)
    ensures r <= |rs|
    ensures r < |rs| ==> rs[r].emoji == emoji
  {
    if rs == [] then 0
    else
      var n := |rs| - 1;
      var f := FirstUse(rs[..n], emoji);
      if f < n then f else if rs[n].emoji == emoji then n else |rs|
  }

  /** An emoji has a first use exactly when some reaction uses it. */
  lemma {:induction false} FirstUseUsed(rs: seq<Reaction>, emoji: string)
    ensures FirstUse(rs, emoji) < |rs| <==> NamesWith(rs, emoji) != []
  {
    if rs != [] {
      FirstUseUsed(rs[..|rs| - 1], emoji);
    }
  }

  /** The groups describe `rs` exactly: one group per emoji used, holding the
      names of that emoji's reactions in order and their number, and the
      groups come in the order of each emoji's first use, the insertion
      order of `Object.values`. */
  ghost predicate GroupsOf(gs: seq<Group>, rs: seq<Reaction>) {
    && DistinctEmojis(gs)
    && NamesHeld(gs, rs)
    && CoversUsed(gs, rs)
    && InFirstUseOrder(gs, rs)
  }

  predicate DistinctEmojis(gs: seq<Group>) {
    forall i, j :: 0 <= i < j < |gs| ==> gs[i].emoji != gs[j].emoji
  }

  /** Each group holds the names of its emoji's reactions, and their number. */
  ghost predicate NamesHeld(gs: seq<Group>, rs: seq<Reaction>) {
    forall i :: 0 <= i < |gs| ==>
      gs[i].users == NamesWith(rs, gs[i].emoji) && gs[i].count == |gs[i].users| && gs[i].users != []
  }

  /** Every emoji used has a group. */
  ghost predicate CoversUsed(gs: seq<Group>, rs: seq<Reaction>) {
    forall e :: NamesWith(rs, e) != [] ==> EmojiIndex(gs, e).Some?
  }

  /** The groups' emojis' first uses, in group order. */
  function FirstUses(gs: seq<Group>, rs: seq<Reaction>): (r: seq<nat>)
    ensures |r| == |gs| && forall i :: 0 <= i < |gs| ==> r[i] == FirstUse(rs, gs[i].emoji)
  {
    seq(|gs|, i requires 0 <= i < |gs| => FirstUse(rs, gs[i].emoji))
  }

  predicate Increasing(a: seq<nat>) {
    forall i, j :: 0 <= i < j < |a| ==> a[i] < a[j]
  }

  ghost predicate InFirstUseOrder(gs: seq<Group>, rs: seq<Reaction>) {
    Increasing(FirstUses(gs, rs))
  }

  /** Appending a value larger than every element keeps a sequence increasing. */
  lemma IncreasingSnoc(a: seq<nat>, v: nat)
    requires Increasing(a) && forall i :: 0 <= i < |a| ==> a[i] < v
    ensures Increasing(a + [v])
  {
  }

  lemma {:induction false} GroupReactionsCorrect(rs: seq<Reaction>)
    ensures GroupsOf(GroupReactions(rs), rs)
  {
    if rs != [] {
      var init := rs[..|rs| - 1];
      GroupReactionsCorrect(init);
      LastReactionStep(GroupReactions(init), init, rs[|rs| - 1], rs);
    }
  }

  /** The groups come in the order in which their emojis were first used. */
  lemma GroupsInFirstUseOrder(rs: seq<Reaction>)
    ensures var gs := GroupReactions(rs);
      forall i, j :: 0 <= i < j < |gs| ==> FirstUse(rs, gs[i].emoji) < FirstUse(rs, gs[j].emoji) < |rs|
  {
    var gs := GroupReactions(rs);
    GroupReactionsCorrect(rs);
    var a := FirstUses(gs, rs);
    forall i, j | 0 <= i < j < |gs| ensures FirstUse(rs, gs[i].emoji) < FirstUse(rs, gs[j].emoji) < |rs| {
      assert a[i] < a[j];
      FirstUseUsed(rs, gs[j].emoji);
    }
  }

  /** What appending a reaction does to the names of every emoji. */
  ghost predicate NamesAppended(rs: seq<Reaction>, x: Reaction) {
    forall e :: NamesWith(rs + [x], e) == NamesWith(rs, e) + (if x.emoji == e then [x.userName] else [])
  }

  lemma NamesAppendedHolds(rs: seq<Reaction>, x: Reaction)
    ensures NamesAppended(rs, x)
  {
    forall e ensures NamesWith(rs + [x], e) == NamesWith(rs, e) + (if x.emoji == e then [x.userName] else []) {
      assert (rs + [x])[..|rs|] == rs;
    }
  }

  /** Appending a reaction keeps the first use of every emoji already used,
      and a new emoji is first used at the appended reaction. */
  lemma FirstUseSnoc(rs: seq<Reaction>, x: Reaction, e: string)
    ensures FirstUse(rs, e) < |rs| ==> FirstUse(rs + [x], e) == FirstUse(rs, e)
    ensures FirstUse(rs, e) == |rs| && x.emoji == e ==> FirstUse(rs + [x], e) == |rs|
  {
    assert (rs + [x])[..|rs|] == rs;
  }

  /** The grouping loop's step on the last reaction of `rs'`. */
  lemma LastReactionStep(gs: seq<Group>, rs: seq<Reaction>, x: Reaction, rs': seq<Reaction>)
    requires GroupsOf(gs, rs) && rs' != [] && rs == rs'[..|rs'| - 1] && x == rs'[|rs'| - 1]
    ensures GroupsOf(AddToGroups(gs, x), rs')
  {
    AddToGroupsStep(gs, rs, x);
    assert rs + [x] == rs';
  }

  /** One step of the grouping loop keeps the groups exact. */
  lemma AddToGroupsStep(gs: seq<Group>, rs: seq<Reaction>, x: Reaction)
    requires GroupsOf(gs, rs)
    ensures GroupsOf(AddToGroups(gs, x), rs + [x])
  {
    NamesAppendedHolds(rs, x);
    UsedKeepFirstUse(gs, rs, x);
    var gs' := AddToGroups(gs, x);
    match EmojiIndex(gs, x.emoji)
    case Some(k) =>
      assert gs' == gs[k := Group(x.emoji, gs[k].count + 1, gs[k].users + [x.userName])];
      ExistingGroupNames(gs, gs', rs, x, k);
      SameEmojisKeep(gs, gs', rs, x);
      FirstUsesKept(gs, gs', rs, x);
    case None =>
      assert gs' == gs + [Group(x.emoji, 1, [x.userName])];
      assert NamesWith(rs, x.emoji) == [];
      FirstUseUsed(rs, x.emoji);
      FirstUseSnoc(rs, x, x.emoji);
      NewGroupNames(gs, gs', rs, x);
      NewGroupDistinct(gs, gs', x.emoji);
      NewGroupCovers(gs, gs', rs, x);
      FirstUsesExtended(gs, gs', rs, rs + [x], x.emoji);
      IncreasingSnoc(FirstUses(gs, rs), |rs|);
  }

  /** Appending a reaction keeps the first use of every emoji with a group. */
  lemma UsedKeepFirstUse(gs: seq<Group>, rs: seq<Reaction>, x: Reaction)
    requires NamesHeld(gs, rs)
    ensures forall i :: 0 <= i < |gs| ==> FirstUse(rs + [x], gs[i].emoji) == FirstUse(rs, gs[i].emoji) < |rs|
  {
    forall i | 0 <= i < |gs| ensures FirstUse(rs + [x], gs[i].emoji) == FirstUse(rs, gs[i].emoji) < |rs| {
      assert NamesWith(rs, gs[i].emoji) != [];
      FirstUseUsed(rs, gs[i].emoji);
      FirstUseSnoc(rs, x, gs[i].emoji);
    }
  }

  /** A reaction with an emoji that has a group extends that group only. */
  lemma ExistingGroupNames(gs: seq<Group>, gs': seq<Group>, rs: seq<Reaction>, x: Reaction, k: nat)
    requires DistinctEmojis(gs) && NamesHeld(gs, rs) && NamesAppended(rs, x) && k < |gs| && gs[k].emoji == x.emoji
    requires gs' == gs[k := Group(x.emoji, gs[k].count + 1, gs[k].users + [x.userName])]
    ensures NamesHeld(gs', rs + [x])
  {
    forall i | 0 <= i < |gs'|
      ensures gs'[i].users == NamesWith(rs + [x], gs'[i].emoji)
      ensures gs'[i].count == |gs'[i].users| && gs'[i].users != []
    {
      assert NamesWith(rs + [x], gs[i].emoji) == NamesWith(rs, gs[i].emoji) + (if x.emoji == gs[i].emoji then [x.userName] else []);
      if i != k {
        assert gs'[i] == gs[i];
      }
    }
  }

  /** Groups with the same emojis cover the same emojis and stay distinct. */
  lemma SameEmojisKeep(gs: seq<Group>, gs': seq<Group>, rs: seq<Reaction>, x: Reaction)
    requires DistinctEmojis(gs) && CoversUsed(gs, rs) && NamesAppended(rs, x)
    requires EmojiIndex(gs, x.emoji).Some?
    requires |gs'| == |gs| && forall i :: 0 <= i < |gs| ==> gs'[i].emoji == gs[i].emoji
    ensures DistinctEmojis(gs') && CoversUsed(gs', rs + [x])
  {
    forall e | NamesWith(rs + [x], e) != [] ensures EmojiIndex(gs', e).Some? {
      if e != x.emoji {
        assert NamesWith(rs + [x], e) == NamesWith(rs, e) + [];
        var j := EmojiIndex(gs, e).value;
        assert gs'[j].emoji == e;
      } else {
        var j := EmojiIndex(gs, e).value;
        assert gs'[j].emoji == e;
      }
    }
  }

  /** A new emoji's group starts with the new reaction's name. */
  lemma NewGroupNames(gs: seq<Group>, gs': seq<Group>, rs: seq<Reaction>, x: Reaction)
    requires NamesHeld(gs, rs) && NamesAppended(rs, x) && EmojiIndex(gs, x.emoji).None?
    requires NamesWith(rs, x.emoji) == []
    requires gs' == gs + [Group(x.emoji, 1, [x.userName])]
    ensures NamesHeld(gs', rs + [x])
  {
    assert NamesWith(rs + [x], x.emoji) == [x.userName];
    forall i | 0 <= i < |gs'|
      ensures gs'[i].users == NamesWith(rs + [x], gs'[i].emoji)
      ensures gs'[i].count == |gs'[i].users| && gs'[i].users != []
    {
      if i < |gs| {
        assert gs'[i] == gs[i];
        assert NamesWith(rs + [x], gs[i].emoji) == NamesWith(rs, gs[i].emoji) + [];
      }
    }
  }

  /** A new emoji's group is distinct from the others. */
  lemma NewGroupDistinct(gs: seq<Group>, gs': seq<Group>, e: string)
    requires DistinctEmojis(gs) && EmojiIndex(gs, e).None?
    requires |gs'| == |gs| + 1 && gs'[|gs|].emoji == e && forall i :: 0 <= i < |gs| ==> gs'[i] == gs[i]
    ensures DistinctEmojis(gs')
  {
    forall i, j | 0 <= i < j < |gs'| ensures gs'[i].emoji != gs'[j].emoji {
      if j < |gs| {
        assert gs'[j] == gs[j];
      }
    }
  }

  /** Groups with the same emojis, all used before, have the same first uses
      once a reaction is appended. */
  lemma FirstUsesKept(gs: seq<Group>, gs': seq<Group>, rs: seq<Reaction>, x: Reaction)
    requires |gs'| == |gs| && forall i :: 0 <= i < |gs| ==> gs'[i].emoji == gs[i].emoji
    requires forall i :: 0 <= i < |gs| ==> FirstUse(rs + [x], gs[i].emoji) == FirstUse(rs, gs[i].emoji)
    ensures FirstUses(gs', rs + [x]) == FirstUses(gs, rs)
  {
  }

  /** A new emoji's group extends the first uses by the new emoji's first use. */
  lemma FirstUsesExtended(gs: seq<Group>, gs': seq<Group>, rs: seq<Reaction>, rs': seq<Reaction>, e: string)
    requires forall i :: 0 <= i < |gs| ==> FirstUse(rs', gs[i].emoji) == FirstUse(rs, gs[i].emoji)
    requires |gs'| == |gs| + 1 && gs'[|gs|].emoji == e && forall i :: 0 <= i < |gs| ==> gs'[i] == gs[i]
    ensures FirstUses(gs', rs') == FirstUses(gs, rs) + [FirstUse(rs', e)]
  {
    var a, b := FirstUses(gs, rs), FirstUses(gs', rs');
    forall i | 0 <= i < |b| ensures b[i] == (a + [FirstUse(rs', e)])[i] {
      if i < |gs| {
        assert gs'[i] == gs[i];
      }
    }
  }

  /** With a new emoji's group added, every emoji used has a group. */
  lemma NewGroupCovers(gs: seq<Group>, gs': seq<Group>, rs: seq<Reaction>, x: Reaction)
    requires CoversUsed(gs, rs) && NamesAppended(rs, x)
    requires gs' == gs + [Group(x.emoji, 1, [x.userName])]
    ensures CoversUsed(gs', rs + [x])
  {
    forall e | NamesWith(rs + [x], e) != [] ensures EmojiIndex(gs', e).Some? {
      if e != x.emoji {
        assert NamesWith(rs + [x], e) == NamesWith(rs, e) + [];
        var j := EmojiIndex(gs, e).value;
        assert gs'[j].emoji == e;
      } else {
        assert gs'[|gs|].emoji == e;
      }
    }
  }
}
