/** The contact-list projection: filter by display name, sort online-first
    and then by name, and count the friends online. */
module Contacts {
  import opened ChatModel
  import opened JsText

  predicate IsOnline(f: Friend, online: set<UserId>) {
    f.id in online
  }

  /** `f.display_name.toLowerCase().includes(filter)`. */
  predicate Matches(f: Friend, filter: string) {
    Includes(ToLower(f.displayName), filter)
  }

  /** `list.filter(...)` on the filter: the matching friends, in order. */
  function FilterFriends(fs: seq<Friend>, filter: string): (r: seq<Friend>)
    ensures forall f :: f in r <==> f in fs && Matches(f, filter)
    ensures multiset(r) <= multiset(fs)
  {
    if fs == [] then []
    else
      assert fs == [fs[0]] + fs[1..];
      (if Matches(fs[0], filter) then [fs[0]] else []) + FilterFriends(fs[1..], filter)
  }

  /** The sort comparator returns at most 0: online before offline, then by
      name. */
  predicate Precedes(a: Friend, b: Friend, online: set<UserId>) {
    || (IsOnline(a, online) && !IsOnline(b, online))
    || (IsOnline(a, online) == IsOnline(b, online) && LexLe(a.displayName, b.displayName))
  }

  lemma PrecedesTotal(a: Friend, b: Friend, online: set<UserId>)
    ensures Precedes(a, b, online) || Precedes(b, a, online)
  {
    LexLeTotal(a.displayName, b.displayName);
  }

  lemma PrecedesTransitive(a: Friend, b: Friend, c: Friend, online: set<UserId>)
    requires Precedes(a, b, online) && Precedes(b, c, online)
    ensures Precedes(a, c, online)
  {
    if IsOnline(a, online) == IsOnline(b, online) == IsOnline(c, online) {
      LexLeTransitive(a.displayName, b.displayName, c.displayName);
    }
  }

  predicate SortedBy(s: seq<Friend>, online: set<UserId>) {
    forall i, j :: 0 <= i < j < |s| ==> Precedes(s[i], s[j], online)
  }

  /** Insert `f` before the first entry it precedes. */
  function Insert(f: Friend, s: seq<Friend>, online: set<UserId>): (r: seq<Friend>)
    ensures multiset(r) == multiset(s) + multiset{f}
  {
    if s == [] then [f]
    else if Precedes(f, s[0], online) then [f] + s
    else
      assert s == [s[0]] + s[1..];
      [s[0]] + Insert(f, s[1..], online)
  }

  /** `list.sort(comparator)`, modelled by an insertion sort. */
  function SortFriends(fs: seq<Friend>, online: set<UserId>): (r: seq<Friend>)
    ensures multiset(r) == multiset(fs)
  {
    if fs == [] then []
    else
      assert fs == [fs[0]] + fs[1..];
      Insert(fs[0], SortFriends(fs[1..], online), online)
  }

  /** A sorted list stays sorted under a new head that precedes all of it. */
  lemma ConsSorted(h: Friend, tail: seq<Friend>, online: set<UserId>)
    requires SortedBy(tail, online)
    requires forall x :: x in tail ==> Precedes(h, x, online)
    ensures SortedBy([h] + tail, online)
  {
    var r := [h] + tail;
    forall i, j | 0 <= i < j < |r| ensures Precedes(r[i], r[j], online) {
      if i == 0 {
        assert r[j] in tail;
      } else {
        assert r[i] == tail[i - 1] && r[j] == tail[j - 1];
      }
    }
  }

  /** What follows the head of a sorted list, with `f` inserted, still
      comes after that head when `f` does. */
  lemma InsertFollowsHead(f: Friend, s: seq<Friend>, online: set<UserId>)
    requires SortedBy(s, online) && s != [] && Precedes(s[0], f, online)
    ensures forall x :: x in Insert(f, s[1..], online) ==> Precedes(s[0], x, online)
  {
    var tail := Insert(f, s[1..], online);
    forall x | x in tail ensures Precedes(s[0], x, online) {
      assert x in multiset(tail);
      if x != f {
        assert x in multiset(s[1..]);
        var j :| 0 <= j < |s[1..]| && s[1..][j] == x;
        assert s[j + 1] == x;
      }
    }
  }

  lemma {:induction false} InsertSorted(f: Friend, s: seq<Friend>, online: set<UserId>)
    requires SortedBy(s, online)
    ensures SortedBy(Insert(f, s, online), online)
  {
    if s == [] {
    } else if Precedes(f, s[0], online) {
      forall x | x in s ensures Precedes(f, x, online) {
        var j :| 0 <= j < |s| && s[j] == x;
        if j > 0 { PrecedesTransitive(f, s[0], s[j], online); }
      }
      ConsSorted(f, s, online);
    } else {
      PrecedesTotal(f, s[0], online);
      assert SortedBy(s[1..], online);
      InsertSorted(f, s[1..], online);
      InsertFollowsHead(f, s, online);
      ConsSorted(s[0], Insert(f, s[1..], online), online);
    }
  }

  lemma {:induction false} SortSorted(fs: seq<Friend>, online: set<UserId>)
    ensures SortedBy(SortFriends(fs, online), online)
  {
    if fs != [] {
      SortSorted(fs[1..], online);
      InsertSorted(fs[0], SortFriends(fs[1..], online), online);
    }
  }

  /** `getSortedFriends`: apply the filter when it is non-empty, then sort. */
  function SortedFriends(fs: seq<Friend>, filter: string, online: set<UserId>): (r: seq<Friend>)
    ensures multiset(r) <= multiset(fs)
    ensures filter == "" ==> multiset(r) == multiset(fs)
  {
    SortFriends(if filter != "" then FilterFriends(fs, filter) else fs, online)
  }

  /** The contact list is a permutation of the friends that match the
      filter; every online friend comes before every offline one, and names
      are in order within each group. */
  lemma SortedFriendsSpec(fs: seq<Friend>, filter: string, online: set<UserId>)
    ensures var r := SortedFriends(fs, filter, online);
      multiset(r) == multiset(if filter != "" then FilterFriends(fs, filter) else fs)
    ensures var r := SortedFriends(fs, filter, online);
      forall f :: f in r <==> f in fs && (filter == "" || Matches(f, filter))
    ensures var r := SortedFriends(fs, filter, online);
      forall i, j :: 0 <= i < j < |r| && IsOnline(r[j], online) ==> IsOnline(r[i], online)
    ensures var r := SortedFriends(fs, filter, online);
      forall i, j :: 0 <= i < j < |r| && IsOnline(r[i], online) == IsOnline(r[j], online) ==>
        LexLe(r[i].displayName, r[j].displayName)
  {
    var list := if filter != "" then FilterFriends(fs, filter) else fs;
    SortSorted(list, online);
    var r := SortFriends(list, online);
    forall f ensures f in r <==> f in list {
      assert f in r <==> f in multiset(r);
      assert f in list <==> f in multiset(list);
    }
  }

  /** `getOnlineCount`: the number of friends whose id is online. */
  function OnlineCount(fs: seq<Friend>, online: set<UserId>): (n: nat)
    ensures n <= |fs|
  {
    if fs == [] then 0 else (if IsOnline(fs[0], online) then 1 else 0) + OnlineCount(fs[1..], online)
  }

  /** Counting does not depend on order. */
  lemma {:induction false} OnlineCountInsert(f: Friend, s: seq<Friend>, online: set<UserId>)
    ensures OnlineCount(Insert(f, s, online), online) == OnlineCount(s, online) + (if IsOnline(f, online) then 1 else 0)
  {
    if s != [] && !Precedes(f, s[0], online) {
      OnlineCountInsert(f, s[1..], online);
    }
  }

  lemma {:induction false} OnlineCountSort(fs: seq<Friend>, online: set<UserId>)
    ensures OnlineCount(SortFriends(fs, online), online) == OnlineCount(fs, online)
  {
    if fs != [] {
      OnlineCountSort(fs[1..], online);
      OnlineCountInsert(fs[0], SortFriends(fs[1..], online), online);
    }
  }

  /** In a list where no offline friend precedes an online one, the online
      friends are exactly the first `OnlineCount` entries. */
  lemma {:induction false} OnlineFirstPrefix(s: seq<Friend>, online: set<UserId>)
    requires forall i, j :: 0 <= i < j < |s| && IsOnline(s[j], online) ==> IsOnline(s[i], online)
    ensures forall i :: 0 <= i < |s| ==> (IsOnline(s[i], online) <==> i < OnlineCount(s, online))
  {
    if s != [] {
      var tail := s[1..];
      OnlineFirstPrefix(tail, online);
      if !IsOnline(s[0], online) {
        assert forall i :: 0 <= i < |tail| ==> !IsOnline(tail[i], online) by {
          forall i | 0 <= i < |tail| ensures !IsOnline(tail[i], online) {
            assert tail[i] == s[i + 1];
          }
        }
        assert OnlineCount(tail, online) == 0;
      }
      forall i | 0 < i < |s| ensures IsOnline(s[i], online) <==> i < OnlineCount(s, online) {
        assert s[i] == tail[i - 1];
      }
    }
  }

  /** The unfiltered contact list shows exactly `getOnlineCount` online
      friends, all of them first. */
  lemma OnlineCountIsHeader(fs: seq<Friend>, online: set<UserId>)
    ensures var r := SortedFriends(fs, "", online);
      forall i :: 0 <= i < |r| ==> (IsOnline(r[i], online) <==> i < OnlineCount(fs, online))
  {
    SortedFriendsSpec(fs, "", online);
    OnlineCountSort(fs, online);
    OnlineFirstPrefix(SortedFriends(fs, "", online), online);
  }
}
