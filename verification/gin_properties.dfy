/** Properties of the name-keyed directory: what the putFriends loop does from
    a consistent directory, the consistency invariant every handler keeps,
    what later lookups see, and the partial effect of the loop as written. */
module GinProperties {
  import opened Wrappers
  import opened Http
  import opened Sequences
  import opened GinDirectory

  /** Friendship is mutual: if one user lists another, the other lists back. */
  ghost predicate Symmetric(users: seq<User>)
  {
    forall p, q :: 0 <= p < |users| && 0 <= q < |users| && users[q].name in users[p].friends ==>
      users[p].name in users[q].friends
  }

  /** Every friend reference names a user of the directory. */
  ghost predicate Closed(users: seq<User>)
  {
    forall p, f :: 0 <= p < |users| && f in users[p].friends ==> f in Names(users)
  }

  /** No friend list repeats a name. */
  ghost predicate NoDupFriends(users: seq<User>)
  {
    forall p :: 0 <= p < |users| ==> NoDup(users[p].friends)
  }

  /** Every user has a name, as the binding tags demand. */
  ghost predicate Named(users: seq<User>)
  {
    forall p :: 0 <= p < |users| ==> users[p].name != ""
  }

  /** The directory invariant: named users with unique names and mutual,
      duplicate-free friend lists with no dangling reference. */
  ghost predicate Consistent(users: seq<User>)
  {
    Named(users) && UniqueNames(users) && NoDupFriends(users) && Closed(users) && Symmetric(users)
  }

  /** Names of users whose position and name agree are the same user. */
  lemma UniqueNamesPosition(users: seq<User>, p: int, q: int)
    requires UniqueNames(users)
    requires 0 <= p < |users| && 0 <= q < |users| && users[p].name == users[q].name
    ensures p == q
  {
    var names := Names(users);
    assert names[p] == names[q];
  }

  // ---- the putFriends loop

  /** When the passes before position `c` change nothing and the pass at `c`
      conflicts, the loop answers Forbidden with only that pass stored. */
  lemma {:induction false} LinkFromStopsAt(users: seq<User>, k: nat, c: nat, source: string, target: string)
    requires k <= c < |users|
    requires forall m :: k <= m < c ==> LinkOne(users[m], source, target) == Continue(users[m])
    requires LinkOne(users[c], source, target).Conflict?
    ensures LinkFrom(users, k, source, target) == Reply(Forbidden, users[c := LinkOne(users[c], source, target).user])
    decreases c - k
  {
    if k < c {
      assert users[k := users[k]] == users;
      LinkFromStopsAt(users, k + 1, c, source, target);
    }
  }

  /** Connecting two distinct users who do not list each other appends each
      name to the other's list and leaves every other user alone. */
  lemma ConnectNewPair(users: seq<User>, i: int, j: int)
    requires UniqueNames(users)
    requires 0 <= i < |users| && 0 <= j < |users| && i != j
    requires users[i].name != "" && users[j].name != ""
    requires users[j].name !in users[i].friends && users[i].name !in users[j].friends
    ensures var src, tgt := users[i].name, users[j].name;
      PutFriends(users, Some(Friendship(src, tgt))) ==
        Reply(Created, users[i := users[i].(friends := users[i].friends + [tgt])]
                            [j := users[j].(friends := users[j].friends + [src])])
  {
    var src, tgt := users[i].name, users[j].name;
    if src == tgt {
      UniqueNamesPosition(users, i, j);
    }
    forall m | 0 <= m < |users| && m != i && m != j
      ensures LinkOne(users[m], src, tgt) == Continue(users[m])
    {
      if users[m].name == src {
        UniqueNamesPosition(users, m, i);
      }
      if users[m].name == tgt {
        UniqueNamesPosition(users, m, j);
      }
    }
    LinkFromOutcome(users, 0, src, tgt);
    var expected := users[i := users[i].(friends := users[i].friends + [tgt])]
                         [j := users[j].(friends := users[j].friends + [src])];
    assert LinkFrom(users, 0, src, tgt).value == expected;
    assert Names(users)[i] == src && Names(users)[j] == tgt;
  }

  /** The pass that first reaches one of two users who already list each
      other conflicts without changing that user. */
  lemma ExistingPairConflicts(users: seq<User>, i: int, j: int, c: int)
    requires UniqueNames(users)
    requires 0 <= i < |users| && 0 <= j < |users| && (c == i || c == j)
    requires users[j].name in users[i].friends && users[i].name in users[j].friends
    ensures LinkOne(users[c], users[i].name, users[j].name) == Conflict(users[c])
  {
    if users[i].name == users[j].name {
      UniqueNamesPosition(users, i, j);
    }
  }

  /** Connecting two users who already list each other is refused, and even
      the loop as written has changed nothing by then. */
  lemma ConnectExistingPair(users: seq<User>, i: int, j: int)
    requires UniqueNames(users)
    requires 0 <= i < |users| && 0 <= j < |users|
    requires users[i].name != "" && users[j].name != ""
    requires users[j].name in users[i].friends && users[i].name in users[j].friends
    ensures var src, tgt := users[i].name, users[j].name;
      && LinkFrom(users, 0, src, tgt) == Reply(Forbidden, users)
      && PutFriends(users, Some(Friendship(src, tgt))) == Reply(Forbidden, users)
  {
    var src, tgt := users[i].name, users[j].name;
    var c := if i < j then i else j;
    forall m | 0 <= m < c
      ensures LinkOne(users[m], src, tgt) == Continue(users[m])
    {
      if users[m].name == src {
        UniqueNamesPosition(users, m, i);
      }
      if users[m].name == tgt {
        UniqueNamesPosition(users, m, j);
      }
    }
    ExistingPairConflicts(users, i, j, c);
    LinkFromStopsAt(users, 0, c, src, tgt);
    assert users[c := users[c]] == users;
    assert Names(users)[i] == src && Names(users)[j] == tgt;
  }

  /** In a consistent directory a first connection succeeds, a second
      identical one is refused without effect, and the source's list then
      names the target exactly once. */
  lemma ConnectTwice(users: seq<User>, i: int, j: int)
    requires Consistent(users)
    requires 0 <= i < |users| && 0 <= j < |users| && i != j
    requires users[j].name !in users[i].friends
    ensures var req := Some(Friendship(users[i].name, users[j].name));
      var first := PutFriends(users, req);
      && first.status == Created
      && PutFriends(first.value, req) == Reply(Forbidden, first.value)
      && multiset(first.value[i].friends)[users[j].name] == 1
      && multiset(first.value[j].friends)[users[i].name] == 1
  {
    var src, tgt := users[i].name, users[j].name;
    ConnectNewPair(users, i, j);
    var after := PutFriends(users, Some(Friendship(src, tgt))).value;
    assert Names(after) == Names(users);
    ConnectExistingPair(after, i, j);
  }

  /** A connection naming an unknown user changes nothing. */
  lemma ConnectUnknown(users: seq<User>, req: Friendship)
    requires !Listed(users, req.source) || !Listed(users, req.target)
    ensures PutFriends(users, Some(req)) == Reply(NotFound, users)
  {
  }

  // ---- the directory invariant

  /** Appending each name to the other's list keeps the invariant when the
      two did not list each other before. */
  lemma AddPairKeepsConsistent(users: seq<User>, i: int, j: int)
    requires Consistent(users)
    requires 0 <= i < |users| && 0 <= j < |users| && i != j
    requires users[j].name !in users[i].friends && users[i].name !in users[j].friends
    ensures var src, tgt := users[i].name, users[j].name;
      Consistent(users[i := users[i].(friends := users[i].friends + [tgt])]
                      [j := users[j].(friends := users[j].friends + [src])])
  {
    var src, tgt := users[i].name, users[j].name;
    var after := users[i := users[i].(friends := users[i].friends + [tgt])]
                      [j := users[j].(friends := users[j].friends + [src])];
    assert Names(after) == Names(users);
    forall p | 0 <= p < |after|
      ensures NoDup(after[p].friends)
    {
      assert NoDup(users[p].friends);
    }
    forall p, f | 0 <= p < |after| && f in after[p].friends
      ensures f in Names(after)
    {
      assert Names(users)[i] == src && Names(users)[j] == tgt;
    }
    forall p, q | 0 <= p < |after| && 0 <= q < |after| && after[q].name in after[p].friends
      ensures after[p].name in after[q].friends
    {
      if after[q].name in users[p].friends {
        assert users[p].name in users[q].friends;
      } else if p == i {
        UniqueNamesPosition(users, q, j);
      } else {
        UniqueNamesPosition(users, q, i);
      }
    }
  }

  /** A user who befriends itself, without listing itself yet, keeps the
      directory consistent: the self-reference resolves and is mutual. */
  lemma SelfAppendKeepsConsistent(users: seq<User>, i: int)
    requires Consistent(users)
    requires 0 <= i < |users| && users[i].name !in users[i].friends
    ensures Consistent(users[i := users[i].(friends := users[i].friends + [users[i].name])])
  {
    var n := users[i].name;
    var after := users[i := users[i].(friends := users[i].friends + [n])];
    assert Names(after) == Names(users);
    forall a, b | 0 <= a < b < |after[i].friends|
      ensures after[i].friends[a] != after[i].friends[b]
    {
      assert NoDup(users[i].friends);
      if b == |users[i].friends| {
        assert users[i].friends[a] in users[i].friends;
      }
    }
    forall p | 0 <= p < |after|
      ensures NoDup(after[p].friends)
    {
      assert NoDup(users[p].friends);
    }
    forall p, f | 0 <= p < |after| && f in after[p].friends
      ensures f in Names(after)
    {
      assert Names(users)[i] == n;
    }
    forall p, q | 0 <= p < |after| && 0 <= q < |after| && after[q].name in after[p].friends
      ensures after[p].name in after[q].friends
    {
      if after[q].name in users[p].friends {
        assert users[p].name in users[q].friends;
      } else {
        UniqueNamesPosition(users, q, i);
      }
    }
  }

  /** Every connection request keeps a consistent directory consistent,
      even with the loop as written: from a consistent directory its only
      partial effect is a user listing itself. */
  lemma PutFriendsKeepsConsistent(users: seq<User>, body: Option<Friendship>)
    requires Consistent(users)
    ensures Consistent(PutFriends(users, body).value)
    ensures var r := PutFriends(users, body);
      r.status == Forbidden ==>
        || r.value == users
        || exists i :: 0 <= i < |users| && users[i].name !in users[i].friends &&
             r.value == users[i := users[i].(friends := users[i].friends + [users[i].name])]
  {
    if body.Some? && Listed(users, body.value.source) && Listed(users, body.value.target) {
      var src, tgt := body.value.source, body.value.target;
      var i, j := IndexOf(users, src).value, IndexOf(users, tgt).value;
      if users[j].name in users[i].friends {
        assert users[i].name in users[j].friends;
        ConnectExistingPair(users, i, j);
      } else if i == j {
        SelfConnectLeavesTrace(users, i);
        SelfAppendKeepsConsistent(users, i);
      } else {
        assert users[i].name !in users[j].friends;
        ConnectNewPair(users, i, j);
        AddPairKeepsConsistent(users, i, j);
      }
    }
  }

  /** The atomic handler keeps consistency too: it either changes nothing
      or does what the loop as written does. */
  lemma PutFriendsAtomicKeepsConsistent(users: seq<User>, body: Option<Friendship>)
    requires Consistent(users)
    ensures Consistent(PutFriendsAtomic(users, body).value)
  {
    var r := PutFriendsAtomic(users, body);
    if r.status == Created {
      PutFriendsKeepsConsistent(users, body);
      assert r.value == PutFriends(users, body).value;
    }
  }

  /** Creating a user without friends keeps the directory consistent. */
  lemma PostUsersKeepsConsistent(users: seq<User>, u: User)
    requires Consistent(users)
    requires u.friends == []
    ensures Consistent(PostUsers(users, Some(u)).value)
  {
    var r := PostUsers(users, Some(u));
    if r.status == Created {
      var after := r.value;
      var n := |users|;
      assert after == users + [u];
      assert Names(after) == Names(users) + [u.name];
      forall p, f | 0 <= p < |after| && f in after[p].friends
        ensures f in Names(after)
      {
        assert p < n && f in users[p].friends;
      }
      forall p, q | 0 <= p < |after| && 0 <= q < |after| && after[q].name in after[p].friends
        ensures after[p].name in after[q].friends
      {
        assert p < n && after[p] == users[p];
        if q < n {
          assert users[p].name in users[q].friends;
        }
      }
    }
  }

  /** Changing an age keeps the directory consistent. */
  lemma PutAgeKeepsConsistent(users: seq<User>, id: int, body: Option<int>)
    requires Consistent(users)
    ensures Consistent(PutAge(users, id, body).value)
  {
    var after := PutAge(users, id, body).value;
    assert Names(after) == Names(users);
    forall p | 0 <= p < |after|
      ensures after[p].friends == users[p].friends
    {
    }
  }

  /** `after` is `users` with the user at position `i`, called `name`,
      dropped and `name` purged from every friend list. */
  ghost predicate DeletedAt(users: seq<User>, after: seq<User>, i: int, name: string)
  {
    && 0 <= i < |users| && users[i].name == name
    && |after| == |users| - 1
    && forall k :: 0 <= k < |after| ==> after[k] == Unfriend(users[if k < i then k else k + 1], name)
  }

  lemma DeletedAtKeepsNames(users: seq<User>, after: seq<User>, i: int, name: string)
    requires Consistent(users) && DeletedAt(users, after, i, name)
    ensures Named(after) && UniqueNames(after)
  {
    forall a, b | 0 <= a < b < |after|
      ensures Names(after)[a] != Names(after)[b]
    {
      var a', b' := if a < i then a else a + 1, if b < i then b else b + 1;
      if users[a'].name == users[b'].name {
        UniqueNamesPosition(users, a', b');
      }
    }
  }

  lemma DeletedAtKeepsNoDup(users: seq<User>, after: seq<User>, i: int, name: string)
    requires Consistent(users) && DeletedAt(users, after, i, name)
    ensures NoDupFriends(after)
  {
    forall p | 0 <= p < |after|
      ensures NoDup(after[p].friends)
    {
      var p' := if p < i then p else p + 1;
      NoDupRemoveFirst(users[p'].friends, name);
    }
  }

  lemma DeletedAtKeepsOthers(users: seq<User>, after: seq<User>, i: int, name: string, f: string)
    requires DeletedAt(users, after, i, name)
    requires f in Names(users) && f != name
    ensures f in Names(after)
  {
    var m :| 0 <= m < |users| && Names(users)[m] == f;
    var k := if m < i then m else m - 1;
    assert (if k < i then k else k + 1) == m;
    assert after[k] == Unfriend(users[m], name);
    assert Names(after)[k] == f;
  }

  lemma DeletedAtKeepsClosed(users: seq<User>, after: seq<User>, i: int, name: string)
    requires Consistent(users) && DeletedAt(users, after, i, name)
    requires forall k :: 0 <= k < |after| ==> name !in after[k].friends
    ensures Closed(after)
  {
    forall p, f | 0 <= p < |after| && f in after[p].friends
      ensures f in Names(after)
    {
      var p' := if p < i then p else p + 1;
      RemoveFirstKeeps(users[p'].friends, name, f);
      DeletedAtKeepsOthers(users, after, i, name, f);
    }
  }

  lemma DeletedAtKeepsSymmetric(users: seq<User>, after: seq<User>, i: int, name: string)
    requires Consistent(users) && DeletedAt(users, after, i, name)
    requires forall k :: 0 <= k < |after| ==> name !in after[k].friends
    ensures Symmetric(after)
  {
    forall p, q | 0 <= p < |after| && 0 <= q < |after| && after[q].name in after[p].friends
      ensures after[p].name in after[q].friends
    {
      var p', q' := if p < i then p else p + 1, if q < i then q else q + 1;
      RemoveFirstKeeps(users[p'].friends, name, users[q'].name);
      assert users[p'].name in users[q'].friends;
      if users[p'].name == name {
        UniqueNamesPosition(users, p', i);
      }
      RemoveFirstKeeps(users[q'].friends, name, users[p'].name);
    }
  }

  /** A consistent directory meets what deleteUserByName needs, and the
      deletion keeps it consistent. */
  lemma DeleteKeepsConsistent(users: seq<User>, name: string)
    requires Consistent(users)
    ensures forall p :: 0 <= p < |users| ==> AtMostOnce(users[p].friends, name)
    ensures SingleNamed(users, name)
    ensures Consistent(DeleteUserByName(users, name).value)
  {
    forall p | 0 <= p < |users|
      ensures AtMostOnce(users[p].friends, name)
    {
      NoDupAtMostOnce(users[p].friends, name);
    }
    forall p, q | 0 <= p < |users| && 0 <= q < |users| && users[p].name == name && users[q].name == name
      ensures p == q
    {
      UniqueNamesPosition(users, p, q);
    }
    var r := DeleteUserByName(users, name);
    if r.status == Ok {
      var i := IndexOf(users, name).value;
      assert DeletedAt(users, r.value, i, name);
      DeletedAtKeepsNames(users, r.value, i, name);
      DeletedAtKeepsNoDup(users, r.value, i, name);
      DeletedAtKeepsClosed(users, r.value, i, name);
      DeletedAtKeepsSymmetric(users, r.value, i, name);
    }
  }

  // ---- what later lookups see

  /** A created user is found by name, first among users of that name, and
      at the next ordinal. */
  lemma CreatedUserIsFound(users: seq<User>, u: User)
    requires PostUsers(users, Some(u)).status == Created
    ensures var after := PostUsers(users, Some(u)).value;
      && GetUserByName(after, u.name) == Reply(Ok, u)
      && GetUserById(after, Some(|users| + 1)) == Reply(Ok, u)
  {
    var after := PostUsers(users, Some(u)).value;
    assert Names(after) == Names(users) + [u.name];
    assert FirstNamed(after, u.name, |users|);
  }

  /** After a deletion the name is found nowhere: not as a user and not in
      any friend list. */
  lemma DeletedUserIsGone(users: seq<User>, name: string, other: string)
    requires forall p :: 0 <= p < |users| ==> AtMostOnce(users[p].friends, name)
    requires SingleNamed(users, name)
    requires Listed(users, name)
    ensures var after := DeleteUserByName(users, name).value;
      && GetUserByName(after, name).status == NotFound
      && GetFriends(after, name).status == NotFound
      && name !in GetFriends(after, other).value
  {
    var after := DeleteUserByName(users, name).value;
    match IndexOf(after, other)
    case None =>
    case Some(k) =>
  }

  /** Ordinals are positions, not identities: after a deletion every later
      user answers to the ordinal one below its old one. */
  lemma DeleteShiftsOrdinals(users: seq<User>, name: string, n: int)
    requires forall p :: 0 <= p < |users| ==> AtMostOnce(users[p].friends, name)
    requires SingleNamed(users, name)
    requires Listed(users, name)
    requires IndexOf(users, name).value < n < |users|
    ensures GetUserById(DeleteUserByName(users, name).value, Some(n)).value.name == users[n].name
  {
  }

  /** postUsers accepts a friend list that repeats a name. Deleting that
      name when no user has it still answers NotFound with nothing
      changed: the lookup refuses before any slice is touched. */
  lemma DeleteUnknownWithRepeats()
    ensures var users := Seed + [User("Willy", 33, ["X", "X"])];
      && !AtMostOnce(users[2].friends, "X")
      && DeleteUserByName(users, "X") == Reply(NotFound, users)
  {
    var users := Seed + [User("Willy", 33, ["X", "X"])];
    assert users[2].friends == ["X", "X"];
    assert multiset(["X", "X"])["X"] == 2;
    assert Names(users) == ["Monika", "Barby", "Willy"];
  }

  // ---- the partial effect of the loop as written

  /** A user asked to befriend itself: the loop as written appends the name
      to the user's own list and then answers Forbidden, leaving the append
      in place, while the atomic loop answers Forbidden with nothing
      changed. */
  lemma SelfConnectLeavesTrace(users: seq<User>, i: int)
    requires UniqueNames(users)
    requires 0 <= i < |users| && users[i].name != ""
    requires users[i].name !in users[i].friends
    ensures var n := users[i].name;
      && LinkFrom(users, 0, n, n) == Reply(Forbidden, users[i := users[i].(friends := users[i].friends + [n])])
      && LinkFrom(users, 0, n, n).value != users
      && PutFriends(users, Some(Friendship(n, n))) == LinkFrom(users, 0, n, n)
      && LinkAtomic(users, n, n) == Reply(Forbidden, users)
      && PutFriendsAtomic(users, Some(Friendship(n, n))) == Reply(Forbidden, users)
  {
    var n := users[i].name;
    forall m | 0 <= m < i
      ensures LinkOne(users[m], n, n) == Continue(users[m])
    {
      if users[m].name == n {
        UniqueNamesPosition(users, m, i);
      }
    }
    LinkFromStopsAt(users, 0, i, n, n);
    assert LinkFrom(users, 0, n, n).value[i].friends != users[i].friends by {
      assert |LinkFrom(users, 0, n, n).value[i].friends| == |users[i].friends| + 1;
    }
    assert Names(users)[i] == n;
  }

  /** The seed directory shows it: Monika befriending herself is refused yet
      she ends up on her own friend list. */
  lemma SelfConnectOnSeed()
    ensures LinkFrom(Seed, 0, "Monika", "Monika") ==
      Reply(Forbidden, [User("Monika", 25, ["Monika"]), User("Barby", 35, [])])
    ensures PutFriends(Seed, Some(Friendship("Monika", "Monika"))) ==
      Reply(Forbidden, [User("Monika", 25, ["Monika"]), User("Barby", 35, [])])
    ensures PutFriendsAtomic(Seed, Some(Friendship("Monika", "Monika"))) == Reply(Forbidden, Seed)
  {
    assert Names(Seed) == ["Monika", "Barby"];
    SelfConnectLeavesTrace(Seed, 0);
    assert Seed[0].friends + ["Monika"] == ["Monika"];
    assert Seed[0 := Seed[0].(friends := Seed[0].friends + ["Monika"])] ==
      [User("Monika", 25, ["Monika"]), User("Barby", 35, [])];
  }

  /** postUsers accepts a friend list as given, so a one-sided friendship
      is reachable from the seed: Willy arrives listing Monika. Connecting
      Monika to Willy then appends Willy to Monika's list before Willy's
      pass finds Monika already there and answers Forbidden; the atomic
      loop leaves the directory as it was. */
  lemma OneSidedConnectLeavesTrace()
    ensures var willy := User("Willy", 33, ["Monika"]);
      var users := Seed + [willy];
      && PostUsers(Seed, Some(willy)) == Reply(Created, users)
      && LinkFrom(users, 0, "Monika", "Willy") ==
        Reply(Forbidden, [User("Monika", 25, ["Willy"]), User("Barby", 35, []), willy])
      && PutFriends(users, Some(Friendship("Monika", "Willy"))) ==
        Reply(Forbidden, [User("Monika", 25, ["Willy"]), User("Barby", 35, []), willy])
      && PutFriendsAtomic(users, Some(Friendship("Monika", "Willy"))) == Reply(Forbidden, users)
  {
    var willy := User("Willy", 33, ["Monika"]);
    var users := Seed + [willy];
    assert Names(Seed) == ["Monika", "Barby"];
    assert "Willy" !in Names(Seed);
    assert users == [User("Monika", 25, []), User("Barby", 35, []), willy];
    assert Names(users) == ["Monika", "Barby", "Willy"];
    var monika' := User("Monika", 25, ["Willy"]);
    assert LinkOne(users[0], "Monika", "Willy") == Continue(monika');
    var s1 := users[0 := monika'];
    assert LinkOne(s1[1], "Monika", "Willy") == Continue(s1[1]);
    assert s1[1 := s1[1]] == s1;
    assert LinkOne(s1[2], "Monika", "Willy") == Conflict(willy);
    assert s1[2 := willy] == s1;
    assert LinkFrom(s1, 2, "Monika", "Willy") == Reply(Forbidden, s1);
    assert LinkFrom(s1, 1, "Monika", "Willy") == Reply(Forbidden, s1);
    assert s1 == [monika', User("Barby", 35, []), willy];
  }

  // ---- example request sequences

  /** Create Monika, then Barby: both are added in order. */
  lemma MonikaBarbyCreate()
    ensures var monika, barby := User("Monika", 25, []), User("Barby", 35, []);
      && PostUsers([], Some(monika)) == Reply(Created, [monika])
      && PostUsers([monika], Some(barby)) == Reply(Created, [monika, barby])
  {
    var monika, barby := User("Monika", 25, []), User("Barby", 35, []);
    assert Names([monika]) == ["Monika"];
    assert "Barby" !in Names([monika]);
    assert [monika] + [barby] == [monika, barby];
  }

  /** Then connect them: each lists the other. */
  lemma MonikaBarbyConnect()
    ensures PutFriends([User("Monika", 25, []), User("Barby", 35, [])], Some(Friendship("Monika", "Barby"))) ==
      Reply(Created, [User("Monika", 25, ["Barby"]), User("Barby", 35, ["Monika"])])
  {
    var monika, barby := User("Monika", 25, []), User("Barby", 35, []);
    var linked := [User("Monika", 25, ["Barby"]), User("Barby", 35, ["Monika"])];
    assert Names([monika, barby]) == ["Monika", "Barby"];
    assert UniqueNames([monika, barby]);
    ConnectNewPair([monika, barby], 0, 1);
    assert monika.friends + ["Barby"] == ["Barby"] && barby.friends + ["Monika"] == ["Monika"];
    assert [monika, barby][0 := User("Monika", 25, ["Barby"])][1 := User("Barby", 35, ["Monika"])] == linked;
  }

  /** Then list Monika's friends, delete Barby, and list them again. */
  lemma MonikaBarbyDelete()
    ensures var linked := [User("Monika", 25, ["Barby"]), User("Barby", 35, ["Monika"])];
      && GetFriends(linked, "Monika") == Reply(Ok, ["Barby"])
      && SingleNamed(linked, "Barby")
      && DeleteUserByName(linked, "Barby") == Reply(Ok, [User("Monika", 25, [])])
      && GetFriends([User("Monika", 25, [])], "Monika") == Reply(Ok, [])
  {
    var monika := User("Monika", 25, []);
    var linked := [User("Monika", 25, ["Barby"]), User("Barby", 35, ["Monika"])];
    assert Names(linked) == ["Monika", "Barby"];
    assert FirstNamed(linked, "Monika", 0);
    var after := DeleteUserByName(linked, "Barby").value;
    assert Position(["Barby"], "Barby") == Some(0);
    assert after[0] == Unfriend(linked[0], "Barby");
    assert after == [monika];
    assert Names([monika]) == ["Monika"];
    assert FirstNamed([monika], "Monika", 0);
  }

  /** Setting the second user's age to 17 is refused and the stored age
      stays. */
  lemma UnderAgeScenario()
    ensures PutAge(Seed, 2, Some(17)) == Reply(Forbidden, Seed)
    ensures GetUserById(PutAge(Seed, 2, Some(17)).value, Some(2)).value.age == 35
  {
  }
}
