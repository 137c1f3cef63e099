/** Properties of the id-keyed directory that relate several handler calls:
    idempotent friendship, what a later lookup sees, and ids that are never
    handed out twice over any run of requests. */
module GorillaProperties {
  import opened Wrappers
  import opened Http
  import opened GorillaDirectory

  /** Connecting the same two users again changes nothing: map writes
      overwrite, so a repeated request is answered Ok with the same store. */
  lemma MakeFriendsIdempotent(s: Store, req: Option<Friendship>)
    requires FriendMapsPresent(s, req)
    ensures FriendMapsPresent(MakeFriends(s, req).value, req)
    ensures MakeFriends(MakeFriends(s, req).value, req) == MakeFriends(s, req)
  {
    var r := MakeFriends(s, req);
    if r.status == Ok {
      var src, tgt := req.value.sourceId, req.value.targetId;
      var t := r.value;
      assert Known(t, src) && Known(t, tgt);
      var r2 := MakeFriends(t, req);
      assert r2.value.users.Keys == t.users.Keys;
      forall id | id in t.users
        ensures r2.value.users[id] == t.users[id]
      {
        if id == src || id == tgt {
          assert r2.value.users[id].friends.entries == t.users[id].friends.entries;
        }
      }
      assert r2.value.users == t.users;
    }
  }

  /** After a successful connection each user's friend list, as the friends
      endpoint shows it, names the other. */
  lemma MakeFriendsThenShow(s: Store, req: Option<Friendship>)
    requires FriendMapsPresent(s, req)
    requires MakeFriends(s, req).status == Ok
    ensures var t := MakeFriends(s, req).value;
      var src, tgt := req.value.sourceId, req.value.targetId;
      && FriendsUserShow(t, src).status == Ok
      && FriendsUserShow(t, tgt).status == Ok
      && FriendsUserShow(t, src).value.Entries()[tgt] == s.users[tgt].name
      && FriendsUserShow(t, tgt).value.Entries()[src] == s.users[src].name
  {
  }

  /** A connection request naming an unknown id, on either side, leaves
      every friend map as it was. */
  lemma MakeFriendsUnknownIsHarmless(s: Store, req: Option<Friendship>)
    requires req.Some? && (!Known(s, req.value.sourceId) || !Known(s, req.value.targetId))
    ensures MakeFriends(s, req).status == NotFound
    ensures forall id :: id in s.users ==>
      FriendsUserShow(MakeFriends(s, req).value, id) == FriendsUserShow(s, id)
  {
  }

  /** After deleting a user, no friend list shown for anyone mentions that id,
      and the deleted user is no longer found. */
  lemma DeleteThenShow(s: Store, id: int, other: int)
    requires id in s.users
    ensures var t := DeleteUser(s, id).value;
      && !Known(t, id)
      && FriendsUserShow(t, id).status == NotFound
      && id !in FriendsUserShow(t, other).value.Entries()
  {
  }

  /** A newly created user is found under the id the counter just minted,
      and the id was free before. */
  lemma CreatedUserIsFound(s: Store, u: User)
    requires IdsIssued(s)
    requires u.name != ""
    ensures var t := UserCreate(s, Some(u)).value;
      && t.currentId !in s.users
      && Known(t, t.currentId)
      && Find(t, t.currentId) == u
      && FriendsUserShow(t, t.currentId) == Reply(Ok, u.friends)
  {
  }

  /** The requests a client can send, already decoded. */
  datatype Request =
    | CreateUser(body: Option<User>)
    | Connect(req: Option<Friendship>)
    | Delete(id: int)
    | SetAge(id: int, age: Option<int>)
    | ShowFriends(id: int)

  /** A request the model can apply: connections only between users whose
      friend maps exist. */
  predicate Applicable(s: Store, q: Request)
  {
    q.Connect? ==> FriendMapsPresent(s, q.req)
  }

  /** The store after one request. */
  function Apply(s: Store, q: Request): (r: Store)
    requires Applicable(s, q)
  {
    match q
    case CreateUser(body) => UserCreate(s, body).value
    case Connect(req) => MakeFriends(s, req).value
    case Delete(id) => DeleteUser(s, id).value
    case SetAge(id, age) => UpdateAge(s, id, age).value
    case ShowFriends(_) => s
  }

  /** Every request of the run is applicable when it arrives. */
  predicate Runnable(s: Store, qs: seq<Request>)
    decreases |qs|
  {
    |qs| == 0 || (Applicable(s, qs[0]) && Runnable(Apply(s, qs[0]), qs[1..]))
  }

  /** The ids handed to created users over a run, in order. */
  function Issued(s: Store, qs: seq<Request>): seq<int>
    requires Runnable(s, qs)
    decreases |qs|
  {
    if |qs| == 0 then []
    else
      var q := qs[0];
      var t := Apply(s, q);
      var minted := if q.CreateUser? && UserCreate(s, q.body).status == Created then [t.currentId] else [];
      minted + Issued(t, qs[1..])
  }

  /** One request never lowers the counter and keeps every stored id at or
      below it; only a successful creation moves it, by one. */
  lemma ApplyKeepsCounter(s: Store, q: Request)
    requires Applicable(s, q)
    requires IdsIssued(s)
    ensures IdsIssued(Apply(s, q))
    ensures q.CreateUser? && UserCreate(s, q.body).status == Created ==> Apply(s, q).currentId == s.currentId + 1
    ensures !(q.CreateUser? && UserCreate(s, q.body).status == Created) ==> Apply(s, q).currentId == s.currentId
  {
  }

  /** Over any run, the ids handed out strictly increase and all exceed the
      counter at the start, so none of them was ever stored before (even by
      a user since deleted) and none is handed out twice. */
  lemma {:induction false} IssuedIdsNeverReused(s: Store, qs: seq<Request>)
    requires IdsIssued(s)
    requires Runnable(s, qs)
    ensures forall i :: 0 <= i < |Issued(s, qs)| ==> Issued(s, qs)[i] > s.currentId
    ensures forall i :: 0 <= i < |Issued(s, qs)| ==> Issued(s, qs)[i] !in s.users
    ensures forall i, j :: 0 <= i < j < |Issued(s, qs)| ==> Issued(s, qs)[i] < Issued(s, qs)[j]
    decreases |qs|
  {
    if |qs| > 0 {
      var t := Apply(s, qs[0]);
      ApplyKeepsCounter(s, qs[0]);
      IssuedIdsNeverReused(t, qs[1..]);
    }
  }

  /** The seed store leaves Barbora with a friend id that no user has, so
      friendship in this directory is not symmetric in general. */
  lemma SeedHasDanglingFriend()
    ensures var s := Seeded();
      && 2 in s.users
      && 999 in s.users[2].friends.Entries()
      && 999 !in s.users
      && IdsIssued(s)
  {
  }
}
