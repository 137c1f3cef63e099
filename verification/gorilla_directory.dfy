/** The id-keyed friendship directory of gorilla_Rest.go: a map from integer
    id to User plus the counter that mints ids. Every handler is a pure
    transition from a store and an already-decoded request to a status and
    the new store. */
module GorillaDirectory {
  import opened Wrappers
  import opened Http
  import opened Sequences

  /** A user's friends, from friend id to friend name. `Nil` is the map Go
      leaves behind when a created record has no "friends" field: reading,
      ranging over and deleting from it act as on an empty map, and writing
      to it panics. */
  datatype FriendMap = Nil | Present(entries: map<int, string>)
  {
    /** The entries a read or a range loop sees. */
    function Entries(): map<int, string>
    {
      if Nil? then map[] else entries
    }
  }

  datatype User = User(name: string, age: int, friends: FriendMap)

  /** The zero User that a failed lookup returns. */
  const NoUser := User("", 0, Nil)

  /** The global `users` map with the `currentId` counter. */
  datatype Store = Store(users: map<int, User>, currentId: int)

  const EmptyStore := Store(map[], 0)

  /** The body of a POST /friends request. */
  datatype Friendship = Friendship(sourceId: int, targetId: int)

  /** Every stored id was minted by the counter, so none exceeds it. */
  ghost predicate IdsIssued(s: Store)
  {
    forall id :: id in s.users ==> id <= s.currentId
  }

  /** The result of repoFindUser: the stored user, or the zero User. */
  function Find(s: Store, id: int): User
  {
    if id in s.users then s.users[id] else NoUser
  }

  /** The test the handlers use for "this user exists": the lookup returned
      a non-empty name. */
  predicate Known(s: Store, id: int)
  {
    Find(s, id).name != ""
  }

  /** An order in which a Go range loop may visit the keys of the map: each
      key exactly once. The runtime picks it; the model takes it as input. */
  ghost predicate RangeOrder(s: Store, order: seq<int>)
  {
    && (forall id :: id in order <==> id in s.users)
    && NoDup(order)
  }

  /** repoFindUser: a range loop over the map that returns the user whose key
      equals `id`, whatever order the keys are visited in. */
  method RepoFindUser(s: Store, id: int, order: seq<int>) returns (u: User)
    requires RangeOrder(s, order)
    ensures id in s.users ==> u == s.users[id]
    ensures id !in s.users ==> u == NoUser
    ensures u.name != "" <==> Known(s, id)
  {
    for i := 0 to |order|
      invariant id in s.users ==> id in order[i..]
    {
      var key := order[i];
      if key == id {
        return s.users[key];
      }
    }
    return NoUser;
  }

  /** repoCreateUser: stores the user under the next id and advances the
      counter. */
  function RepoCreateUser(s: Store, u: User): (r: Store)
    ensures r.currentId == s.currentId + 1
    ensures r.users.Keys == s.users.Keys + {r.currentId}
    ensures r.users[r.currentId] == u
    ensures forall id :: id in s.users && id != r.currentId ==> r.users[id] == s.users[id]
    ensures IdsIssued(s) ==> r.currentId !in s.users && IdsIssued(r)
    ensures IdsIssued(s) ==> |r.users| == |s.users| + 1
  {
    var id := s.currentId + 1;
    Store(s.users[id := u], id)
  }

  /** userCreate. `body` is the decoded request, `None` when decoding failed.
      A record without a name is refused without touching the store. */
  function UserCreate(s: Store, body: Option<User>): (r: Reply<Store>)
    ensures r.status == BadRequest <==> body.None?
    ensures r.status == NoContent <==> body.Some? && body.value.name == "" && body.value.age == 0
    ensures r.status == PartialContent <==> body.Some? && body.value.name == "" && body.value.age != 0
    ensures r.status == Created <==> body.Some? && body.value.name != ""
    ensures r.status != Created ==> r.value == s
    ensures r.status == Created ==> r.value == RepoCreateUser(s, body.value)
  {
    match body
    case None => Reply(BadRequest, s)
    case Some(u) =>
      if u.name == "" && u.age == 0 then Reply(NoContent, s)
      else if u.name == "" then Reply(PartialContent, s)
      else Reply(Created, RepoCreateUser(s, u))
  }

  /** Writes `key: name` into the friend map of `owner`. */
  function AddFriend(s: Store, owner: int, key: int, name: string): (r: Store)
    requires owner in s.users && s.users[owner].friends.Present?
    ensures r.users.Keys == s.users.Keys && r.currentId == s.currentId
    ensures r.users[owner].name == s.users[owner].name && r.users[owner].age == s.users[owner].age
    ensures r.users[owner].friends == Present(s.users[owner].friends.entries[key := name])
    ensures forall id :: id in s.users && id != owner ==> r.users[id] == s.users[id]
  {
    var u := s.users[owner];
    Store(s.users[owner := u.(friends := Present(u.friends.entries[key := name]))], s.currentId)
  }

  /** What makeFriends needs in order not to panic: when both users are
      found, both friend maps exist. */
  predicate FriendMapsPresent(s: Store, req: Option<Friendship>)
  {
    req.Some? && Known(s, req.value.sourceId) && Known(s, req.value.targetId) ==>
      Find(s, req.value.sourceId).friends.Present? && Find(s, req.value.targetId).friends.Present?
  }

  /** makeFriends. Both users' friend maps get the other's id and name; when
      either id is unknown nothing changes. With sourceId == targetId both
      writes hit the same map, so the second is applied on top of the first. */
  function MakeFriends(s: Store, req: Option<Friendship>): (r: Reply<Store>)
    requires FriendMapsPresent(s, req)
    ensures r.status == BadRequest <==> req.None?
    ensures r.status == Ok <==> req.Some? && Known(s, req.value.sourceId) && Known(s, req.value.targetId)
    ensures r.status == NotFound <==> req.Some? && !(Known(s, req.value.sourceId) && Known(s, req.value.targetId))
    ensures r.status != Ok ==> r.value == s
    ensures r.status == Ok ==>
      var src, tgt := req.value.sourceId, req.value.targetId;
      && r.value.users.Keys == s.users.Keys
      && r.value.currentId == s.currentId
      && src in r.value.users && tgt in r.value.users
      && r.value.users[src].friends.Present? && r.value.users[tgt].friends.Present?
      && tgt in r.value.users[src].friends.entries && r.value.users[src].friends.entries[tgt] == s.users[tgt].name
      && src in r.value.users[tgt].friends.entries && r.value.users[tgt].friends.entries[src] == s.users[src].name
      && (src != tgt ==> r.value.users[src].friends.entries == s.users[src].friends.entries[tgt := s.users[tgt].name])
      && (src != tgt ==> r.value.users[tgt].friends.entries == s.users[tgt].friends.entries[src := s.users[src].name])
      && (src == tgt ==> r.value.users[src].friends.entries == s.users[src].friends.entries[src := s.users[src].name])
      && (forall id :: id in s.users ==>
            r.value.users[id].name == s.users[id].name && r.value.users[id].age == s.users[id].age)
      && (forall id :: id in s.users && id != src && id != tgt ==> r.value.users[id] == s.users[id])
  {
    match req
    case None => Reply(BadRequest, s)
    case Some(f) =>
      var source := Find(s, f.sourceId);
      var target := Find(s, f.targetId);
      if source.name != "" && target.name != "" then
        var s1 := AddFriend(s, f.sourceId, f.targetId, target.name);
        var s2 := AddFriend(s1, f.targetId, f.sourceId, source.name);
        Reply(Ok, s2)
      else
        Reply(NotFound, s)
  }

  /** A friend map with the entry for `id` deleted; a nil map stays nil. */
  function Unfriend(f: FriendMap, id: int): (r: FriendMap)
    ensures r.Nil? <==> f.Nil?
    ensures r.Entries().Keys == f.Entries().Keys - {id}
    ensures forall k :: k in r.Entries() ==> r.Entries()[k] == f.Entries()[k]
  {
    match f
    case Nil => Nil
    case Present(e) => Present(e - {id})
  }

  /** deleteUser. An unknown id answers NotFound and changes nothing.
      Otherwise the user is removed and every remaining friend map loses the
      entry keyed by that id; the counter is left alone, so the id is never
      minted again. */
  function DeleteUser(s: Store, id: int): (r: Reply<Store>)
    ensures r.status == NotFound <==> id !in s.users
    ensures r.status == Ok <==> id in s.users
    ensures r.status == NotFound ==> r.value == s
    ensures r.value.currentId == s.currentId
    ensures r.status == Ok ==>
      && r.value.users.Keys == s.users.Keys - {id}
      && (forall k :: k in r.value.users ==> id !in r.value.users[k].friends.Entries())
      && (forall k :: k in r.value.users ==>
            && r.value.users[k].name == s.users[k].name
            && r.value.users[k].age == s.users[k].age
            && r.value.users[k].friends.Nil? == s.users[k].friends.Nil?
            && r.value.users[k].friends.Entries().Keys == s.users[k].friends.Entries().Keys - {id}
            && (forall f :: f in r.value.users[k].friends.Entries() ==>
                  r.value.users[k].friends.Entries()[f] == s.users[k].friends.Entries()[f]))
  {
    if id !in s.users then Reply(NotFound, s)
    else
      var users := map k | k in s.users && k != id :: s.users[k].(friends := Unfriend(s.users[k].friends, id));
      Reply(Ok, Store(users, s.currentId))
  }

  /** The loop of deleteUser as written: range over the map in an arbitrary
      order, delete the entry whose key is `id` when it is reached, and purge
      `id` from the friend map of every user visited. Deleting the current key
      does not disturb the iteration, so every original key is visited once,
      and the result is the same for every visiting order. */
  method DeleteUserLoop(s: Store, id: int, order: seq<int>) returns (r: Reply<Store>)
    requires RangeOrder(s, order)
    ensures r == DeleteUser(s, id)
  {
    if id !in s.users {
      return Reply(NotFound, s);
    }
    var users := s.users;
    for i := 0 to |order|
      invariant forall k :: k in users <==> k in s.users && (k == id ==> id in order[i..])
      invariant forall k :: k in users && k in order[i..] ==> users[k] == s.users[k]
      invariant forall k :: k in users && k !in order[i..] ==>
                  users[k] == s.users[k].(friends := Unfriend(s.users[k].friends, id))
    {
      var key := order[i];
      var user := users[key];
      if key == id {
        users := users - {key};
      } else {
        users := users[key := user.(friends := Unfriend(user.friends, id))];
      }
    }
    assert order[|order|..] == [];
    var expected := DeleteUser(s, id).value.users;
    assert expected.Keys == s.users.Keys - {id};
    assert forall k :: k in users <==> k in s.users && k != id;
    assert users.Keys == expected.Keys;
    assert forall k :: k in users ==> users[k] == expected[k];
    assert users == expected;
    r := Reply(Ok, Store(users, s.currentId));
  }

  /** friendsUserShow: the friend map of a known user. */
  function FriendsUserShow(s: Store, id: int): (r: Reply<FriendMap>)
    ensures r.status == Ok <==> id in s.users && s.users[id].name != ""
    ensures r.status == NotFound <==> !(id in s.users && s.users[id].name != "")
    ensures r.status == Ok ==> r.value == s.users[id].friends
  {
    var user := Find(s, id);
    if user.name != "" then Reply(Ok, user.friends) else Reply(NotFound, Nil)
  }

  /** updateAge. `body` is the decoded new age, `None` when decoding failed.
      The user is looked up before the body is read, so an unknown id answers
      NotFound whatever the body. Any integer is accepted as an age. */
  function UpdateAge(s: Store, id: int, body: Option<int>): (r: Reply<Store>)
    ensures r.status == NotFound <==> !Known(s, id)
    ensures r.status == BadRequest <==> Known(s, id) && body.None?
    ensures r.status == Ok <==> Known(s, id) && body.Some?
    ensures r.status != Ok ==> r.value == s
    ensures r.status == Ok ==>
      && r.value.users.Keys == s.users.Keys
      && r.value.currentId == s.currentId
      && r.value.users[id] == User(s.users[id].name, body.value, s.users[id].friends)
      && (forall k :: k in s.users && k != id ==> r.value.users[k] == s.users[k])
  {
    if !Known(s, id) then Reply(NotFound, s)
    else
      match body
      case None => Reply(BadRequest, s)
      case Some(age) => Reply(Ok, Store(s.users[id := s.users[id].(age := age)], s.currentId))
  }

  /** The store after the `init` function: Adell without friends, then
      Barbora, whose only friend is the id 999 that no user has. */
  function Seeded(): Store
  {
    var s1 := RepoCreateUser(EmptyStore, User("Adell", 21, Present(map[])));
    RepoCreateUser(s1, User("Barbora", 22, Present(map[999 := "Gloria"])))
  }
}
