/** The name-keyed friendship directory of gin_Rest.go: a sequence of users in
    insertion order whose friend lists hold names. Every handler is a pure
    transition from the sequence and an already-decoded request to a status
    and the new sequence. */
module GinDirectory {
  import opened Wrappers
  import opened Http
  import opened Sequences

  datatype User = User(name: string, age: int, friends: seq<string>)

  /** The zero User that a failed lookup returns. */
  const NoUser := User("", 0, [])

  /** The body of a PUT /friends request: the "source" and "target" entries
      of the decoded JSON object, "" for an entry that is missing. */
  datatype Friendship = Friendship(source: string, target: string)

  /** The binding tags of User: `required` on the name (so it is not empty)
      and `min=18` on the age. */
  predicate Bindable(u: User)
  {
    u.name != "" && u.age >= 18
  }

  /** The names of the users, position by position. */
  function Names(users: seq<User>): (r: seq<string>)
    ensures |r| == |users|
    ensures forall i :: 0 <= i < |users| ==> r[i] == users[i].name
  {
    seq(|users|, i requires 0 <= i < |users| => users[i].name)
  }

  /** No two users share a name. */
  ghost predicate UniqueNames(users: seq<User>)
  {
    NoDup(Names(users))
  }

  /** At most one user is called `name`. */
  ghost predicate SingleNamed(users: seq<User>, name: string)
  {
    forall p, q :: 0 <= p < |users| && 0 <= q < |users| && users[p].name == name && users[q].name == name ==> p == q
  }

  /** `k` is the first position holding a user called `name`. */
  ghost predicate FirstNamed(users: seq<User>, name: string, k: int)
  {
    0 <= k < |users| && users[k].name == name && name !in Names(users)[..k]
  }

  /** The first position holding a user called `name`. */
  function IndexOf(users: seq<User>, name: string): (r: Option<nat>)
    ensures r.None? <==> name !in Names(users)
    ensures r.Some? ==> FirstNamed(users, name, r.value)
  {
    Position(Names(users), name)
  }

  /** The value of repoFindUser: the first user called `name`, or the zero
      User. */
  function Find(users: seq<User>, name: string): (r: User)
    ensures name !in Names(users) ==> r == NoUser
    ensures forall k :: FirstNamed(users, name, k) ==> r == users[k]
    ensures r.name != "" <==> name != "" && name in Names(users)
  {
    match IndexOf(users, name)
    case Some(k) => users[k]
    case None => NoUser
  }

  /** The test the handlers use for "this user exists": the lookup returned
      a non-empty name. */
  predicate Listed(users: seq<User>, name: string)
  {
    name != "" && name in Names(users)
  }

  /** repoFindUser as written: a range loop returning the first user whose
      name matches. */
  method RepoFindUser(users: seq<User>, name: string) returns (u: User)
    ensures name !in Names(users) ==> u == NoUser
    ensures forall k :: FirstNamed(users, name, k) ==> u == users[k]
  {
    for i := 0 to |users|
      invariant name !in Names(users)[..i]
    {
      if users[i].name == name {
        assert FirstNamed(users, name, i);
        return users[i];
      }
      assert Names(users)[..i + 1] == Names(users)[..i] + [users[i].name];
    }
    assert Names(users)[..|users|] == Names(users);
    return NoUser;
  }

  /** postUsers. `body` is the bound record, `None` when the JSON did not
      decode. A record failing the binding tags is refused; a name already
      present is refused; otherwise the record is appended. */
  function PostUsers(users: seq<User>, body: Option<User>): (r: Reply<seq<User>>)
    ensures r.status == BadRequest <==> body.None? || !Bindable(body.value)
    ensures r.status == Forbidden <==> body.Some? && Bindable(body.value) && body.value.name in Names(users)
    ensures r.status == Created <==> body.Some? && Bindable(body.value) && body.value.name !in Names(users)
    ensures r.status != Created ==> r.value == users
    ensures r.status == Created ==>
      |r.value| == |users| + 1 && r.value[..|users|] == users && r.value[|users|] == body.value
    ensures UniqueNames(users) ==> UniqueNames(r.value)
  {
    match body
    case None => Reply(BadRequest, users)
    case Some(u) =>
      if !Bindable(u) then Reply(BadRequest, users)
      else if Find(users, u.name).name == u.name then Reply(Forbidden, users)
      else
        assert Names(users + [u]) == Names(users) + [u.name];
        Reply(Created, users + [u])
  }

  /** What one pass of the putFriends loop does to the user it visits: the
      user as it stands when the pass ends, and whether the pass stopped the
      handler with Forbidden. */
  datatype Visit = Continue(user: User) | Conflict(user: User)

  /** One pass of the putFriends loop. The source branch runs first and
      stores its append before the target branch checks, so a user who is
      both source and target sees their own name already appended. */
  function LinkOne(u: User, source: string, target: string): (r: Visit)
    ensures r.user.name == u.name && r.user.age == u.age
    ensures u.name != source && u.name != target ==> r == Continue(u)
    ensures u.name == source && u.name != target ==>
      if target in u.friends then r == Conflict(u) else r == Continue(u.(friends := u.friends + [target]))
    ensures u.name == target && u.name != source ==>
      if source in u.friends then r == Conflict(u) else r == Continue(u.(friends := u.friends + [source]))
    ensures u.name == source && u.name == target ==>
      if target in u.friends then r == Conflict(u) else r == Conflict(u.(friends := u.friends + [target]))
  {
    if u.name == source && target in u.friends then Conflict(u)
    else
      var v := if u.name == source then u.(friends := u.friends + [target]) else u;
      if v.name == target && source in v.friends then Conflict(v)
      else if v.name == target then Continue(v.(friends := v.friends + [source]))
      else Continue(v)
  }

  /** The putFriends loop as written, from position `k` on: each pass stores
      its user back before the next pass, and a conflict ends the handler
      with the passes so far already stored. */
  function LinkFrom(users: seq<User>, k: nat, source: string, target: string): (r: Reply<seq<User>>)
    requires k <= |users|
    ensures r.status == Created || r.status == Forbidden
    ensures |r.value| == |users|
    ensures r.value[..k] == users[..k]
    ensures forall i :: 0 <= i < |users| ==> r.value[i].name == users[i].name && r.value[i].age == users[i].age
    decreases |users| - k
  {
    if k == |users| then Reply(Created, users)
    else
      match LinkOne(users[k], source, target)
      case Conflict(u) => Reply(Forbidden, users[k := u])
      case Continue(u) => LinkFrom(users[k := u], k + 1, source, target)
  }

  /** The loop from position `k` on reaches its end exactly when no pass
      from `k` on conflicts, and then every later user is what its pass
      leaves. */
  lemma {:induction false} LinkFromOutcome(users: seq<User>, k: nat, source: string, target: string)
    requires k <= |users|
    ensures LinkFrom(users, k, source, target).status == Created <==>
      forall m :: k <= m < |users| ==> LinkOne(users[m], source, target).Continue?
    ensures LinkFrom(users, k, source, target).status == Created ==>
      forall m :: 0 <= m < |users| ==>
        LinkFrom(users, k, source, target).value[m] == if m < k then users[m] else LinkOne(users[m], source, target).user
    decreases |users| - k
  {
    if k < |users| {
      var v := LinkOne(users[k], source, target);
      if v.Continue? {
        var next := users[k := v.user];
        LinkFromOutcome(next, k + 1, source, target);
        assert forall m :: k + 1 <= m < |users| ==> next[m] == users[m];
      }
    }
  }

  /** The loop from position `k` on stopped at a conflict in pass `c`:
      the passes from `k` to before `c` continued, `after` holds what each
      of them and the conflicting pass left, and every other user is as
      it was. */
  ghost predicate StoppedAt(users: seq<User>, after: seq<User>, k: int, c: int, source: string, target: string)
  {
    && 0 <= k <= c < |users| && |after| == |users|
    && (forall m :: k <= m < c ==> LinkOne(users[m], source, target).Continue?)
    && LinkOne(users[c], source, target).Conflict?
    && forall m :: 0 <= m < |users| ==>
         after[m] == if m < k || c < m then users[m] else LinkOne(users[m], source, target).user
  }

  /** A Forbidden answer from the loop means some pass conflicted after
      the passes before it continued; the passes so far stay stored and
      the users after the conflict are untouched. */
  lemma {:induction false} LinkFromConflict(users: seq<User>, k: nat, source: string, target: string)
    requires k <= |users|
    ensures LinkFrom(users, k, source, target).status == Forbidden ==>
      exists c :: StoppedAt(users, LinkFrom(users, k, source, target).value, k, c, source, target)
    decreases |users| - k
  {
    if k < |users| {
      var r := LinkFrom(users, k, source, target);
      var v := LinkOne(users[k], source, target);
      if v.Conflict? {
        assert StoppedAt(users, r.value, k, k, source, target);
      } else {
        var next := users[k := v.user];
        LinkFromConflict(next, k + 1, source, target);
        if r.status == Forbidden {
          var c :| StoppedAt(next, r.value, k + 1, c, source, target);
          assert StoppedAt(users, r.value, k, c, source, target);
        }
      }
    }
  }

  /** The putFriends loop made atomic: it answers Created exactly when no
      pass conflicts, with every user replaced by what its pass leaves, and
      a conflict answers Forbidden with every friend list as it was. */
  function LinkAtomic(users: seq<User>, source: string, target: string): (r: Reply<seq<User>>)
    ensures r.status == Created || r.status == Forbidden
    ensures r.status == Created <==> forall m :: 0 <= m < |users| ==> LinkOne(users[m], source, target).Continue?
    ensures r.status == Created ==>
      |r.value| == |users| && forall m :: 0 <= m < |users| ==> r.value[m] == LinkOne(users[m], source, target).user
    ensures r.status == Forbidden ==> r.value == users
  {
    var r := LinkFrom(users, 0, source, target);
    LinkFromOutcome(users, 0, source, target);
    if r.status == Forbidden then Reply(Forbidden, users) else r
  }

  /** putFriends as written. `body` is the decoded request, `None` when
      decoding failed. When a name is not found nothing changes; otherwise
      the loop runs, and a Forbidden answer keeps the passes stored before
      the conflict. */
  function PutFriends(users: seq<User>, body: Option<Friendship>): (r: Reply<seq<User>>)
    ensures r.status == BadRequest <==> body.None?
    ensures r.status == NotFound <==>
      body.Some? && !(Listed(users, body.value.source) && Listed(users, body.value.target))
    ensures r.status == Created || r.status == Forbidden <==>
      body.Some? && Listed(users, body.value.source) && Listed(users, body.value.target)
    ensures r.status == BadRequest || r.status == NotFound ==> r.value == users
    ensures r.status == Created <==>
      && body.Some? && Listed(users, body.value.source) && Listed(users, body.value.target)
      && forall m :: 0 <= m < |users| ==> LinkOne(users[m], body.value.source, body.value.target).Continue?
    ensures |r.value| == |users|
    ensures r.status == Created ==>
      forall m :: 0 <= m < |users| ==> r.value[m] == LinkOne(users[m], body.value.source, body.value.target).user
    ensures r.status == Forbidden ==>
      exists c :: StoppedAt(users, r.value, 0, c, body.value.source, body.value.target)
    ensures forall i :: 0 <= i < |users| ==> r.value[i].name == users[i].name && r.value[i].age == users[i].age
  {
    match body
    case None => Reply(BadRequest, users)
    case Some(f) =>
      if Find(users, f.source).name == "" || Find(users, f.target).name == "" then Reply(NotFound, users)
      else
        LinkFromOutcome(users, 0, f.source, f.target);
        LinkFromConflict(users, 0, f.source, f.target);
        LinkFrom(users, 0, f.source, f.target)
  }

  /** putFriends with the loop made atomic: as PutFriends, except that a
      Forbidden answer leaves the directory as it was. */
  function PutFriendsAtomic(users: seq<User>, body: Option<Friendship>): (r: Reply<seq<User>>)
    ensures r.status == BadRequest <==> body.None?
    ensures r.status == NotFound <==>
      body.Some? && !(Listed(users, body.value.source) && Listed(users, body.value.target))
    ensures r.status == Created <==>
      && body.Some? && Listed(users, body.value.source) && Listed(users, body.value.target)
      && forall m :: 0 <= m < |users| ==> LinkOne(users[m], body.value.source, body.value.target).Continue?
    ensures r.status == Created ==>
      |r.value| == |users| &&
      forall m :: 0 <= m < |users| ==> r.value[m] == LinkOne(users[m], body.value.source, body.value.target).user
    ensures r.status != Created ==> r.value == users
  {
    match body
    case None => Reply(BadRequest, users)
    case Some(f) =>
      if Find(users, f.source).name == "" || Find(users, f.target).name == "" then Reply(NotFound, users)
      else LinkAtomic(users, f.source, f.target)
  }

  /** The user with the first occurrence of `name` removed from the friend
      list, as the first loop of deleteUserByName leaves it. */
  function Unfriend(u: User, name: string): (r: User)
    ensures r.name == u.name && r.age == u.age
    ensures multiset(r.friends) == multiset(u.friends) - multiset{name}
    ensures AtMostOnce(u.friends, name) ==> name !in r.friends
  {
    u.(friends := RemoveFirst(u.friends, name))
  }

  /** deleteUserByName. An unknown name answers NotFound and changes nothing.
      Otherwise the first loop removes the name from every friend list and
      the second closes the gap the user leaves (`append(users[:i],
      users[i+1:]...)`), so the others keep their relative order. The
      in-place slice deletions, which run only for a listed name, are only
      sound when the name occurs at most once in every friend list and
      among the users, which the model requires of a listed name. */
  function DeleteUserByName(users: seq<User>, name: string): (r: Reply<seq<User>>)
    requires Listed(users, name) ==> forall i :: 0 <= i < |users| ==> AtMostOnce(users[i].friends, name)
    requires Listed(users, name) ==> SingleNamed(users, name)
    ensures r.status == NotFound <==> !Listed(users, name)
    ensures r.status == Ok <==> Listed(users, name)
    ensures r.status == NotFound ==> r.value == users
    ensures r.status == Ok ==>
      && |r.value| == |users| - 1
      && name !in Names(r.value)
      && (forall k :: 0 <= k < |r.value| ==> name !in r.value[k].friends)
      && (var i := IndexOf(users, name).value;
          forall k :: 0 <= k < |r.value| ==> r.value[k] == Unfriend(users[if k < i then k else k + 1], name))
  {
    if Find(users, name).name == "" then Reply(NotFound, users)
    else
      var i := IndexOf(users, name).value;
      var rest := CascadeWithout(users, i, name);
      CascadeWithoutDropsName(users, i, name);
      Reply(Ok, rest)
  }

  /** Both loops of deleteUserByName at once: every user loses `name` from
      the friend list, and the user at position `i` is dropped. */
  function CascadeWithout(users: seq<User>, i: nat, name: string): (r: seq<User>)
    requires i < |users|
    ensures |r| == |users| - 1
    ensures forall k :: 0 <= k < |r| ==> r[k] == Unfriend(users[if k < i then k else k + 1], name)
  {
    seq(|users| - 1, k requires 0 <= k < |users| - 1 => Unfriend(users[if k < i then k else k + 1], name))
  }

  /** When the dropped user is the only one called `name` and every friend
      list names it at most once, no trace of the name is left. */
  lemma CascadeWithoutDropsName(users: seq<User>, i: nat, name: string)
    requires i < |users| && users[i].name == name
    requires forall k :: 0 <= k < |users| ==> AtMostOnce(users[k].friends, name)
    requires SingleNamed(users, name)
    ensures name !in Names(CascadeWithout(users, i, name))
    ensures forall k :: 0 <= k < |users| - 1 ==> name !in CascadeWithout(users, i, name)[k].friends
  {
    var rest := CascadeWithout(users, i, name);
    forall k | 0 <= k < |rest|
      ensures rest[k].name != name && name !in rest[k].friends
    {
      var j := if k < i then k else k + 1;
      assert AtMostOnce(users[j].friends, name);
    }
  }

  /** getFriends: the friend list of the first user called `name`. */
  function GetFriends(users: seq<User>, name: string): (r: Reply<seq<string>>)
    ensures r.status == Ok <==> name in Names(users)
    ensures r.status == NotFound <==> name !in Names(users)
    ensures forall k :: FirstNamed(users, name, k) ==> r.value == users[k].friends
  {
    match IndexOf(users, name)
    case Some(k) => Reply(Ok, users[k].friends)
    case None => Reply(NotFound, [])
  }

  /** getUserByName: the first user called `name`. */
  function GetUserByName(users: seq<User>, name: string): (r: Reply<User>)
    ensures r.status == Ok <==> name in Names(users)
    ensures r.status == NotFound <==> name !in Names(users)
    ensures forall k :: FirstNamed(users, name, k) ==> r.value == users[k]
  {
    match IndexOf(users, name)
    case Some(k) => Reply(Ok, users[k])
    case None => Reply(NotFound, NoUser)
  }

  /** getUserByID: the user at 1-based position `id`; `None` stands for a
      path parameter that is not a number. */
  function GetUserById(users: seq<User>, id: Option<int>): (r: Reply<User>)
    ensures r.status == BadRequest <==> id.None?
    ensures r.status == Ok <==> id.Some? && 1 <= id.value <= |users|
    ensures r.status == NotFound <==> id.Some? && !(1 <= id.value <= |users|)
    ensures r.status == Ok ==> r.value == users[id.value - 1]
  {
    match id
    case None => Reply(BadRequest, NoUser)
    case Some(n) => if 1 <= n <= |users| then Reply(Ok, users[n - 1]) else Reply(NotFound, NoUser)
  }

  /** putAge. `id` is the 1-based position (Atoi's result, 0 when the path
      parameter is not a number), `body` the decoded new age. The age floor
      is checked inside the loop over the users, so on an empty directory
      every request answers NotFound. */
  function PutAge(users: seq<User>, id: int, body: Option<int>): (r: Reply<seq<User>>)
    ensures r.status == BadRequest <==> body.None?
    ensures r.status == Forbidden <==> body.Some? && |users| > 0 && body.value < 18
    ensures r.status == Ok <==> body.Some? && body.value >= 18 && 1 <= id <= |users|
    ensures r.status == NotFound <==>
      body.Some? && (|users| == 0 || (body.value >= 18 && !(1 <= id <= |users|)))
    ensures r.status != Ok ==> r.value == users
    ensures r.status == Ok ==>
      && |r.value| == |users|
      && r.value[id - 1] == User(users[id - 1].name, body.value, users[id - 1].friends)
      && (forall k :: 0 <= k < |users| && k != id - 1 ==> r.value[k] == users[k])
  {
    match body
    case None => Reply(BadRequest, users)
    case Some(age) =>
      if |users| == 0 then Reply(NotFound, users)
      else if age < 18 then Reply(Forbidden, users)
      else if 1 <= id <= |users| then Reply(Ok, users[id - 1 := users[id - 1].(age := age)])
      else Reply(NotFound, users)
  }

  /** The loop of putAge as written: every pass first checks the age floor,
      then whether its position is the requested one. */
  method PutAgeLoop(users: seq<User>, id: int, body: Option<int>) returns (r: Reply<seq<User>>)
    ensures r == PutAge(users, id, body)
  {
    if body.None? {
      return Reply(BadRequest, users);
    }
    var newAge := body.value;
    var current := users;
    for i := 0 to |users|
      invariant current == users
      invariant i > 0 ==> newAge >= 18 && !(0 <= id - 1 < i)
    {
      if newAge < 18 {
        return Reply(Forbidden, current);
      } else if i == id - 1 {
        current := current[i := current[i].(age := newAge)];
        return Reply(Ok, current);
      }
    }
    return Reply(NotFound, current);
  }

  /** The directory main starts with. */
  const Seed := [User("Monika", 25, []), User("Barby", 35, [])]
}
