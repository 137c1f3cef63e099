# Friendship directory, in Dafny

A model of the two in-memory friendship directories of the Network-exchange
service and proofs about them. Each directory keeps users, each with a name,
an age and a list of friends. Each answers HTTP requests that create users,
connect two users, delete a user, change an age and list a user's friends.

- `gorilla_Rest.go` keys users by an integer id minted from a counter.
  Friends live in a `map[int]string` from friend id to friend name.
- `gin_Rest.go` keeps users in a slice in insertion order and finds them by
  name. Friends are a slice of names. Ages are addressed by 1-based position.

Every handler is a pure function from the directory and an already decoded
request to a `Reply`: an HTTP status and the directory afterwards (or the
data looked up). A body that fails to decode is `None`.

Files:

- `wrappers.dfy`: `Option`.
- `http.dfy`: `Status` and `Reply`.
- `sequences.dfy`: first position, first-occurrence removal, duplicate-free
  sequences.
- `gorilla_directory.dfy`: the id-keyed store and its handlers. Two Go range
  loops are also written as methods. Map iteration order is a parameter
  there, and each method is proved equal to the handler for every order.
- `gorilla_properties.dfy`: relations between handler calls. Ids are never
  reused over any run of requests.
- `gin_directory.dfy`: the name-keyed slice and its handlers. The putFriends
  loop appears twice: as written (`LinkFrom`, used by `PutFriends`) and made
  atomic (`LinkAtomic`, used by `PutFriendsAtomic`).
- `gin_properties.dfy`: a consistency invariant, what later lookups see,
  the partial effect of the loop as written, and the example request
  sequences. Every handler keeps the invariant, except creation of a user
  whose record already lists friends.

Four behaviours of the code a reader might not expect, which the model
keeps:

- Connecting an already connected pair in `gorilla_Rest.go` is not refused.
  The map writes overwrite, and the answer is 200 again.
- `gorilla_Rest.go` has no age floor.
- A created user is not given an empty friend map when the request omits
  one. Go leaves a nil map there, and a later connection panics on it.
- `gin_Rest.go` refuses a connection when either side already lists the
  other, not only when both do.

## Model

| member | source | states |
|---|---|---|
| GorillaDirectory.RepoFindUser | gorilla_Rest.go:93-100 | The range loop returns the user stored under the id, or the zero user when the id is absent, whatever order the keys are visited in. |
| GorillaDirectory.RepoCreateUser | gorilla_Rest.go:84-90 | The counter goes up by one. The user is stored under the new counter value and every other entry is kept. When all stored ids are at most the counter, the new id was free, the store grows by exactly one and that bound still holds. |
| GorillaDirectory.UserCreate | gorilla_Rest.go:135-174 | Undecodable body gives 400. No name and no age gives 204. No name with an age gives 206. Each holds exactly when the store is unchanged. Any named record gives 201 and is stored under the next counter value. That id is a fresh one when every stored id is at most the counter, as RepoCreateUser states. |
| GorillaDirectory.AddFriend | gorilla_Rest.go:193-194 | One friend-map write changes only the owner's map, at one key, and keeps its name and age. |
| GorillaDirectory.MakeFriends | gorilla_Rest.go:177-211 | 400 iff undecodable; 200 iff both users are found; 404 iff one is missing, with nothing changed. On 200 each map holds the other's id with that user's name. Both maps are exactly the old ones plus that entry, with one combined entry when source and target coincide. Names, ages and every other user are unchanged. |
| GorillaDirectory.Unfriend | gorilla_Rest.go:229-233 | The friend map loses exactly the entry keyed by the id, keeps every other entry's name, and stays nil if it was nil. |
| GorillaDirectory.DeleteUser | gorilla_Rest.go:214-245 | 404 iff the id is absent, with nothing changed. Otherwise the id's entry is removed and no remaining friend map mentions the id. Every remaining user keeps its name, age and other friends. The counter is untouched. |
| GorillaDirectory.DeleteUserLoop | gorilla_Rest.go:221-234 | The range loop that deletes while iterating gives the result of DeleteUser for every visiting order. |
| GorillaDirectory.FriendsUserShow | gorilla_Rest.go:248-283 | 200 with the user's friend map iff a user with a non-empty name is stored under the id, otherwise 404. |
| GorillaDirectory.UpdateAge | gorilla_Rest.go:286-323 | An unknown id gives 404 whatever the body. A known id with an undecodable body gives 400. Otherwise 200 with only that user's age replaced, any integer accepted. |
| GorillaProperties.MakeFriendsIdempotent | gorilla_Rest.go:192-194 | Repeating a connection request answers the same and leaves the same store. |
| GorillaProperties.MakeFriendsThenShow | gorilla_Rest.go:177-211 | After a successful connection, each user's friends listing shows the other under its id and name. |
| GorillaProperties.MakeFriendsUnknownIsHarmless | gorilla_Rest.go:207-210 | A request naming an unknown source or target answers 404, and every friends listing is unchanged. |
| GorillaProperties.DeleteThenShow | gorilla_Rest.go:221-234 | After a deletion the user is not found, its friends listing answers 404, and no listing mentions its id. |
| GorillaProperties.CreatedUserIsFound | gorilla_Rest.go:86-90 | A created user sits under an id that was free and is found there with its friends. |
| GorillaProperties.ApplyKeepsCounter | gorilla_Rest.go:84-90 | Over any single request, stored ids stay at or below the counter. The counter moves by one exactly on a successful creation and otherwise stays. |
| GorillaProperties.IssuedIdsNeverReused | gorilla_Rest.go:84-90 | Over any run of requests the minted ids strictly increase and all exceed the starting counter. So no id is handed out twice or reused after a deletion. |
| GorillaProperties.SeedHasDanglingFriend | gorilla_Rest.go:65-72 | The initial store gives Barbora a friend id 999 that no user has, so friend references need not resolve. |
| Sequences.Position | gin_Rest.go:87-94 | The first index holding the value, with no earlier occurrence; none exactly when the value is absent. |
| Sequences.RemoveFirst | gin_Rest.go:189-193 | The multiset loses one copy of the value and the length drops by one when it was present. An absent value leaves the list as it was. A value present at most once is gone afterwards. When present, the result is the list with its first occurrence cut out and the rest in order. |
| GinDirectory.Bindable | gin_Rest.go:28-29 | The binding tags: a record binds only with a non-empty name and an age of at least 18. |
| GinDirectory.Find | gin_Rest.go:87-94 | The first user with the name, or the zero user when none has it. The result is named exactly when the name is non-empty and present. |
| GinDirectory.RepoFindUser | gin_Rest.go:87-94 | The range loop returns the first user with the name, or the zero user. |
| GinDirectory.PostUsers | gin_Rest.go:98-125 | 400 iff the record is undecodable, nameless or under 18. 403 iff the name is taken. 201 iff neither, with the record appended and the others untouched. Unique names stay unique. |
| GinDirectory.LinkOne | gin_Rest.go:151-171 | One loop pass. A user who is neither side is untouched. The source, or the target, conflicts when it already lists the other, and otherwise appends the other's name. A user who is both sides appends its own name and then conflicts. |
| GinDirectory.LinkFrom | gin_Rest.go:151-173 | The loop as written, from position k, answers 201 or 403. It keeps every name and age, and the users before position k. |
| GinDirectory.LinkFromOutcome | gin_Rest.go:151-173 | The loop reaches its end and answers 201 exactly when no pass conflicts. Every user is then what its own pass leaves. |
| GinDirectory.LinkFromConflict | gin_Rest.go:151-173 | A 403 from the loop means some pass conflicted after every earlier pass continued. The earlier passes' results and the conflicting pass's result stay stored, and every user after the conflict is untouched. |
| GinDirectory.LinkAtomic | gin_Rest.go:151-173 | The corrected loop answers 201 exactly when no pass conflicts, with every user replaced by what its pass leaves. Otherwise it answers 403 with the directory unchanged. |
| GinDirectory.PutFriends | gin_Rest.go:128-175 | The handler as written. 400 iff undecodable and 404 iff a side is not found, both with nothing changed. Otherwise 201 or 403, and 201 exactly when no pass conflicts, with every user what its pass leaves. A 403 comes from a first conflicting pass: the users up to it are what their passes left, and those after it are untouched. Names, ages and length are always kept. |
| GinDirectory.PutFriendsAtomic | gin_Rest.go:128-175 | The corrected handler. Same 400, 404 and 201 cases as PutFriends, but every answer other than 201 leaves the directory unchanged. |
| GinDirectory.Unfriend | gin_Rest.go:189-193 | The friend list loses one occurrence of the name and the user keeps its name and age. A name listed at most once is gone afterwards. |
| GinDirectory.DeleteUserByName | gin_Rest.go:178-204 | 404 iff the name is empty or absent, with nothing changed. Otherwise 200, and the list is one shorter. The name appears neither as a user nor in any friend list. Every other user keeps its relative order with the name purged from its friends. |
| GinDirectory.CascadeWithoutDropsName | gin_Rest.go:188-203 | When only the deleted user has the name and no list repeats it, no trace of the name is left. |
| GinDirectory.GetFriends | gin_Rest.go:212-221 | 200 with the first matching user's friends iff the name is present, otherwise 404. |
| GinDirectory.GetUserByName | gin_Rest.go:258-267 | 200 with the first matching user iff the name is present, otherwise 404. |
| GinDirectory.GetUserById | gin_Rest.go:270-283 | A non-numeric id gives 400. 200 with the user at the 1-based position iff it is in range, otherwise 404. |
| GinDirectory.PutAge | gin_Rest.go:224-248 | Undecodable body gives 400. An empty directory gives 404. Otherwise an age under 18 gives 403 whatever the position. A position in range gives 200 with only that age replaced. Any other position gives 404. Only 200 changes anything. |
| GinDirectory.PutAgeLoop | gin_Rest.go:235-247 | The loop, which checks the age floor on every pass before the position, gives exactly the PutAge reply. |
| Sequences.NoDupRemoveFirst | gin_Rest.go:189-193 | Removing a name from a duplicate-free friend list leaves it duplicate-free. |
| GinProperties.LinkFromStopsAt | gin_Rest.go:151-172 | When earlier passes change nothing and one pass conflicts, the loop answers 403 with exactly that pass's change stored. |
| GinProperties.ConnectNewPair | gin_Rest.go:150-173 | Connecting two distinct users who list neither other appends each name to the other's list and changes nothing else. |
| GinProperties.ExistingPairConflicts | gin_Rest.go:152-168 | The first pass that reaches either of two users who already list each other conflicts without changing that user. |
| GinProperties.ConnectExistingPair | gin_Rest.go:152-168 | Connecting users who already list each other answers 403 with nothing changed, even in the loop as written. |
| GinProperties.ConnectTwice | gin_Rest.go:128-175 | In a consistent directory a new connection succeeds. Repeating it answers 403 without effect, and each list then names the other exactly once. |
| GinProperties.ConnectUnknown | gin_Rest.go:143-148 | A connection naming an unknown user answers 404 with nothing changed. |
| GinProperties.AddPairKeepsConsistent | gin_Rest.go:159-170 | Appending each name to the other's list keeps names unique, lists duplicate-free, references resolvable and friendship mutual. |
| GinProperties.SelfAppendKeepsConsistent | gin_Rest.go:159-160 | A user appending its own name, when it did not list itself, keeps a consistent directory consistent. |
| GinProperties.PutFriendsKeepsConsistent | gin_Rest.go:128-175 | Every connection request to the handler as written keeps a consistent directory consistent. From such a directory the only partial effect of a 403 is a user listing itself. |
| GinProperties.PutFriendsAtomicKeepsConsistent | gin_Rest.go:128-175 | Every connection request to the corrected handler keeps a consistent directory consistent. |
| GinProperties.PostUsersKeepsConsistent | gin_Rest.go:111-118 | Creating a user without friends keeps a consistent directory consistent. |
| GinProperties.PutAgeKeepsConsistent | gin_Rest.go:224-248 | Every age change keeps a consistent directory consistent. |
| GinProperties.DeletedAtKeepsNames | gin_Rest.go:197-203 | Dropping a user keeps the remaining users named and their names unique. |
| GinProperties.DeletedAtKeepsNoDup | gin_Rest.go:188-196 | Purging a name keeps every friend list duplicate-free. |
| GinProperties.DeletedAtKeepsOthers | gin_Rest.go:197-203 | Every name other than the deleted one is still a user's name afterwards. |
| GinProperties.DeletedAtKeepsClosed | gin_Rest.go:188-203 | After the cascade every friend reference still names a user. |
| GinProperties.DeletedAtKeepsSymmetric | gin_Rest.go:188-203 | After the cascade friendship is still mutual. |
| GinProperties.DeleteKeepsConsistent | gin_Rest.go:178-204 | A consistent directory meets the deletion's at-most-once conditions, and every deletion keeps it consistent. |
| GinProperties.CreatedUserIsFound | gin_Rest.go:98-125 | A created user is found by its name and by its new ordinal. |
| GinProperties.DeletedUserIsGone | gin_Rest.go:178-204 | After a deletion neither the user lookup nor the friends lookup finds the name, and no friends listing contains it. |
| GinProperties.DeleteShiftsOrdinals | gin_Rest.go:197-203 | After a deletion every later user answers to the ordinal one below its old one. |
| GinProperties.DeleteUnknownWithRepeats | gin_Rest.go:182-185 | A directory where a friend list repeats a name that no user has: deleting that name answers 404 with nothing changed. |
| GinProperties.SelfConnectLeavesTrace | gin_Rest.go:151-173 | A user asked to befriend itself ends up in its own list while the loop, and the handler, as written answer 403. The atomic loop and the corrected handler answer 403 with nothing changed. |
| GinProperties.SelfConnectOnSeed | gin_Rest.go:151-173 | On the initial directory, Monika befriending herself answers 403 from the handler as written, yet she lists herself. The corrected handler leaves the directory as it was. |
| GinProperties.OneSidedConnectLeavesTrace | gin_Rest.go:151-173 | After Willy is created listing Monika, connecting Monika to Willy answers 403 from the handler as written, with Willy appended to Monika's list. The corrected handler leaves the directory as it was. |
| GinProperties.MonikaBarbyCreate | gin_Rest.go:98-125 | Creating Monika and then Barby appends them in order. |
| GinProperties.MonikaBarbyConnect | gin_Rest.go:128-175 | Connecting them makes each list the other. |
| GinProperties.MonikaBarbyDelete | gin_Rest.go:178-221 | Monika's friends are then Barby. Deleting Barby leaves Monika alone with no friends. |
| GinProperties.UnderAgeScenario | gin_Rest.go:224-248 | Setting the second user's age to 17 answers 403, and the stored age stays 35. |

## Left out

- HTTP routing, JSON encoding and decoding, `strconv.Atoi` and the response texts are not modelled. A body that fails to decode or bind is the `None` input. The path parameter of putAge is taken as Atoi's result, which is 0 for a non-number.
- `Index`, `userIndex`, `userShow` and `getUsers` only render the directory, and are not modelled. `userShow` answers 200 even when the user is missing, with 404 only inside the body.
- Concurrency is not modelled. Each request runs alone on the directory.
- `getErrorMessage` only formats validation messages, and is not modelled.
- `gin_Rest.go` binds every creation request into the global `newUser`. A field missing from a later request keeps the previous request's value, and friend slices can share backing arrays. The model takes each bound record as given.
- The counter `currentId` is unbounded in the model. Go's 64-bit wrap-around after 2^63 creations is not modelled.
- Panics are preconditions, not error results, in two handlers.
- GorillaDirectory.MakeFriends requires both friend maps to exist when both users are found, because a write to a nil map panics.
- GinDirectory.DeleteUserByName requires, only when the name is listed, that the name occurs at most once among the users and in each friend list. With repeats, the in-place slice deletion reads shifted elements and can index out of range. An unlisted name answers 404 with nothing changed, whatever the friend lists hold.
- GinProperties.PostUsersKeepsConsistent covers only records created without friends. A record listing friends can make friendship one-sided, as GinProperties.OneSidedConnectLeavesTrace shows.
- GinProperties.ConnectExistingPair requires both users to list each other. The loop refuses even when only one does, which LinkOne states.

## Findings

| source | as written | input that shows it | evidently intended | confidence | as-written member | corrected member |
|---|---|---|---|---|---|---|
| gin_Rest.go:151-173 | putFriends stores each pass's append before later passes check for an existing friendship. A user who is both source and target gets its own name appended by the source branch, and the target branch then finds it and answers 403. | The initial directory with `{"source": "Monika", "target": "Monika"}`: 403, but Monika now lists herself. | A refused connection changes nothing. | not executed | GinProperties.SelfConnectOnSeed | GinDirectory.PutFriendsAtomic |
| gin_Rest.go:151-173 | The same loop on a one-sided friendship: the source is appended to before the target's pass answers 403. | After POST `{"name": "Willy", "age": 33, "friends": ["Monika"]}`, the request `{"source": "Monika", "target": "Willy"}`: 403, but Monika now lists Willy. | A refused connection changes nothing. | not executed | GinProperties.OneSidedConnectLeavesTrace | GinDirectory.PutFriendsAtomic |
