/** The user directory: the upsert run on every sign-in, the lookup by
    identity-provider id that every identity-sensitive handler uses, and
    the unfiltered listing. */
module Users {
  import opened Seqs
  import opened Schema

  function HasClerkId(clerkId: string): User -> bool
  {
    (u: User) => u.clerkId == clerkId
  }

  /** The `by_clerkId` index with `.first()`: the earliest user whose
      clerkId is the given one. */
  function GetUserByClerkId(users: seq<User>, clerkId: string): (r: Option<Doc<User>>)
    ensures r.Some? ==> r.value.id < |users| && r.value.data == users[r.value.id]
    ensures r.Some? ==> r.value.data.clerkId == clerkId
    ensures r.Some? ==> forall j :: 0 <= j < r.value.id ==> users[j].clerkId != clerkId
    ensures r.None? <==> forall j :: 0 <= j < |users| ==> users[j].clerkId != clerkId
  {
    match FirstIndex(users, HasClerkId(clerkId))
    case None => None
    case Some(i) => Some(Doc(i, users[i]))
  }

  /** The `list` query: the whole users table. */
  function ListUsers(t: Tables): (r: seq<Doc<User>>)
    ensures |r| == |t.users|
    ensures forall i :: 0 <= i < |r| ==> r[i].id == i && r[i].data == t.users[i]
  {
    Docs(t.users)
  }

  /** The state after `store`: insert a new online user, or mark the
      existing one online and seen now. */
  function StoreStep(t: Tables, clerkId: string, email: string, name: string, now: int): (r: Tables)
    ensures r.conversations == t.conversations && r.messages == t.messages
    ensures r.typingIndicators == t.typingIndicators
    ensures GetUserByClerkId(t.users, clerkId).None? ==>
      r.users == t.users + [User(clerkId, email, name, true, now)]
    ensures GetUserByClerkId(t.users, clerkId).Some? ==>
      var i := GetUserByClerkId(t.users, clerkId).value.id;
      && |r.users| == |t.users|
      && r.users[i] == t.users[i].(isOnline := true, lastSeen := now)
      && forall j :: 0 <= j < |t.users| && j != i ==> r.users[j] == t.users[j]
    // afterwards the lookup finds the stored user, online and seen now; a
    // new user carries the given email and name, an existing one keeps its own
    ensures GetUserByClerkId(r.users, clerkId).Some?
    ensures var d := GetUserByClerkId(r.users, clerkId).value;
      && d.data.isOnline && d.data.lastSeen == now
      && d.id == (if GetUserByClerkId(t.users, clerkId).Some? then GetUserByClerkId(t.users, clerkId).value.id else |t.users|)
      && (d.data.email, d.data.name) ==
         (if GetUserByClerkId(t.users, clerkId).Some? then (t.users[d.id].email, t.users[d.id].name) else (email, name))
  {
    match GetUserByClerkId(t.users, clerkId)
    case None =>
      var r := t.(users := t.users + [User(clerkId, email, name, true, now)]);
      assert r.users[|t.users|].clerkId == clerkId;
      r
    case Some(existing) =>
      t.(users := t.users[existing.id := existing.data.(lastSeen := now, isOnline := true)])
  }

  /** The `store` mutation. */
  method Store(db: Db, clerkId: string, email: string, name: string, now: int)
    modifies db`users
    ensures db.State() == StoreStep(old(db.State()), clerkId, email, name, now)
  {
    var existing := GetUserByClerkId(db.users, clerkId);
    if existing.None? {
      db.users := db.users + [User(clerkId, email, name, true, now)];
    } else {
      var id := existing.value.id;
      db.users := db.users[id := db.users[id].(lastSeen := now, isOnline := true)];
    }
  }

  function CountWithClerkId(users: seq<User>, clerkId: string): nat
  {
    |Filter(users, HasClerkId(clerkId))|
  }

  predicate UniqueClerkIds(users: seq<User>)
  {
    forall i, j :: 0 <= i < j < |users| ==> users[i].clerkId != users[j].clerkId
  }

  /** `store` never creates a second user for a clerkId: the number of users
      with that clerkId becomes one if there was none and stays as it was
      otherwise. */
  lemma StoreCount(t: Tables, clerkId: string, email: string, name: string, now: int)
    ensures var n := CountWithClerkId(t.users, clerkId);
      CountWithClerkId(StoreStep(t, clerkId, email, name, now).users, clerkId) == if n == 0 then 1 else n
  {
    var p := HasClerkId(clerkId);
    var r := StoreStep(t, clerkId, email, name, now).users;
    match GetUserByClerkId(t.users, clerkId)
    case None =>
      FilterAppend(t.users, [User(clerkId, email, name, true, now)], p);
      FilterNone(t.users, p);
      assert r == t.users + [User(clerkId, email, name, true, now)];
    case Some(d) =>
      assert Filter(t.users, p) != [] by {
        assert t.users[d.id] in Filter(t.users, p);
      }
      FilterUpdateCount(t.users, d.id, r[d.id], p);
      assert r == t.users[d.id := r[d.id]];
  }

  lemma {:induction false} FilterUpdateCount(s: seq<User>, i: nat, x: User, p: User -> bool)
    requires i < |s| && p(x) == p(s[i])
    ensures |Filter(s[i := x], p)| == |Filter(s, p)|
  {
    var init := s[..|s| - 1];
    assert s == init + [s[|s| - 1]];
    if i == |s| - 1 {
      assert s[i := x] == init + [x];
    } else {
      FilterUpdateCount(init, i, x, p);
      assert s[i := x] == init[i := x] + [s[|s| - 1]];
    }
  }

  /** Two `store` calls for a clerkId that no user has leave exactly one
      user with it. */
  lemma StoreTwiceSingleUser(t: Tables, clerkId: string, e1: string, n1: string, now1: int,
                             e2: string, n2: string, now2: int)
    requires CountWithClerkId(t.users, clerkId) == 0
    ensures var t1 := StoreStep(t, clerkId, e1, n1, now1);
      CountWithClerkId(StoreStep(t1, clerkId, e2, n2, now2).users, clerkId) == 1
  {
    var t1 := StoreStep(t, clerkId, e1, n1, now1);
    StoreCount(t, clerkId, e1, n1, now1);
    StoreCount(t1, clerkId, e2, n2, now2);
  }

  /** Sequential `store` calls keep clerkIds unique. */
  lemma StoreKeepsClerkIdsUnique(t: Tables, clerkId: string, email: string, name: string, now: int)
    requires UniqueClerkIds(t.users)
    ensures UniqueClerkIds(StoreStep(t, clerkId, email, name, now).users)
  {
  }
}
