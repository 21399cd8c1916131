/**
 The in-memory user store of internal/repository/user_repo.go: a process-wide
 slice seeded with two records, an append-only CreateUser, GetAllUsers, and a
 linear GetUserById that answers the first record with the requested ID, or
 the zero-value record when there is none, and never reports an error.
 */
module Repository {
  import opened Wrappers
  import opened Models

  const OliviaId: Uuid := 0xd9b5a4b1_d1d1_4d92_a14b_441a5e5a5ae5
  const FaithId: Uuid := 0xd9b5a4b1_d1d1_4d92_a14b_441a5e5a5ae6

  /**
   The seed contents of `users`. Each of the four timestamps is a separate
   reading of the clock at package initialisation, so each is a parameter.
   */
  function SeedUsers(oliviaCreated: Time, oliviaUpdated: Time, faithCreated: Time, faithUpdated: Time): seq<User>
  {
    [ User(OliviaId, "Olivia", "Ponton", "olivia.ponton@example.com", oliviaCreated, oliviaUpdated),
      User(FaithId, "Faith", "Ordway", "faith.ordway@godess.com", faithCreated, faithUpdated) ]
  }

  /** No ID occurs at two positions. The source does not enforce this. */
  predicate UniqueIds(s: seq<User>)
  {
    forall i, j :: 0 <= i < j < |s| ==> s[i].id != s[j].id
  }

  /** Some record of `s` carries `id`. */
  predicate HasId(s: seq<User>, id: Uuid)
  {
    exists i :: 0 <= i < |s| && s[i].id == id
  }

  /** The position of the first record of `s` whose ID is `id`, if any. */
  function IndexOfId(s: seq<User>, id: Uuid): (r: Option<nat>)
    ensures r.Some? ==> r.value < |s| && s[r.value].id == id
    ensures r.Some? ==> forall j :: 0 <= j < r.value ==> s[j].id != id
    ensures r.None? <==> !HasId(s, id)
  {
    if |s| == 0 then None
    else if s[0].id == id then Some(0)
    else match IndexOfId(s[1..], id)
      case None => None
      case Some(k) => Some(k + 1)
  }

  /**
   What GetUserById answers for `id` on the contents `s`: the record at the
   lowest position whose ID is `id`, or the zero-value record on a miss.
   */
  function UserById(s: seq<User>, id: Uuid): (u: User)
    ensures !HasId(s, id) ==> u == ZeroUser
    ensures forall i :: 0 <= i < |s| && s[i].id == id && (forall j :: 0 <= j < i ==> s[j].id != id) ==> u == s[i]
    ensures HasId(s, id) ==> u.id == id && u in s
  {
    match IndexOfId(s, id)
    case Some(i) => s[i]
    case None => ZeroUser
  }

  /** The package-level `users` slice and the free functions over it. */
  class UserStore {
    var users: seq<User>

    /** Package initialisation: the store holds the two seed records, in order. */
    constructor (oliviaCreated: Time, oliviaUpdated: Time, faithCreated: Time, faithUpdated: Time)
      ensures users == SeedUsers(oliviaCreated, oliviaUpdated, faithCreated, faithUpdated)
    {
      users := SeedUsers(oliviaCreated, oliviaUpdated, faithCreated, faithUpdated);
    }

    /** Appends `user`, whatever its ID, and always returns a nil error. */
    method CreateUser(user: User) returns (err: Option<Error>)
      modifies this
      ensures users == old(users) + [user]
      ensures err == None
    {
      users := users + [user];
      err := None;
    }

    /** The current contents, in insertion order; the store is left as it is. */
    method GetAllUsers() returns (all: seq<User>)
      ensures all == users
    {
      all := users;
    }

    /**
     Scans the records in order and answers a copy of the first one whose ID
     is `id`; on a miss answers the zero-value record. The error is always nil.
     */
    method GetUserById(id: Uuid) returns (user: User, err: Option<Error>)
      ensures user == UserById(users, id)
      ensures err == None
    {
      var i := 0;
      while i < |users|
        invariant 0 <= i <= |users|
        invariant forall j :: 0 <= j < i ==> users[j].id != id
      {
        if users[i].id == id {
          return users[i], None;
        }
        i := i + 1;
      }
      return ZeroUser, None;
    }
  }

  /** The seed holds two records with distinct, non-nil IDs: Olivia's first, Faith's second. */
  lemma SeedShape(oliviaCreated: Time, oliviaUpdated: Time, faithCreated: Time, faithUpdated: Time)
    ensures var s := SeedUsers(oliviaCreated, oliviaUpdated, faithCreated, faithUpdated);
      && |s| == 2 && s[0].id == OliviaId && s[1].id == FaithId
      && UniqueIds(s) && !HasId(s, NilUuid)
  {
  }

  /** On the seed, each seed ID finds its own record and the nil UUID finds the zero value. */
  lemma SeedLookups(oliviaCreated: Time, oliviaUpdated: Time, faithCreated: Time, faithUpdated: Time)
    ensures var s := SeedUsers(oliviaCreated, oliviaUpdated, faithCreated, faithUpdated);
      && UserById(s, OliviaId) == s[0]
      && UserById(s, FaithId) == s[1]
      && UserById(s, NilUuid) == ZeroUser
  {
    SeedShape(oliviaCreated, oliviaUpdated, faithCreated, faithUpdated);
  }

  /** Appending keeps every earlier record at its position. */
  lemma AppendKeepsPrefix(s: seq<User>, user: User)
    ensures |s + [user]| == |s| + 1 && (s + [user])[|s|] == user
    ensures forall i :: 0 <= i < |s| ==> (s + [user])[i] == s[i]
  {
  }

  /** After appending a user whose ID no earlier record has, looking that ID up answers the user. */
  lemma {:induction false} LookupAfterCreate(s: seq<User>, user: User)
    requires !HasId(s, user.id)
    ensures UserById(s + [user], user.id) == user
  {
    var t := s + [user];
    assert t[|s|] == user;
    assert forall j :: 0 <= j < |s| ==> t[j].id != user.id by {
      forall j | 0 <= j < |s| ensures t[j].id != user.id {
        assert t[j] == s[j];
      }
    }
  }

  /**
   Appending never changes the answer for an ID that was already present:
   the first match wins, so a record created with a duplicate ID is shadowed.
   */
  lemma {:induction false} CreateKeepsEarlierHits(s: seq<User>, user: User, id: Uuid)
    requires HasId(s, id)
    ensures UserById(s + [user], id) == UserById(s, id)
  {
    var t := s + [user];
    var k := IndexOfId(s, id).value;
    assert t[k] == s[k];
    forall j | 0 <= j < k ensures t[j].id != id {
      assert t[j] == s[j];
    }
  }

  /** Appending a record with another ID leaves a miss a miss. */
  lemma {:induction false} CreateKeepsMisses(s: seq<User>, user: User, id: Uuid)
    requires !HasId(s, id) && user.id != id
    ensures UserById(s + [user], id) == ZeroUser
  {
    var t := s + [user];
    forall i | 0 <= i < |t| ensures t[i].id != id {
      if i < |s| {
        assert t[i] == s[i];
      }
    }
  }

  /** Appending keeps IDs unique exactly when the new ID is not already stored. */
  lemma {:induction false} CreateUniqueIff(s: seq<User>, user: User)
    ensures UniqueIds(s + [user]) <==> UniqueIds(s) && !HasId(s, user.id)
  {
    var t := s + [user];
    if UniqueIds(t) {
      forall i, j | 0 <= i < j < |s| ensures s[i].id != s[j].id {
        assert t[i] == s[i] && t[j] == s[j];
      }
      forall i | 0 <= i < |s| ensures s[i].id != user.id {
        assert t[i] == s[i] && t[|s|] == user;
      }
    }
    if UniqueIds(s) && !HasId(s, user.id) {
      forall i, j | 0 <= i < j < |t| ensures t[i].id != t[j].id {
        assert t[i] == s[i];
        if j < |s| {
          assert t[j] == s[j];
        } else {
          assert t[j] == user;
        }
      }
    }
  }

  /** While IDs are unique, looking up the ID of any stored record answers that record. */
  lemma LookupUniqueHit(s: seq<User>, i: nat)
    requires UniqueIds(s) && i < |s|
    ensures UserById(s, s[i].id) == s[i]
  {
  }

  /**
   A miss cannot be told from a stored zero-value record: the error is nil in
   both cases and the answers are equal.
   */
  lemma MissLooksLikeZeroRecord(s: seq<User>)
    requires !HasId(s, NilUuid)
    ensures UserById(s, NilUuid) == UserById(s + [ZeroUser], NilUuid)
  {
    LookupAfterCreate(s, ZeroUser);
  }
}
