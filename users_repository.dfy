/** The local users store (storage/UsersRepository.java): an in-memory list written back to its
    file after every upsert. */
module UsersStorage {
  import opened Wrappers
  import opened Seqs
  import opened Model

  /** Position of the first user with that uuid. */
  function IndexOfUuid(users: seq<User>, uuid: string): (r: Option<nat>)
    ensures r.None? <==> forall i :: 0 <= i < |users| ==> users[i].uuid != uuid
    ensures r.Some? ==> (r.value < |users| && users[r.value].uuid == uuid
                         && forall j :: 0 <= j < r.value ==> users[j].uuid != uuid)
  {
    FirstIndex(users, (u: User) => u.uuid == uuid)
  }

  /** No two users share a uuid. */
  predicate UniqueUuids(users: seq<User>) {
    forall i, j :: 0 <= i < j < |users| ==> users[i].uuid != users[j].uuid
  }

  /** The list after `upsertCurrent(uuid)` at time `now`: a known user gets `lastSeenAt := now`,
      an unknown one is appended with both timestamps `now`. */
  function Upserted(users: seq<User>, uuid: string, now: int): seq<User> {
    match IndexOfUuid(users, uuid)
    case Some(k) => users[k := users[k].(lastSeenAt := Some(now))]
    case None => users + [User(uuid, Some(now), Some(now))]
  }

  /** After an upsert the user is known, seen at `now`, and every other entry is as it was; the
      list grows by one exactly when the uuid was new, and then the new user was created at
      `now`, while a known user keeps its creation time. */
  lemma UpsertedFacts(users: seq<User>, uuid: string, now: int)
    ensures var r := Upserted(users, uuid, now);
      && IndexOfUuid(r, uuid).Some?
      && r[IndexOfUuid(r, uuid).value].lastSeenAt == Some(now)
      && (IndexOfUuid(users, uuid).None? ==> |r| == |users| + 1 && r[|users|] == User(uuid, Some(now), Some(now)))
      && (IndexOfUuid(users, uuid).Some? ==>
            (|r| == |users|
             && r[IndexOfUuid(users, uuid).value].createdAt == users[IndexOfUuid(users, uuid).value].createdAt))
      && (forall i :: 0 <= i < |users| && users[i].uuid != uuid ==> r[i] == users[i])
  {
    var r := Upserted(users, uuid, now);
    match IndexOfUuid(users, uuid)
    case Some(k) =>
      assert r[k].uuid == uuid;
      assert IndexOfUuid(r, uuid) == Some(k);
    case None =>
      assert r[|users|].uuid == uuid;
      assert IndexOfUuid(r, uuid) == Some(|users|);
  }

  /** Upserting never introduces a second user with the same uuid. */
  lemma UpsertKeepsUuidsUnique(users: seq<User>, uuid: string, now: int)
    requires UniqueUuids(users)
    ensures UniqueUuids(Upserted(users, uuid, now))
  {
    var r := Upserted(users, uuid, now);
    match IndexOfUuid(users, uuid)
    case Some(k) =>
      assert forall i :: 0 <= i < |r| ==> r[i].uuid == users[i].uuid;
    case None =>
      forall i, j | 0 <= i < j < |r| ensures r[i].uuid != r[j].uuid {
        if j == |users| {
          assert r[i] == users[i];
        }
      }
  }

  class UsersRepository {
    /** The in-memory list, authoritative for every read. */
    var cache: seq<User>
    /** The content of the backing file as of the last successful flush. */
    ghost var persisted: seq<User>

    /** Loads `loaded` (the file's content, or the empty default when it is missing or
        unreadable). */
    constructor (loaded: seq<User>)
      ensures cache == loaded && persisted == loaded
    {
      cache := loaded;
      persisted := loaded;
    }

    /** Writes the cache to the file; a failed write is reported and swallowed. */
    method Flush()
      modifies this`persisted
      ensures persisted == cache || persisted == old(persisted)
    {
      ghost var written: bool :| true;
      if written {
        persisted := cache;
      }
    }

    /** All users in stored order. The result is a value: nothing done to it reaches the cache. */
    method List() returns (r: seq<User>)
      ensures r == cache
    {
      r := cache;
    }

    /** The first user with that uuid, or nothing when there is none. */
    function FindByUuid(uuid: string): (r: Option<User>)
      reads this
      ensures r.None? <==> forall u :: u in cache ==> u.uuid != uuid
      ensures r.Some? ==> r.value in cache && r.value.uuid == uuid
      ensures r.Some? ==> r.value == cache[IndexOfUuid(cache, uuid).value]
    {
      match IndexOfUuid(cache, uuid)
      case Some(k) => Some(cache[k])
      case None => None
    }

    /** Makes sure the current user exists and marks it seen at `now`, then flushes. Returns the
        user as stored. */
    method UpsertCurrent(uuid: string, now: int) returns (u: User)
      modifies this`cache, this`persisted
      ensures cache == Upserted(old(cache), uuid, now)
      ensures u.uuid == uuid && u.lastSeenAt == Some(now) && u in cache
      ensures persisted == cache || persisted == old(persisted)
    {
      match IndexOfUuid(cache, uuid) {
        case Some(k) =>
          u := cache[k].(lastSeenAt := Some(now));
          cache := cache[k := u];
          assert cache[k] == u;
        case None =>
          u := User(uuid, Some(now), None);
          cache := cache + [u];
          u := u.(lastSeenAt := Some(now));
          cache := cache[|cache| - 1 := u];
          assert cache[|cache| - 1] == u;
      }
      Flush();
    }
  }
}
