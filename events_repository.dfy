/** The event log store (storage/EventsRepository.java): an in-memory list that is written back
    to its file after every append. */
module EventsStorage {
  import opened Wrappers
  import opened Seqs
  import opened Model

  /** The events logged for `owner`, in stored order. Events without an owner never match. */
  function EventsOf(events: seq<EventLog>, owner: string): (r: seq<EventLog>)
    ensures forall e :: e in r <==> e in events && e.ownerUuid == Some(owner)
  {
    var p := (e: EventLog) => e.ownerUuid == Some(owner);
    FilterMembers(events, p);
    Filter(events, p)
  }

  /** Appending an event for `owner` adds exactly it at the end of that owner's view; appending
      one for anybody else leaves the view as it was. */
  lemma EventsOfSnoc(events: seq<EventLog>, e: EventLog, owner: string)
    ensures EventsOf(events + [e], owner)
      == EventsOf(events, owner) + (if e.ownerUuid == Some(owner) then [e] else [])
  {
    FilterSnoc(events, e, (e: EventLog) => e.ownerUuid == Some(owner));
  }

  class EventsRepository {
    /** The in-memory list, authoritative for every read. */
    var cache: seq<EventLog>
    /** The content of the backing file as of the last successful flush. */
    ghost var persisted: seq<EventLog>

    /** Loads `loaded` (the file's content, or the empty default when it is missing or
        unreadable). */
    constructor (loaded: seq<EventLog>)
      ensures cache == loaded && persisted == loaded
    {
      cache := loaded;
      persisted := loaded;
    }

    /** Writes the cache to the file; a failed write is reported and swallowed, leaving the file
        as it was and the cache authoritative. */
    method Flush()
      modifies this`persisted
      ensures persisted == cache || persisted == old(persisted)
    {
      ghost var written: bool :| true;
      if written {
        persisted := cache;
      }
    }

    /** Appends one event and flushes. */
    method Add(e: EventLog)
      modifies this`cache, this`persisted
      ensures cache == old(cache) + [e]
      ensures persisted == cache || persisted == old(persisted)
    {
      cache := cache + [e];
      Flush();
    }

    /** All events in stored order. The result is a value: nothing done to it reaches the cache. */
    method List() returns (r: seq<EventLog>)
      ensures r == cache
    {
      r := cache;
    }

    /** The events of `owner`, collected in stored order. */
    method ListByOwner(owner: string) returns (r: seq<EventLog>)
      ensures r == EventsOf(cache, owner)
      ensures forall e :: e in r <==> e in cache && e.ownerUuid == Some(owner)
    {
      r := [];
      var i := 0;
      while i < |cache|
        invariant 0 <= i <= |cache|
        invariant r == EventsOf(cache[..i], owner)
      {
        EventsOfSnoc(cache[..i], cache[i], owner);
        assert cache[..i + 1] == cache[..i] + [cache[i]];
        if cache[i].ownerUuid == Some(owner) {
          r := r + [cache[i]];
        }
        i := i + 1;
      }
      assert cache[..i] == cache;
    }
  }
}
