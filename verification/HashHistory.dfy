/** A history of transaction hashes, each with the time at which it expires. */
module HashHistory {
  type TxHash = nat

  type Seen = map<TxHash, int>

  predicate Live(seen: Seen, hash: TxHash, now: int) {
    hash in seen && now < seen[hash]
  }

  function Swept(seen: Seen, now: int): Seen {
    map hash | hash in seen && now <= seen[hash] :: seen[hash]
  }

  // Runs

  datatype Op = Add(hash: TxHash, duration: int) | Remove(hash: TxHash) | Exists(hash: TxHash) | Clean

  datatype Event = Event(at: int, op: Op)

  ghost predicate Monotone(events: seq<Event>) {
    forall i, j :: 0 <= i < j < |events| ==> events[i].at <= events[j].at
  }

  function Apply(seen: Seen, e: Event): Seen {
    match e.op
    case Add(hash, duration) => seen[hash := e.at + duration]
    case Remove(hash) => seen - {hash}
    case Exists(_) => seen
    case Clean => Swept(seen, e.at)
  }

  function After(events: seq<Event>): Seen {
    if events == [] then map[] else Apply(After(events[..|events| - 1]), events[|events| - 1])
  }

  /** The answers that a run's lookups give, in order. */
  function Answers(events: seq<Event>): seq<bool> {
    if events == [] then []
    else
      var n := |events| - 1;
      var e, before := events[n], events[..n];
      if e.op.Exists? then Answers(before) + [Live(After(before), e.op.hash, e.at)] else Answers(before)
  }

  // The plain expiring set

  datatype Expiry = Never | At(time: int)

  /** What the events say about a hash, reading back to the last add or removal and past every cleaning. */
  function LastWrite(events: seq<Event>, hash: TxHash): Expiry {
    if events == [] then Never
    else
      var e := events[|events| - 1];
      if e.op.Add? && e.op.hash == hash then At(e.at + e.op.duration)
      else if e.op.Remove? && e.op.hash == hash then Never
      else LastWrite(events[..|events| - 1], hash)
  }

  predicate Held(events: seq<Event>, hash: TxHash, now: int) {
    LastWrite(events, hash).At? && now < LastWrite(events, hash).time
  }

  /** A cleaning after the last write came when the clock was past the expiry. */
  predicate SweptSince(events: seq<Event>, hash: TxHash) {
    if events == [] then false
    else
      var before, e := events[..|events| - 1], events[|events| - 1];
      if (e.op.Add? || e.op.Remove?) && e.op.hash == hash then false
      else SweptSince(before, hash) || (e.op.Clean? && LastWrite(before, hash).At? && e.at > LastWrite(before, hash).time)
  }

  /** Under any clock a hash is live exactly when the plain set holds it and no cleaning has swept it since. */
  lemma {:induction false} LiveIffHeldUnswept(events: seq<Event>, hash: TxHash, now: int)
    ensures hash in After(events) ==> LastWrite(events, hash) == At(After(events)[hash])
    ensures hash in After(events) <==> LastWrite(events, hash).At? && !SweptSince(events, hash)
    ensures Live(After(events), hash, now) <==> Held(events, hash, now) && !SweptSince(events, hash)
  {
    if events != [] {
      LiveIffHeldUnswept(events[..|events| - 1], hash, now);
    }
  }

  /** With a clock that does not go back, a hash is live exactly when the plain expiring set holds it. */
  lemma {:induction false} LiveIffHeld(events: seq<Event>, hash: TxHash, now: int)
    requires Monotone(events) && forall i :: 0 <= i < |events| ==> events[i].at <= now
    ensures Live(After(events), hash, now) <==> Held(events, hash, now)
  {
    if events != [] {
      LiveIffHeld(events[..|events| - 1], hash, now);
    }
  }

  function WithoutCleans(events: seq<Event>): seq<Event> {
    if events == [] then []
    else
      var before, e := events[..|events| - 1], events[|events| - 1];
      if e.op.Clean? then WithoutCleans(before) else WithoutCleans(before) + [e]
  }

  lemma {:induction false} WithoutCleansWrites(events: seq<Event>, hash: TxHash)
    ensures LastWrite(WithoutCleans(events), hash) == LastWrite(events, hash)
  {
    if events != [] {
      var before, e := events[..|events| - 1], events[|events| - 1];
      WithoutCleansWrites(before, hash);
      if !e.op.Clean? {
        var kept := WithoutCleans(events);
        assert kept[..|kept| - 1] == WithoutCleans(before) && kept[|kept| - 1] == e;
      }
    }
  }

  lemma {:induction false} WithoutCleansMonotone(events: seq<Event>, now: int)
    requires Monotone(events) && forall i :: 0 <= i < |events| ==> events[i].at <= now
    ensures Monotone(WithoutCleans(events))
    ensures forall i :: 0 <= i < |WithoutCleans(events)| ==> WithoutCleans(events)[i].at <= now
  {
    if events != [] {
      WithoutCleansMonotone(events[..|events| - 1], events[|events| - 1].at);
    }
  }

  /** Cleaning, wherever it happens in a run, changes no answer of that run. */
  lemma {:induction false} CleaningIsInvisible(events: seq<Event>)
    requires Monotone(events)
    ensures Answers(WithoutCleans(events)) == Answers(events)
  {
    if events != [] {
      var n := |events| - 1;
      var e, before := events[n], events[..n];
      CleaningIsInvisible(before);
      if !e.op.Clean? {
        assert WithoutCleans(events)[..|WithoutCleans(events)| - 1] == WithoutCleans(before);
        if e.op.Exists? {
          LiveIffHeld(before, e.op.hash, e.at);
          WithoutCleansWrites(before, e.op.hash);
          WithoutCleansMonotone(before, e.at);
          LiveIffHeld(WithoutCleans(before), e.op.hash, e.at);
        }
      }
    }
  }

  /** The clock must not go back: a sweep followed by a lookup at an earlier time tells. */
  lemma BackwardClockTells()
    ensures var events := [Event(0, Add(1, 5)), Event(6, Clean), Event(4, Exists(1))];
            Answers(events) == [false] && Answers(WithoutCleans(events)) == [true]
  {
    var add, clean, look := Event(0, Add(1, 5)), Event(6, Clean), Event(4, Exists(1));
    assert [add, clean, look][..2] == [add, clean] && [add, clean][..1] == [add] && [add][..0] == [];
    assert After([add]) == map[1 := 5] && After([add, clean]) == map[];
    assert WithoutCleans([add]) == [add] && WithoutCleans([add, clean]) == [add];
    assert WithoutCleans([add, clean, look]) == [add, look] && [add, look][..1] == [add];
    assert [add, clean][..|[add, clean]| - 1] == [add] && [add, clean][1] == clean;
    assert Answers([add]) == [] && Answers([add, clean]) == Answers([add]);
  }

  // The object

  class HashHistory {
    var data: Seen

    constructor ()
      ensures data == map[]
    {
      data := map[];
    }

    method Add(hash: TxHash, now: int, expiration: int)
      modifies this
      ensures data == old(data)[hash := now + expiration]
    {
      data := data[hash := now + expiration];
    }

    method Remove(hash: TxHash)
      modifies this
      ensures data == old(data) - {hash}
    {
      data := data - {hash};
    }

    method Exists(hash: TxHash, now: int) returns (present: bool)
      ensures present == Live(data, hash, now)
    {
      if hash in data {
        var expiration := data[hash];
        if now < expiration {
          return true;
        }
      }
      return false;
    }

    /** Walks a copy of the entries and counts what it removes. */
    method Clean(now: int) returns (historyCleaned: nat)
      modifies this
      ensures data == Swept(old(data), now)
      ensures historyCleaned == |old(data)| - |data|
    {
      historyCleaned := 0;
      var items := data;
      while items.Keys != {}
        invariant items.Keys <= old(data).Keys && forall hash :: hash in items ==> items[hash] == old(data)[hash]
        invariant data.Keys == items.Keys + Swept(old(data), now).Keys
        invariant forall hash :: hash in data ==> data[hash] == old(data)[hash]
        invariant historyCleaned == |old(data)| - |data|
        decreases |items|
      {
        var hash :| hash in items;
        if now > items[hash] {
          data := data - {hash};
          historyCleaned := historyCleaned + 1;
        }
        items := items - {hash};
      }
    }
  }
}
