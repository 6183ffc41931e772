/** The in-memory antenna registry: a list loaded from storage on first
    use and, from then on, maintained by the internal events other
    processes publish. `Apply` is the effect of one event on the list;
    `AntennaCache` holds the list and the loaded flag. */
module AntennaRegistry {
  import opened AntennaTypes

  /** The payload of an `internal` message, by its `type`. */
  datatype InternalEvent =
    | AntennaCreated(body: AntennaBody)
    | AntennaUpdated(body: AntennaBody)
    | AntennaDeleted(id: AntennaId)
    | OtherEvent(typeName: string)

  /** A decoded pub/sub message: its channel and payload. */
  datatype Envelope = Envelope(channel: string, message: InternalEvent)

  /** A message on the `internal` channel. */
  function Internal(event: InternalEvent): Option<Envelope>
  {
    Some(Envelope("internal", event))
  }

  /** The cache entry built from an event body: the body's fields, its
      `src` string classified, its timestamps parsed, and no joined user or
      list. */
  function Deserialise(body: AntennaBody, parseDate: string -> Date): (a: Antenna)
    ensures a.id == body.id && a.userId == body.userId
    ensures a.createdAt == parseDate(body.createdAt) && a.lastUsedAt == parseDate(body.lastUsedAt)
    ensures a.user.None? && a.userList.None?
    ensures CanonicalSrc(a.src)
    ensures a.name == body.name && a.src == SrcOf(body.src) && a.userListId == body.userListId && a.users == body.users
    ensures a.keywords == body.keywords && a.excludeKeywords == body.excludeKeywords
    ensures a.caseSensitive == body.caseSensitive && a.withReplies == body.withReplies && a.withFile == body.withFile
    ensures a.localOnly == body.localOnly && a.excludeBots == body.excludeBots && a.isActive == body.isActive
  {
    Antenna(body.id, body.userId, body.name, SrcOf(body.src), body.userListId, body.users,
            body.keywords, body.excludeKeywords, body.caseSensitive, body.withReplies,
            body.withFile, body.localOnly, body.excludeBots, body.isActive,
            parseDate(body.createdAt), parseDate(body.lastUsedAt), None, None)
  }

  /** Every entry's `src` is in classified form. */
  ghost predicate AllCanonical(list: seq<Antenna>)
  {
    forall a :: a in list ==> CanonicalSrc(a.src)
  }

  /** No entry of `list` has the id `id`. */
  ghost predicate Absent(list: seq<Antenna>, id: AntennaId)
  {
    forall j :: 0 <= j < |list| ==> list[j].id != id
  }

  /** `findIndex(a => a.id === id)`: the first position holding `id`, or -1. */
  function FirstIndexOf(list: seq<Antenna>, id: AntennaId): (i: int)
    ensures -1 <= i < |list|
    ensures i >= 0 ==> list[i].id == id && Absent(list[..i], id)
    ensures i == -1 <==> Absent(list, id)
  {
    if list == [] then -1
    else if list[0].id == id then 0
    else
      var k := FirstIndexOf(list[1..], id);
      if k == -1 then -1
      else
        assert list[..k + 1] == [list[0]] + list[1..][..k];
        k + 1
  }

  /** `filter(a => a.id !== id)`: every entry with another id, in order. */
  function Without(list: seq<Antenna>, id: AntennaId): (r: seq<Antenna>)
    ensures forall a :: a in r <==> a in list && a.id != id
    ensures |r| <= |list|
  {
    if list == [] then []
    else if list[0].id == id then Without(list[1..], id)
    else [list[0]] + Without(list[1..], id)
  }

  /** The effect of one received message on the list. `obj` is the result of
      decoding the message text, `None` when decoding fails. */
  function Apply(list: seq<Antenna>, obj: Option<Envelope>, parseDate: string -> Date): (r: seq<Antenna>)
    ensures |r| <= |list| + 1
    ensures obj.None? || obj.value.channel != "internal" ==> r == list
    ensures forall a :: a in r ==> a in list || (obj.Some? && (obj.value.message.AntennaCreated? || obj.value.message.AntennaUpdated?)
                                                  && a == Deserialise(obj.value.message.body, parseDate))
    ensures AllCanonical(list) ==> AllCanonical(r)
  {
    if obj.None? || obj.value.channel != "internal" then list
    else
      match obj.value.message
      case AntennaCreated(body) => list + [Deserialise(body, parseDate)]
      case AntennaUpdated(body) =>
        var idx := FirstIndexOf(list, body.id);
        if idx >= 0 then list[idx := Deserialise(body, parseDate)]
        else list + [Deserialise(body, parseDate)]
      case AntennaDeleted(id) => Without(list, id)
      case OtherEvent(_) => list
  }

  // ---------------------------------------------------------------------
  // Lemmas about `Without`

  /** Filtering distributes over concatenation, so it keeps the order of
      the surviving entries. */
  lemma {:induction false} WithoutAppend(xs: seq<Antenna>, ys: seq<Antenna>, id: AntennaId)
    ensures Without(xs + ys, id) == Without(xs, id) + Without(ys, id)
  {
    if xs == [] {
      assert xs + ys == ys;
    } else {
      assert (xs + ys)[1..] == xs[1..] + ys;
      WithoutAppend(xs[1..], ys, id);
    }
  }

  /** Removing an id that no entry has changes nothing. */
  lemma {:induction false} WithoutAbsent(list: seq<Antenna>, id: AntennaId)
    requires Absent(list, id)
    ensures Without(list, id) == list
  {
    if list != [] {
      WithoutAbsent(list[1..], id);
    }
  }

  // ---------------------------------------------------------------------
  // Lemmas about one event

  /** `antennaCreated` appends exactly one entry, the deserialised body. */
  lemma CreatedAppends(list: seq<Antenna>, body: AntennaBody, parseDate: string -> Date)
    ensures var r := Apply(list, Internal(AntennaCreated(body)), parseDate);
            |r| == |list| + 1 && r[..|list|] == list && r[|list|] == Deserialise(body, parseDate)
            && r[|list|].user.None? && r[|list|].userList.None?
  {
    var r := Apply(list, Internal(AntennaCreated(body)), parseDate);
    assert r[..|list|] == list;
  }

  /** `antennaUpdated` for a cached id replaces the first entry with that id
      and nothing else. */
  lemma UpdatedReplacesFirst(list: seq<Antenna>, body: AntennaBody, parseDate: string -> Date, i: nat)
    requires i < |list| && list[i].id == body.id && Absent(list[..i], body.id)
    ensures var r := Apply(list, Internal(AntennaUpdated(body)), parseDate);
            |r| == |list| && r[i] == Deserialise(body, parseDate)
            && forall j :: 0 <= j < |list| && j != i ==> r[j] == list[j]
  {
  }

  /** `antennaUpdated` for an id not cached appends the entry. */
  lemma UpdatedAppendsWhenAbsent(list: seq<Antenna>, body: AntennaBody, parseDate: string -> Date)
    requires Absent(list, body.id)
    ensures Apply(list, Internal(AntennaUpdated(body)), parseDate) == list + [Deserialise(body, parseDate)]
  {
  }

  /** `antennaDeleted` removes every entry with the id and keeps the others
      in their order; an unknown id changes nothing. */
  lemma DeletedRemovesAll(list: seq<Antenna>, id: AntennaId, parseDate: string -> Date)
    ensures var r := Apply(list, Internal(AntennaDeleted(id)), parseDate);
            (forall a :: a in r <==> a in list && a.id != id)
            && (forall xs, ys :: list == xs + ys ==> r == Without(xs, id) + Without(ys, id))
            && (Absent(list, id) ==> r == list)
  {
    forall xs, ys | list == xs + ys
      ensures Without(list, id) == Without(xs, id) + Without(ys, id)
    {
      WithoutAppend(xs, ys, id);
    }
    if Absent(list, id) {
      WithoutAbsent(list, id);
    }
  }

  /** Messages on another channel, of an unknown type or failing to decode
      leave the list as it is. */
  lemma IgnoredMessages(list: seq<Antenna>, obj: Option<Envelope>, parseDate: string -> Date)
    requires obj.None? || obj.value.channel != "internal" || obj.value.message.OtherEvent?
    ensures Apply(list, obj, parseDate) == list
  {
  }

  // ---------------------------------------------------------------------
  // Lemmas about event sequences

  /** Replaying `antennaCreated` and then `antennaUpdated` for a new id
      leaves exactly one entry for it, the updated body. */
  lemma CreateThenUpdate(list: seq<Antenna>, created: AntennaBody, updated: AntennaBody, parseDate: string -> Date)
    requires created.id == updated.id && Absent(list, created.id)
    ensures Apply(Apply(list, Internal(AntennaCreated(created)), parseDate), Internal(AntennaUpdated(updated)), parseDate)
            == list + [Deserialise(updated, parseDate)]
  {
    var mid := list + [Deserialise(created, parseDate)];
    assert mid[..|list|] == list;
    UpdatedReplacesFirst(mid, updated, parseDate, |list|);
  }

  /** Creating an antenna and then deleting it restores the list. */
  lemma CreateThenDelete(list: seq<Antenna>, body: AntennaBody, parseDate: string -> Date)
    requires Absent(list, body.id)
    ensures Apply(Apply(list, Internal(AntennaCreated(body)), parseDate), Internal(AntennaDeleted(body.id)), parseDate) == list
  {
    WithoutAppend(list, [Deserialise(body, parseDate)], body.id);
    WithoutAbsent(list, body.id);
  }

  /** Applying the same update twice is applying it once. */
  lemma UpdateIdempotent(list: seq<Antenna>, body: AntennaBody, parseDate: string -> Date)
    ensures var once := Apply(list, Internal(AntennaUpdated(body)), parseDate);
            Apply(once, Internal(AntennaUpdated(body)), parseDate) == once
  {
    var once := Apply(list, Internal(AntennaUpdated(body)), parseDate);
    var i := FirstIndexOf(list, body.id);
    if i >= 0 {
      assert once[..i] == list[..i];
      UpdatedReplacesFirst(once, body, parseDate, i);
    } else {
      assert once[..|list|] == list;
      UpdatedReplacesFirst(once, body, parseDate, |list|);
    }
  }

  /** Applying the same delete twice is applying it once. */
  lemma DeleteIdempotent(list: seq<Antenna>, id: AntennaId, parseDate: string -> Date)
    ensures var once := Apply(list, Internal(AntennaDeleted(id)), parseDate);
            Apply(once, Internal(AntennaDeleted(id)), parseDate) == once
  {
    var once := Without(list, id);
    assert Absent(once, id) by {
      forall j | 0 <= j < |once| ensures once[j].id != id {
        assert once[j] in once;
      }
    }
    WithoutAbsent(once, id);
  }

  // ---------------------------------------------------------------------
  // The registry object

  /** The registry's state: the cached list and whether it was loaded. */
  class AntennaCache {
    var antennas: seq<Antenna>
    var antennasFetched: bool
    /** How many times the list was read from storage. */
    ghost var loads: nat

    /** Storage is read once, at the access that sets the flag, and every
        cached entry's `src` is classified. */
    ghost predicate Valid()
      reads this
    {
      && loads == (if antennasFetched then 1 else 0)
      && AllCanonical(antennas)
    }

    constructor ()
      ensures Valid() && antennas == [] && !antennasFetched
    {
      antennas := [];
      antennasFetched := false;
      loads := 0;
    }

    /** Applies one received message to the list: the in-place form of
        `Apply`, kept branch by branch to mirror the handler's `push` and
        index assignment. */
    method OnRedisMessage(obj: Option<Envelope>, parseDate: string -> Date)
      requires Valid()
      modifies this
      ensures Valid()
      ensures antennas == Apply(old(antennas), obj, parseDate)
      ensures antennasFetched == old(antennasFetched) && loads == old(loads)
    {
      if obj.Some? && obj.value.channel == "internal" {
        match obj.value.message {
          case AntennaCreated(body) =>
            antennas := antennas + [Deserialise(body, parseDate)];
          case AntennaUpdated(body) =>
            var idx := FirstIndexOf(antennas, body.id);
            if idx >= 0 {
              antennas := antennas[idx := Deserialise(body, parseDate)];
            } else {
              antennas := antennas + [Deserialise(body, parseDate)];
            }
          case AntennaDeleted(id) =>
            antennas := Without(antennas, id);
          case OtherEvent(_) =>
        }
      }
    }

    /** Returns the cached list, reading `stored` (the active antennas in
        storage) only on the first call. */
    method GetAntennas(stored: seq<Antenna>) returns (r: seq<Antenna>)
      requires Valid() && AllCanonical(stored)
      modifies this
      ensures Valid()
      ensures antennasFetched && loads == 1 && r == antennas
      ensures old(antennasFetched) ==> antennas == old(antennas)
      ensures !old(antennasFetched) ==> antennas == stored
      ensures loads == old(loads) + (if old(antennasFetched) then 0 else 1)
    {
      if !antennasFetched {
        antennas := stored;
        antennasFetched := true;
        loads := loads + 1;
      }
      r := antennas;
    }
  }
}
