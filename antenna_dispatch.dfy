/** Dispatch of one new note: the cached antennas are filtered down to the
    ones the note hits, each owner's timeline limit is resolved, and every
    hit antenna gets one timeline push and one stream event. The timeline
    store and the event bus are not modelled; their calls are recorded, in
    order, as the two output sequences. */
module AntennaDispatch {
  import opened AntennaTypes
  import opened AntennaMatch
  import opened AntennaRegistry

  /** The part of an owner's role policies the engine reads. */
  datatype RolePolicies = RolePolicies(antennaNotesLimit: int)

  /** One `push(key, noteId, limit)` scheduled on the timeline pipeline. */
  datatype TimelinePush = TimelinePush(key: string, noteId: NoteId, limit: int)

  /** One `publishAntennaStream(antennaId, type, note)`. */
  datatype StreamEvent = StreamEvent(antennaId: AntennaId, eventType: string, note: Note)

  const TimelinePrefix: string := "antennaTimeline:"

  /** The timeline key of an antenna: `antennaTimeline:<id>`. */
  function TimelineKey(id: AntennaId): (k: string)
    ensures |k| == |TimelinePrefix| + |id| && k[..|TimelinePrefix|] == TimelinePrefix && k[|TimelinePrefix|..] == id
  {
    TimelinePrefix + id
  }

  /** Distinct antennas write to distinct timelines. */
  lemma TimelineKeyInjective(a: AntennaId, b: AntennaId)
    ensures TimelineKey(a) == TimelineKey(b) ==> a == b
  {
    if TimelineKey(a) == TimelineKey(b) {
      assert a == TimelineKey(a)[|TimelinePrefix|..];
      assert b == TimelineKey(b)[|TimelinePrefix|..];
    }
  }

  /** The antennas the note hits, in their cached order. */
  function MatchedAntennas(env: Lookups, antennas: seq<Antenna>, note: Note, noteUser: NoteUser): (r: seq<Antenna>)
    ensures forall a :: a in r <==> a in antennas && CheckHitAntenna(env, a, note, noteUser)
    ensures |r| <= |antennas|
  {
    if antennas == [] then []
    else
      var rest := MatchedAntennas(env, antennas[1..], note, noteUser);
      if CheckHitAntenna(env, antennas[0], note, noteUser) then [antennas[0]] + rest else rest
  }

  /** Matching distributes over concatenation: hits keep their relative order. */
  lemma {:induction false} MatchedAppend(env: Lookups, xs: seq<Antenna>, ys: seq<Antenna>, note: Note, noteUser: NoteUser)
    ensures MatchedAntennas(env, xs + ys, note, noteUser)
            == MatchedAntennas(env, xs, note, noteUser) + MatchedAntennas(env, ys, note, noteUser)
  {
    if xs == [] {
      assert xs + ys == ys;
    } else {
      assert (xs + ys)[1..] == xs[1..] + ys;
      MatchedAppend(env, xs[1..], ys, note, noteUser);
    }
  }

  /** When every antenna is hit, all of them receive the note, in order. */
  lemma {:induction false} MatchedAll(env: Lookups, antennas: seq<Antenna>, note: Note, noteUser: NoteUser)
    requires forall i :: 0 <= i < |antennas| ==> CheckHitAntenna(env, antennas[i], note, noteUser)
    ensures MatchedAntennas(env, antennas, note, noteUser) == antennas
  {
    if antennas != [] {
      MatchedAll(env, antennas[1..], note, noteUser);
    }
  }

  /** The distinct owners of the matched antennas. */
  function Owners(matched: seq<Antenna>): set<UserId>
  {
    set a | a in matched :: a.userId
  }

  /** The batch phase: the policies of the owners whose lookup succeeded.
      `batch(u)` is `None` when the lookup for `u` was rejected. */
  function ResolvePolicies(owners: set<UserId>, batch: UserId -> Option<RolePolicies>): (m: map<UserId, RolePolicies>)
    ensures forall u :: u in m <==> u in owners && batch(u).Some?
    ensures forall u :: u in m ==> m[u] == batch(u).value
  {
    map u | u in owners && batch(u).Some? :: batch(u).value
  }

  /** The limit used for an owner: from the batch map when present,
      otherwise from the fallback lookup. */
  function LimitFor(policies: map<UserId, RolePolicies>, userId: UserId, fallback: UserId -> RolePolicies): (limit: int)
    ensures userId in policies ==> limit == policies[userId].antennaNotesLimit
    ensures userId !in policies ==> limit == fallback(userId).antennaNotesLimit
  {
    if userId in policies then policies[userId].antennaNotesLimit else fallback(userId).antennaNotesLimit
  }

  /** For a matched antenna, the resolved limit is the batch lookup's
      result when it succeeded and the fallback's otherwise. */
  lemma LimitResolution(matched: seq<Antenna>, batch: UserId -> Option<RolePolicies>,
                        fallback: UserId -> RolePolicies, a: Antenna)
    requires a in matched
    ensures LimitFor(ResolvePolicies(Owners(matched), batch), a.userId, fallback)
            == if batch(a.userId).Some? then batch(a.userId).value.antennaNotesLimit
               else fallback(a.userId).antennaNotesLimit
  {
    assert a.userId in Owners(matched);
  }

  /** The loop over the matched antennas: one push and one stream event per
      antenna, in order. */
  method FanOut(matched: seq<Antenna>, note: Note, policies: map<UserId, RolePolicies>,
                fallback: UserId -> RolePolicies)
    returns (pushes: seq<TimelinePush>, events: seq<StreamEvent>)
    ensures |pushes| == |matched| && |events| == |matched|
    ensures forall i :: 0 <= i < |matched| ==>
              pushes[i] == TimelinePush(TimelineKey(matched[i].id), note.id, LimitFor(policies, matched[i].userId, fallback))
    ensures forall i :: 0 <= i < |matched| ==> events[i] == StreamEvent(matched[i].id, "note", note)
  {
    pushes, events := [], [];
    for n := 0 to |matched|
      invariant |pushes| == n && |events| == n
      invariant forall i :: 0 <= i < n ==>
                  pushes[i] == TimelinePush(TimelineKey(matched[i].id), note.id, LimitFor(policies, matched[i].userId, fallback))
      invariant forall i :: 0 <= i < n ==> events[i] == StreamEvent(matched[i].id, "note", note)
    {
      var antenna := matched[n];
      var limit := LimitFor(policies, antenna.userId, fallback);
      pushes := pushes + [TimelinePush(TimelineKey(antenna.id), note.id, limit)];
      events := events + [StreamEvent(antenna.id, "note", note)];
    }
  }

  /** No two antennas of the list share an id. */
  ghost predicate DistinctIds(antennas: seq<Antenna>)
  {
    forall i, j :: 0 <= i < j < |antennas| ==> antennas[i].id != antennas[j].id
  }

  /** Over a list with distinct ids, an antenna's timeline receives a push
      exactly when the note hits it, and a hit antenna's push carries the
      note id and its owner's resolved limit. */
  lemma PushedIffHit(env: Lookups, antennas: seq<Antenna>, note: Note, noteUser: NoteUser,
                     pushes: seq<TimelinePush>, policies: map<UserId, RolePolicies>,
                     fallback: UserId -> RolePolicies, a: Antenna)
    requires a in antennas && DistinctIds(antennas)
    requires var matched := MatchedAntennas(env, antennas, note, noteUser);
             |pushes| == |matched| &&
             forall i :: 0 <= i < |matched| ==>
               pushes[i] == TimelinePush(TimelineKey(matched[i].id), note.id, LimitFor(policies, matched[i].userId, fallback))
    ensures CheckHitAntenna(env, a, note, noteUser) <==>
            exists i :: 0 <= i < |pushes| && pushes[i].key == TimelineKey(a.id)
    ensures CheckHitAntenna(env, a, note, noteUser) ==>
            exists i :: 0 <= i < |pushes| && pushes[i] == TimelinePush(TimelineKey(a.id), note.id, LimitFor(policies, a.userId, fallback))
  {
    var matched := MatchedAntennas(env, antennas, note, noteUser);
    if CheckHitAntenna(env, a, note, noteUser) {
      assert a in matched;
      var i :| 0 <= i < |matched| && matched[i] == a;
      assert pushes[i] == TimelinePush(TimelineKey(a.id), note.id, LimitFor(policies, a.userId, fallback));
    }
    if i :| 0 <= i < |pushes| && pushes[i].key == TimelineKey(a.id) {
      var b := matched[i];
      assert b in matched;
      TimelineKeyInjective(b.id, a.id);
      assert b.id == a.id;
      var j :| 0 <= j < |antennas| && antennas[j] == a;
      var k :| 0 <= k < |antennas| && antennas[k] == b;
      assert j == k;
    }
  }

  /** An antenna created or updated with `src` "list" and no list id
      never hits: the string always lands in the list branch. */
  lemma ListBodyWithoutListIdNeverHits(env: Lookups, body: AntennaBody, parseDate: string -> Date,
                                       note: Note, noteUser: NoteUser)
    requires body.src == "list" && body.userListId.None?
    ensures !CheckHitAntenna(env, Deserialise(body, parseDate), note, noteUser)
  {
    ListWithoutListIdNeverHits(env, Deserialise(body, parseDate), note, noteUser);
  }

  /** `addNoteToAntennas`: read the registry, match, resolve limits, fan out.
      `stored` is what storage returns should the registry load now,
      `batch` the outcome of the batched policy lookups and `fallback` the
      single lookup made for an owner missing from the batch result. */
  method AddNoteToAntennas(cache: AntennaCache, stored: seq<Antenna>, env: Lookups, note: Note, noteUser: NoteUser,
                           batch: UserId -> Option<RolePolicies>, fallback: UserId -> RolePolicies)
    returns (pushes: seq<TimelinePush>, events: seq<StreamEvent>)
    requires cache.Valid() && AllCanonical(stored)
    modifies cache
    ensures cache.Valid() && cache.antennasFetched
    ensures old(cache.antennasFetched) ==> cache.antennas == old(cache.antennas)
    ensures !old(cache.antennasFetched) ==> cache.antennas == stored
    ensures var matched := MatchedAntennas(env, cache.antennas, note, noteUser);
            var policies := ResolvePolicies(Owners(matched), batch);
            && |pushes| == |matched| && |events| == |matched|
            && (forall i :: 0 <= i < |matched| ==>
                  pushes[i] == TimelinePush(TimelineKey(matched[i].id), note.id, LimitFor(policies, matched[i].userId, fallback)))
            && (forall i :: 0 <= i < |matched| ==> events[i] == StreamEvent(matched[i].id, "note", note))
  {
    var antennas := cache.GetAntennas(stored);
    var matched := MatchedAntennas(env, antennas, note, noteUser);
    var policies := ResolvePolicies(Owners(matched), batch);
    pushes, events := FanOut(matched, note, policies, fallback);
  }
}
