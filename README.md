# Antenna engine model

A Dafny model of the antenna engine of the backend (`AntennaService`). An antenna is a saved
subscription: a filter owned by one user that collects the notes it matches into a
per-antenna timeline. For every new note the engine

1. reads its in-memory list of active antennas, loaded from storage on first use and then
   maintained only by the `antennaCreated` / `antennaUpdated` / `antennaDeleted` events
   received on the `internal` pub/sub channel;
2. evaluates the match predicate (`checkHitAntenna`, with the visibility `filter`) for each
   antenna;
3. resolves each matched owner's `antennaNotesLimit` (batched, with a per-owner fallback)
   and, for each matched antenna in list order, pushes the note id to
   `antennaTimeline:<antenna id>` and publishes an antenna stream event.

Modules:

- `AntennaTypes` (`antenna_types.dfy`): antennas, event bodies, notes, the author summary,
  and `Lookups`, the external collaborators as total functions: mute, block and follow
  caches, `isUserRelated`, list membership, `Acct.parse`, `getFullApAccount` and
  lower-casing.
- `TextSearch` (`text_search.dfy`): `String.prototype.includes` over `seq<char>`, proved
  equal to "some offset holds the keyword".
- `AntennaMatch` (`antenna_match.dfy`): `Filter` and `CheckHitAntenna` as the early-return
  chains of the source, plus `Hits`, a declarative statement of the same clauses over the
  raw (uncleaned) keyword lists, and the lemma that the two agree.
- `AntennaRegistry` (`antenna_registry.dfy`): `Apply`, the effect of one pub/sub message on
  the list, its lemmas, and the class `AntennaCache` holding `antennas` and
  `antennasFetched`, whose methods are tied to `Apply` and to the one-time load.
- `AntennaDispatch` (`antenna_dispatch.dfy`): matching a list, policy resolution, the fan-out
  loop and `AddNoteToAntennas`. Timeline pushes and stream publishes are returned as two
  sequences of records, in the order the source issues them.

Behaviour of the code that the model keeps, although it is easy to misread:

- `antennaCreated` appends unconditionally; it does not check whether the id is already
  cached, so a repeated create leaves two entries.
- `withFile` rejects only a note whose `fileIds` is present and empty. An empty array is
  truthy in JavaScript, and a note without `fileIds` is not rejected.
- The exclusion clause also rejects a note with neither text nor content warning whenever
  exclude groups remain after clean-up (line 214).
- The load in `getAntennas` replaces the list. Events applied before the first load are
  overwritten by it (`GetAntennas` ensures `antennas == stored` on the first call).
- `src` values other than `home`, `list`, `users` and `users_blacklist` pass the source
  clause unconstrained, because the if-chain has no final `else`; they are `OtherSrc`.

## Model

| member | source | states |
|---|---|---|
| `AntennaTypes.SrcOf` | packages/backend/src/core/AntennaService.ts:163-186 | the `src` string maps to `home`, `list`, `users` or `users_blacklist` exactly on those names, and to `OtherSrc` carrying the name on every other string, so its result is always `CanonicalSrc`; `Deserialise` classifies every event body's `src` through it |
| `TextSearch.Includes` | packages/backend/src/core/AntennaService.ts:201-202 | `t.includes(k)` holds iff `k` occurs in `t` at some offset |
| `AntennaMatch.Filter` | packages/backend/src/core/AntennaService.ts:132-150 | false if the note is related to the owner's blocked-by or muted set; otherwise, for `followers`/`specified` true when the owner is the author, `followers` iff the owner follows the author, `specified` iff the owner is in `visibleUserIds` (absent means false); `public`/`home` true |
| `AntennaMatch.NormaliseAccts` | packages/backend/src/core/AntennaService.ts:175-178 | the configured accounts map position by position to their lower-cased full account keys |
| `AntennaMatch.SourcePasses` | packages/backend/src/core/AntennaService.ts:163-186 | `list` with no list id is false, `list` otherwise iff the author is a member; `users` iff some configured account normalises to the author's key; `users_blacklist` iff none does; `home` and other values pass |
| `AntennaMatch.DropEmptyKeywords` | packages/backend/src/core/AntennaService.ts:190 | the result holds exactly the non-empty keywords of the group |
| `AntennaMatch.CleanUp` | packages/backend/src/core/AntennaService.ts:188-191 | every remaining group is non-empty and free of empty keywords, is the cleaned form of an input group, and every input group with a non-empty keyword survives in cleaned form |
| `AntennaMatch.Haystack` | packages/backend/src/core/AntennaService.ts:196 | the search text is the text (empty when absent), one newline, then the content warning (empty when absent), in that order |
| `AntennaMatch.KeywordOccurs` | packages/backend/src/core/AntennaService.ts:200-202 | a keyword is found iff it occurs in the search text when case-sensitive, and iff its lower-cased form occurs in the lower-cased text otherwise |
| `AntennaMatch.AllKeywordsOccur` | packages/backend/src/core/AntennaService.ts:199-203 | `every`: true iff each keyword of the group occurs, case-folded unless case-sensitive |
| `AntennaMatch.SomeGroupOccurs` | packages/backend/src/core/AntennaService.ts:198-203 | `some`: true iff some group has all its keywords occurring |
| `AntennaMatch.CheckHitAntenna` | packages/backend/src/core/AntennaService.ts:153-235 | a hit implies the visibility filter passed, no bot rejection, no non-local rejection, no reply rejection, the source filter passed and no present-but-empty `fileIds` under `withFile` |
| `AntennaMatch.CleanUpNonEmpty` | packages/backend/src/core/AntennaService.ts:188-193 | groups remain after clean-up iff some raw group has a non-empty keyword |
| `AntennaMatch.CleanUpMatches` | packages/backend/src/core/AntennaService.ts:188-203 | matching the cleaned groups equals: some raw group has a non-empty keyword and all its non-empty keywords occur |
| `AntennaMatch.KeywordsPass` | packages/backend/src/core/AntennaService.ts:188-206 | the inclusion clause passes iff, when some group has a keyword, the note has a text or content warning and some group fully occurs in `text + "\n" + cw` |
| `AntennaMatch.ExcludeKeywordsPass` | packages/backend/src/core/AntennaService.ts:208-226 | the exclusion clause passes iff, when some exclude group has a keyword, the note has a text or content warning and no exclude group fully occurs |
| `AntennaMatch.CheckHitAntennaMeetsSpec` | packages/backend/src/core/AntennaService.ts:153-235 | the early-return chain holds exactly when every clause of the declarative `Hits` holds (both directions) |
| `AntennaMatch.ListWithoutListIdNeverHits` | packages/backend/src/core/AntennaService.ts:165-166 | a `list` antenna without `userListId` never hits, whatever its other fields |
| `AntennaMatch.InclusionIsOrOfAnds` | packages/backend/src/core/AntennaService.ts:193-205 | with text present, one fully matching group suffices for the inclusion clause, and with keyword groups none of which fully matches it fails |
| `AntennaMatch.ExclusionInvertsInclusion` | packages/backend/src/core/AntennaService.ts:213-226 | adding an exclude group the note fully matches makes the antenna miss |
| `AntennaMatch.EmptyExclusionIsNeutral` | packages/backend/src/core/AntennaService.ts:208-213 | an exclude list holding only empty keywords gives the same verdict as no exclude list |
| `AntennaMatch.CaseFolding` | packages/backend/src/core/AntennaService.ts:200-202 | with a lower-casing that maps "Hello" to "hello", "Hello" is found in "hello world" only when not case-sensitive |
| `AntennaMatch.HaystackCoversTextAndCw` | packages/backend/src/core/AntennaService.ts:196 | a keyword found by plain (case-sensitive) `includes` in the text or in the content warning is found in the joined search text; the case-folded comparison is not covered, since `lower` is not assumed to distribute over concatenation |
| `AntennaMatch.UsersScenario` | packages/backend/src/core/AntennaService.ts:153-235 | a `users` antenna listing "alice@remote" with no other restriction hits a visible public note exactly when the author's account key is that of "alice@remote" |
| `AntennaMatch.KeywordScenario` | packages/backend/src/core/AntennaService.ts:188-206 | a case-sensitive `[["cat"]]` antenna passes "I have a cat" and rejects "I have a dog" |
| `AntennaRegistry.Deserialise` | packages/backend/src/core/AntennaService.ts:68-74 | the cache entry copies every field of the body (id, owner, name, the `src` string classified by `SrcOf`, list id, users, keyword and exclude groups, the five flags, `isActive`), parses both timestamps, carries no joined user or list, and has a canonical `src` |
| `AntennaRegistry.Apply` | packages/backend/src/core/AntennaService.ts:61-105 | one message grows the list by at most one entry; a message that fails to decode or is not on `internal` leaves it unchanged; every resulting entry was cached before or is the message's deserialised body and a list whose entries all have canonical `src` keeps that property (the per-event lemmas below state each case exactly) |
| `AntennaRegistry.FirstIndexOf` | packages/backend/src/core/AntennaService.ts:77 | `findIndex`: the first position with the id, or -1 iff no entry has it |
| `AntennaRegistry.Without` | packages/backend/src/core/AntennaService.ts:99 | the survivors of the `filter` are exactly the entries with another id |
| `AntennaRegistry.WithoutAppend` | packages/backend/src/core/AntennaService.ts:99 | the `filter` distributes over concatenation, so survivors keep their order |
| `AntennaRegistry.WithoutAbsent` | packages/backend/src/core/AntennaService.ts:99 | removing an id no entry has leaves the list unchanged |
| `AntennaRegistry.CreatedAppends` | packages/backend/src/core/AntennaService.ts:67-75 | `antennaCreated` appends exactly one entry, the deserialised body, with null `user`/`userList` |
| `AntennaRegistry.UpdatedReplacesFirst` | packages/backend/src/core/AntennaService.ts:76-85 | `antennaUpdated` for a cached id keeps the length, replaces the first entry with that id and leaves every other position unchanged |
| `AntennaRegistry.UpdatedAppendsWhenAbsent` | packages/backend/src/core/AntennaService.ts:86-95 | `antennaUpdated` for an id not cached appends the entry |
| `AntennaRegistry.DeletedRemovesAll` | packages/backend/src/core/AntennaService.ts:98-100 | `antennaDeleted` keeps exactly the entries with another id, in order; an unknown id is a no-op |
| `AntennaRegistry.IgnoredMessages` | packages/backend/src/core/AntennaService.ts:62-102 | a message that fails to decode, is not on `internal` or has an unknown type leaves the list unchanged |
| `AntennaRegistry.CreateThenUpdate` | packages/backend/src/core/AntennaService.ts:67-97 | created then updated for a new id leaves exactly one entry for it, the updated body, after the old list |
| `AntennaRegistry.CreateThenDelete` | packages/backend/src/core/AntennaService.ts:67-100 | created then deleted for a new id restores the list |
| `AntennaRegistry.UpdateIdempotent` | packages/backend/src/core/AntennaService.ts:76-97 | applying the same `antennaUpdated` twice equals applying it once |
| `AntennaRegistry.DeleteIdempotent` | packages/backend/src/core/AntennaService.ts:98-100 | applying the same `antennaDeleted` twice equals applying it once |
| `AntennaRegistry.AntennaCache.constructor` | packages/backend/src/core/AntennaService.ts:54-55 | a new registry is empty and not yet loaded |
| `AntennaRegistry.AntennaCache.OnRedisMessage` | packages/backend/src/core/AntennaService.ts:61-105 | the new list is `Apply` of the old list and the message; the loaded flag and load count are unchanged |
| `AntennaRegistry.AntennaCache.GetAntennas` | packages/backend/src/core/AntennaService.ts:238-247 | the first call loads `stored` and sets the flag; later calls return the event-maintained list unchanged; storage is loaded successfully at most once over the object's life; given a `stored` list whose `src` values are classified, every cached entry stays `CanonicalSrc` |
| `AntennaDispatch.TimelineKey` | packages/backend/src/core/AntennaService.ts:122 | the key is `antennaTimeline:` followed by exactly the antenna id |
| `AntennaDispatch.TimelineKeyInjective` | packages/backend/src/core/AntennaService.ts:122 | distinct antenna ids give distinct `antennaTimeline:` keys |
| `AntennaDispatch.MatchedAntennas` | packages/backend/src/core/AntennaService.ts:110-111 | the matched antennas are exactly the listed antennas the note hits |
| `AntennaDispatch.MatchedAppend` | packages/backend/src/core/AntennaService.ts:111 | matching distributes over concatenation, so hits keep their list order |
| `AntennaDispatch.MatchedAll` | packages/backend/src/core/AntennaService.ts:110-111 | when every antenna is hit, the matched list is the whole list |
| `AntennaDispatch.ResolvePolicies` | packages/backend/src/core/AntennaService.ts:115-117 | the policy map holds exactly the matched owners whose lookup was fulfilled, each mapped to its lookup's result |
| `AntennaDispatch.LimitFor` | packages/backend/src/core/AntennaService.ts:120 | an owner's limit is taken from the policy map when the owner is in it, and from the fallback lookup otherwise |
| `AntennaDispatch.LimitResolution` | packages/backend/src/core/AntennaService.ts:115-120 | a matched antenna's limit is the batch lookup's when it succeeded, otherwise the fallback lookup's |
| `AntennaDispatch.FanOut` | packages/backend/src/core/AntennaService.ts:119-124 | one push `(antennaTimeline:<id>, note id, limit)` and one `note` stream event per matched antenna, position by position |
| `AntennaDispatch.PushedIffHit` | packages/backend/src/core/AntennaService.ts:108-124 | over antennas with distinct ids, a push to `antennaTimeline:<id>` exists iff the note hits that antenna, and a hit's push carries the note id and the owner's resolved limit |
| `AntennaDispatch.ListBodyWithoutListIdNeverHits` | packages/backend/src/core/AntennaService.ts:165-166 | an antenna created or updated from a body whose `src` is the string "list" and which has no `userListId` never hits any note |
| `AntennaDispatch.AddNoteToAntennas` | packages/backend/src/core/AntennaService.ts:107-127 | the registry is loaded (once), and the outputs are one push and one event per antenna the note hits, in list order, with limits resolved through batch then fallback |

## Left out

- Pub/sub wiring: subscribing in the constructor, `dispose` and `onApplicationShutdown` only
  register and unregister the handler.
- `JSON.parse` and `new Date(...)`: the handler receives the decoded message (`None` when
  decoding throws, which leaves the list unchanged) and a `parseDate` function.
- `toLowerCase`, `Acct.parse`, `getFullApAccount`, `isUserRelated`, the mute, block and
  follow caches and the list-membership query are uninterpreted fields of `Lookups`.
- GetAntennas: entries read from storage are taken with `src` already classified (`AllCanonical(stored)` is required); the column's string-to-`Src` mapping for stored rows is the same `SrcOf` but is not applied in the model.
- Storage: the result of `antennasRepository.findBy({ isActive: true })` is the `stored`
  parameter; the query itself is not modelled.
- `FanoutTimelineService.push` and its trimming, the Redis pipeline and `exec`, and
  `publishAntennaStream` are recorded as output records; eviction is not specified.
  The relative order of pushes (flushed at `exec`) and publishes (sent immediately) is not
  modelled.
- GetAntennas: a rejected `antennasRepository.findBy` at line 240 is not modelled. In the
  source it throws before lines 240 and 243 assign anything, so `antennasFetched` stays false,
  `addNoteToAntennas` (line 109) delivers nothing, and the next call reads storage again. The
  model's `stored` is always available, so its first call always loads.
- AddNoteToAntennas: a fallback policy lookup that throws aborts the source's loop before
  `exec`; the model takes the fallback as total.
- AddNoteToAntennas: if any `checkHitAntenna` rejects (a mute, block or follow cache fetch at
  lines 137-139 or 145, or the list-membership query at line 167), the `Promise.all` at line
  110 rejects and nothing is pushed or published for any antenna. The model's `Lookups` are
  total, so it always delivers to every hit antenna. One failing antenna thus blocks
  delivery to all the others; the code does not isolate antennas from each other.
- Concurrency: `Promise.all`/`Promise.allSettled` are evaluated sequentially; a rejected
  batch lookup is a missing map entry. Events interleaving with an in-flight first load, and
  two concurrent first calls to `getAntennas` each loading, are not modelled.
