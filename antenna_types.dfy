/** Value types of the antenna engine: antennas (saved subscriptions), notes,
    the author summary passed with a note, and the external lookups the
    engine consults, each given as a total function. */
module AntennaTypes {

  datatype Option<+T> = None | Some(value: T)

  type UserId = string
  type AntennaId = string
  type ListId = string
  type NoteId = string

  /** A timestamp after `new Date(...)`; its representation is irrelevant here. */
  type Date = int

  datatype Visibility = Public | Home | Followers | Specified

  /** The antenna's `src` field. The engine names four values; any other
      value falls through its if-chain without a constraint. `OtherSrc`
      stands only for a name other than the four: event bodies carry the
      raw string, which `SrcOf` classifies, and the registry keeps every
      cached entry `CanonicalSrc`. */
  datatype Src = HomeSrc | ListSrc | UsersSrc | UsersBlacklistSrc | OtherSrc(name: string)

  /** The four names the engine's source clause compares against. */
  const NamedSources: set<string> := {"home", "list", "users", "users_blacklist"}

  /** An `OtherSrc` never carries one of the four named values. */
  predicate CanonicalSrc(src: Src)
  {
    src.OtherSrc? ==> src.name !in NamedSources
  }

  /** The `src` string as the engine's `===` comparisons classify it. */
  function SrcOf(name: string): (src: Src)
    ensures CanonicalSrc(src)
    ensures src.OtherSrc? <==> name !in NamedSources
    ensures src.OtherSrc? ==> src.name == name
    ensures name == "home" <==> src.HomeSrc?
    ensures name == "list" <==> src.ListSrc?
    ensures name == "users" <==> src.UsersSrc?
    ensures name == "users_blacklist" <==> src.UsersBlacklistSrc?
  {
    if name == "home" then HomeSrc
    else if name == "list" then ListSrc
    else if name == "users" then UsersSrc
    else if name == "users_blacklist" then UsersBlacklistSrc
    else OtherSrc(name)
  }

  /** A cached antenna. `user` and `userList` stand for the joined user and
      list records, which an event-built entry never carries. */
  datatype Antenna = Antenna(
    id: AntennaId,
    userId: UserId,
    name: string,
    src: Src,
    userListId: Option<ListId>,
    users: seq<string>,
    keywords: seq<seq<string>>,
    excludeKeywords: seq<seq<string>>,
    caseSensitive: bool,
    withReplies: bool,
    withFile: bool,
    localOnly: bool,
    excludeBots: bool,
    isActive: bool,
    createdAt: Date,
    lastUsedAt: Date,
    user: Option<UserId>,
    userList: Option<ListId>)

  /** An antenna as it arrives in an internal event: timestamps still in
      wire form, no joined records. */
  datatype AntennaBody = AntennaBody(
    id: AntennaId,
    userId: UserId,
    name: string,
    src: string,
    userListId: Option<ListId>,
    users: seq<string>,
    keywords: seq<seq<string>>,
    excludeKeywords: seq<seq<string>>,
    caseSensitive: bool,
    withReplies: bool,
    withFile: bool,
    localOnly: bool,
    excludeBots: bool,
    isActive: bool,
    createdAt: string,
    lastUsedAt: string)

  /** The fields of a note the engine reads. Fields such as the reply's and
      renote's authors that `isUserRelated` inspects are hidden behind
      `Lookups.isUserRelated`. */
  datatype Note = Note(
    id: NoteId,
    userId: UserId,
    visibility: Visibility,
    visibleUserIds: Option<seq<UserId>>,
    replyId: Option<NoteId>,
    text: Option<string>,
    cw: Option<string>,
    fileIds: Option<seq<string>>)

  /** The author summary handed to the engine together with the note. */
  datatype NoteUser = NoteUser(id: UserId, username: string, host: Option<string>, isBot: bool)

  /** The result of `Acct.parse`. */
  datatype Acct = Acct(username: string, host: Option<string>)

  /** The collaborators the match predicate consults, as read-only snapshots. */
  datatype Lookups = Lookups(
    /** userMutingsCache: the users the given user mutes */
    mutings: UserId -> set<UserId>,
    /** userBlockedCache: the users who block the given user */
    blockedBy: UserId -> set<UserId>,
    /** userFollowingsCache: the users the given user follows */
    followings: UserId -> set<UserId>,
    /** isUserRelated(note, ids) */
    isUserRelated: (Note, set<UserId>) -> bool,
    /** whether a membership row (list, user) exists */
    isListMember: (ListId, UserId) -> bool,
    /** Acct.parse */
    parseAcct: string -> Acct,
    /** UtilityService.getFullApAccount(username, host) */
    fullApAccount: (string, Option<string>) -> string,
    /** String.prototype.toLowerCase */
    lower: string -> string)
}
