/** The match predicate: whether a note satisfies an antenna. The engine
    evaluates a chain of clauses and rejects on the first that fails; the
    chain is `CheckHitAntenna`, and `Hits` states the same clauses
    declaratively, over the antenna's raw keyword lists. */
module AntennaMatch {
  import opened AntennaTypes
  import opened TextSearch

  // ---------------------------------------------------------------------
  // Visibility, mutes and blocks

  /** The note involves none of the users who block `userId` and none of
      the users `userId` mutes. */
  predicate Unrelated(env: Lookups, userId: UserId, note: Note)
  {
    && !env.isUserRelated(note, env.blockedBy(userId))
    && !env.isUserRelated(note, env.mutings(userId))
  }

  /** Whether the owner `userId` may see `note` at all. */
  function Filter(env: Lookups, userId: UserId, note: Note): (r: bool)
    ensures env.isUserRelated(note, env.blockedBy(userId)) ==> !r
    ensures env.isUserRelated(note, env.mutings(userId)) ==> !r
    ensures Unrelated(env, userId, note) && note.visibility in {Followers, Specified} && userId == note.userId ==> r
    ensures Unrelated(env, userId, note) && note.visibility == Followers && userId != note.userId ==>
              (r <==> note.userId in env.followings(userId))
    ensures Unrelated(env, userId, note) && note.visibility == Specified && userId != note.userId ==>
              (r <==> note.visibleUserIds.Some? && userId in note.visibleUserIds.value)
    ensures Unrelated(env, userId, note) && note.visibility in {Public, Home} ==> r
  {
    if env.isUserRelated(note, env.blockedBy(userId)) then false
    else if env.isUserRelated(note, env.mutings(userId)) then false
    else if note.visibility == Followers || note.visibility == Specified then
      if userId == note.userId then true
      else if note.visibility == Followers then note.userId in env.followings(userId)
      else note.visibleUserIds.Some? && userId in note.visibleUserIds.value
    else true
  }

  // ---------------------------------------------------------------------
  // Source filter

  /** `getFullApAccount(username, host).toLowerCase()` */
  function AcctKey(env: Lookups, username: string, host: Option<string>): string
  {
    env.lower(env.fullApAccount(username, host))
  }

  /** The comparison key of one configured account `x`, parsed by `Acct.parse`. */
  function NormaliseAcct(env: Lookups, x: string): string
  {
    var acct := env.parseAcct(x);
    AcctKey(env, acct.username, acct.host)
  }

  /** The comparison key of the note's author. */
  function AuthorAcct(env: Lookups, noteUser: NoteUser): string
  {
    AcctKey(env, noteUser.username, noteUser.host)
  }

  /** `antenna.users.map(...)`: the keys of the configured accounts, in order. */
  function NormaliseAccts(env: Lookups, users: seq<string>): (r: seq<string>)
    ensures |r| == |users|
    ensures forall i :: 0 <= i < |users| ==> r[i] == NormaliseAcct(env, users[i])
  {
    if users == [] then [] else [NormaliseAcct(env, users[0])] + NormaliseAccts(env, users[1..])
  }

  /** Whether the author passes the antenna's source filter. */
  function SourcePasses(env: Lookups, antenna: Antenna, note: Note, noteUser: NoteUser): (r: bool)
    ensures antenna.src == ListSrc && antenna.userListId.None? ==> !r
    ensures antenna.src == ListSrc && antenna.userListId.Some? ==>
              (r <==> env.isListMember(antenna.userListId.value, note.userId))
    ensures antenna.src == UsersSrc ==>
              (r <==> exists x :: x in antenna.users && NormaliseAcct(env, x) == AuthorAcct(env, noteUser))
    ensures antenna.src == UsersBlacklistSrc ==>
              (r <==> forall x :: x in antenna.users ==> NormaliseAcct(env, x) != AuthorAcct(env, noteUser))
    ensures antenna.src == HomeSrc || antenna.src.OtherSrc? ==> r
  {
    match antenna.src
    case HomeSrc => true
    case ListSrc =>
      antenna.userListId.Some? && env.isListMember(antenna.userListId.value, note.userId)
    case UsersSrc =>
      var accts := NormaliseAccts(env, antenna.users);
      assert forall x :: x in antenna.users ==> NormaliseAcct(env, x) in accts;
      AuthorAcct(env, noteUser) in accts
    case UsersBlacklistSrc =>
      var accts := NormaliseAccts(env, antenna.users);
      assert forall x :: x in antenna.users ==> NormaliseAcct(env, x) in accts;
      AuthorAcct(env, noteUser) !in accts
    case OtherSrc(_) => true
  }

  // ---------------------------------------------------------------------
  // Keyword groups

  /** `xs.filter(x => x !== '')` */
  function DropEmptyKeywords(xs: seq<string>): (r: seq<string>)
    ensures forall x :: x in r <==> x in xs && x != ""
    ensures |r| <= |xs|
  {
    if xs == [] then []
    else if xs[0] == "" then DropEmptyKeywords(xs[1..])
    else [xs[0]] + DropEmptyKeywords(xs[1..])
  }

  /** The clean-up of a keyword list: empty keywords are dropped from every
      group, then the groups left empty are dropped. */
  function CleanUp(groups: seq<seq<string>>): (r: seq<seq<string>>)
    ensures forall g :: g in r ==> |g| > 0 && "" !in g
    ensures forall g :: g in r ==> exists h :: h in groups && g == DropEmptyKeywords(h)
    ensures forall h :: h in groups && DropEmptyKeywords(h) != [] ==> DropEmptyKeywords(h) in r
    ensures |r| <= |groups|
  {
    if groups == [] then []
    else
      var g := DropEmptyKeywords(groups[0]);
      var rest := CleanUp(groups[1..]);
      assert forall h :: h in groups <==> h == groups[0] || h in groups[1..];
      if g == [] then rest
      else
        assert forall x :: x in [g] + rest <==> x == g || x in rest;
        [g] + rest
  }

  /** The text keywords are looked for in: `(text ?? '') + '\n' + (cw ?? '')`. */
  function Haystack(note: Note): (r: string)
    ensures var t := if note.text.Some? then note.text.value else "";
            var c := if note.cw.Some? then note.cw.value else "";
            |r| == |t| + 1 + |c| && r[..|t|] == t && r[|t|] == '\n' && r[|t| + 1..] == c
  {
    (if note.text.Some? then note.text.value else "") + "\n" + (if note.cw.Some? then note.cw.value else "")
  }

  /** One keyword test, case-folded through `lower` unless `caseSensitive`. */
  function KeywordOccurs(env: Lookups, caseSensitive: bool, text: string, keyword: string): (r: bool)
    ensures r <==> KeywordIn(env, caseSensitive, text, keyword)
  {
    if caseSensitive then Includes(text, keyword) else Includes(env.lower(text), env.lower(keyword))
  }

  /** `and.every(...)`: every keyword of the group occurs. */
  function AllKeywordsOccur(env: Lookups, caseSensitive: bool, text: string, group: seq<string>): (r: bool)
    ensures r <==> forall k :: k in group ==> KeywordOccurs(env, caseSensitive, text, k)
  {
    if group == [] then true
    else KeywordOccurs(env, caseSensitive, text, group[0]) && AllKeywordsOccur(env, caseSensitive, text, group[1..])
  }

  /** `groups.some(...)`: some group has all of its keywords in the text. */
  function SomeGroupOccurs(env: Lookups, caseSensitive: bool, text: string, groups: seq<seq<string>>): (r: bool)
    ensures r <==> exists g :: g in groups && AllKeywordsOccur(env, caseSensitive, text, g)
  {
    if groups == [] then false
    else
      assert forall g :: g in groups <==> g == groups[0] || g in groups[1..];
      if AllKeywordsOccur(env, caseSensitive, text, groups[0]) then
        assert groups[0] in groups && AllKeywordsOccur(env, caseSensitive, text, groups[0]);
        true
      else SomeGroupOccurs(env, caseSensitive, text, groups[1..])
  }

  /** The inclusion clause: with keyword groups left after clean-up, the note
      needs a text or a content warning and some group must match. */
  function KeywordsPass(env: Lookups, antenna: Antenna, note: Note): (r: bool)
    ensures r <==> InclusionAdmits(env, antenna, note)
  {
    CleanUpNonEmpty(antenna.keywords);
    CleanUpMatches(env, antenna.caseSensitive, Haystack(note), antenna.keywords);
    var keywords := CleanUp(antenna.keywords);
    if |keywords| > 0 then
      if note.text.None? && note.cw.None? then false
      else SomeGroupOccurs(env, antenna.caseSensitive, Haystack(note), keywords)
    else true
  }

  /** The exclusion clause: with exclude groups left after clean-up, the note
      needs a text or a content warning and no group may match. */
  function ExcludeKeywordsPass(env: Lookups, antenna: Antenna, note: Note): (r: bool)
    ensures r <==> ExclusionAdmits(env, antenna, note)
  {
    CleanUpNonEmpty(antenna.excludeKeywords);
    CleanUpMatches(env, antenna.caseSensitive, Haystack(note), antenna.excludeKeywords);
    var excludeKeywords := CleanUp(antenna.excludeKeywords);
    if |excludeKeywords| > 0 then
      if note.text.None? && note.cw.None? then false
      else !SomeGroupOccurs(env, antenna.caseSensitive, Haystack(note), excludeKeywords)
    else true
  }

  // ---------------------------------------------------------------------
  // The whole predicate

  /** Whether `note`, written by `noteUser`, hits `antenna`. */
  function CheckHitAntenna(env: Lookups, antenna: Antenna, note: Note, noteUser: NoteUser): (r: bool)
    ensures r ==> Filter(env, antenna.userId, note)
    ensures r ==> !(antenna.excludeBots && noteUser.isBot)
    ensures r ==> !(antenna.localOnly && noteUser.host.Some?)
    ensures r ==> !(!antenna.withReplies && note.replyId.Some?)
    ensures r ==> SourcePasses(env, antenna, note, noteUser)
    ensures r ==> !(antenna.withFile && note.fileIds == Some([]))
  {
    if !Filter(env, antenna.userId, note) then false
    else if antenna.excludeBots && noteUser.isBot then false
    else if antenna.localOnly && noteUser.host.Some? then false
    else if !antenna.withReplies && note.replyId.Some? then false
    else if !SourcePasses(env, antenna, note, noteUser) then false
    else if !KeywordsPass(env, antenna, note) then false
    else if !ExcludeKeywordsPass(env, antenna, note) then false
    else if antenna.withFile && note.fileIds.Some? && |note.fileIds.value| == 0 then false
    else true
  }

  // ---------------------------------------------------------------------
  // Reference definition

  /** `keyword` occurs in `text`, compared through `lower` unless `caseSensitive`. */
  ghost predicate KeywordIn(env: Lookups, caseSensitive: bool, text: string, keyword: string)
  {
    if caseSensitive then exists i :: OccursAt(text, keyword, i)
    else exists i :: OccursAt(env.lower(text), env.lower(keyword), i)
  }

  /** A raw group with at least one non-empty keyword. */
  ghost predicate Effective(group: seq<string>)
  {
    exists k :: k in group && k != ""
  }

  /** A raw group with at least one non-empty keyword, all of which occur. */
  ghost predicate GroupHolds(env: Lookups, caseSensitive: bool, text: string, group: seq<string>)
  {
    Effective(group) && forall k :: k in group && k != "" ==> KeywordIn(env, caseSensitive, text, k)
  }

  /** Some raw group holds. */
  ghost predicate AnyGroupHolds(env: Lookups, caseSensitive: bool, text: string, groups: seq<seq<string>>)
  {
    exists g :: g in groups && GroupHolds(env, caseSensitive, text, g)
  }

  ghost predicate HasText(note: Note)
  {
    note.text.Some? || note.cw.Some?
  }

  ghost predicate VisibleTo(env: Lookups, viewer: UserId, note: Note)
  {
    && Unrelated(env, viewer, note)
    && (viewer != note.userId && note.visibility == Followers ==> note.userId in env.followings(viewer))
    && (viewer != note.userId && note.visibility == Specified ==>
          note.visibleUserIds.Some? && viewer in note.visibleUserIds.value)
  }

  ghost predicate SourceAdmits(env: Lookups, antenna: Antenna, note: Note, noteUser: NoteUser)
  {
    match antenna.src
    case ListSrc => antenna.userListId.Some? && env.isListMember(antenna.userListId.value, note.userId)
    case UsersSrc => exists x :: x in antenna.users && NormaliseAcct(env, x) == AuthorAcct(env, noteUser)
    case UsersBlacklistSrc => forall x :: x in antenna.users ==> NormaliseAcct(env, x) != AuthorAcct(env, noteUser)
    case _ => true
  }

  ghost predicate InclusionAdmits(env: Lookups, antenna: Antenna, note: Note)
  {
    (exists g :: g in antenna.keywords && Effective(g)) ==>
      HasText(note) && AnyGroupHolds(env, antenna.caseSensitive, Haystack(note), antenna.keywords)
  }

  ghost predicate ExclusionAdmits(env: Lookups, antenna: Antenna, note: Note)
  {
    (exists g :: g in antenna.excludeKeywords && Effective(g)) ==>
      HasText(note) && !AnyGroupHolds(env, antenna.caseSensitive, Haystack(note), antenna.excludeKeywords)
  }

  /** Every clause of the antenna admits the note. */
  ghost predicate Hits(env: Lookups, antenna: Antenna, note: Note, noteUser: NoteUser)
  {
    && VisibleTo(env, antenna.userId, note)
    && !(antenna.excludeBots && noteUser.isBot)
    && !(antenna.localOnly && noteUser.host.Some?)
    && !(!antenna.withReplies && note.replyId.Some?)
    && SourceAdmits(env, antenna, note, noteUser)
    && InclusionAdmits(env, antenna, note)
    && ExclusionAdmits(env, antenna, note)
    && !(antenna.withFile && note.fileIds == Some([]))
  }

  // ---------------------------------------------------------------------
  // Lemmas

  /** Clean-up leaves some group exactly when a raw group has a non-empty keyword. */
  lemma CleanUpNonEmpty(groups: seq<seq<string>>)
    ensures |CleanUp(groups)| > 0 <==> exists g :: g in groups && Effective(g)
  {
    var r := CleanUp(groups);
    if |r| > 0 {
      assert r[0] in r;
      var h :| h in groups && r[0] == DropEmptyKeywords(h);
      assert r[0][0] in h;
    }
    if g :| g in groups && Effective(g) {
      var k :| k in g && k != "";
      assert k in DropEmptyKeywords(g);
    }
  }

  /** Matching the cleaned groups is matching the raw groups' non-empty keywords. */
  lemma CleanUpMatches(env: Lookups, caseSensitive: bool, text: string, groups: seq<seq<string>>)
    ensures SomeGroupOccurs(env, caseSensitive, text, CleanUp(groups)) <==> AnyGroupHolds(env, caseSensitive, text, groups)
  {
    var r := CleanUp(groups);
    if SomeGroupOccurs(env, caseSensitive, text, r) {
      var g :| g in r && AllKeywordsOccur(env, caseSensitive, text, g);
      var h :| h in groups && g == DropEmptyKeywords(h);
      assert g[0] in h;
      assert GroupHolds(env, caseSensitive, text, h);
    }
    if AnyGroupHolds(env, caseSensitive, text, groups) {
      var h :| h in groups && GroupHolds(env, caseSensitive, text, h);
      var k :| k in h && k != "";
      assert k in DropEmptyKeywords(h);
      assert AllKeywordsOccur(env, caseSensitive, text, DropEmptyKeywords(h));
    }
  }

  /** The early-return chain decides exactly the declarative conjunction. */
  lemma CheckHitAntennaMeetsSpec(env: Lookups, antenna: Antenna, note: Note, noteUser: NoteUser)
    ensures CheckHitAntenna(env, antenna, note, noteUser) <==> Hits(env, antenna, note, noteUser)
  {
  }

  /** A `list` antenna without a list never hits, whatever its other fields. */
  lemma ListWithoutListIdNeverHits(env: Lookups, antenna: Antenna, note: Note, noteUser: NoteUser)
    requires antenna.src == ListSrc && antenna.userListId.None?
    ensures !CheckHitAntenna(env, antenna, note, noteUser)
  {
  }

  /** Keyword inclusion is an OR of ANDs: a note whose text or content
      warning carries every non-empty keyword of one group passes the
      inclusion clause, and one that fully carries no group fails it. */
  lemma InclusionIsOrOfAnds(env: Lookups, antenna: Antenna, note: Note)
    requires HasText(note)
    ensures (exists g :: g in antenna.keywords && GroupHolds(env, antenna.caseSensitive, Haystack(note), g)) ==>
              KeywordsPass(env, antenna, note)
    ensures (exists g :: g in antenna.keywords && Effective(g)) &&
            (forall g :: g in antenna.keywords ==> !GroupHolds(env, antenna.caseSensitive, Haystack(note), g)) ==>
              !KeywordsPass(env, antenna, note)
  {
  }

  /** Adding an exclude group that the note fully matches turns a hit into a miss. */
  lemma ExclusionInvertsInclusion(env: Lookups, antenna: Antenna, note: Note, noteUser: NoteUser, group: seq<string>)
    requires GroupHolds(env, antenna.caseSensitive, Haystack(note), group)
    ensures !CheckHitAntenna(env, antenna.(excludeKeywords := antenna.excludeKeywords + [group]), note, noteUser)
  {
    var a' := antenna.(excludeKeywords := antenna.excludeKeywords + [group]);
    assert group in a'.excludeKeywords;
    CheckHitAntennaMeetsSpec(env, a', note, noteUser);
  }

  /** An antenna's exclude list, when it has no keyword, changes nothing. */
  lemma EmptyExclusionIsNeutral(env: Lookups, antenna: Antenna, note: Note, noteUser: NoteUser)
    requires forall g :: g in antenna.excludeKeywords ==> forall k :: k in g ==> k == ""
    ensures CheckHitAntenna(env, antenna, note, noteUser) ==
            CheckHitAntenna(env, antenna.(excludeKeywords := []), note, noteUser)
  {
    CleanUpNonEmpty(antenna.excludeKeywords);
  }

  /** Case sensitivity: "Hello" is found in "hello world" only when
      keywords are compared through lower-casing. */
  lemma CaseFolding(env: Lookups)
    requires env.lower("hello world\n") == "hello world\n" && env.lower("Hello") == "hello"
    ensures !KeywordOccurs(env, true, "hello world\n", "Hello")
    ensures KeywordOccurs(env, false, "hello world\n", "Hello")
  {
    var t := "hello world\n";
    assert OccursAt(t, "hello", 0);
    assert forall i :: 0 <= i < |t| ==> t[i] != 'H';
    forall i ensures !OccursAt(t, "Hello", i) {
      if 0 <= i && i + 5 <= |t| {
        assert t[i..i + 5][0] == t[i];
      }
    }
  }

  /** A keyword found in the text or in the content warning is found in
      the searched text. */
  lemma HaystackCoversTextAndCw(note: Note, keyword: string)
    ensures note.text.Some? && Includes(note.text.value, keyword) ==> Includes(Haystack(note), keyword)
    ensures note.cw.Some? && Includes(note.cw.value, keyword) ==> Includes(Haystack(note), keyword)
  {
    var t := if note.text.Some? then note.text.value else "";
    var c := if note.cw.Some? then note.cw.value else "";
    assert Haystack(note) == t + ("\n" + c);
    assert Haystack(note) == (t + "\n") + c;
    IncludesInConcat(t, "\n" + c, keyword);
    IncludesInConcat(t + "\n", c, keyword);
  }

  /** A `users` antenna listing "alice@remote", with no keyword, file,
      reply, bot or locality restriction, hits a public note the owner may
      see exactly when the author's account key is that of "alice@remote". */
  lemma UsersScenario(env: Lookups, antenna: Antenna, note: Note, alice: NoteUser, other: NoteUser)
    requires antenna.src == UsersSrc && antenna.users == ["alice@remote"]
    requires antenna.keywords == [] && antenna.excludeKeywords == []
    requires !antenna.excludeBots && !antenna.localOnly && !antenna.withFile
    requires note.visibility == Public && note.replyId.None? && Unrelated(env, antenna.userId, note)
    requires AuthorAcct(env, alice) == NormaliseAcct(env, "alice@remote")
    requires AuthorAcct(env, other) != NormaliseAcct(env, "alice@remote")
    ensures CheckHitAntenna(env, antenna, note, alice)
    ensures !CheckHitAntenna(env, antenna, note, other)
  {
    assert "alice@remote" in antenna.users;
  }

  /** A case-sensitive antenna with the single group ["cat"] passes a note
      reading "I have a cat" and rejects one reading "I have a dog". */
  lemma KeywordScenario(env: Lookups, antenna: Antenna, cat: Note, dog: Note)
    requires antenna.keywords == [["cat"]] && antenna.caseSensitive
    requires cat.text == Some("I have a cat") && cat.cw.None?
    requires dog.text == Some("I have a dog") && dog.cw.None?
    ensures KeywordsPass(env, antenna, cat)
    ensures !KeywordsPass(env, antenna, dog)
  {
    assert DropEmptyKeywords(["cat"]) == ["cat"];
    assert CleanUp(antenna.keywords) == [["cat"]];
    CatFound(cat);
    CatNotFound(dog);
  }

  lemma CatFound(note: Note)
    requires note.text == Some("I have a cat") && note.cw.None?
    ensures Includes(Haystack(note), "cat")
  {
    assert Haystack(note) == "I have a cat\n";
    assert OccursAt("I have a cat\n", "cat", 9);
  }

  lemma CatNotFound(note: Note)
    requires note.text == Some("I have a dog") && note.cw.None?
    ensures !Includes(Haystack(note), "cat")
  {
    var t := "I have a dog\n";
    assert Haystack(note) == t;
    assert forall i :: 0 <= i < |t| ==> t[i] != 'c';
    forall i ensures !OccursAt(t, "cat", i) {
      if 0 <= i && i + 3 <= |t| {
        assert t[i..i + 3][0] == t[i];
      }
    }
  }
}
