/** The conversation directory: find-or-create the direct conversation of
    two users, and list a user's conversations with the other participant,
    the last message and an unread count, most recent first. */
module Conversations {
  import opened Seqs
  import opened Schema
  import opened Messages

  /** The existence check of `getOrCreateConversation`: a non-group
      conversation whose participants include both users. */
  predicate Matches(c: Conversation, a: UserId, b: UserId)
  {
    !c.isGroup && a in c.participants && b in c.participants
  }

  function MatchesPair(a: UserId, b: UserId): Conversation -> bool
  {
    (c: Conversation) => Matches(c, a, b)
  }

  /** The first matching conversation, as `find` returns it. */
  function FindConversation(conversations: seq<Conversation>, a: UserId, b: UserId): (r: Option<ConversationId>)
    ensures r.Some? ==> r.value < |conversations| && Matches(conversations[r.value], a, b)
    ensures r.Some? ==> forall j :: 0 <= j < r.value ==> !Matches(conversations[j], a, b)
    ensures r.None? <==> forall j :: 0 <= j < |conversations| ==> !Matches(conversations[j], a, b)
  {
    FirstIndex(conversations, MatchesPair(a, b))
  }

  function NewConversation(a: UserId, b: UserId, now: int): Conversation
  {
    Conversation([a, b], false, None, None, None, None, now)
  }

  /** The state after `getOrCreateConversation` and the id it returns. */
  function GetOrCreateStep(t: Tables, currentUserId: UserId, otherUserId: UserId, now: int): (r: (Tables, ConversationId))
    ensures r.0.users == t.users && r.0.messages == t.messages && r.0.typingIndicators == t.typingIndicators
    ensures FindConversation(t.conversations, currentUserId, otherUserId).Some? ==>
      r == (t, FindConversation(t.conversations, currentUserId, otherUserId).value)
    ensures FindConversation(t.conversations, currentUserId, otherUserId).None? ==>
      && r.0.conversations == t.conversations + [NewConversation(currentUserId, otherUserId, now)]
      && r.1 == |t.conversations|
    // the id returned is always the first non-group conversation holding both users
    ensures FindConversation(r.0.conversations, currentUserId, otherUserId) == Some(r.1)
  {
    match FindConversation(t.conversations, currentUserId, otherUserId)
    case Some(id) => (t, id)
    case None =>
      var conversations := t.conversations + [NewConversation(currentUserId, otherUserId, now)];
      assert Matches(conversations[|t.conversations|], currentUserId, otherUserId);
      (t.(conversations := conversations), |t.conversations|)
  }

  /** The `getOrCreateConversation` mutation. */
  method GetOrCreateConversation(db: Db, currentUserId: UserId, otherUserId: UserId, now: int)
    returns (id: ConversationId)
    modifies db`conversations
    ensures (db.State(), id) == GetOrCreateStep(old(db.State()), currentUserId, otherUserId, now)
  {
    var existing := FindConversation(db.conversations, currentUserId, otherUserId);
    if existing.Some? {
      return existing.value;
    }
    id := |db.conversations|;
    db.conversations := db.conversations + [NewConversation(currentUserId, otherUserId, now)];
  }

  /** The match does not depend on the order of the two users. */
  lemma FindConversationSymmetric(conversations: seq<Conversation>, a: UserId, b: UserId)
    ensures FindConversation(conversations, a, b) == FindConversation(conversations, b, a)
  {
    var r, s := FindConversation(conversations, a, b), FindConversation(conversations, b, a);
    if r.Some? && s.Some? {
      if r.value < s.value {
        assert Matches(conversations[r.value], b, a);
      } else if s.value < r.value {
        assert Matches(conversations[s.value], a, b);
      }
    }
  }

  /** A second call for the same two users, in either order, returns the
      same conversation and changes nothing. */
  lemma GetOrCreateTwice(t: Tables, a: UserId, b: UserId, now1: int, now2: int)
    ensures var (t1, id1) := GetOrCreateStep(t, a, b, now1);
      && GetOrCreateStep(t1, a, b, now2) == (t1, id1)
      && GetOrCreateStep(t1, b, a, now2) == (t1, id1)
  {
    var (t1, id1) := GetOrCreateStep(t, a, b, now1);
    FindConversationSymmetric(t1.conversations, a, b);
  }

  /** For two distinct users, at most one non-group conversation holds both. */
  ghost predicate OneConversationPerPair(conversations: seq<Conversation>)
  {
    forall i, j, x, y :: 0 <= i < j < |conversations| && x != y && Matches(conversations[i], x, y) ==>
      !Matches(conversations[j], x, y)
  }

  /** Creation only happens when no conversation holds the pair, so
      sequential calls never duplicate a pair of distinct users. */
  lemma GetOrCreateKeepsOneConversationPerPair(t: Tables, a: UserId, b: UserId, now: int)
    requires OneConversationPerPair(t.conversations)
    ensures OneConversationPerPair(GetOrCreateStep(t, a, b, now).0.conversations)
  {
  }

  /** Sending only moves the last-message pointer, so the pair invariant
      survives it. */
  lemma SendKeepsOneConversationPerPair(t: Tables, identity: Option<string>, conversationId: ConversationId,
                                        content: string, now: int)
    requires OneConversationPerPair(t.conversations)
    ensures OneConversationPerPair(SendStep(t, identity, conversationId, content, now).0.conversations)
  {
    var cs := SendStep(t, identity, conversationId, content, now).0.conversations;
    assert |cs| == |t.conversations|;
    forall i | 0 <= i < |cs|
      ensures cs[i].participants == t.conversations[i].participants && cs[i].isGroup == t.conversations[i].isGroup
    {
    }
  }

  /** One entry of `getUserConversations`: the conversation with its id and
      the data joined to it. */
  datatype ConversationDetails = ConversationDetails(
    id: ConversationId,
    conversation: Conversation,
    otherUser: Option<Doc<User>>,
    lastMessage: Option<Doc<Message>>,
    unreadCount: nat)

  /** The first participant who is not the given user. */
  function OtherParticipant(participants: seq<UserId>, userId: UserId): (r: Option<UserId>)
    ensures r.Some? ==> r.value != userId
    ensures r.Some? ==> exists k :: (0 <= k < |participants| && participants[k] == r.value &&
                                     forall j :: 0 <= j < k ==> participants[j] == userId)
    ensures r.None? <==> forall j :: 0 <= j < |participants| ==> participants[j] == userId
  {
    match FirstIndex(participants, (p: UserId) => p != userId)
    case None => None
    case Some(k) => Some(participants[k])
  }

  /** Messages counted as unread: from someone else and newer than `since`. */
  function IsUnread(userId: UserId, since: int): Doc<Message> -> bool
  {
    (d: Doc<Message>) => d.data.senderId != userId && d.data.createdAt > since
  }

  /** The other user's last-seen time, 0 when there is no other user. */
  function LastSeenOf(otherUser: Option<Doc<User>>): int
  {
    if otherUser.Some? then otherUser.value.data.lastSeen else 0
  }

  function Details(t: Tables, userId: UserId, c: Doc<Conversation>): ConversationDetails
  {
    var lastMessage := if c.data.lastMessageId.Some? then Get(t.messages, c.data.lastMessageId.value) else None;
    var otherId := OtherParticipant(c.data.participants, userId);
    var otherUser := if otherId.Some? then Get(t.users, otherId.value) else None;
    var unread := Filter(MessagesOf(t.messages, c.id), IsUnread(userId, LastSeenOf(otherUser)));
    ConversationDetails(c.id, c.data, otherUser, lastMessage, |unread|)
  }

  function DetailsFor(t: Tables, userId: UserId): Doc<Conversation> -> ConversationDetails
  {
    (c: Doc<Conversation>) => Details(t, userId, c)
  }

  function IncludesUser(userId: UserId): Doc<Conversation> -> bool
  {
    (c: Doc<Conversation>) => userId in c.data.participants
  }

  /** The sort key: the last message's creation time, 0 without one. */
  function LastMessageTime(d: ConversationDetails): int
  {
    if d.lastMessage.Some? then d.lastMessage.value.data.createdAt else 0
  }

  predicate SortedByRecency(s: seq<ConversationDetails>)
  {
    forall i, j :: 0 <= i < j < |s| ==> LastMessageTime(s[j]) <= LastMessageTime(s[i])
  }

  /** Insert into a list sorted most recent first, before every entry that
      is not more recent (so earlier entries with the same key stay first). */
  function Insert(x: ConversationDetails, s: seq<ConversationDetails>): (r: seq<ConversationDetails>)
    requires SortedByRecency(s)
    ensures SortedByRecency(r)
    ensures multiset(r) == multiset(s) + multiset{x}
    ensures |r| == |s| + 1 && (r[0] == x || (|s| > 0 && r[0] == s[0]))
  {
    if |s| == 0 || LastMessageTime(s[0]) <= LastMessageTime(x) then [x] + s
    else
      var rest := Insert(x, s[1..]);
      assert s == [s[0]] + s[1..];
      assert LastMessageTime(rest[0]) <= LastMessageTime(s[0]);
      [s[0]] + rest
  }

  /** The stable sort `Array.prototype.sort` performs with the comparator
      `(a, b) => time(b) - time(a)`. */
  function SortByRecency(s: seq<ConversationDetails>): (r: seq<ConversationDetails>)
    ensures SortedByRecency(r)
    ensures multiset(r) == multiset(s)
  {
    if |s| == 0 then []
    else
      assert s == [s[0]] + s[1..];
      Insert(s[0], SortByRecency(s[1..]))
  }

  function HasTime(k: int): ConversationDetails -> bool
  {
    (d: ConversationDetails) => LastMessageTime(d) == k
  }

  lemma {:induction false} InsertStable(x: ConversationDetails, s: seq<ConversationDetails>, k: int)
    requires SortedByRecency(s)
    ensures Filter(Insert(x, s), HasTime(k)) == Filter([x], HasTime(k)) + Filter(s, HasTime(k))
  {
    if |s| == 0 || LastMessageTime(s[0]) <= LastMessageTime(x) {
      FilterAppend([x], s, HasTime(k));
    } else {
      var q := HasTime(k);
      var rest := s[1..];
      var head := if q(s[0]) then [s[0]] else [];
      assert s == [s[0]] + rest;
      // the two keys differ, so at most one of s[0] and x passes
      assert !(q(s[0]) && q(x));
      calc {
        Filter(Insert(x, s), q);
        Filter([s[0]] + Insert(x, rest), q);
        { FilterCons(s[0], Insert(x, rest), q); }
        head + Filter(Insert(x, rest), q);
        { InsertStable(x, rest, k); }
        head + (Filter([x], q) + Filter(rest, q));
        { FilterSingleton(x, q); }
        Filter([x], q) + (head + Filter(rest, q));
        { FilterCons(s[0], rest, q); }
        Filter([x], q) + Filter([s[0]] + rest, q);
        Filter([x], q) + Filter(s, q);
      }
    }
  }

  /** The sort is stable: entries with equal keys keep their relative order. */
  lemma {:induction false} SortStable(s: seq<ConversationDetails>, k: int)
    ensures Filter(SortByRecency(s), HasTime(k)) == Filter(s, HasTime(k))
  {
    if |s| > 0 {
      assert s == [s[0]] + s[1..];
      SortStable(s[1..], k);
      InsertStable(s[0], SortByRecency(s[1..]), k);
      FilterAppend([s[0]], s[1..], HasTime(k));
    }
  }

  /** `d` is the entry the listing builds for a conversation holding the user. */
  predicate IsListed(t: Tables, userId: UserId, d: ConversationDetails)
  {
    && d.id < |t.conversations|
    && d.conversation == t.conversations[d.id]
    && userId in d.conversation.participants
    && d == Details(t, userId, Doc(d.id, d.conversation))
  }

  /** The `getUserConversations` query: every conversation holding the
      user, each once with its details, most recent last message first. */
  function GetUserConversations(t: Tables, userId: UserId): (r: seq<ConversationDetails>)
    ensures SortedByRecency(r)
    ensures forall d :: multiset(r)[d] == if IsListed(t, userId, d) then 1 else 0
  {
    var mine := Filter(Docs(t.conversations), IncludesUser(userId));
    var detailed := Map(DetailsFor(t, userId), mine);
    var r := SortByRecency(detailed);
    forall d ensures multiset(r)[d] == if IsListed(t, userId, d) then 1 else 0 {
      ListedMultiplicity(t, userId, mine, detailed, d);
    }
    r
  }

  lemma ListedMultiplicity(t: Tables, userId: UserId, mine: seq<Doc<Conversation>>,
                           detailed: seq<ConversationDetails>, d: ConversationDetails)
    requires mine == Filter(Docs(t.conversations), IncludesUser(userId))
    requires detailed == Map(DetailsFor(t, userId), mine)
    ensures multiset(detailed)[d] == if IsListed(t, userId, d) then 1 else 0
  {
    var f := DetailsFor(t, userId);
    var c := Doc(d.id, d.conversation);
    assert forall a, b :: f(a) == f(b) ==> a == b by {
      forall a, b | f(a) == f(b) ensures a == b {
        assert Details(t, userId, a).id == a.id && Details(t, userId, a).conversation == a.data;
        assert Details(t, userId, b).id == b.id && Details(t, userId, b).conversation == b.data;
      }
    }
    if d == f(c) {
      MapInjectiveMultiset(f, mine, c);
      FilterMultiset(Docs(t.conversations), IncludesUser(userId), c);
      DocsMultiset(t.conversations, c);
    } else {
      forall i | 0 <= i < |detailed| ensures detailed[i] != d {
        assert detailed[i] == f(mine[i]);
        assert Details(t, userId, mine[i]).id == mine[i].id;
        assert Details(t, userId, mine[i]).conversation == mine[i].data;
      }
      assert d !in detailed;
      assert !IsListed(t, userId, d);
    }
  }

  /** The ids of the messages counted as unread in a conversation. */
  function UnreadIds(messages: seq<Message>, conversationId: ConversationId, userId: UserId, since: int): set<MessageId>
  {
    set m | 0 <= m < |messages| && messages[m].conversationId == conversationId
      && messages[m].senderId != userId && messages[m].createdAt > since
  }

  /** The indicator of the last message, as a set of ids. */
  function LastUnread(messages: seq<Message>, conversationId: ConversationId, userId: UserId, since: int): set<MessageId>
    requires |messages| > 0
  {
    var n := |messages| - 1;
    if messages[n].conversationId == conversationId && messages[n].senderId != userId && messages[n].createdAt > since
    then {n} else {}
  }

  lemma UnreadIdsAppend(messages: seq<Message>, conversationId: ConversationId, userId: UserId, since: int)
    requires |messages| > 0
    ensures var n := |messages| - 1;
      && UnreadIds(messages, conversationId, userId, since)
         == UnreadIds(messages[..n], conversationId, userId, since) + LastUnread(messages, conversationId, userId, since)
      && n !in UnreadIds(messages[..n], conversationId, userId, since)
  {
  }

  lemma {:induction false} UnreadCountIsUnreadIds(messages: seq<Message>, conversationId: ConversationId,
                                                  userId: UserId, since: int)
    ensures |Filter(MessagesOf(messages, conversationId), IsUnread(userId, since))|
      == |UnreadIds(messages, conversationId, userId, since)|
  {
    if |messages| > 0 {
      var n := |messages| - 1;
      var init, last := messages[..n], messages[n];
      var p := IsUnread(userId, since);
      assert messages == init + [last];
      UnreadCountIsUnreadIds(init, conversationId, userId, since);
      MessagesOfAppend(init, last, conversationId);
      var tail := if last.conversationId == conversationId then [Doc(n, last)] else [];
      FilterAppend(MessagesOf(init, conversationId), tail, p);
      assert |Filter(tail, p)| == |LastUnread(messages, conversationId, userId, since)|;
      UnreadIdsAppend(messages, conversationId, userId, since);
    }
  }

  /** Each entry's unread count is the number of messages of that
      conversation sent by someone else after the other participant was
      last seen, so it never exceeds the conversation's message count. */
  lemma UnreadCountMeaning(t: Tables, userId: UserId, d: ConversationDetails)
    requires d in GetUserConversations(t, userId)
    ensures d.unreadCount == |UnreadIds(t.messages, d.id, userId, LastSeenOf(d.otherUser))|
    ensures d.unreadCount <= |MessagesOf(t.messages, d.id)|
  {
    var r := GetUserConversations(t, userId);
    assert multiset(r)[d] > 0;
    assert IsListed(t, userId, d);
    UnreadCountIsUnreadIds(t.messages, d.id, userId, LastSeenOf(d.otherUser));
  }
}
