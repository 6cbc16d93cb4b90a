/** The message log: sending (insert, then point the conversation at the new
    message), listing a conversation's messages with their senders, the
    sender-only soft delete and the emoji reaction toggle. */
module Messages {
  import opened Seqs
  import opened Schema
  import opened Users

  const DeletedContent: string := "This message was deleted"

  /** The `by_conversation` index over messages: the conversation's
      messages, in insertion order. */
  function MessagesOf(messages: seq<Message>, conversationId: ConversationId): (r: seq<Doc<Message>>)
    ensures forall d :: d in r <==>
      d.id < |messages| && d.data == messages[d.id] && d.data.conversationId == conversationId
    ensures forall i, j :: 0 <= i < j < |r| ==> r[i].id < r[j].id
    ensures |r| <= |messages|
  {
    if |messages| == 0 then []
    else
      var n := |messages| - 1;
      var init := MessagesOf(messages[..n], conversationId);
      assert forall i :: 0 <= i < |init| ==> init[i] in init;
      init + (if messages[n].conversationId == conversationId then [Doc(n, messages[n])] else [])
  }

  /** A message document joined with its sender, missing when the sender id
      names no user. */
  datatype MessageWithSender = MessageWithSender(message: Doc<Message>, sender: Option<Doc<User>>)

  function WithSender(users: seq<User>): Doc<Message> -> MessageWithSender
  {
    (d: Doc<Message>) => MessageWithSender(d, Get(users, d.data.senderId))
  }

  /** The `list` query: without an identity nothing; otherwise the
      conversation's messages, fetched newest first, joined with their
      senders, and reversed into chronological order. */
  function ListMessages(t: Tables, identity: Option<string>, conversationId: ConversationId): (r: seq<MessageWithSender>)
    ensures identity.None? ==> r == []
    ensures identity.Some? ==> r == Map(WithSender(t.users), MessagesOf(t.messages, conversationId))
    ensures forall i, j :: 0 <= i < j < |r| ==> r[i].message.id < r[j].message.id
  {
    if identity.None? then []
    else
      var ascending := MessagesOf(t.messages, conversationId);
      var newestFirst := Reverse(ascending);
      var r := Reverse(Map(WithSender(t.users), newestFirst));
      assert forall i :: 0 <= i < |r| ==> r[i] == WithSender(t.users)(ascending[i]);
      r
  }

  lemma MessagesOfAppend(messages: seq<Message>, m: Message, conversationId: ConversationId)
    ensures MessagesOf(messages + [m], conversationId) ==
      MessagesOf(messages, conversationId) + (if m.conversationId == conversationId then [Doc(|messages|, m)] else [])
  {
    assert (messages + [m])[..|messages|] == messages;
  }

  /** Every message of the conversation is listed, and nothing else. */
  lemma ListMessagesComplete(t: Tables, subject: string, conversationId: ConversationId, m: MessageId)
    requires m < |t.messages|
    ensures (exists i :: 0 <= i < |ListMessages(t, Some(subject), conversationId)| &&
               ListMessages(t, Some(subject), conversationId)[i].message.id == m)
            <==> t.messages[m].conversationId == conversationId
  {
    var r := ListMessages(t, Some(subject), conversationId);
    var ms := MessagesOf(t.messages, conversationId);
    if t.messages[m].conversationId == conversationId {
      assert Doc(m, t.messages[m]) in ms;
      var i :| 0 <= i < |ms| && ms[i] == Doc(m, t.messages[m]);
      assert r[i].message.id == m;
    } else {
      forall i | 0 <= i < |r| ensures r[i].message.id != m {
        assert ms[i] in ms;
      }
    }
  }

  /** Messages stored in clock order. */
  predicate Chronological(messages: seq<Message>)
  {
    forall i, j :: 0 <= i < j < |messages| ==> messages[i].createdAt <= messages[j].createdAt
  }

  /** When the log is in clock order, so is the list. */
  lemma ListMessagesChronological(t: Tables, identity: Option<string>, conversationId: ConversationId)
    requires Chronological(t.messages)
    ensures var r := ListMessages(t, identity, conversationId);
      forall i, j :: 0 <= i < j < |r| ==> r[i].message.data.createdAt <= r[j].message.data.createdAt
  {
    if identity.Some? {
      MessagesOfChronological(t.messages, conversationId);
      JoinKeepsTimes(MessagesOf(t.messages, conversationId), t.users);
    }
  }

  lemma JoinKeepsTimes(ms: seq<Doc<Message>>, users: seq<User>)
    requires forall i, j :: 0 <= i < j < |ms| ==> ms[i].data.createdAt <= ms[j].data.createdAt
    ensures var r := Map(WithSender(users), ms);
      forall i, j :: 0 <= i < j < |r| ==> r[i].message.data.createdAt <= r[j].message.data.createdAt
  {
  }

  lemma MessagesOfChronological(messages: seq<Message>, conversationId: ConversationId)
    requires Chronological(messages)
    ensures var ms := MessagesOf(messages, conversationId);
      forall i, j :: 0 <= i < j < |ms| ==> ms[i].data.createdAt <= ms[j].data.createdAt
  {
    var ms := MessagesOf(messages, conversationId);
    forall i, j | 0 <= i < j < |ms|
      ensures ms[i].data.createdAt <= ms[j].data.createdAt
    {
      assert ms[i] in ms && ms[j] in ms;
      var a, b := ms[i].id, ms[j].id;
      assert a < b < |messages|;
      assert messages[a].createdAt <= messages[b].createdAt;
    }
  }

  /** The state after `send` and the new message's id. */
  function SendStep(t: Tables, identity: Option<string>, conversationId: ConversationId,
                    content: string, now: int): (r: (Tables, Result<MessageId>))
    ensures identity.None? ==> r == (t, Err(NotAuthenticated))
    ensures identity.Some? && GetUserByClerkId(t.users, identity.value).None? ==> r == (t, Err(SenderNotFound))
    ensures identity.Some? && GetUserByClerkId(t.users, identity.value).Some? && conversationId >= |t.conversations| ==>
      r == (t, Err(ConversationNotFound))
    ensures r.1.Err? ==> r.0 == t
    ensures r.1.Ok? <==>
      identity.Some? && GetUserByClerkId(t.users, identity.value).Some? && conversationId < |t.conversations|
    ensures r.1.Ok? ==>
      var sender := GetUserByClerkId(t.users, identity.value).value;
      var id := |t.messages|;
      && r.1.value == id
      && r.0 == t.(messages := t.messages + [Message(conversationId, sender.id, content, Text, None, now, None)],
                   conversations := t.conversations[conversationId :=
                     t.conversations[conversationId].(lastMessageId := Some(id), lastMessageTime := Some(now))])
  {
    if identity.None? then (t, Err(NotAuthenticated))
    else match GetUserByClerkId(t.users, identity.value)
      case None => (t, Err(SenderNotFound))
      case Some(sender) =>
        if conversationId >= |t.conversations| then (t, Err(ConversationNotFound))
        else
          var id := |t.messages|;
          var c := t.conversations[conversationId];
          (t.(messages := t.messages + [Message(conversationId, sender.id, content, Text, None, now, None)],
              conversations := t.conversations[conversationId := c.(lastMessageId := Some(id), lastMessageTime := Some(now))]),
           Ok(id))
  }

  /** The `send` mutation. The message is inserted before the conversation
      is patched; patching a conversation that does not exist throws, and
      the aborted mutation leaves the messages as they were. */
  method Send(db: Db, identity: Option<string>, conversationId: ConversationId, content: string, now: int)
    returns (r: Result<MessageId>)
    modifies db`messages, db`conversations
    ensures (db.State(), r) == SendStep(old(db.State()), identity, conversationId, content, now)
  {
    if identity.None? {
      return Err(NotAuthenticated);
    }
    var sender := GetUserByClerkId(db.users, identity.value);
    if sender.None? {
      return Err(SenderNotFound);
    }
    var before := db.messages;
    var messageId := |db.messages|;
    db.messages := db.messages + [Message(conversationId, sender.value.id, content, Text, None, now, None)];
    if conversationId >= |db.conversations| {
      db.messages := before;
      return Err(ConversationNotFound);
    }
    var c := db.conversations[conversationId];
    db.conversations := db.conversations[conversationId := c.(lastMessageId := Some(messageId), lastMessageTime := Some(now))];
    r := Ok(messageId);
  }

  /** A sent message is listed last in its conversation, with its sender;
      every other conversation's list is unchanged. */
  lemma SendThenList(t: Tables, identity: Option<string>, conversationId: ConversationId,
                     content: string, now: int, viewer: string, other: ConversationId)
    requires SendStep(t, identity, conversationId, content, now).1.Ok?
    ensures var (t', r) := SendStep(t, identity, conversationId, content, now);
      var sender := GetUserByClerkId(t.users, identity.value).value;
      && ListMessages(t', Some(viewer), conversationId) ==
         ListMessages(t, Some(viewer), conversationId) +
           [MessageWithSender(Doc(r.value, t'.messages[r.value]), Some(sender))]
      && (other != conversationId ==> ListMessages(t', Some(viewer), other) == ListMessages(t, Some(viewer), other))
  {
    var (t', r) := SendStep(t, identity, conversationId, content, now);
    var m := t'.messages[r.value];
    assert t'.messages == t.messages + [m];
    MessagesOfAppend(t.messages, m, conversationId);
    MessagesOfAppend(t.messages, m, other);
    MapAppend(WithSender(t.users), MessagesOf(t.messages, conversationId), [Doc(r.value, m)]);
  }

  /** Sending at a time no earlier than every stored message keeps the log
      in clock order. */
  lemma SendKeepsChronological(t: Tables, identity: Option<string>, conversationId: ConversationId,
                               content: string, now: int)
    requires Chronological(t.messages)
    requires forall i :: 0 <= i < |t.messages| ==> t.messages[i].createdAt <= now
    ensures Chronological(SendStep(t, identity, conversationId, content, now).0.messages)
  {
  }

  /** The caller resolves to the message's sender. */
  predicate IsSender(t: Tables, subject: string, messageId: MessageId)
    requires messageId < |t.messages|
  {
    match GetUserByClerkId(t.users, subject)
    case None => false
    case Some(sender) => t.messages[messageId].senderId == sender.id
  }

  /** The state after `deleteMessage`. */
  function DeleteStep(t: Tables, identity: Option<string>, messageId: MessageId, now: int): (r: (Tables, Result<()>))
    ensures identity.None? ==> r == (t, Err(NotAuthenticated))
    ensures identity.Some? && messageId >= |t.messages| ==> r == (t, Err(MessageNotFound))
    ensures identity.Some? && messageId < |t.messages| && !IsSender(t, identity.value, messageId) ==>
      r == (t, Err(CannotDelete))
    ensures r.1.Err? ==> r.0 == t
    ensures r.1.Ok? <==> identity.Some? && messageId < |t.messages| && IsSender(t, identity.value, messageId)
    ensures r.1.Ok? ==>
      var m := t.messages[messageId];
      r.0 == t.(messages := t.messages[messageId := m.(content := DeletedContent, kind := Deleted, updatedAt := Some(now))])
  {
    if identity.None? then (t, Err(NotAuthenticated))
    else if messageId >= |t.messages| then (t, Err(MessageNotFound))
    else
      var m := t.messages[messageId];
      match GetUserByClerkId(t.users, identity.value)
      case None => (t, Err(CannotDelete))
      case Some(sender) =>
        if m.senderId != sender.id then (t, Err(CannotDelete))
        else (t.(messages := t.messages[messageId := m.(content := DeletedContent, kind := Deleted, updatedAt := Some(now))]), Ok(()))
  }

  /** The `deleteMessage` mutation. */
  method DeleteMessage(db: Db, identity: Option<string>, messageId: MessageId, now: int) returns (r: Result<()>)
    modifies db`messages
    ensures (db.State(), r) == DeleteStep(old(db.State()), identity, messageId, now)
  {
    if identity.None? {
      return Err(NotAuthenticated);
    }
    if messageId >= |db.messages| {
      return Err(MessageNotFound);
    }
    var message := db.messages[messageId];
    var sender := GetUserByClerkId(db.users, identity.value);
    if sender.None? || message.senderId != sender.value.id {
      return Err(CannotDelete);
    }
    db.messages := db.messages[messageId := message.(content := DeletedContent, kind := Deleted, updatedAt := Some(now))];
    r := Ok(());
  }

  /** Send, then delete by the same caller: the list shows the message as
      deleted, with the placeholder text, and a caller who resolves to
      another user cannot delete it again. */
  lemma SendDeleteScenario(t: Tables, subject: string, conversationId: ConversationId, content: string,
                           now1: int, now2: int, now3: int, intruder: string)
    requires SendStep(t, Some(subject), conversationId, content, now1).1.Ok?
    requires GetUserByClerkId(t.users, intruder) != GetUserByClerkId(t.users, subject)
    ensures var (t1, r1) := SendStep(t, Some(subject), conversationId, content, now1);
      var (t2, r2) := DeleteStep(t1, Some(subject), r1.value, now2);
      var shown := ListMessages(t2, Some(subject), conversationId);
      && r2 == Ok(())
      && |shown| > 0
      && shown[|shown| - 1].message.id == r1.value
      && shown[|shown| - 1].message.data.kind == Deleted
      && shown[|shown| - 1].message.data.content == DeletedContent
      && DeleteStep(t2, Some(intruder), r1.value, now3) == (t2, Err(CannotDelete))
  {
    var (t1, r1) := SendStep(t, Some(subject), conversationId, content, now1);
    var (t2, r2) := DeleteStep(t1, Some(subject), r1.value, now2);
    var m := t2.messages[r1.value];
    assert t2.messages == t.messages + [m];
    MessagesOfAppend(t.messages, m, conversationId);
  }

  /** A reaction entry belongs to this user and emoji. */
  predicate IsReaction(x: Reaction, userId: UserId, emoji: string)
  {
    x.userId == userId && x.emoji == emoji
  }

  function NotReaction(userId: UserId, emoji: string): Reaction -> bool
  {
    (x: Reaction) => !IsReaction(x, userId, emoji)
  }

  predicate HasReaction(reactions: seq<Reaction>, userId: UserId, emoji: string)
  {
    exists i :: 0 <= i < |reactions| && IsReaction(reactions[i], userId, emoji)
  }

  /** The reaction toggle: drop every entry of this user and emoji if there
      is one, otherwise append one. */
  function Toggle(reactions: seq<Reaction>, userId: UserId, emoji: string): (r: seq<Reaction>)
    ensures HasReaction(reactions, userId, emoji) ==>
      && !HasReaction(r, userId, emoji)
      && forall x :: x in r <==> x in reactions && !IsReaction(x, userId, emoji)
    // removal keeps the other entries in their original order
    ensures HasReaction(reactions, userId, emoji) ==>
      var kept := FilterIndices(reactions, NotReaction(userId, emoji));
      |r| == |kept| && forall k :: 0 <= k < |kept| ==> r[k] == reactions[kept[k]]
    ensures !HasReaction(reactions, userId, emoji) ==> r == reactions + [Reaction(emoji, userId)]
    ensures HasReaction(r, userId, emoji) <==> !HasReaction(reactions, userId, emoji)
  {
    if HasReaction(reactions, userId, emoji) then
      var r := Filter(reactions, NotReaction(userId, emoji));
      FilterOrder(reactions, NotReaction(userId, emoji));
      assert forall i :: 0 <= i < |r| ==> r[i] in r;
      r
    else
      var r := reactions + [Reaction(emoji, userId)];
      assert IsReaction(r[|reactions|], userId, emoji);
      r
  }

  /** Removal keeps the other entries in their order and with their
      multiplicity: the k-th remaining entry is the entry at the k-th
      position, counted in increasing order, that is not this reaction. */
  lemma ToggleRemoveKeepsOrder(reactions: seq<Reaction>, userId: UserId, emoji: string, x: Reaction)
    requires HasReaction(reactions, userId, emoji)
    ensures var r, kept := Toggle(reactions, userId, emoji), FilterIndices(reactions, NotReaction(userId, emoji));
      && |r| == |kept|
      && (forall k :: 0 <= k < |kept| ==> r[k] == reactions[kept[k]])
      && (forall k, l :: 0 <= k < l < |kept| ==> kept[k] < kept[l])
      && (forall i :: 0 <= i < |reactions| ==> (i in kept <==> !IsReaction(reactions[i], userId, emoji)))
    ensures multiset(Toggle(reactions, userId, emoji))[x] ==
      if IsReaction(x, userId, emoji) then 0 else multiset(reactions)[x]
  {
    var p := NotReaction(userId, emoji);
    FilterOrder(reactions, p);
    FilterMultiset(reactions, p, x);
  }

  /** Toggling twice from the absent state restores the list. */
  lemma {:induction false} ToggleTwice(reactions: seq<Reaction>, userId: UserId, emoji: string)
    requires !HasReaction(reactions, userId, emoji)
    ensures Toggle(Toggle(reactions, userId, emoji), userId, emoji) == reactions
  {
    var p := NotReaction(userId, emoji);
    var added := reactions + [Reaction(emoji, userId)];
    assert IsReaction(added[|reactions|], userId, emoji);
    FilterAppend(reactions, [Reaction(emoji, userId)], p);
    FilterAll(reactions, p);
  }

  /** Two different users reacting with the same emoji leave two entries. */
  lemma ToggleTwoUsers(reactions: seq<Reaction>, u1: UserId, u2: UserId, emoji: string)
    requires u1 != u2
    requires !HasReaction(reactions, u1, emoji) && !HasReaction(reactions, u2, emoji)
    ensures Toggle(Toggle(reactions, u1, emoji), u2, emoji) ==
      reactions + [Reaction(emoji, u1), Reaction(emoji, u2)]
  {
    var once := Toggle(reactions, u1, emoji);
    assert !HasReaction(once, u2, emoji) by {
      assert once == reactions + [Reaction(emoji, u1)];
      forall i | 0 <= i < |once| ensures !IsReaction(once[i], u2, emoji) {
        if i < |reactions| { assert once[i] == reactions[i]; }
      }
    }
  }

  /** No user holds the same emoji twice on one message. */
  predicate ReactionsUnique(reactions: seq<Reaction>)
  {
    forall i, j :: 0 <= i < j < |reactions| ==> reactions[i] != reactions[j]
  }

  lemma ToggleKeepsReactionsUnique(reactions: seq<Reaction>, userId: UserId, emoji: string)
    requires ReactionsUnique(reactions)
    ensures ReactionsUnique(Toggle(reactions, userId, emoji))
  {
    if HasReaction(reactions, userId, emoji) {
      FilterUnique(reactions, NotReaction(userId, emoji));
    }
  }

  lemma {:induction false} FilterUnique(s: seq<Reaction>, p: Reaction -> bool)
    requires ReactionsUnique(s)
    ensures ReactionsUnique(Filter(s, p))
  {
    if |s| > 0 {
      var init, last := s[..|s| - 1], s[|s| - 1];
      assert s == init + [last];
      FilterUnique(init, p);
      assert last !in init;
    }
  }

  /** The reactions as the handler reads them: a missing list is empty. */
  function ReactionsOf(m: Message): seq<Reaction>
  {
    if m.reactions.Some? then m.reactions.value else []
  }

  /** The state after `addReaction`. */
  function ReactStep(t: Tables, identity: Option<string>, messageId: MessageId, emoji: string): (r: (Tables, Result<()>))
    ensures identity.None? ==> r == (t, Err(NotAuthenticated))
    ensures identity.Some? ==> r.1 == Ok(())
    ensures identity.Some? && (messageId >= |t.messages| || GetUserByClerkId(t.users, identity.value).None?) ==> r.0 == t
    ensures identity.Some? && messageId < |t.messages| && GetUserByClerkId(t.users, identity.value).Some? ==>
      var m := t.messages[messageId];
      var sender := GetUserByClerkId(t.users, identity.value).value;
      r.0 == t.(messages := t.messages[messageId := m.(reactions := Some(Toggle(ReactionsOf(m), sender.id, emoji)))])
  {
    if identity.None? then (t, Err(NotAuthenticated))
    else if messageId >= |t.messages| then (t, Ok(()))
    else match GetUserByClerkId(t.users, identity.value)
      case None => (t, Ok(()))
      case Some(sender) =>
        var m := t.messages[messageId];
        (t.(messages := t.messages[messageId := m.(reactions := Some(Toggle(ReactionsOf(m), sender.id, emoji)))]), Ok(()))
  }

  /** The `addReaction` mutation. */
  method AddReaction(db: Db, identity: Option<string>, messageId: MessageId, emoji: string) returns (r: Result<()>)
    modifies db`messages
    ensures (db.State(), r) == ReactStep(old(db.State()), identity, messageId, emoji)
  {
    if identity.None? {
      return Err(NotAuthenticated);
    }
    if messageId >= |db.messages| {
      return Ok(());
    }
    var message := db.messages[messageId];
    var sender := GetUserByClerkId(db.users, identity.value);
    if sender.None? {
      return Ok(());
    }
    var reactions := ReactionsOf(message);
    var updated := Toggle(reactions, sender.value.id, emoji);
    db.messages := db.messages[messageId := message.(reactions := Some(updated))];
    r := Ok(());
  }

  /** Reacting twice with the same emoji, starting from no such reaction,
      gives back the message's reactions; a message that had none is left
      with an empty list. Nothing else in the database changes. */
  lemma ReactTwice(t: Tables, identity: Option<string>, messageId: MessageId, emoji: string)
    requires identity.Some? && messageId < |t.messages|
    requires GetUserByClerkId(t.users, identity.value).Some?
    requires !HasReaction(ReactionsOf(t.messages[messageId]), GetUserByClerkId(t.users, identity.value).value.id, emoji)
    ensures var t2 := ReactStep(ReactStep(t, identity, messageId, emoji).0, identity, messageId, emoji).0;
      var m := t.messages[messageId];
      t2 == t.(messages := t.messages[messageId := m.(reactions := Some(ReactionsOf(m)))])
  {
    var m := t.messages[messageId];
    var sender := GetUserByClerkId(t.users, identity.value).value;
    var m1 := m.(reactions := Some(Toggle(ReactionsOf(m), sender.id, emoji)));
    var t1 := ReactStep(t, identity, messageId, emoji).0;
    assert t1 == t.(messages := t.messages[messageId := m1]);
    assert GetUserByClerkId(t1.users, identity.value) == Some(sender);
    var m2 := m1.(reactions := Some(Toggle(ReactionsOf(m1), sender.id, emoji)));
    var t2 := ReactStep(t1, identity, messageId, emoji).0;
    assert t2.messages == t1.messages[messageId := m2];
    ToggleTwice(ReactionsOf(m), sender.id, emoji);
    assert m2 == m.(reactions := Some(ReactionsOf(m)));
    OverwriteTwice(t.messages, messageId, m1, m2);
    assert t2.users == t.users && t2.conversations == t.conversations && t2.typingIndicators == t.typingIndicators;
  }

  /** A second write to the same position hides the first. */
  lemma OverwriteTwice(ms: seq<Message>, i: nat, a: Message, b: Message)
    requires i < |ms|
    ensures ms[i := a][i := b] == ms[i := b]
  {
  }
}
