/** Typing flags: one row per (conversation, user) that `setTyping`
    upserts, and the query that turns the rows of a conversation into the
    users currently typing there, the caller excluded. */
module Typing {
  import opened Seqs
  import opened Schema

  function IsRowOf(conversationId: ConversationId, userId: UserId): TypingIndicator -> bool
  {
    (row: TypingIndicator) => row.conversationId == conversationId && row.userId == userId
  }

  /** The `by_conversation` index narrowed to one user, with `.first()`. */
  function FindTypingRow(rows: seq<TypingIndicator>, conversationId: ConversationId, userId: UserId): (r: Option<nat>)
    ensures r.Some? ==> r.value < |rows| && rows[r.value].conversationId == conversationId && rows[r.value].userId == userId
    ensures r.Some? ==> forall j :: 0 <= j < r.value ==> !(rows[j].conversationId == conversationId && rows[j].userId == userId)
    ensures r.None? <==> forall j :: 0 <= j < |rows| ==> !(rows[j].conversationId == conversationId && rows[j].userId == userId)
  {
    FirstIndex(rows, IsRowOf(conversationId, userId))
  }

  /** The state after `setTyping`: patch the pair's row, or insert one. */
  function SetTypingStep(t: Tables, conversationId: ConversationId, userId: UserId, isTyping: bool, now: int): (r: Tables)
    ensures r.users == t.users && r.conversations == t.conversations && r.messages == t.messages
    ensures FindTypingRow(t.typingIndicators, conversationId, userId).Some? ==>
      var i := FindTypingRow(t.typingIndicators, conversationId, userId).value;
      && |r.typingIndicators| == |t.typingIndicators|
      && r.typingIndicators[i] == t.typingIndicators[i].(isTyping := isTyping, updatedAt := now)
      && forall j :: 0 <= j < |t.typingIndicators| && j != i ==> r.typingIndicators[j] == t.typingIndicators[j]
    ensures FindTypingRow(t.typingIndicators, conversationId, userId).None? ==>
      r.typingIndicators == t.typingIndicators + [TypingIndicator(conversationId, userId, isTyping, now)]
    // afterwards the pair's row carries the new flag and time
    ensures var k := FindTypingRow(r.typingIndicators, conversationId, userId);
      k.Some? && r.typingIndicators[k.value].isTyping == isTyping && r.typingIndicators[k.value].updatedAt == now
  {
    var rows := t.typingIndicators;
    match FindTypingRow(rows, conversationId, userId)
    case Some(i) =>
      t.(typingIndicators := rows[i := rows[i].(isTyping := isTyping, updatedAt := now)])
    case None =>
      var rows' := rows + [TypingIndicator(conversationId, userId, isTyping, now)];
      assert IsRowOf(conversationId, userId)(rows'[|rows|]);
      t.(typingIndicators := rows')
  }

  /** The `setTyping` mutation. */
  method SetTyping(db: Db, conversationId: ConversationId, userId: UserId, isTyping: bool, now: int)
    modifies db`typingIndicators
    ensures db.State() == SetTypingStep(old(db.State()), conversationId, userId, isTyping, now)
  {
    var existing := FindTypingRow(db.typingIndicators, conversationId, userId);
    if existing.Some? {
      var i := existing.value;
      db.typingIndicators := db.typingIndicators[i := db.typingIndicators[i].(isTyping := isTyping, updatedAt := now)];
    } else {
      db.typingIndicators := db.typingIndicators + [TypingIndicator(conversationId, userId, isTyping, now)];
    }
  }

  /** At most one row per (conversation, user) pair. */
  predicate OneRowPerPair(rows: seq<TypingIndicator>)
  {
    forall i, j :: 0 <= i < j < |rows| ==>
      !(rows[i].conversationId == rows[j].conversationId && rows[i].userId == rows[j].userId)
  }

  /** Sequential `setTyping` calls never create a second row for a pair. */
  lemma SetTypingKeepsOneRowPerPair(t: Tables, conversationId: ConversationId, userId: UserId, isTyping: bool, now: int)
    requires OneRowPerPair(t.typingIndicators)
    ensures OneRowPerPair(SetTypingStep(t, conversationId, userId, isTyping, now).typingIndicators)
  {
  }

  /** A second `setTyping` for the same pair patches rather than inserts. */
  lemma SetTypingTwice(t: Tables, conversationId: ConversationId, userId: UserId,
                       isTyping1: bool, now1: int, isTyping2: bool, now2: int)
    ensures var t1 := SetTypingStep(t, conversationId, userId, isTyping1, now1);
      |SetTypingStep(t1, conversationId, userId, isTyping2, now2).typingIndicators| == |t1.typingIndicators|
  {
  }

  /** The row filter of `getTypingUsers`: in the conversation, flagged as
      typing, and not the caller's. The row's age plays no part. */
  function Reported(conversationId: ConversationId, currentUserId: UserId): TypingIndicator -> bool
  {
    (row: TypingIndicator) => row.conversationId == conversationId && row.isTyping && row.userId != currentUserId
  }

  function UserOf(users: seq<User>): TypingIndicator -> Option<Doc<User>>
  {
    (row: TypingIndicator) => Get(users, row.userId)
  }

  /** The `getTypingUsers` query: the users of the reported rows, in row
      order, dropping rows whose user does not exist. */
  function GetTypingUsers(t: Tables, conversationId: ConversationId, currentUserId: UserId): (r: seq<Doc<User>>)
    // only existing users, never the caller
    ensures forall d :: d in r ==> d.id < |t.users| && d.data == t.users[d.id] && d.id != currentUserId
    // exactly the existing users that have a reported row
    ensures forall d :: d in r <==>
      && d.id < |t.users| && d.data == t.users[d.id]
      && exists k :: 0 <= k < |t.typingIndicators| && t.typingIndicators[k].userId == d.id
                     && Reported(conversationId, currentUserId)(t.typingIndicators[k])
  {
    var rows := Filter(t.typingIndicators, Reported(conversationId, currentUserId));
    var found := Map(UserOf(t.users), rows);
    var r := Somes(found);
    forall d ensures d in r <==>
      && d.id < |t.users| && d.data == t.users[d.id]
      && exists k :: 0 <= k < |t.typingIndicators| && t.typingIndicators[k].userId == d.id
                     && Reported(conversationId, currentUserId)(t.typingIndicators[k])
    {
      if d in r {
        var i :| 0 <= i < |found| && found[i] == Some(d);
        assert rows[i] in rows;
        var k :| 0 <= k < |t.typingIndicators| && t.typingIndicators[k] == rows[i];
      }
      if d.id < |t.users| && d.data == t.users[d.id] &&
         exists k :: 0 <= k < |t.typingIndicators| && t.typingIndicators[k].userId == d.id
                     && Reported(conversationId, currentUserId)(t.typingIndicators[k]) {
        var k :| 0 <= k < |t.typingIndicators| && t.typingIndicators[k].userId == d.id
                 && Reported(conversationId, currentUserId)(t.typingIndicators[k]);
        assert t.typingIndicators[k] in rows;
        var i :| 0 <= i < |rows| && rows[i] == t.typingIndicators[k];
        assert found[i] == Some(d);
      }
    }
    r
  }

  /** A typing row without its timestamp. */
  datatype Flag = Flag(conversationId: ConversationId, userId: UserId, isTyping: bool)

  function Strip(row: TypingIndicator): Flag
  {
    Flag(row.conversationId, row.userId, row.isTyping)
  }

  /** There is no staleness cutoff: two typing tables that differ only in
      the rows' `updatedAt` give the same users. */
  lemma NoStalenessCutoff(t: Tables, rows: seq<TypingIndicator>, conversationId: ConversationId, currentUserId: UserId)
    requires Map(Strip, rows) == Map(Strip, t.typingIndicators)
    ensures GetTypingUsers(t.(typingIndicators := rows), conversationId, currentUserId)
         == GetTypingUsers(t, conversationId, currentUserId)
  {
    var p := Reported(conversationId, currentUserId);
    var q := (f: Flag) => f.conversationId == conversationId && f.isTyping && f.userId != currentUserId;
    var g := UserOf(t.users);
    var h := (f: Flag) => Get(t.users, f.userId);
    forall s: seq<TypingIndicator> ensures Map(g, Filter(s, p)) == Map(h, Filter(Map(Strip, s), q)) {
      MapCompose(Strip, h, g, Filter(s, p));
      MapFilterCommute(s, Strip, p, q);
    }
  }

  /** `setTyping(…, true)` by another user makes that user show up. */
  lemma SetTypingShows(t: Tables, conversationId: ConversationId, userId: UserId, now: int, currentUserId: UserId)
    requires userId < |t.users| && userId != currentUserId
    ensures Doc(userId, t.users[userId])
      in GetTypingUsers(SetTypingStep(t, conversationId, userId, true, now), conversationId, currentUserId)
  {
    var t1 := SetTypingStep(t, conversationId, userId, true, now);
    var k := FindTypingRow(t1.typingIndicators, conversationId, userId).value;
    assert t1.typingIndicators[k].userId == userId && Reported(conversationId, currentUserId)(t1.typingIndicators[k]);
  }

  /** With one row per pair, `setTyping(…, false)` makes the user disappear
      from every caller's view of that conversation. */
  lemma SetTypingHides(t: Tables, conversationId: ConversationId, userId: UserId, now: int,
                       currentUserId: UserId, d: Doc<User>)
    requires OneRowPerPair(t.typingIndicators)
    requires d.id == userId
    ensures d !in GetTypingUsers(SetTypingStep(t, conversationId, userId, false, now), conversationId, currentUserId)
  {
    var t1 := SetTypingStep(t, conversationId, userId, false, now);
    SetTypingKeepsOneRowPerPair(t, conversationId, userId, false, now);
    var k := FindTypingRow(t1.typingIndicators, conversationId, userId).value;
    forall j | 0 <= j < |t1.typingIndicators| && t1.typingIndicators[j].userId == userId
      ensures !Reported(conversationId, currentUserId)(t1.typingIndicators[j])
    {
      if t1.typingIndicators[j].conversationId == conversationId {
        assert j == k;
      }
    }
  }
}
