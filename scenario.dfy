/** A whole session on an empty database: two users sign in, one opens a
    direct conversation with the other and says hi; the other user's
    conversation list then shows that conversation with the message and
    one unread message. */
module Scenario {
  import opened Seqs
  import opened Schema
  import opened Users
  import opened Messages
  import opened Conversations

  const Alice := User("ext_1", "alice@example.com", "Alice Liddell", true, 1)
  const Bob := User("ext_2", "bob@example.com", "Bob Stone", true, 2)
  const Direct := NewConversation(0, 1, 3)
  const Hi := Message(0, 0, "hi", Text, None, 4, None)

  const SignedIn := Tables([Alice, Bob], [], [], [])
  const Opened := SignedIn.(conversations := [Direct])
  const Greeted := Opened.(messages := [Hi],
                           conversations := [Direct.(lastMessageId := Some(0), lastMessageTime := Some(4))])

  lemma SignIn()
    ensures StoreStep(StoreStep(Tables([], [], [], []), "ext_1", "alice@example.com", "Alice Liddell", 1),
                      "ext_2", "bob@example.com", "Bob Stone", 2) == SignedIn
  {
    var t1 := StoreStep(Tables([], [], [], []), "ext_1", "alice@example.com", "Alice Liddell", 1);
    assert t1.users == [Alice];
    assert Alice.clerkId[4] != "ext_2"[4];
    assert GetUserByClerkId(t1.users, "ext_2").None?;
  }

  lemma Open()
    ensures GetOrCreateStep(SignedIn, 0, 1, 3) == (Opened, 0)
  {
    var (t, id) := GetOrCreateStep(SignedIn, 0, 1, 3);
    assert t.conversations == [] + [Direct];
    assert t.users == Opened.users && t.messages == Opened.messages;
    assert t.typingIndicators == Opened.typingIndicators && t.conversations == Opened.conversations;
  }

  lemma Greet()
    ensures SendStep(Opened, Some("ext_1"), 0, "hi", 4) == (Greeted, Ok(0))
  {
    assert GetUserByClerkId(Opened.users, "ext_1") == Some(Doc(0, Alice));
    var (t, id) := SendStep(Opened, Some("ext_1"), 0, "hi", 4);
    assert t.messages == [] + [Hi];
    assert t.conversations == [Direct][0 := Direct.(lastMessageId := Some(0), lastMessageTime := Some(4))];
    assert t.users == Greeted.users && t.typingIndicators == Greeted.typingIndicators;
    assert t.messages == Greeted.messages && t.conversations == Greeted.conversations;
  }

  lemma BobsList()
    ensures var listing := GetUserConversations(Greeted, 1);
      && |listing| == 1
      && listing[0].id == 0
      && listing[0].lastMessage == Some(Doc(0, Hi))
      && listing[0].otherUser == Some(Doc(0, Alice))
      && listing[0].unreadCount == 1
  {
    var conv := Greeted.conversations[0];
    var mine := Filter(Docs(Greeted.conversations), IncludesUser(1));
    assert Docs(Greeted.conversations) == [Doc(0, conv)];
    assert mine == [Doc(0, conv)];
    var d := Details(Greeted, 1, Doc(0, conv));
    assert Map(DetailsFor(Greeted, 1), mine) == [d];
    assert GetUserConversations(Greeted, 1) == [d];
    assert OtherParticipant(conv.participants, 1) == Some(0);
    UnreadCountIsUnreadIds(Greeted.messages, 0, 1, 1);
    assert UnreadIds(Greeted.messages, 0, 1, 1) == {0};
  }

  /** The session end to end: the message gets id 0, and the recipient's
      list shows the conversation with "hi" as its last message and one
      unread message. */
  lemma AliceGreetsBob()
    ensures var t1 := StoreStep(Tables([], [], [], []), "ext_1", "alice@example.com", "Alice Liddell", 1);
      var t2 := StoreStep(t1, "ext_2", "bob@example.com", "Bob Stone", 2);
      var (t3, c1) := GetOrCreateStep(t2, 0, 1, 3);
      var (t4, m1) := SendStep(t3, Some("ext_1"), c1, "hi", 4);
      var listing := GetUserConversations(t4, 1);
      && m1 == Ok(0)
      && |listing| == 1
      && listing[0].id == c1
      && listing[0].lastMessage.Some? && listing[0].lastMessage.value.data.content == "hi"
      && listing[0].unreadCount == 1
  {
    SignIn();
    Open();
    Greet();
    BobsList();
  }
}
