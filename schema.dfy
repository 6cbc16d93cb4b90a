/** The four tables of the chat backend and the document model shared by
    every handler. A document id is the position of the document in its
    table: tables only grow, and ids are handed out in insertion order,
    which is also the order queries return rows in. */
module Schema {
  import opened Seqs

  type UserId = nat
  type ConversationId = nat
  type MessageId = nat

  datatype User = User(
    clerkId: string,
    email: string,
    name: string,
    isOnline: bool,
    lastSeen: int)

  datatype Conversation = Conversation(
    participants: seq<UserId>,
    isGroup: bool,
    groupName: Option<string>,
    groupAvatar: Option<string>,
    lastMessageId: Option<MessageId>,
    lastMessageTime: Option<int>,
    createdAt: int)

  datatype MessageKind = Text | Deleted

  datatype Reaction = Reaction(emoji: string, userId: UserId)

  datatype Message = Message(
    conversationId: ConversationId,
    senderId: UserId,
    content: string,
    kind: MessageKind,
    reactions: Option<seq<Reaction>>,
    createdAt: int,
    updatedAt: Option<int>)

  datatype TypingIndicator = TypingIndicator(
    conversationId: ConversationId,
    userId: UserId,
    isTyping: bool,
    updatedAt: int)

  /** A stored record together with its id, as the database hands it out. */
  datatype Doc<T> = Doc(id: nat, data: T)

  /** The whole database as a value. */
  datatype Tables = Tables(
    users: seq<User>,
    conversations: seq<Conversation>,
    messages: seq<Message>,
    typingIndicators: seq<TypingIndicator>)

  /** The errors a mutation throws; a throwing mutation writes nothing. */
  datatype Error =
    | NotAuthenticated
    | SenderNotFound
    | ConversationNotFound
    | MessageNotFound
    | CannotDelete

  datatype Result<T> = Ok(value: T) | Err(error: Error)

  /** The database the mutations update in place. */
  class Db {
    var users: seq<User>
    var conversations: seq<Conversation>
    var messages: seq<Message>
    var typingIndicators: seq<TypingIndicator>

    constructor ()
      ensures State() == Tables([], [], [], [])
    {
      users, conversations, messages, typingIndicators := [], [], [], [];
    }

    function State(): Tables
      reads this
    {
      Tables(users, conversations, messages, typingIndicators)
    }
  }

  /** Fetching a document by id: nothing when no document has that id. */
  function Get<T>(table: seq<T>, id: nat): (r: Option<Doc<T>>)
    ensures r.Some? <==> id < |table|
    ensures r.Some? ==> r.value.id == id && r.value.data == table[id]
  {
    if id < |table| then Some(Doc(id, table[id])) else None
  }

  /** Every document of a table, in insertion order. */
  function Docs<T>(table: seq<T>): (r: seq<Doc<T>>)
    ensures |r| == |table|
    ensures forall i :: 0 <= i < |r| ==> r[i] == Doc(i, table[i])
  {
    if |table| == 0 then []
    else Docs(table[..|table| - 1]) + [Doc(|table| - 1, table[|table| - 1])]
  }

  /** The table holds each of its documents exactly once. */
  lemma {:induction false} DocsMultiset<T>(table: seq<T>, d: Doc<T>)
    ensures multiset(Docs(table))[d] == if d.id < |table| && table[d.id] == d.data then 1 else 0
  {
    if |table| > 0 {
      var init := table[..|table| - 1];
      DocsMultiset(init, d);
      assert Docs(table) == Docs(init) + [Doc(|table| - 1, table[|table| - 1])];
    }
  }
}
