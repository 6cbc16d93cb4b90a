# Chat backend model

A Dafny model of the data layer of a one-to-one chat application built on
Convex: the mutation and query handlers over the four tables `users`,
`conversations`, `messages` and `typingIndicators`, plus the rule the chat
view uses to phrase "… is typing".

The database is a value, `Schema.Tables`, and an object, `Schema.Db`, whose
four `seq` fields the mutations reassign. A document id is the position of
the document in its table. Tables only grow, so ids are handed out in
insertion order, which is also the order index scans return rows in.
Fetching by an id that names no document gives `None`.

Each mutation is modelled twice:

- a method on `Db` (`Users.Store`, `Conversations.GetOrCreateConversation`,
  `Messages.Send`, `Messages.DeleteMessage`, `Messages.AddReaction`,
  `Typing.SetTyping`) that frames exactly the tables it writes;
- a step function over `Tables` (`StoreStep`, `GetOrCreateStep`, `SendStep`,
  `DeleteStep`, `ReactStep`, `SetTypingStep`) that states the new state and
  the result.

Every method's postcondition ties it to its step function, and the lemmas
relate the step functions to the queries. Queries (`ListUsers`,
`GetUserByClerkId`, `GetUserConversations`, `ListMessages`,
`GetTypingUsers`) are functions of a snapshot.

A thrown error is a `Result.Err` with no write. The caller's identity is an
`Option<string>`, its `subject`. The clock is a `now: int` parameter.

Modules:

- `Seqs`: `find`, `filter`, `map`, `reverse` and `filter(Boolean)` with
  their laws.
- `Schema`: the records, the tables, `Get`, `Docs`.
- `Users`, `Messages`, `Conversations`, `Typing`: one module per handler
  file.
- `TypingLabel`: the label of the typing indicator.
- `Scenario`: a complete session on an empty database.

Behaviour kept as the code has it:

- **Conversation match.** `getOrCreateConversation` matches any non-group
  conversation whose participants include both ids, not only the exact
  pair (convex/conversations.ts:13-15). `FindConversation` follows the
  code, so a non-group conversation with a third participant also matches.
- **No staleness cutoff for typing.** `getTypingUsers` has no cutoff on a
  row's age, and `Typing.NoStalenessCutoff` proves the result ignores
  `updatedAt`.
- **Unread count.** It counts messages newer than the *other*
  participant's `lastSeen`.
- **Delete errors.** A delete by a caller who resolves to no user fails
  with the same `CannotDelete` error as a delete by someone else; both
  cases share one guard (convex/messages.ts:96-97). `DeleteStep` keeps
  that single error.
- **Sending to a missing conversation.** The message insert comes first.
  Patching a conversation id that names no document throws, and the
  aborted mutation writes nothing. This is `Err(ConversationNotFound)`,
  an error the handler does not name itself.

## Model

| member | source | states |
|---|---|---|
| `Seqs.FilterOrder` | convex/messages.ts:137-139 | `filter` keeps the passing elements in their original order: the k-th result is the element at the k-th passing position |
| `Schema.Db.constructor` | convex/schema.ts:5-50 | a new database has four empty tables |
| `Schema.Get` | convex/typing.ts:52 | fetching by id gives a document exactly when the id is in the table, and then the stored record under that id |
| `Schema.Docs` | convex/conversations.ts:35 | collecting a table gives every stored record once, in id order, paired with its id |
| `Users.GetUserByClerkId` | convex/users.ts:43-50 | the result is a stored user with the requested clerkId and no earlier user has it; `None` exactly when no user has it |
| `Users.ListUsers` | convex/users.ts:4-8 | the whole users table, one document per row, in table order |
| `Users.StoreStep` | convex/users.ts:10-41 | with no such clerkId, exactly one new online user with the given email, name and `lastSeen = now` is appended. Otherwise only that user's `isOnline` and `lastSeen` change. No other table changes. Afterwards the lookup finds the user online and seen now |
| `Users.Store` | convex/users.ts:10-41 | the users table is updated as `StoreStep` says; nothing else is written |
| `Users.StoreCount` | convex/users.ts:19-39 | the number of users with the clerkId becomes 1 if it was 0 and is otherwise unchanged |
| `Users.StoreTwiceSingleUser` | convex/users.ts:19-32 | two sign-ins with a new clerkId leave exactly one user with it |
| `Users.StoreKeepsClerkIdsUnique` | convex/users.ts:19-39 | sequential sign-ins keep clerkIds unique |
| `Conversations.FindConversation` | convex/conversations.ts:12-16 | the first non-group conversation whose participants include both ids; `None` exactly when there is none. A group conversation is never returned |
| `Conversations.GetOrCreateStep` | convex/conversations.ts:10-28 | a match is returned with nothing written. Otherwise one conversation `[current, other]`, non-group, created now, is appended and its fresh id returned. Either way the id returned is the first match afterwards |
| `Conversations.GetOrCreateConversation` | convex/conversations.ts:4-30 | the conversations table and the returned id are as `GetOrCreateStep` says |
| `Conversations.FindConversationSymmetric` | convex/conversations.ts:12-16 | the match does not depend on the order of the two ids |
| `Conversations.GetOrCreateTwice` | convex/conversations.ts:10-28 | a second call for the same pair, in either order, returns the same id and writes nothing |
| `Conversations.GetOrCreateKeepsOneConversationPerPair` | convex/conversations.ts:10-28 | sequential calls never create a second non-group conversation holding the same two distinct users |
| `Conversations.SendKeepsOneConversationPerPair` | convex/messages.ts:38-41 | moving the last-message pointer keeps that invariant |
| `Conversations.OtherParticipant` | convex/conversations.ts:47-49 | the first participant different from the user; `None` exactly when every participant is the user |
| `Conversations.Insert` | convex/conversations.ts:74-76 | inserting into a list sorted most recent first keeps it sorted and adds exactly the one entry |
| `Conversations.SortByRecency` | convex/conversations.ts:74-76 | the result is sorted by non-increasing last-message time, with 0 standing in for no last message, and is a permutation of the input |
| `Conversations.SortStable` | convex/conversations.ts:74-76 | entries with equal keys keep their relative order |
| `Conversations.GetUserConversations` | convex/conversations.ts:32-77 | sorted most recent first. It holds once each, and nothing else, the entry of every conversation that includes the user, with that conversation's id, record, other user, last message and unread count |
| `Conversations.ListedMultiplicity` | convex/conversations.ts:37-72 | the joined list holds the entry of each conversation of the user exactly once |
| `Conversations.UnreadCountIsUnreadIds` | convex/conversations.ts:55-63 | the filtered length equals the number of message ids of the conversation sent by someone else after the cutoff |
| `Conversations.UnreadCountMeaning` | convex/conversations.ts:55-63 | every listed unread count is the number of that conversation's messages from others created after the other participant's `lastSeen` (0 without one), so at most the conversation's message count |
| `Messages.MessagesOf` | convex/messages.ts:53-57 | exactly the messages of the conversation, each with its id, in increasing id order |
| `Messages.ListMessages` | convex/messages.ts:47-72 | empty without an identity. Otherwise each of the conversation's messages with the user its `senderId` names, in ascending id order, although fetched newest first |
| `Messages.ListMessagesComplete` | convex/messages.ts:53-57 | a message is listed exactly when it belongs to the conversation |
| `Messages.ListMessagesChronological` | convex/messages.ts:53-70 | when the log is in clock order the list is in non-decreasing `createdAt` order |
| `Messages.SendStep` | convex/messages.ts:4-45 | no identity, an unknown sender or a missing conversation each fail with their own error and write nothing. On success one text message is appended with the resolved sender, and the conversation points at it with time `now`. The new id is returned |
| `Messages.Send` | convex/messages.ts:4-45 | the tables and the result are as `SendStep` says, including the rollback of the inserted message when the conversation patch fails |
| `Messages.SendThenList` | convex/messages.ts:29-43 | after a send the conversation's list is the old list plus the new message with its sender; every other conversation's list is unchanged |
| `Messages.SendKeepsChronological` | convex/messages.ts:29-35 | a send at a time no earlier than the stored messages keeps the log in clock order |
| `Messages.DeleteStep` | convex/messages.ts:74-106 | no identity, a missing message, or a caller who is not the sender each fail with their own error and write nothing. On success only that message's content, type and `updatedAt` change |
| `Messages.DeleteMessage` | convex/messages.ts:74-106 | the messages table and the result are as `DeleteStep` says |
| `Messages.SendDeleteScenario` | convex/messages.ts:74-106 | after a send and a delete by the same caller, the list shows the message last, deleted, with the placeholder text; a caller resolving to anyone else gets `CannotDelete` with nothing written |
| `Messages.Toggle` | convex/messages.ts:129-145 | when the user already has the emoji, every such entry is removed and the others are kept in their original order: the k-th result is the entry at the k-th position that is not this reaction. Otherwise exactly one entry is appended. Afterwards the user has the emoji exactly when they did not before |
| `Messages.ToggleRemoveKeepsOrder` | convex/messages.ts:136-140 | removal lists exactly the positions not holding this reaction, in increasing order, each with the entry stored there; every other entry keeps its multiplicity and this reaction's drops to 0 |
| `Messages.ToggleTwice` | convex/messages.ts:129-145 | toggling twice from the absent state restores the list |
| `Messages.ToggleTwoUsers` | convex/messages.ts:141-145 | two users toggling the same emoji leave two distinct entries, in call order |
| `Messages.ToggleKeepsReactionsUnique` | convex/messages.ts:129-145 | a list without duplicate entries stays without duplicates |
| `Messages.ReactStep` | convex/messages.ts:108-147 | fails only without an identity. A missing message or sender is a silent no-op. Otherwise only that message's reactions become the toggle of the stored list (empty when missing) |
| `Messages.AddReaction` | convex/messages.ts:108-147 | the messages table and the result are as `ReactStep` says |
| `Messages.ReactTwice` | convex/messages.ts:119-146 | reacting twice with the same emoji gives back the message's reactions, as an empty list when there were none, and nothing else changes |
| `Typing.FindTypingRow` | convex/typing.ts:11-15 | the first row of the conversation and user; `None` exactly when there is none |
| `Typing.SetTypingStep` | convex/typing.ts:10-30 | the pair's row gets the new flag and time, all other rows kept. Without a row one is appended. No other table changes |
| `Typing.SetTyping` | convex/typing.ts:4-31 | the typing table is updated as `SetTypingStep` says |
| `Typing.SetTypingKeepsOneRowPerPair` | convex/typing.ts:11-29 | sequential calls keep at most one row per (conversation, user) |
| `Typing.SetTypingTwice` | convex/typing.ts:11-21 | a second call for the same pair does not grow the table |
| `Typing.GetTypingUsers` | convex/typing.ts:33-58 | exactly the existing users that have a row in the conversation flagged typing, never the caller; rows naming no user are dropped |
| `Typing.NoStalenessCutoff` | convex/typing.ts:42-47 | two typing tables that differ only in `updatedAt` give the same result |
| `Typing.SetTypingShows` | convex/typing.ts:4-58 | after another existing user sets typing on, that user is reported |
| `Typing.SetTypingHides` | convex/typing.ts:4-58 | with one row per pair, after a user sets typing off that user is not reported to anyone |
| `TypingLabel.Split` | components/chat/typing-indicator.tsx:10 | splitting on single spaces gives at least one space-free piece, and joining the pieces with spaces gives the string back |
| `TypingLabel.SplitJoin` | components/chat/typing-indicator.tsx:10 | splitting undoes joining for space-free words |
| `TypingLabel.FirstName` | components/chat/typing-indicator.tsx:10 | a space-free prefix of the name ending at a space or at the end of the name |
| `TypingLabel.FirstNameUnique` | components/chat/typing-indicator.tsx:10 | that prefix is the only one with those properties |
| `TypingLabel.Label` | components/chat/typing-indicator.tsx:8-13 | no label exactly when nobody types; one typer gives "<first name> is typing" |
| `TypingLabel.LabelWords` | components/chat/typing-indicator.tsx:10-13 | word by word, the label is the first names in input order with "and" between them, then "is typing" for one and "are typing" for more |
| `TypingLabel.TwoTyping` | components/chat/typing-indicator.tsx:10-13 | two typers give "<a> and <b> are typing" |
| `Scenario.AliceGreetsBob` | convex/conversations.ts:55-70 | two sign-ins, one get-or-create and one send on an empty database give message id 0. The recipient's list then holds that one conversation, with "hi" as its last message and an unread count of 1 |

## Left out

- Identity: `ctx.auth.getUserIdentity()` is an `Option<string>` input, the identity's `subject`; the identity provider itself is not part of this model.
- Time: `Date.now()` is a `now` parameter with one value per handler call. `send` reads the clock twice, for the message's `createdAt` and the conversation's `lastMessageTime`; the model gives both the same instant.
- Indexes, `.order('desc')` and `.first()`/`.collect()` are linear scans in id order. The `by_conversation` index returns a conversation's rows in insertion order, which the scans keep.
- `Promise.all` fan-out is sequential, with no interleaving or partial failure.
- Concurrency: calls are sequential, so the check-then-insert race of `getOrCreateConversation` and of `setTyping` is not modelled. Transactional atomicity becomes "an error writes nothing".
- Live-query reactivity and subscriptions are not modelled.
- The argument validators (`v.id`, `v.string`, …) are not modelled; any `nat` is accepted as an id.
- `console.log` calls are not modelled.
- The `presence` table (convex/schema.ts:52-56) is not modelled, since no handler uses it.
- `searchUsers` and `updateOnlineStatus` are called by the view but no handler defines them, so there is nothing to model.
- The view code is not part of this model: the page, the message bubble, the search bar, the identity-provider wrapper and the setup script. Only the label rule of the typing indicator is kept, and its markup and animation are left out.
- Unicode: names are sequences of characters. `split(" ")` splits on the space character only.
- Typing.GetTypingUsers: its contract says which users appear. It does not pin the order or the multiplicity of the result (one entry per reported row, in table order), which the definition follows.
