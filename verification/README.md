# Ping chat client — a Dafny model of its client-side logic

Ping is a small browser chat client. A hosted realtime database stores
presence records under `users/<name>` and messages under `messages/<push id>`.
Almost all of the client is markup. This project models the sequential logic
inside its components and proves what that logic guarantees:

- **Login form** (`LoginPage`). The name is trimmed and checked against three
  length rules. Each submit either shows one error or logs in. Editing the
  field hides the error.
- **Message box** (`MessageInput`). Whitespace-only text is never sent. Text
  that is sent goes out untrimmed and the field is cleared. Every change
  reports one keystroke. The send button is disabled exactly when a submit
  would do nothing.
- **Chat page** (`ChatPage`). The page registers the user as online. It folds
  the messages feed into a list sorted by timestamp, using a stable sort. A
  `null` snapshot is ignored. The page publishes messages and a debounced
  typing flag, and derives the online count and the list of other typing
  users. Database writes are returned as a list of `Write` values. Push ids
  and `Date.now()` are passed in as parameters. The page is also modelled as
  an event machine (`Apply`, `Run`) that handles snapshots, keystrokes, sends
  and clock ticks.
- **Message list** (`MessageList`). One bubble is drawn per message, in order.
  Own messages are set apart and show no sender name. The typing-indicator
  text depends on how many users are typing.
- **User list** (`UserList`). It shows the other users who are online, most
  recently seen first.

Supporting modules:

- `JsString` models `String.prototype.trim` (ECMA-262 WhiteSpace and
  LineTerminator), `.length` counted in UTF-16 code units, and
  `Array.prototype.join`.
- `Seqs` holds filtering and the stable sort that ECMAScript 2019 requires
  of `Array.prototype.sort`. It proves that any two stable sorts of the same
  input are equal, so `SortBy` is exactly what a conforming engine returns.
- `ChatTypes` holds the records. A JavaScript object is modelled as its
  `Object.entries` list.

The model follows the code as written. The code does not break timestamp
ties by id: messages with equal timestamps keep snapshot order
(`ChatPage.TiesKeepEntryOrder`). Sending a message does not cancel the
typing timeout (`ChatPage.SendLeavesTimeoutRunning`). A rejoin is a fresh
mount: `set` replaces the whole record, with a new `lastSeen` and the flag
down, and nothing of the old record is merged or kept. While the page stays
mounted, `lastSeen` is not refreshed. A name of exactly 20 code units is
accepted although the message says "less than 20"
(`LoginPage.TwentyUnitsAccepted`).

## Model

| member | source | states |
|---|---|---|
| `JsString.Trim` | src/components/message-input.tsx:19 | `trim()` returns a contiguous slice with only whitespace on either side, no whitespace at its ends, and is empty exactly when the input is all whitespace |
| `JsString.TrimIdempotent` | src/components/chat-page.tsx:91 | trimming already-trimmed text changes nothing, so the stored message text is a fixed point of `trim` |
| `JsString.Utf16Length` | src/components/login-page.tsx:25-33 | `.length` lies between the number of code points and twice that, and equals the number of code points exactly when none lies beyond the Basic Multilingual Plane |
| `JsString.Join` | src/components/message-list.tsx:99 | `join` of an empty list is empty, and the joined text is never shorter than its elements together |
| `JsString.JoinLength` | src/components/message-list.tsx:99 | the joined length is the elements' total length plus one separator for each of the `n - 1` gaps |
| `JsString.JoinSplits` | src/components/message-list.tsx:99 | at every gap the joined text is the join of the elements before it, one separator, then the join of the rest; with the one-element case this fixes where each element sits |
| `JsString.JoinStartsWithFirst` | src/components/message-list.tsx:99 | the joined text begins with the first element |
| `JsString.JoinEndsWithLast` | src/components/message-list.tsx:99 | the joined text ends with the last element |
| `Seqs.Filter` | src/components/user-list.tsx:15 | `filter` keeps exactly the elements satisfying the predicate, adds nothing, and takes no element more often than the input has it |
| `Seqs.SubsequenceOfDistinct` | src/components/chat-page.tsx:130-132 | a filtered list of unique keys is itself duplicate-free and drawn from the keys |
| `Seqs.InsertSorted` | src/components/chat-page.tsx:56 | inserting one element into a list sorted by key keeps it sorted |
| `Seqs.SortBy` | src/components/chat-page.tsx:56 | the sorted list is a permutation of the input, ordered by ascending key |
| `Seqs.SortByIsStable` | src/components/chat-page.tsx:56 | the sort is stable: for every key, the elements with that key appear in input order |
| `Seqs.StableSortUnique` | src/components/user-list.tsx:16 | any two stable sorts of the same list by the same key are equal, so the engine's `sort` returns exactly `SortBy` |
| `LoginPage.ErrorMessage` | src/components/login-page.tsx:20-33 | each rejection has a non-empty message text |
| `LoginPage.ValidateName` | src/components/login-page.tsx:16-36 | the name is accepted exactly when its trimmed length is 2 to 20 UTF-16 units; the empty-name error arises exactly for whitespace-only input, too-short exactly for trimmed length 1, too-long exactly above 20 |
| `LoginPage.Submit` | src/components/login-page.tsx:16-36 | each submit has exactly one outcome: `onLogin` gets the trimmed name once (iff the length is 2 to 20) or an error is shown; the field is never altered |
| `LoginPage.SubmitKeepsErrorMatching` | src/components/login-page.tsx:16-36 | after a submit, any error shown is the verdict on the current field |
| `LoginPage.InitialFormMatches` | src/components/login-page.tsx:13-14 | the form starts with an empty field and no error, so the error invariant holds from the start |
| `LoginPage.EditKeepsErrorMatching` | src/components/login-page.tsx:66-69 | after an edit, no stale error is shown |
| `LoginPage.AcceptedFormShowsNoError` | src/components/login-page.tsx:35 | in every reachable form, a successful login happens with no error on screen |
| `LoginPage.TwentyUnitsAccepted` | src/components/login-page.tsx:30-33 | a 20-letter name is accepted despite the "less than 20" wording |
| `LoginPage.OneEmojiIsLongEnough` | src/components/login-page.tsx:25-28 | one emoji (two UTF-16 units) passes the minimum-length check |
| `LoginPage.LoginNameIsTrimmed` | src/components/login-page.tsx:18-35 | the name handed to `onLogin` is non-empty and has no surrounding whitespace |
| `MessageInput.Submit` | src/components/message-input.tsx:17-23 | whitespace-only text sends nothing and keeps the field; other text is sent once, untrimmed, and the field is cleared |
| `MessageInput.DisabledIffSubmitIsNoop` | src/components/message-input.tsx:41 | the send button is disabled exactly when a submit would do nothing, i.e. when the field is whitespace only |
| `MessageInput.SubmitSettles` | src/components/message-input.tsx:17-23 | after any submit the button is disabled and a second submit does nothing |
| `MessageInput.ChangeThenSubmit` | src/components/message-input.tsx:17-28 | every change reports one keystroke; after typing `v` the button is enabled exactly when `v` is not whitespace only, and a submit then sends `v` itself, once |
| `MessageList.RenderMessage` | src/components/message-list.tsx:46-66 | a bubble is "own" iff its author is the viewer, and shows the author's name exactly when it is not own |
| `MessageList.RenderMessages` | src/components/message-list.tsx:36-46 | the placeholder is shown iff there are no messages; otherwise there is one bubble per message, in order |
| `MessageList.SenderNeverViewer` | src/components/message-list.tsx:62-66 | a displayed sender name is never the viewer's own |
| `MessageList.LabelStartsWithFirstName` | src/components/message-list.tsx:97-99 | both label forms are the comma-join of the names followed by the verb, so they begin with the first typing name |
| `MessageList.TwoTypers` | src/components/message-list.tsx:99 | two typing users read "a, b are typing..." |
| `MessageList.LabelNamesEveryTyper` | src/components/message-list.tsx:96-99 | every typing name appears in the label, right after the names before it and a comma separator |
| `UserList.OnlineOthers` | src/components/user-list.tsx:14-16 | every listed entry is online and not the viewer, every such entry is listed, the list is a permutation of the filtered entries, and `lastSeen` never increases along it |
| `UserList.OnlineOthersIsStableSort` | src/components/user-list.tsx:16 | the list is the stable descending sort of the filtered entries: users seen at the same instant keep entry order |
| `UserList.Render` | src/components/user-list.tsx:20-38 | "No other users online" iff the list is empty; otherwise one row per listed user, with the typing marker iff that user's flag is set |
| `UserList.ViewerNeverListed` | src/components/user-list.tsx:15 | the viewer never has a row |
| `UserList.OnlineOtherIsListed` | src/components/user-list.tsx:14-15 | every other online user has a row |
| `ChatPage.MountStartsWell` | src/components/chat-page.tsx:40-46 | the mount writes only the user's own record, marking them online, seen at mount time and not typing; once the feed echoes it, the header counts the user while the sidebar and typing list omit them; no timeout is pending |
| `ChatPage.FoldMessages` | src/components/chat-page.tsx:51-56 | the message list is a permutation of the snapshot entries, ascending by timestamp |
| `ChatPage.FoldMessagesIsStableSort` | src/components/chat-page.tsx:56 | the list is the stable sort of the entries, and no other list is |
| `ChatPage.FoldMessagesKeepsEntries` | src/components/chat-page.tsx:52-56 | every listed message is a snapshot entry with its key as id, and every entry is listed |
| `ChatPage.MessagesShownByTime` | src/components/chat-page.tsx:56 | alice's "hello" at 1000 precedes bob's "hi" at 1005 for both snapshot orders |
| `ChatPage.TiesKeepEntryOrder` | src/components/chat-page.tsx:56 | messages with equal timestamps keep snapshot order, not id order |
| `ChatPage.OnMessages` | src/components/chat-page.tsx:49-58 | a `null` snapshot changes nothing; otherwise the message list becomes the one and only stable sort of the entries by timestamp, and users, typing flag and timeout are untouched |
| `ChatPage.NullSnapshotsIgnored` | src/components/chat-page.tsx:49-66 | any number of `null` snapshots from either feed leaves the page as it was and writes nothing |
| `ChatPage.LatestUsersSnapshotWins` | src/components/chat-page.tsx:61-66 | the users object is that of the latest non-null users snapshot, whatever came before it and whatever `null` snapshots follow |
| `ChatPage.SendMessage` | src/components/chat-page.tsx:83-99 | blank text writes nothing and changes nothing; other text writes one message (trimmed text, author, clock), then clears the flag locally and remotely; the timeout is kept |
| `ChatPage.SendWritesOwn` | src/components/chat-page.tsx:89-93 | a message write carries the sender's name and trimmed, non-empty text |
| `ChatPage.PendingTimeoutHolds` | src/components/chat-page.tsx:109-118 | before its due time the timeout does nothing |
| `ChatPage.BurstPublishesOnce` | src/components/chat-page.tsx:101-119 | keystrokes less than 3000 ms apart publish `true` at most once, never `false`, and leave one timeout due 3000 ms after the last keystroke |
| `ChatPage.DebounceExpiresOnce` | src/components/chat-page.tsx:109-117 | a rapid burst followed by silence yields exactly one expiry, which clears the flag and publishes one `false` |
| `ChatPage.SendLeavesTimeoutRunning` | src/components/chat-page.tsx:95-98 | sending does not cancel the timeout, which later publishes `false` a second time |
| `ChatPage.StrayWriteAfterUnmount` | src/components/chat-page.tsx:75-80 | typing then unmounting makes the leftover timeout write to the removed record |
| `ChatPage.StrayWriteAfterLogout` | src/components/chat-page.tsx:121-125 | logout does not clear the timeout either: logout, unmount as written and a due clock tick write two removals and then `isTyping: false` |
| `ChatPage.NoWriteAfterUnmount` | src/components/chat-page.tsx:75-80 | after the corrected unmount, no clock tick writes anything |
| `ChatPage.LogoutThenUnmountIsQuiet` | src/components/chat-page.tsx:121-125 | with the corrected unmount, the two removals are logout's last writes, however long the clock runs |
| `ChatPage.ExitsWriteOwn` | src/components/chat-page.tsx:75-80 | logout and both unmounts write only the user's own record; the corrected unmount leaves no flag set, and the unmount as written keeps the typing invariant |
| `ChatPage.OnlineCount` | src/components/chat-page.tsx:127-129 | the header count never exceeds the number of entries |
| `ChatPage.OnlineCountSplits` | src/components/chat-page.tsx:127-129 | the header count is the sidebar list's length plus the viewer's own online entry, so it includes the current user |
| `ChatPage.SelfCountedAtMostOnce` | src/components/chat-page.tsx:127-129 | with unique names the viewer adds at most one to the count |
| `ChatPage.TypingUsers` | src/components/chat-page.tsx:130-132 | the typing list never names the viewer and keeps entry order |
| `ChatPage.TypingUsersMembers` | src/components/chat-page.tsx:130-132 | a name is in the typing list exactly when some entry of another user under that name has its flag set |
| `ChatPage.TypingUsersDistinct` | src/components/chat-page.tsx:130-132 | with unique names, nobody is listed as typing twice |
| `ChatPage.DepartedUserNotTyping` | src/components/chat-page.tsx:61-66 | a user whose record is gone from the snapshot is not shown as typing, even though their flag was never cleared |
| `ChatPage.ApplyKeepsInvariants` | src/components/chat-page.tsx:49-119 | every event of `Apply` (snapshots, keystroke, send, clock) keeps "a set typing flag has a pending timeout" and writes only the user's own record and own, well-formed messages |
| `ChatPage.RunKeepsInvariants` | src/components/chat-page.tsx:49-119 | the same holds over any sequence of events |
| `ChatPage.SubmittedTextIsStored` | src/components/message-input.tsx:19-20 | text the box refuses never becomes a message write; text it sends always becomes exactly one message holding the trimmed text |

## Findings

| source | as written | input that shows it | evidently intended | confidence | as-written member | corrected member |
|---|---|---|---|---|---|---|
| src/components/chat-page.tsx:75-80 | the cleanup removes `users/<name>` but does not clear `typingTimeoutRef`, so a pending typing timeout still fires and calls `update(users/<name>, {isTyping: false})` after the removal, re-creating a partial record | mount as "alice" at 0, type at 10, unmount, let the clock reach 3010: the writes are set, `isTyping: true`, remove, `isTyping: false` | nothing is written to a user's record after it is removed on leave | medium, not executed | `ChatPage.StrayWriteAfterUnmount` (over `ChatPage.UnmountAsWritten`) | `ChatPage.NoWriteAfterUnmount` (over `ChatPage.Unmount`) |
| src/components/chat-page.tsx:121-125 | `handleLogoutClick` removes `users/<name>` and leaves the page without clearing `typingTimeoutRef`, and the unmount that follows does not clear it either, so the timeout still writes `isTyping: false` to the removed record | a state with a timeout due at or before `later`, then logout, unmount and the clock reaching `later`: the writes are remove, remove, `isTyping: false` | nothing is written to a user's record after logout removes it | medium, not executed | `ChatPage.StrayWriteAfterLogout` | `ChatPage.LogoutThenUnmountIsQuiet` (over `ChatPage.Unmount`) |

## Left out

- ChatPage.MountStartsWell: the database client rejects keys containing `.`, `#`, `$`, `[`, `]` or ASCII control characters, so `ref` at src/components/chat-page.tsx:36 throws for such names before any write, and a `/` in a name addresses a nested path. The login check only measures the trimmed length and accepts these names. The model treats every name as a plain key, so `Write.path == name` and the echoed record hold only for names free of those characters. The key rules belong to the database client, which is not part of this model.
- JsString.Utf16Length: JavaScript strings are UTF-16 code unit sequences and may hold unpaired surrogates, which a Dafny `char` cannot; such strings (for example a name `"a\uD800"`, whose trimmed `.length` is 2 and which the login form accepts) cannot be represented.
- Database calls (`ref`, `set`, `push`, `update`, `remove`, `onValue`) are foreign I/O. They appear only as emitted `Write` values. What the database does with them is not modelled, including how `update` re-creates a removed path.
- A failed `await set(...)` in the send handler would skip the rest of that handler. Failures of the database are not modelled.
- Subscribing to and unsubscribing from the feeds, and the `beforeunload` listener, are environment hooks (src/components/chat-page.tsx:68-80). The listener's effect is the same single `RemoveUser` write as unmounting.
- React scheduling, stale closures and asynchronous interleaving are not modelled. Every handler is one atomic step on the latest state.
- A clock tick at the same millisecond as a keystroke is handled before the keystroke. Bursts require gaps strictly below 3000 ms, so this order never matters there.
- `Date.now()` and push ids are parameters. Their freshness and monotonicity are not modelled.
- Timestamps are unbounded integers. IEEE-754 numbers, `NaN` from a missing timestamp, and comparator results that are not finite are not modelled.
- `status` is a two-value enumeration. A record without a `status`, or with any other string, is not representable.
- A stored message carrying its own `id` field would override the key through `{id, ...msg}`. Stored messages are modelled without an `id` field, as this client writes them.
- Object key enumeration order is taken as given: a record is modelled as its `Object.entries` list. JavaScript lists integer-like keys first, and that ordering rule is not modelled.
- Time formatting with `toLocaleTimeString`, auto-scrolling, markup and styles are not modelled. Rendered bubbles carry the raw timestamp.
- src/App.tsx is a static loading screen with no logic.
