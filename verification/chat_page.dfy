/** The chat page: it registers the user, folds the two database feeds into
    local state, publishes messages and the typing flag, and derives the
    online count and the list of other typing users.

    Handlers are atomic steps over an immutable `Chat` value. Database
    writes are returned as a list of `Write`s; push ids and `Date.now()`
    are parameters. */
module ChatPage {
  import opened ChatTypes
  import opened JsString
  import opened Seqs
  import UserList
  import MessageInput

  /** The delay after the last keystroke before the typing flag is cleared. */
  const TypingTimeoutMs := 3000

  /** A database write, addressed by the user name under `users/` or by
      the push id under `messages/`. */
  datatype Write =
    | SetUser(path: string, user: User)
    | PushMessage(id: string, message: StoredMessage)
    | UpdateTyping(path: string, isTyping: bool)
    | RemoveUser(path: string)

  /** The page's state. `timeout` is the due time of the single pending
      typing timeout, if any: one handle can only hold one timeout. */
  datatype Chat = Chat(
    me: string,
    messages: seq<Message>,
    users: Record<User>,
    isTyping: bool,
    timeout: Option<int>)

  datatype Step = Step(chat: Chat, writes: seq<Write>)

  /** A local typing flag always has a timeout pending that will clear it. */
  ghost predicate TypingIsArmed(c: Chat) {
    c.isTyping ==> c.timeout.Some?
  }

  /** A write this client may issue for user `me`: only its own presence
      record, and only messages authored by `me` with trimmed, non-empty text. */
  ghost predicate OwnWrite(w: Write, me: string) {
    match w
    case SetUser(path, u) => path == me && u.username == me
    case PushMessage(_, m) => m.username == me && m.text != [] && Trim(m.text) == m.text
    case UpdateTyping(path, _) => path == me
    case RemoveUser(path) => path == me
  }

  ghost predicate OwnWrites(ws: seq<Write>, me: string) {
    forall i :: 0 <= i < |ws| ==> OwnWrite(ws[i], me)
  }

  /** Mounting marks the user online, seen now and not typing; local state
      starts empty. */
  function Mount(me: string, now: int): (r: Step)
    ensures |r.writes| == 1 && r.writes[0].SetUser? && r.writes[0].path == me
    ensures r.chat.me == me && r.chat.messages == [] && r.chat.users == []
  {
    Step(Chat(me, [], [], false, None), [SetUser(me, User(me, Online, now, false))])
  }

  /** The page starts in a good state: the typing invariant holds, the one
      write is the user's own record, marking them online, seen at mount
      time and not typing. Once the users feed echoes that record back, the
      header counts the user while the sidebar and the typing list leave
      them out, and no timeout is pending that could fire. */
  lemma MountStartsWell(me: string, now: int)
    ensures TypingIsArmed(Mount(me, now).chat)
    ensures OwnWrites(Mount(me, now).writes, me)
    ensures var u := Mount(me, now).writes[0].user;
      u.status == Online && u.lastSeen == now && !u.isTyping
    ensures var echo := [(me, Mount(me, now).writes[0].user)];
      && OnlineCount(echo) == 1
      && UserList.OnlineOthers(echo, me) == []
      && TypingUsers(echo, me) == []
    ensures forall t :: AdvanceClock(Mount(me, now).chat, t).writes == []
  {
    var echo := [(me, Mount(me, now).writes[0].user)];
    assert echo[1..] == [];
  }

  /** `{id, ...msg}` for each snapshot entry. */
  function WithIds(snap: Record<StoredMessage>): (ms: seq<Message>)
    ensures |ms| == |snap|
    ensures forall i :: 0 <= i < |snap| ==>
      ms[i] == Message(snap[i].0, snap[i].1.username, snap[i].1.text, snap[i].1.timestamp)
  {
    seq(|snap|, i requires 0 <= i < |snap| =>
      Message(snap[i].0, snap[i].1.username, snap[i].1.text, snap[i].1.timestamp))
  }

  /** Sort key for `(a, b) => a.timestamp - b.timestamp`. */
  function ByTimestamp(m: Message): int {
    m.timestamp
  }

  /** The message list built from a non-null messages snapshot. */
  function FoldMessages(snap: Record<StoredMessage>): (ms: seq<Message>)
    ensures |ms| == |snap|
    ensures multiset(ms) == multiset(WithIds(snap))
    ensures forall i, j :: 0 <= i < j < |ms| ==> ms[i].timestamp <= ms[j].timestamp
  {
    SortBy(WithIds(snap), ByTimestamp)
  }

  /** The fold is the stable sort of the entries: messages with equal
      timestamps keep their snapshot order, and no other order would do. */
  lemma {:induction false} FoldMessagesIsStableSort(snap: Record<StoredMessage>)
    ensures IsStableSortOf(FoldMessages(snap), WithIds(snap), ByTimestamp)
    ensures forall ms :: IsStableSortOf(ms, WithIds(snap), ByTimestamp) ==> ms == FoldMessages(snap)
  {
    SortByIsStable(WithIds(snap), ByTimestamp);
    forall ms | IsStableSortOf(ms, WithIds(snap), ByTimestamp) ensures ms == FoldMessages(snap) {
      StableSortUnique(ms, FoldMessages(snap), WithIds(snap), ByTimestamp);
    }
  }

  /** Every folded message is a snapshot entry carrying its key as `id`, and
      every entry is folded. */
  lemma {:induction false} FoldMessagesKeepsEntries(snap: Record<StoredMessage>)
    ensures forall i :: 0 <= i < |FoldMessages(snap)| ==> FoldMessages(snap)[i] in WithIds(snap)
    ensures forall i :: 0 <= i < |snap| ==>
      Message(snap[i].0, snap[i].1.username, snap[i].1.text, snap[i].1.timestamp) in FoldMessages(snap)
  {
    SameMembers(FoldMessages(snap), WithIds(snap));
    forall i | 0 <= i < |snap|
      ensures Message(snap[i].0, snap[i].1.username, snap[i].1.text, snap[i].1.timestamp) in FoldMessages(snap)
    {
      assert WithIds(snap)[i] in FoldMessages(snap);
    }
  }

  /** The messages listener: a `null` snapshot changes nothing. */
  function OnMessages(c: Chat, snap: Option<Record<StoredMessage>>): (d: Chat)
    ensures snap.None? ==> d == c
    ensures snap.Some? ==> IsStableSortOf(d.messages, WithIds(snap.value), ByTimestamp)
    ensures snap.Some? ==>
      forall ms :: IsStableSortOf(ms, WithIds(snap.value), ByTimestamp) ==> ms == d.messages
    ensures d.me == c.me && d.users == c.users && d.isTyping == c.isTyping && d.timeout == c.timeout
  {
    match snap
    case None => c
    case Some(entries) =>
      FoldMessagesIsStableSort(entries);
      c.(messages := FoldMessages(entries))
  }

  /** The users listener: a non-null snapshot replaces the users object. */
  function OnUsers(c: Chat, snap: Option<Record<User>>): (d: Chat)
    ensures snap.None? ==> d == c
    ensures snap.Some? ==> d == c.(users := snap.value)
  {
    match snap
    case None => c
    case Some(entries) => c.(users := entries)
  }

  /** Sending: blank text is dropped; otherwise one message is pushed with
      the trimmed text, then the typing flag is cleared locally and remotely.
      The pending typing timeout is left running. */
  function SendMessage(c: Chat, text: string, pushId: string, now: int): (r: Step)
    ensures AllWhitespace(text) ==> r == Step(c, [])
    ensures !AllWhitespace(text) ==>
      && r.writes == [PushMessage(pushId, StoredMessage(c.me, Trim(text), now)), UpdateTyping(c.me, false)]
      && r.chat == c.(isTyping := false)
    ensures r.chat.timeout == c.timeout
  {
    if IsBlank(text) then Step(c, [])
    else
      Step(c.(isTyping := false),
           [PushMessage(pushId, StoredMessage(c.me, Trim(text), now)), UpdateTyping(c.me, false)])
  }

  /** A keystroke: publishes `isTyping: true` only on the false-to-true edge,
      and always replaces the pending timeout by one due in 3000 ms. */
  function HandleTyping(c: Chat, now: int): (r: Step)
    ensures r.writes == (if c.isTyping then [] else [UpdateTyping(c.me, true)])
    ensures r.chat == c.(isTyping := true, timeout := Some(now + TypingTimeoutMs))
    ensures TypingIsArmed(r.chat)
  {
    var writes := if c.isTyping then [] else [UpdateTyping(c.me, true)];
    Step(c.(isTyping := true, timeout := Some(now + TypingTimeoutMs)), writes)
  }

  /** The clock reaching `now`: a timeout due by then fires, clearing the
      flag and publishing `isTyping: false`; otherwise nothing happens. */
  function AdvanceClock(c: Chat, now: int): (r: Step)
    ensures c.timeout.Some? && c.timeout.value <= now ==>
      r == Step(c.(isTyping := false, timeout := None), [UpdateTyping(c.me, false)])
    ensures !(c.timeout.Some? && c.timeout.value <= now) ==> r == Step(c, [])
    ensures TypingIsArmed(c) ==> TypingIsArmed(r.chat)
  {
    match c.timeout
    case Some(due) =>
      if due <= now then Step(c.(isTyping := false, timeout := None), [UpdateTyping(c.me, false)])
      else Step(c, [])
    case None => Step(c, [])
  }

  /** Logout deletes the presence record and tells the parent to return to
      the login form, which unmounts the page. */
  datatype Exit = Exit(writes: seq<Write>, leaveChat: bool)

  function Logout(c: Chat): (x: Exit)
    ensures x.writes == [RemoveUser(c.me)] && x.leaveChat
  {
    Exit([RemoveUser(c.me)], true)
  }

  /** Unmounting as the page does it: the presence record is deleted, but the
      typing timeout is not cleared and stays pending. */
  function UnmountAsWritten(c: Chat): (r: Step)
    ensures r.writes == [RemoveUser(c.me)]
    ensures r.chat.timeout == c.timeout
  {
    Step(c, [RemoveUser(c.me)])
  }

  /** A timeout pending at unmount fires afterwards and writes
      `isTyping: false` to the record that was just removed. */
  lemma StrayWriteAfterUnmount()
    ensures
      var m := Mount("alice", 0);
      var k := HandleTyping(m.chat, 10);
      var u := UnmountAsWritten(k.chat);
      var e := AdvanceClock(u.chat, 10 + TypingTimeoutMs);
      m.writes + k.writes + u.writes + e.writes
        == [SetUser("alice", User("alice", Online, 0, false)), UpdateTyping("alice", true),
            RemoveUser("alice"), UpdateTyping("alice", false)]
  {
  }

  /** Unmounting that also clears the typing timeout. */
  function Unmount(c: Chat): (r: Step)
    ensures r.writes == [RemoveUser(c.me)]
    ensures r.chat.timeout.None? && !r.chat.isTyping
  {
    Step(c.(isTyping := false, timeout := None), [RemoveUser(c.me)])
  }

  /** Leaving the page writes only the user's own record; the corrected
      unmount arms nothing, and the one as written keeps the typing
      invariant of the state it leaves behind. */
  lemma ExitsWriteOwn(c: Chat)
    ensures OwnWrites(Logout(c).writes, c.me)
    ensures OwnWrites(UnmountAsWritten(c).writes, c.me)
    ensures OwnWrites(Unmount(c).writes, c.me)
    ensures TypingIsArmed(Unmount(c).chat)
    ensures TypingIsArmed(c) ==> TypingIsArmed(UnmountAsWritten(c).chat)
  {
  }

  /** Logging out does not clear the typing timeout either: logout, then the
      unmount it causes, then the clock reaching the due time writes
      `isTyping: false` after the record has been removed twice. */
  lemma StrayWriteAfterLogout(c: Chat, later: int)
    requires c.timeout.Some? && c.timeout.value <= later
    ensures var u := UnmountAsWritten(c);
      Logout(c).writes + u.writes + AdvanceClock(u.chat, later).writes
        == [RemoveUser(c.me), RemoveUser(c.me), UpdateTyping(c.me, false)]
  {
  }

  /** With the corrected unmount, logout leaves the two removals as the last
      writes, however long the clock runs. */
  lemma LogoutThenUnmountIsQuiet(c: Chat, ticks: seq<int>)
    ensures var es := seq(|ticks|, i requires 0 <= i < |ticks| => Clock(ticks[i]));
      Logout(c).writes + Unmount(c).writes + Run(Unmount(c).chat, es).writes
        == [RemoveUser(c.me), RemoveUser(c.me)]
  {
    NoWriteAfterUnmount(c, ticks);
  }

  /** After the corrected unmount the removal is the last write: the clock
      can no longer fire anything, however long it runs. */
  lemma NoWriteAfterUnmount(c: Chat, ticks: seq<int>)
    ensures Run(Unmount(c).chat, seq(|ticks|, i requires 0 <= i < |ticks| => Clock(ticks[i]))).writes == []
  {
    var d := Unmount(c).chat;
    var es := seq(|ticks|, i requires 0 <= i < |ticks| => Clock(ticks[i]));
    QuietClockRun(d, es);
  }

  lemma {:induction false} QuietClockRun(d: Chat, es: seq<Event>)
    requires d.timeout.None?
    requires forall i :: 0 <= i < |es| ==> es[i].Clock?
    ensures Run(d, es) == Step(d, [])
    decreases es
  {
    if es != [] {
      assert Apply(d, es[0]) == Step(d, []);
      QuietClockRun(d, es[1..]);
    }
  }

  /** Null snapshots of either feed, however many, leave the page as it was
      and write nothing. */
  lemma {:induction false} NullSnapshotsIgnored(c: Chat, es: seq<Event>)
    requires forall i :: 0 <= i < |es| ==> es[i] == UsersSnapshot(None) || es[i] == MessagesSnapshot(None)
    ensures Run(c, es) == Step(c, [])
    decreases es
  {
    if es != [] {
      assert Apply(c, es[0]) == Step(c, []);
      NullSnapshotsIgnored(c, es[1..]);
    }
  }

  /** The users the page derives its views from are those of the latest
      non-null users snapshot: whatever happened before it, and any null
      snapshots after it, do not matter. */
  lemma {:induction false} LatestUsersSnapshotWins(c: Chat, before: seq<Event>, snap: Record<User>, nulls: seq<Event>)
    requires forall i :: 0 <= i < |nulls| ==> nulls[i] == UsersSnapshot(None) || nulls[i] == MessagesSnapshot(None)
    ensures Run(c, before + [UsersSnapshot(Some(snap))] + nulls).chat.users == snap
  {
    var mid := Run(c, before).chat;
    RunAppend(c, before, [UsersSnapshot(Some(snap))]);
    RunOne(mid, UsersSnapshot(Some(snap)));
    var after := Apply(mid, UsersSnapshot(Some(snap))).chat;
    RunAppend(c, before + [UsersSnapshot(Some(snap))], nulls);
    NullSnapshotsIgnored(after, nulls);
  }

  /** The "Online (n)" header: every online entry, the viewer included. */
  function OnlineCount(users: Record<User>): (n: nat)
    ensures n <= |users|
  {
    if users == [] then 0
    else (if users[0].1.status == Online then 1 else 0) + OnlineCount(users[1..])
  }

  /** The names of the other users whose flag is set, in entry order. */
  function TypingUsers(users: Record<User>, me: string): (names: seq<string>)
    ensures forall j :: 0 <= j < |names| ==> names[j] != me
    ensures Subsequence(names, Keys(users))
  {
    if users == [] then []
    else
      var rest := TypingUsers(users[1..], me);
      assert Keys(users) == [users[0].0] + Keys(users[1..]);
      if users[0].1.isTyping && users[0].0 != me then
        assert ([users[0].0] + rest)[1..] == rest;
        [users[0].0] + rest
      else rest
  }

  /** A name is listed exactly when some entry under that name, other than
      the viewer's, has its typing flag set. */
  lemma {:induction false} TypingUsersMembers(users: Record<User>, me: string)
    ensures forall j :: 0 <= j < |TypingUsers(users, me)| ==>
      exists i :: 0 <= i < |users| && users[i].0 == TypingUsers(users, me)[j] && users[i].1.isTyping
    ensures forall i :: 0 <= i < |users| && users[i].1.isTyping && users[i].0 != me ==>
      users[i].0 in TypingUsers(users, me)
  {
    if users != [] {
      var names := TypingUsers(users, me);
      var rest := TypingUsers(users[1..], me);
      TypingUsersMembers(users[1..], me);
      assert names == if users[0].1.isTyping && users[0].0 != me then [users[0].0] + rest else rest;
      forall j | 0 <= j < |TypingUsers(users, me)|
        ensures exists i :: 0 <= i < |users| && users[i].0 == TypingUsers(users, me)[j] && users[i].1.isTyping
      {
        if users[0].1.isTyping && users[0].0 != me {
          if j == 0 {
            assert users[0].0 == names[0] && users[0].1.isTyping;
          } else {
            assert names[j] == rest[j - 1];
            var i :| 0 <= i < |users[1..]| && users[1..][i].0 == rest[j - 1] && users[1..][i].1.isTyping;
            assert users[i + 1] == users[1..][i];
            assert users[i + 1].0 == names[j] && users[i + 1].1.isTyping;
          }
        } else {
          assert names[j] == rest[j];
          var i :| 0 <= i < |users[1..]| && users[1..][i].0 == rest[j] && users[1..][i].1.isTyping;
          assert users[i + 1] == users[1..][i];
          assert users[i + 1].0 == names[j] && users[i + 1].1.isTyping;
        }
      }
      forall i | 0 <= i < |users| && users[i].1.isTyping && users[i].0 != me
        ensures users[i].0 in names
      {
        if i > 0 {
          assert users[i] == users[1..][i - 1];
        }
      }
    } else {
      assert TypingUsers(users, me) == [];
    }
  }

  /** With unique user names, nobody is listed as typing twice. */
  lemma TypingUsersDistinct(users: Record<User>, me: string)
    requires DistinctKeys(users)
    ensures forall i, j :: 0 <= i < j < |TypingUsers(users, me)| ==>
      TypingUsers(users, me)[i] != TypingUsers(users, me)[j]
  {
    SubsequenceOfDistinct(TypingUsers(users, me), Keys(users));
  }

  /** A user whose record has been removed is not shown as typing, even
      though nobody cleared their flag. */
  lemma DepartedUserNotTyping(c: Chat, snap: Record<User>, name: string)
    requires forall i :: 0 <= i < |snap| ==> snap[i].0 != name
    ensures name !in TypingUsers(OnUsers(c, Some(snap)).users, c.me)
  {
    TypingUsersMembers(snap, c.me);
  }

  function SelfOnline(me: string): ((string, User)) -> bool {
    (e: (string, User)) => e.1.status == Online && e.0 == me
  }

  /** The header count is the length of the sidebar list plus the viewer's
      own online entry. */
  lemma {:induction false} OnlineCountSplits(users: Record<User>, me: string)
    ensures OnlineCount(users) == |UserList.OnlineOthers(users, me)| + |Filter(users, SelfOnline(me))|
  {
    OnlineCountOfFilters(users, me);
    assert |multiset(UserList.OnlineOthers(users, me))| == |multiset(Filter(users, UserList.Listed(me)))|;
  }

  lemma {:induction false} OnlineCountOfFilters(users: Record<User>, me: string)
    ensures OnlineCount(users) == |Filter(users, UserList.Listed(me))| + |Filter(users, SelfOnline(me))|
  {
    if users != [] {
      OnlineCountOfFilters(users[1..], me);
    }
  }

  /** With unique user names the viewer contributes at most one to the count. */
  lemma {:induction false} SelfCountedAtMostOnce(users: Record<User>, me: string)
    requires DistinctKeys(users)
    ensures |Filter(users, SelfOnline(me))| <= 1
  {
    if users != [] {
      assert users == [users[0]] + users[1..];
      if SelfOnline(me)(users[0]) {
        assert forall i :: 0 <= i < |users[1..]| ==> users[1..][i].0 != me by {
          forall i | 0 <= i < |users[1..]| ensures users[1..][i].0 != me {
            assert users[1..][i] == users[i + 1];
          }
        }
        NobodyElseIsSelf(users[1..], me);
      } else {
        SelfCountedAtMostOnce(users[1..], me);
      }
    }
  }

  lemma NobodyElseIsSelf(users: Record<User>, me: string)
    requires forall i :: 0 <= i < |users| ==> users[i].0 != me
    ensures Filter(users, SelfOnline(me)) == []
  {
  }

  // ----- The page as an event-driven machine -----

  datatype Event =
    | MessagesSnapshot(messages: Option<Record<StoredMessage>>)
    | UsersSnapshot(users: Option<Record<User>>)
    | Keystroke(at: int)
    | Send(text: string, pushId: string, at: int)
    | Clock(at: int)

  function Apply(c: Chat, e: Event): (r: Step)
    ensures r.chat.me == c.me
  {
    match e
    case MessagesSnapshot(snap) => Step(OnMessages(c, snap), [])
    case UsersSnapshot(snap) => Step(OnUsers(c, snap), [])
    case Keystroke(at) => HandleTyping(c, at)
    case Send(text, pushId, at) => SendMessage(c, text, pushId, at)
    case Clock(at) => AdvanceClock(c, at)
  }

  /** A message write carries the author and trimmed, non-empty text. */
  lemma SendWritesOwn(c: Chat, text: string, pushId: string, at: int)
    ensures OwnWrites(SendMessage(c, text, pushId, at).writes, c.me)
  {
    if !AllWhitespace(text) {
      TrimIdempotent(text);
      var m := StoredMessage(c.me, Trim(text), at);
      assert OwnWrite(PushMessage(pushId, m), c.me);
    }
  }

  /** Every handler keeps the typing flag armed and writes only what this
      client owns. */
  lemma ApplyKeepsInvariants(c: Chat, e: Event)
    ensures TypingIsArmed(c) ==> TypingIsArmed(Apply(c, e).chat)
    ensures OwnWrites(Apply(c, e).writes, c.me)
  {
    match e
    case MessagesSnapshot(snap) =>
    case UsersSnapshot(snap) =>
    case Keystroke(at) =>
    case Send(text, pushId, at) => SendWritesOwn(c, text, pushId, at);
    case Clock(at) =>
  }

  /** Handles the events one after another with `step`, collecting the
      writes in order. */
  function RunWith(step: (Chat, Event) -> Step, c: Chat, es: seq<Event>): (r: Step)
    decreases es
  {
    if es == [] then Step(c, [])
    else
      var first := step(c, es[0]);
      var rest := RunWith(step, first.chat, es[1..]);
      Step(rest.chat, first.writes + rest.writes)
  }

  /** The page's event loop. */
  function Run(c: Chat, es: seq<Event>): (r: Step)
    ensures r.chat.me == c.me
  {
    RunKeepsMe(c, es);
    RunWith(Apply, c, es)
  }

  lemma {:induction false} RunKeepsMe(c: Chat, es: seq<Event>)
    ensures RunWith(Apply, c, es).chat.me == c.me
    decreases es
  {
    if es != [] {
      RunKeepsMe(Apply(c, es[0]).chat, es[1..]);
    }
  }

  /** Over any run: a set typing flag always has its timeout pending, and
      nothing is written outside the user's own record and messages. */
  lemma {:induction false} RunKeepsInvariants(c: Chat, es: seq<Event>)
    ensures TypingIsArmed(c) ==> TypingIsArmed(Run(c, es).chat)
    ensures OwnWrites(Run(c, es).writes, c.me)
    decreases es
  {
    if es != [] {
      var first := Apply(c, es[0]);
      ApplyKeepsInvariants(c, es[0]);
      RunKeepsInvariants(first.chat, es[1..]);
      var rest := RunWith(Apply, first.chat, es[1..]);
      assert Run(c, es) == Step(rest.chat, first.writes + rest.writes);
      OwnWritesAppend(first.writes, rest.writes, c.me);
    }
  }

  lemma OwnWritesAppend(a: seq<Write>, b: seq<Write>, me: string)
    requires OwnWrites(a, me) && OwnWrites(b, me)
    ensures OwnWrites(a + b, me)
  {
    forall i | 0 <= i < |a + b| ensures OwnWrite((a + b)[i], me) {
      if i >= |a| {
        assert (a + b)[i] == b[i - |a|];
      }
    }
  }

  lemma {:induction false} RunWithAppend(step: (Chat, Event) -> Step, c: Chat, a: seq<Event>, b: seq<Event>)
    ensures RunWith(step, c, a + b).chat == RunWith(step, RunWith(step, c, a).chat, b).chat
    ensures RunWith(step, c, a + b).writes
         == RunWith(step, c, a).writes + RunWith(step, RunWith(step, c, a).chat, b).writes
    decreases a
  {
    if a == [] {
      assert a + b == b;
    } else {
      assert (a + b)[0] == a[0] && (a + b)[1..] == a[1..] + b;
      RunWithAppend(step, step(c, a[0]).chat, a[1..], b);
    }
  }

  lemma RunAppend(c: Chat, a: seq<Event>, b: seq<Event>)
    ensures Run(c, a + b).chat == Run(Run(c, a).chat, b).chat
    ensures Run(c, a + b).writes == Run(c, a).writes + Run(Run(c, a).chat, b).writes
  {
    RunWithAppend(Apply, c, a, b);
  }

  lemma RunPair(c: Chat, e1: Event, e2: Event)
    ensures Run(c, [e1, e2]).chat == Apply(Apply(c, e1).chat, e2).chat
    ensures Run(c, [e1, e2]).writes == Apply(c, e1).writes + Apply(Apply(c, e1).chat, e2).writes
  {
    assert [e1, e2][0] == e1 && [e1, e2][1..] == [e2];
    var s1 := Apply(c, e1);
    RunOne(s1.chat, e2);
    assert RunWith(Apply, c, [e1, e2])
        == Step(Run(s1.chat, [e2]).chat, s1.writes + Run(s1.chat, [e2]).writes);
  }

  lemma RunOne(c: Chat, e: Event)
    ensures Run(c, [e]) == Apply(c, e)
  {
    assert [e][0] == e && [e][1..] == [];
    var s := Apply(c, e);
    assert RunWith(Apply, s.chat, []) == Step(s.chat, []);
    assert s.writes + [] == s.writes;
  }

  /** A burst of typing: the clock reaches each keystroke's time, then the
      keystroke is handled. */
  function Burst(times: seq<int>): (es: seq<Event>)
    ensures |es| == 2 * |times|
  {
    if times == [] then [] else [Clock(times[0]), Keystroke(times[0])] + Burst(times[1..])
  }

  /** Each keystroke comes less than 3000 ms after the previous one. */
  predicate Rapid(times: seq<int>) {
    forall i :: 0 < i < |times| ==> times[i - 1] <= times[i] < times[i - 1] + TypingTimeoutMs
  }

  /** A rapid burst publishes `isTyping: true` at most once (only if the flag
      was down), never publishes false, and leaves one timeout due 3000 ms
      after the last keystroke. */
  lemma {:induction false} BurstPublishesOnce(c: Chat, times: seq<int>)
    requires times != [] && Rapid(times)
    requires c.timeout.None? || times[0] < c.timeout.value
    decreases times
    ensures Run(c, Burst(times)).writes == (if c.isTyping then [] else [UpdateTyping(c.me, true)])
    ensures Run(c, Burst(times)).chat
         == c.(isTyping := true, timeout := Some(times[|times| - 1] + TypingTimeoutMs))
  {
    var t, rest := times[0], times[1..];
    var head := Step(c.(isTyping := true, timeout := Some(t + TypingTimeoutMs)),
                     if c.isTyping then [] else [UpdateTyping(c.me, true)]);
    assert Run(c, Burst(times)) == Step(Run(head.chat, Burst(rest)).chat,
                                        head.writes + Run(head.chat, Burst(rest)).writes) by {
      assert Burst(times) == [Clock(t), Keystroke(t)] + Burst(rest);
      RunAppend(c, [Clock(t), Keystroke(t)], Burst(rest));
      BurstHead(c, t);
    }
    if |times| > 1 {
      RapidTail(times);
      BurstPublishesOnce(head.chat, rest);
    } else {
      assert Burst(rest) == [];
    }
  }

  /** One keystroke of a burst, before its timeout is due. */
  lemma BurstHead(c: Chat, t: int)
    requires c.timeout.None? || t < c.timeout.value
    ensures Run(c, [Clock(t), Keystroke(t)])
         == Step(c.(isTyping := true, timeout := Some(t + TypingTimeoutMs)),
                 if c.isTyping then [] else [UpdateTyping(c.me, true)])
  {
    RunPair(c, Clock(t), Keystroke(t));
  }

  lemma RapidTail(times: seq<int>)
    requires |times| > 1 && Rapid(times)
    ensures Rapid(times[1..]) && times[1] < times[0] + TypingTimeoutMs
  {
    forall i | 0 < i < |times[1..]|
      ensures times[1..][i - 1] <= times[1..][i] < times[1..][i - 1] + TypingTimeoutMs
    {
      assert times[1..][i - 1] == times[i] && times[1..][i] == times[i + 1];
    }
  }

  /** Typing then falling silent: however many rapid keystrokes, exactly one
      timeout fires, it clears the flag and it publishes `false` once. */
  lemma {:induction false} DebounceExpiresOnce(c: Chat, times: seq<int>, silence: int)
    requires times != [] && Rapid(times)
    requires c.timeout.None? || times[0] < c.timeout.value
    requires times[|times| - 1] + TypingTimeoutMs <= silence
    ensures var r := Run(c, Burst(times) + [Clock(silence)]);
      && r.writes == (if c.isTyping then [] else [UpdateTyping(c.me, true)]) + [UpdateTyping(c.me, false)]
      && !r.chat.isTyping && r.chat.timeout.None?
  {
    BurstPublishesOnce(c, times);
    RunAppend(c, Burst(times), [Clock(silence)]);
    var mid := Run(c, Burst(times)).chat;
    RunOne(mid, Clock(silence));
  }

  /** While a keystroke is more recent than 3000 ms, the clock changes nothing. */
  lemma PendingTimeoutHolds(c: Chat, now: int)
    requires c.timeout.Some? && now < c.timeout.value
    ensures AdvanceClock(c, now) == Step(c, [])
  {
  }

  /** Sending does not cancel the typing timeout: when it later fires it
      publishes `isTyping: false` a second time. */
  lemma {:induction false} SendLeavesTimeoutRunning(c: Chat, text: string, pushId: string, now: int, later: int)
    requires !AllWhitespace(text)
    requires c.timeout.Some? && c.timeout.value <= later
    ensures Run(c, [Send(text, pushId, now), Clock(later)]).writes
         == [PushMessage(pushId, StoredMessage(c.me, Trim(text), now)),
             UpdateTyping(c.me, false), UpdateTyping(c.me, false)]
  {
    RunPair(c, Send(text, pushId, now), Clock(later));
  }

  /** What the message box submits always becomes exactly one stored
      message holding the trimmed text; what it refuses never reaches the
      database. */
  lemma {:induction false} SubmittedTextIsStored(b: MessageInput.Box, c: Chat, pushId: string, now: int)
    ensures MessageInput.Submit(b).calls == [] ==>
      forall i :: 0 <= i < |SendMessage(c, b.field, pushId, now).writes| ==>
        !SendMessage(c, b.field, pushId, now).writes[i].PushMessage?
    ensures MessageInput.Submit(b).calls != [] ==>
      && MessageInput.Submit(b).calls == [MessageInput.OnSendMessage(b.field)]
      && SendMessage(c, b.field, pushId, now).writes[0]
         == PushMessage(pushId, StoredMessage(c.me, Trim(b.field), now))
  {
  }

  /** Two users' messages arriving out of order are shown by time. */
  lemma MessagesShownByTime()
    ensures FoldMessages([("m2", StoredMessage("bob", "hi", 1005)), ("m1", StoredMessage("alice", "hello", 1000))])
         == [Message("m1", "alice", "hello", 1000), Message("m2", "bob", "hi", 1005)]
    ensures FoldMessages([("m1", StoredMessage("alice", "hello", 1000)), ("m2", StoredMessage("bob", "hi", 1005))])
         == [Message("m1", "alice", "hello", 1000), Message("m2", "bob", "hi", 1005)]
  {
    InOrderSnapshotShownByTime();
    var snap := [("m2", StoredMessage("bob", "hi", 1005)), ("m1", StoredMessage("alice", "hello", 1000))];
    var ms := WithIds(snap);
    assert ms == [Message("m2", "bob", "hi", 1005), Message("m1", "alice", "hello", 1000)];
    var a, b := ms[0], ms[1];
    assert ms[..1] == [a] && ms == [a] + [b];
    assert SortBy([a], ByTimestamp) == [a] by { assert [a][..0] == []; }
    assert Insert([a], b, ByTimestamp) == [b, a];
    assert SortBy(ms, ByTimestamp) == Insert(SortBy([a], ByTimestamp), b, ByTimestamp);
  }

  lemma InOrderSnapshotShownByTime()
    ensures FoldMessages([("m1", StoredMessage("alice", "hello", 1000)), ("m2", StoredMessage("bob", "hi", 1005))])
         == [Message("m1", "alice", "hello", 1000), Message("m2", "bob", "hi", 1005)]
  {
    var snap := [("m1", StoredMessage("alice", "hello", 1000)), ("m2", StoredMessage("bob", "hi", 1005))];
    var ms := WithIds(snap);
    assert ms == [Message("m1", "alice", "hello", 1000), Message("m2", "bob", "hi", 1005)];
    var a, b := ms[0], ms[1];
    assert ms[..1] == [a] && ms == [a] + [b];
    assert SortBy([a], ByTimestamp) == [a] by { assert [a][..0] == []; }
    assert Insert([a], b, ByTimestamp) == [a, b] by { assert [a][1..] == []; }
    assert SortBy(ms, ByTimestamp) == Insert(SortBy([a], ByTimestamp), b, ByTimestamp);
  }

  /** Messages with the same timestamp keep their snapshot order; their ids
      play no part in the ordering. */
  lemma TiesKeepEntryOrder()
    ensures FoldMessages([("m2", StoredMessage("bob", "hi", 7)), ("m1", StoredMessage("alice", "yo", 7))])
         == [Message("m2", "bob", "hi", 7), Message("m1", "alice", "yo", 7)]
  {
    var snap := [("m2", StoredMessage("bob", "hi", 7)), ("m1", StoredMessage("alice", "yo", 7))];
    var ms := WithIds(snap);
    assert ms == [Message("m2", "bob", "hi", 7), Message("m1", "alice", "yo", 7)];
    var a, b := ms[0], ms[1];
    assert ms[..1] == [a] && ms == [a] + [b];
    assert SortBy([a], ByTimestamp) == [a] by { assert [a][..0] == []; }
    assert Insert([a], b, ByTimestamp) == [a, b] by { assert [a][1..] == []; }
    assert SortBy(ms, ByTimestamp) == Insert(SortBy([a], ByTimestamp), b, ByTimestamp);
  }
}
