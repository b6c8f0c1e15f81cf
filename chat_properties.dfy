/** What the chat server's transitions promise, alone and in sequence. */
module ChatProperties {
  import opened Common
  import opened ChatCommand
  import opened ChatSpec

  // ----------------------------------------------------------------------
  // Credentials

  /** The password a username ends up with is the one on its last line. */
  lemma {:induction false} LastLineWins(users: map<string, string>, lines: seq<string>, i: nat)
    requires i < |lines| && ParseCredential(lines[i]).Some?
    requires forall j :: i < j < |lines| ==> !Names(lines[j], ParseCredential(lines[i]).value.0)
    ensures ParseCredential(lines[i]).value.0 in LoadUsers(users, lines)
    ensures LoadUsers(users, lines)[ParseCredential(lines[i]).value.0] == ParseCredential(lines[i]).value.1
    decreases |lines|
  {
    var init := lines[..|lines| - 1];
    if i < |lines| - 1 {
      assert init[i] == lines[i];
      forall j | i < j < |init| ensures !Names(init[j], ParseCredential(init[i]).value.0) {
        assert init[j] == lines[j];
      }
      LastLineWins(users, init, i);
    }
  }

  /** A username no line names keeps whatever entry it had. */
  lemma {:induction false} UnnamedUnchanged(users: map<string, string>, lines: seq<string>, username: string)
    requires forall j :: 0 <= j < |lines| ==> !Names(lines[j], username)
    ensures (username in LoadUsers(users, lines)) == (username in users)
    ensures username in users ==> LoadUsers(users, lines)[username] == users[username]
    decreases |lines|
  {
    if lines != [] {
      var init := lines[..|lines| - 1];
      forall j | 0 <= j < |init| ensures !Names(init[j], username) {
        assert init[j] == lines[j];
      }
      UnnamedUnchanged(users, init, username);
    }
  }

  /** A line without a colon adds nothing. */
  lemma LineWithoutColon(users: map<string, string>, lines: seq<string>, line: string)
    requires ':' !in line
    ensures LoadUsers(users, lines + [line]) == LoadUsers(users, lines)
  {
    assert (lines + [line])[..|lines|] == lines;
  }

  // ----------------------------------------------------------------------
  // Deliveries

  /** The sockets written to, in order. */
  function Sockets(sends: seq<Send>): (r: seq<Socket>)
    ensures |r| == |sends|
    ensures forall k :: 0 <= k < |sends| ==> r[k] == sends[k].socket
  {
    if sends == [] then [] else Sockets(sends[..|sends| - 1]) + [sends[|sends| - 1].socket]
  }

  /** The sockets of two runs of sends, one after the other. */
  lemma SocketsOfConcat(a: seq<Send>, b: seq<Send>)
    ensures Sockets(a + b) == Sockets(a) + Sockets(b)
  {
    assert forall k :: 0 <= k < |a + b| ==> Sockets(a + b)[k] == (Sockets(a) + Sockets(b))[k];
  }

  /**
   * A broadcast writes `message` to the elements of `clients` other than
   * the sender, in list order: as many times as each occurs there.
   */
  lemma {:induction false} BroadcastReachesOthers(clients: seq<Socket>, sender: Socket, message: string)
    ensures Sockets(BroadcastSends(clients, sender, message)) == Without(clients, sender)
    ensures forall k :: 0 <= k < |BroadcastSends(clients, sender, message)| ==>
      BroadcastSends(clients, sender, message)[k].text == message
    decreases |clients|
  {
    if clients != [] {
      var init := clients[..|clients| - 1];
      var c := clients[|clients| - 1];
      var tail := if c != sender then [Send(c, message)] else [];
      BroadcastReachesOthers(init, sender, message);
      SocketsOfConcat(BroadcastSends(init, sender, message), tail);
      assert Sockets(tail) == (if c == sender then [] else [c]);
      BroadcastTexts(BroadcastSends(init, sender, message), tail, message);
    }
  }

  lemma BroadcastTexts(a: seq<Send>, b: seq<Send>, message: string)
    requires forall k :: 0 <= k < |a| ==> a[k].text == message
    requires forall k :: 0 <= k < |b| ==> b[k].text == message
    ensures forall k :: 0 <= k < |a + b| ==> (a + b)[k].text == message
  {
  }

  /** The members of a group that have an entry in `username_to_socket`, in member order. */
  function Online(members: seq<string>, sockets: map<string, Socket>): (r: seq<string>)
    ensures forall m :: m in r <==> m in members && m in sockets
  {
    if members == [] then []
    else
      var m := members[|members| - 1];
      Online(members[..|members| - 1], sockets) + (if m in sockets then [m] else [])
  }

  /**
   * A group message reaches exactly the online members, in member order,
   * once per occurrence; offline members are skipped.
   */
  lemma {:induction false} GroupReachesOnline(members: seq<string>, sockets: map<string, Socket>, text: string)
    ensures |GroupSends(members, sockets, text)| == |Online(members, sockets)|
    ensures forall k :: 0 <= k < |Online(members, sockets)| ==>
      GroupSends(members, sockets, text)[k] == Send(sockets[Online(members, sockets)[k]], text)
    decreases |members|
  {
    if members != [] {
      GroupReachesOnline(members[..|members| - 1], sockets, text);
    }
  }

  /**
   * A group message to a group with one online and one offline member
   * makes exactly one send, to the online member, and reports no error.
   */
  lemma OnlineAndOffline(st: State, group: string, on: string, off: string, message: string, sender: Socket)
    requires group in st.groups && st.groups[group] == [on, off]
    requires on in st.usernameToSocket && off !in st.usernameToSocket
    ensures SendGroupMessage(st, group, message, sender).outbox
         == st.outbox + [Send(st.usernameToSocket[on], GroupText(st, group, message, sender))]
  {
    var text := GroupText(st, group, message, sender);
    assert [on, off][..1] == [on];
    assert [on][..0] == [];
    assert GroupSends([on], st.usernameToSocket, text) == [Send(st.usernameToSocket[on], text)];
    assert GroupSends([on, off], st.usernameToSocket, text) == GroupSends([on], st.usernameToSocket, text);
  }

  /**
   * The loop over the members does not skip the sender: a member who sends
   * to their own group also receives the message.
   */
  lemma SenderReceivesOwnGroupMessage(st: State, group: string, message: string, sender: Socket)
    requires group in st.groups && sender in st.clientUsernames
    requires var u := st.clientUsernames[sender];
      (u in st.groups[group] && u in st.usernameToSocket && st.usernameToSocket[u] == sender)
    ensures Send(sender, GroupText(st, group, message, sender)) in SendGroupMessage(st, group, message, sender).outbox
  {
    var members := st.groups[group];
    var u := st.clientUsernames[sender];
    var i :| 0 <= i < |members| && members[i] == u;
    GroupReachesOnline(members, st.usernameToSocket, GroupText(st, group, message, sender));
    var online := Online(members, st.usernameToSocket);
    var k :| 0 <= k < |online| && online[k] == u;
    var sends := GroupSends(members, st.usernameToSocket, GroupText(st, group, message, sender));
    assert sends[k] == Send(sender, GroupText(st, group, message, sender));
    assert SendGroupMessage(st, group, message, sender).outbox == st.outbox + sends;
    assert SendGroupMessage(st, group, message, sender).outbox[|st.outbox| + k] == sends[k];
  }

  // ----------------------------------------------------------------------
  // Groups

  /** A second `create` of the same group fails and leaves the members as the first made them. */
  lemma CreateTwice(st: State, group: string, username: string)
    requires group !in st.groups
    ensures var st2 := CreateGroup(CreateGroup(st, group, username), group, username);
      st2.groups[group] == [username] && st2.outbox[|st2.outbox| - 1].text == "Group " + group + " already exists."
  {
  }

  /** A second `join` fails with "already a member" and changes no group. */
  lemma JoinTwice(st: State, group: string, username: string)
    requires group in st.groups
    ensures var st1 := JoinGroup(st, group, username);
      var st2 := JoinGroup(st1, group, username);
      st2.groups == st1.groups
      && st2.outbox[|st2.outbox| - 1].text == "You are already a member of group " + group + "."
  {
  }

  /** A second `leave` fails with "not a member", provided the list had no duplicate. */
  lemma LeaveTwice(st: State, group: string, username: string)
    requires group in st.groups && username in st.groups[group] && NoDup(st.groups[group])
    ensures var st1 := LeaveGroup(st, group, username);
      var st2 := LeaveGroup(st1, group, username);
      st2.groups == st1.groups && group in st1.groups
      && st2.outbox[|st2.outbox| - 1].text == "You are not a member of group " + group + "."
  {
    RemoveFirstOfUnique(st.groups[group], username);
  }

  /** Leaving erases one occurrence; on a duplicate-free list, the only one. */
  lemma RemoveFirstOfUnique<T>(s: seq<T>, x: T)
    requires x in s
    ensures multiset(RemoveFirst(s, x)) == multiset(s) - multiset{x}
    ensures NoDup(s) ==> x !in RemoveFirst(s, x) && NoDup(RemoveFirst(s, x))
  {
    var i := IndexOf(s, x);
    assert s == s[..i] + [x] + s[i + 1..];
    if NoDup(s) {
      WithoutIndexUnique(s, i);
    }
  }

  /** Dropping position i of a duplicate-free list drops its element and keeps it duplicate-free. */
  lemma WithoutIndexUnique<T>(s: seq<T>, i: nat)
    requires i < |s| && NoDup(s)
    ensures s[i] !in s[..i] + s[i + 1..] && NoDup(s[..i] + s[i + 1..])
  {
    var r := s[..i] + s[i + 1..];
    forall k | 0 <= k < |r| ensures r[k] != s[i] {
      if k < i { assert r[k] == s[k]; } else { assert r[k] == s[k + 1]; }
    }
    forall a, b | 0 <= a < b < |r| ensures r[a] != r[b] {
      var a' := if a < i then a else a + 1;
      var b' := if b < i then b else b + 1;
      assert r[a] == s[a'] && r[b] == s[b'];
    }
  }

  /** Joining a group one is not in, then leaving it, restores every group. */
  lemma JoinThenLeave(st: State, group: string, username: string)
    requires group in st.groups && username !in st.groups[group]
    ensures LeaveGroup(JoinGroup(st, group, username), group, username).groups == st.groups
  {
    var m := st.groups[group];
    assert IndexOf(m + [username], username) == |m| by {
      assert (m + [username])[|m|] == username;
    }
    assert (m + [username])[..|m|] == m;
    assert (m + [username])[|m| + 1..] == [];
    assert RemoveFirst(m + [username], username) == m;
    var joined := JoinGroup(st, group, username);
    assert joined.groups == st.groups[group := m + [username]];
    assert joined.groups[group := m] == st.groups;
  }

  /** Every group operation on an unknown group answers "not found" and changes no group. */
  lemma UnknownGroup(st: State, group: string, username: string)
    requires group !in st.groups
    ensures JoinGroup(st, group, username).groups == st.groups
    ensures LeaveGroup(st, group, username).groups == st.groups
    ensures JoinGroup(st, group, username).outbox == st.outbox + [Send(SocketOf(st, username), "Group " + group + " not found.")]
    ensures LeaveGroup(st, group, username).outbox == st.outbox + [Send(SocketOf(st, username), "Group " + group + " not found.")]
  {
  }

  // ----------------------------------------------------------------------
  // The transition system

  /** Every branch of the dispatch keeps the invariant. */
  lemma ExecuteKeepsInv(st: State, s: Socket, command: Command)
    requires Inv(st)
    ensures Inv(Execute(st, s, command).0)
  {
    var st1 := TouchUsername(st, s);
    var u := UsernameOf(st, s);
    assert Inv(st1);
    match command
    case Broadcast(text) => DeliveriesKeepInv(st1, s, u, u + ": " + text);
    case Private(recipient, text) => DeliveriesKeepInv(st, s, recipient, text);
    case Create(group) => CreateKeepsInv(st1, group, u);
    case Join(group) => JoinKeepsInv(st1, group, u);
    case Leave(group) => LeaveKeepsInv(st1, group, u);
    case GroupMessage(group, text) => DeliveriesKeepInv(st, s, group, text);
    case _ =>
  }

  lemma DeliveriesKeepInv(st: State, s: Socket, other: string, text: string)
    requires Inv(st)
    ensures Inv(BroadcastMessage(st, text, s))
    ensures Inv(SendPrivateMessage(st, other, text, s))
    ensures Inv(SendGroupMessage(st, other, text, s))
  {
  }

  lemma CreateKeepsInv(st: State, group: string, username: string)
    requires Inv(st)
    ensures Inv(CreateGroup(st, group, username))
  {
  }

  /** Joining appends only a name the list does not hold yet. */
  lemma JoinKeepsInv(st: State, group: string, username: string)
    requires Inv(st)
    ensures Inv(JoinGroup(st, group, username))
  {
    if group in st.groups && username !in st.groups[group] {
      var m := st.groups[group] + [username];
      assert NoDup(m) by {
        forall a, b | 0 <= a < b < |m| ensures m[a] != m[b] {
          if b == |m| - 1 { assert m[a] in st.groups[group]; }
        }
      }
    }
  }

  /** Leaving removes the one occurrence of the name. */
  lemma LeaveKeepsInv(st: State, group: string, username: string)
    requires Inv(st)
    ensures Inv(LeaveGroup(st, group, username))
  {
    if group in st.groups && username in st.groups[group] {
      RemoveFirstOfUnique(st.groups[group], username);
    }
  }

  /** Every step keeps group member lists duplicate-free and every listed client named. */
  lemma NextKeepsInv(st: State, e: Event)
    requires Inv(st)
    ensures Inv(Next(st, e).0)
  {
    match e
    case Connect(s, u, p) =>
    case Hangup(s) =>
    case Receive(s, line) => ExecuteKeepsInv(st, s, ParseCommand(line));
  }

  /** `r` has the credentials of `st`, at least its groups, and its sends followed by more. */
  predicate Grows(st: State, r: State) {
    r.users == st.users && st.groups.Keys <= r.groups.Keys && st.outbox <= r.outbox
  }

  lemma CreateGrows(st: State, group: string, username: string)
    ensures Grows(st, CreateGroup(st, group, username))
  {
  }

  lemma JoinGrows(st: State, group: string, username: string)
    ensures Grows(st, JoinGroup(st, group, username))
  {
  }

  lemma LeaveGrows(st: State, group: string, username: string)
    ensures Grows(st, LeaveGroup(st, group, username))
  {
  }

  lemma DeliveriesGrow(st: State, s: Socket, other: string, text: string)
    ensures Grows(st, BroadcastMessage(st, text, s))
    ensures Grows(st, SendPrivateMessage(st, other, text, s))
    ensures Grows(st, SendGroupMessage(st, other, text, s))
  {
  }

  /** No branch of the dispatch loses a credential, a group, or a recorded send. */
  lemma ExecuteKeepsHistory(st: State, s: Socket, command: Command)
    ensures Execute(st, s, command).0.users == st.users
    ensures st.groups.Keys <= Execute(st, s, command).0.groups.Keys
    ensures st.outbox <= Execute(st, s, command).0.outbox
  {
    var st1 := TouchUsername(st, s);
    var u := UsernameOf(st, s);
    assert Grows(st, st1);
    match command
    case Broadcast(text) => DeliveriesGrow(st1, s, u, u + ": " + text);
    case Private(recipient, text) => DeliveriesGrow(st, s, recipient, text);
    case Create(group) => CreateGrows(st1, group, u);
    case Join(group) => JoinGrows(st1, group, u);
    case Leave(group) => LeaveGrows(st1, group, u);
    case GroupMessage(group, text) => DeliveriesGrow(st, s, group, text);
    case InvalidGroupCommand =>
    case InvalidCommand =>
    case OutOfRange =>
  }

  /** No step loses a credential, a group, or a recorded send. */
  lemma NextKeepsHistory(st: State, e: Event)
    ensures Next(st, e).0.users == st.users
    ensures st.groups.Keys <= Next(st, e).0.groups.Keys
    ensures st.outbox <= Next(st, e).0.outbox
  {
    match e
    case Connect(s, u, p) =>
    case Hangup(s) =>
    case Receive(s, line) => ExecuteKeepsHistory(st, s, ParseCommand(line));
  }

  /** The state after a run of events, stopping where one ends the process. */
  function Run(st: State, events: seq<Event>): State
    decreases |events|
  {
    if events == [] then st
    else
      var (st1, alive) := Next(st, events[0]);
      if alive then Run(st1, events[1..]) else st1
  }

  /** The invariant holds in every state the server reaches from its initial one. */
  lemma {:induction false} RunKeepsInv(st: State, events: seq<Event>)
    requires Inv(st)
    ensures Inv(Run(st, events))
    decreases |events|
  {
    if events != [] {
      NextKeepsInv(st, events[0]);
      var (st1, alive) := Next(st, events[0]);
      if alive {
        RunKeepsInv(st1, events[1..]);
      }
    }
  }

  lemma InitialInv()
    ensures Inv(Initial)
  {
  }

  // ----------------------------------------------------------------------
  // A stale username entry

  /** Two logins of one user, on `first` and then on `second`, followed by the hangup of `first`. */
  function Relogin(users: map<string, string>, name: string, first: Socket, second: Socket): State
    requires name in users
  {
    var st1 := Admit(Initial.(users := users), first, name, users[name]).0;
    var st2 := Admit(st1, second, name, users[name]).0;
    Cleanup(st2, first)
  }

  /**
   * The cleanup after the first session erases `username_to_socket[name]`
   * although it names the second, still connected, socket.
   */
  lemma ReloginLosesEntry(users: map<string, string>, name: string, first: Socket, second: Socket)
    requires name in users && first != second
    ensures var st := Relogin(users, name, first, second);
      name !in st.usernameToSocket && st.clients == [second] && st.clientUsernames == map[second := name]
  {
    var st1 := Admit(Initial.(users := users), first, name, users[name]).0;
    assert st1.clients == [first] && st1.usernameToSocket == map[name := first];
    assert st1.clientUsernames == map[first := name];
    var st2 := Admit(st1, second, name, users[name]).0;
    assert st2.clients == [first, second] && st2.usernameToSocket == map[name := second];
    assert st2.clientUsernames == map[first := name, second := name];
    assert UsernameOf(st2, first) == name;
    assert map[first := name, second := name] - {first} == map[second := name];
    WithoutFirstOfPair(first, second);
  }

  lemma WithoutFirstOfPair(first: Socket, second: Socket)
    requires first != second
    ensures Without([first, second], first) == [second]
  {
    assert [first, second][..1] == [first] && [first][..0] == [];
    assert Without([first], first) == [] by { assert Without([], first) == []; }
  }


  /**
   * So the user that is still connected is unknown to private messages,
   * and the replies to their group commands go to socket 0.
   */
  lemma ReloginMisroutes(users: map<string, string>, name: string, first: Socket, second: Socket,
                         message: string, group: string)
    requires name in users && first != second
    ensures var st := Relogin(users, name, first, second);
      && SendPrivateMessage(st, name, message, second).outbox[|st.outbox|] == Send(second, "User " + name + " not found.")
      && CreateGroup(st, group, name).outbox[|st.outbox|].socket == 0
  {
    ReloginLosesEntry(users, name, first, second);
  }
}
