/**
 * The chat server of A1/server_grp.cpp as an object: its global maps and
 * vectors are the fields, each function that runs under `clients_mutex`
 * is a method, and every `send` appends to `outbox`. Each method is proved
 * to take the state where the transition of the same name in ChatSpec
 * takes it.
 */
module ChatServer {
  import opened Common
  import opened ChatCommand
  import ChatSpec

  type Socket = ChatSpec.Socket

  /** `std::find`: the index of the first `x` in `s`, or `|s|` (the end iterator). */
  method Find<T(==)>(s: seq<T>, x: T) returns (i: nat)
    ensures i == ChatSpec.IndexOf(s, x)
  {
    i := 0;
    while i < |s| && s[i] != x
      invariant i <= |s|
      invariant forall k :: 0 <= k < i ==> s[k] != x
    {
      i := i + 1;
    }
  }

  /** The erase-remove idiom: every `x` removed from `s`, order kept. */
  method Remove(s: seq<Socket>, x: Socket) returns (kept: seq<Socket>)
    ensures kept == ChatSpec.Without(s, x)
  {
    kept := [];
    var i := 0;
    while i < |s|
      invariant i <= |s|
      invariant kept == ChatSpec.Without(s[..i], x)
    {
      assert s[..i + 1][..i] == s[..i];
      if s[i] != x {
        kept := kept + [s[i]];
      }
      i := i + 1;
    }
    assert s[..i] == s;
  }

  /** Erasing a key forgets whatever `operator[]` inserted for it. */
  lemma RemoveTouched<K, V>(m: map<K, V>, k: K, v: V)
    ensures m[k := v] - {k} == m - {k}
  {
  }

  class Server {
    var users: map<string, string>
    var clientUsernames: map<Socket, string>
    var usernameToSocket: map<string, Socket>
    var groups: map<string, seq<string>>
    var clients: seq<Socket>
    var outbox: seq<ChatSpec.Send>

    function Snapshot(): ChatSpec.State
      reads this
    {
      ChatSpec.State(users, clientUsernames, usernameToSocket, groups, clients, outbox)
    }

    constructor ()
      ensures Snapshot() == ChatSpec.Initial
    {
      users, clientUsernames, usernameToSocket := map[], map[], map[];
      groups, clients, outbox := map[], [], [];
    }

    /** `load_users` over the lines of users.txt. */
    method LoadUsers(lines: seq<string>)
      modifies this
      ensures Snapshot() == old(Snapshot()).(users := ChatSpec.LoadUsers(old(users), lines))
    {
      var i := 0;
      while i < |lines|
        invariant i <= |lines|
        invariant Snapshot() == old(Snapshot()).(users := ChatSpec.LoadUsers(old(users), lines[..i]))
      {
        assert lines[..i + 1][..i] == lines[..i];
        var credential := ChatSpec.ParseCredential(lines[i]);
        if credential.Some? {
          users := users[credential.value.0 := credential.value.1];
        }
        i := i + 1;
      }
      assert lines[..i] == lines;
    }

    /** `username_to_socket[username]`, which inserts 0 for a missing username. */
    method SocketFor(username: string) returns (sock: Socket)
      modifies this
      ensures sock == ChatSpec.SocketOf(old(Snapshot()), username)
      ensures Snapshot() == ChatSpec.TouchSocket(old(Snapshot()), username)
    {
      if username !in usernameToSocket {
        usernameToSocket := usernameToSocket[username := 0];
      }
      sock := usernameToSocket[username];
    }

    /** `client_usernames[s]`, which inserts "" for a missing socket. */
    method UsernameFor(s: Socket) returns (username: string)
      modifies this
      ensures username == ChatSpec.UsernameOf(old(Snapshot()), s)
      ensures Snapshot() == ChatSpec.TouchUsername(old(Snapshot()), s)
    {
      if s !in clientUsernames {
        clientUsernames := clientUsernames[s := ""];
      }
      username := clientUsernames[s];
    }

    /** `send(username_to_socket[username], text)`. */
    method Reply(username: string, text: string)
      modifies this
      ensures Snapshot() == ChatSpec.Reply(old(Snapshot()), username, text)
    {
      var sock := SocketFor(username);
      outbox := outbox + [ChatSpec.Send(sock, text)];
    }

    /** `authenticate_user`, with the two received texts as parameters. */
    method AuthenticateUser(s: Socket, username: string, password: string) returns (ok: bool)
      modifies this
      ensures (Snapshot(), ok) == ChatSpec.AuthenticateUser(old(Snapshot()), s, username, password)
    {
      outbox := outbox + [ChatSpec.Send(s, "Enter username: "), ChatSpec.Send(s, "Enter password: ")];
      if username in users && users[username] == password {
        clientUsernames := clientUsernames[s := username];
        usernameToSocket := usernameToSocket[username := s];
        outbox := outbox + [ChatSpec.Send(s, "Welcome to the server!")];
        return true;
      }
      outbox := outbox + [ChatSpec.Send(s, "Authentication failed")];
      return false;
    }

    method BroadcastMessage(message: string, sender: Socket)
      modifies this
      ensures Snapshot() == ChatSpec.BroadcastMessage(old(Snapshot()), message, sender)
    {
      var i := 0;
      while i < |clients|
        invariant i <= |clients|
        invariant Snapshot() == old(Snapshot()).(outbox := old(outbox) + ChatSpec.BroadcastSends(clients[..i], sender, message))
      {
        assert clients[..i + 1][..i] == clients[..i];
        if clients[i] != sender {
          outbox := outbox + [ChatSpec.Send(clients[i], message)];
        }
        i := i + 1;
      }
      assert clients[..i] == clients;
    }

    method SendPrivateMessage(recipient: string, message: string, sender: Socket)
      modifies this
      ensures Snapshot() == ChatSpec.SendPrivateMessage(old(Snapshot()), recipient, message, sender)
    {
      if recipient in usernameToSocket {
        var recipientSocket := usernameToSocket[recipient];
        var name := UsernameFor(sender);
        outbox := outbox + [ChatSpec.Send(recipientSocket, "[" + name + "] " + message)];
      } else {
        outbox := outbox + [ChatSpec.Send(sender, "User " + recipient + " not found.")];
      }
    }

    method SendGroupMessage(group: string, message: string, sender: Socket)
      modifies this
      ensures Snapshot() == ChatSpec.SendGroupMessage(old(Snapshot()), group, message, sender)
    {
      if group in groups {
        var name := UsernameFor(sender);
        var text := "[Group " + group + " from " + name + "] " + message;
        ghost var st1 := Snapshot();
        var members := groups[group];
        var i := 0;
        while i < |members|
          invariant i <= |members|
          invariant Snapshot() == st1.(outbox := st1.outbox + ChatSpec.GroupSends(members[..i], usernameToSocket, text))
        {
          assert members[..i + 1][..i] == members[..i];
          if members[i] in usernameToSocket {
            outbox := outbox + [ChatSpec.Send(usernameToSocket[members[i]], text)];
          }
          i := i + 1;
        }
        assert members[..i] == members;
      } else {
        outbox := outbox + [ChatSpec.Send(sender, "Group " + group + " not found.")];
      }
    }

    method CreateGroup(group: string, username: string)
      modifies this
      ensures Snapshot() == ChatSpec.CreateGroup(old(Snapshot()), group, username)
    {
      if group !in groups {
        groups := groups[group := [username]];
        Reply(username, "Group " + group + " created successfully.");
      } else {
        Reply(username, "Group " + group + " already exists.");
      }
    }

    method JoinGroup(group: string, username: string)
      modifies this
      ensures Snapshot() == ChatSpec.JoinGroup(old(Snapshot()), group, username)
    {
      if group in groups {
        var members := groups[group];
        var i := Find(members, username);
        if i == |members| {
          groups := groups[group := members + [username]];
          Reply(username, "You have joined group " + group + ".");
        } else {
          Reply(username, "You are already a member of group " + group + ".");
        }
      } else {
        Reply(username, "Group " + group + " not found.");
      }
    }

    method LeaveGroup(group: string, username: string)
      modifies this
      ensures Snapshot() == ChatSpec.LeaveGroup(old(Snapshot()), group, username)
    {
      if group in groups {
        var members := groups[group];
        var i := Find(members, username);
        if i < |members| {
          groups := groups[group := members[..i] + members[i + 1..]];
          Reply(username, "You have left group " + group + ".");
        } else {
          Reply(username, "You are not a member of group " + group + ".");
        }
      } else {
        Reply(username, "Group " + group + " not found.");
      }
    }

    /** One iteration of the command loop of `handle_client`; `false` when `substr(1)` threw. */
    method HandleLine(s: Socket, line: string) returns (alive: bool)
      modifies this
      ensures (Snapshot(), alive) == ChatSpec.HandleLine(old(Snapshot()), s, line)
    {
      var command := ParseCommand(line);
      alive := Execute(s, command);
    }

    /** The branch of the dispatch that the parsed command selects. */
    method Execute(s: Socket, command: Command) returns (alive: bool)
      modifies this
      ensures (Snapshot(), alive) == ChatSpec.Execute(old(Snapshot()), s, command)
    {
      alive := true;
      match command
      case Broadcast(text) =>
        var name := UsernameFor(s);
        BroadcastMessage(name + ": " + text, s);
      case Private(recipient, text) =>
        SendPrivateMessage(recipient, text, s);
      case Create(group) =>
        var name := UsernameFor(s);
        CreateGroup(group, name);
      case Join(group) =>
        var name := UsernameFor(s);
        JoinGroup(group, name);
      case Leave(group) =>
        var name := UsernameFor(s);
        LeaveGroup(group, name);
      case GroupMessage(group, text) =>
        SendGroupMessage(group, text, s);
      case InvalidGroupCommand =>
        outbox := outbox + [ChatSpec.Send(s, "Invalid group command.")];
      case InvalidCommand =>
        outbox := outbox + [ChatSpec.Send(s, "Invalid command.")];
      case OutOfRange =>
        alive := false;
    }

    /** The cleanup at the end of `handle_client`. */
    method Cleanup(s: Socket)
      modifies this
      ensures Snapshot() == ChatSpec.Cleanup(old(Snapshot()), s)
    {
      ghost var st := Snapshot();
      var kept := Remove(clients, s);
      clients := kept;
      var name := UsernameFor(s);
      usernameToSocket := usernameToSocket - {name};
      RemoveTouched(st.clientUsernames, s, name);
      clientUsernames := clientUsernames - {s};
    }

    /**
     * `handle_client` for a client that submits `username` and `password`,
     * then sends the messages `lines` and closes the connection.
     */
    method HandleClient(s: Socket, username: string, password: string, lines: seq<string>)
      returns (outcome: ChatSpec.Outcome)
      modifies this
      ensures (Snapshot(), outcome) == ChatSpec.HandleClient(old(Snapshot()), s, username, password, lines)
    {
      var ok := AuthenticateUser(s, username, password);
      if !ok {
        return ChatSpec.Rejected;
      }
      clients := clients + [s];
      ghost var admitted := Snapshot();
      var i := 0;
      var alive := true;
      while i < |lines| && alive
        invariant i <= |lines|
        invariant alive ==> ChatSpec.HandleLines(admitted, s, lines) == ChatSpec.HandleLines(Snapshot(), s, lines[i..])
        invariant !alive ==> ChatSpec.HandleLines(admitted, s, lines) == (Snapshot(), false)
      {
        assert lines[i..][0] == lines[i] && lines[i..][1..] == lines[i + 1..];
        alive := HandleLine(s, lines[i]);
        i := i + 1;
      }
      if alive {
        Cleanup(s);
        outcome := ChatSpec.Closed;
      } else {
        outcome := ChatSpec.Aborted;
      }
    }
  }
}
