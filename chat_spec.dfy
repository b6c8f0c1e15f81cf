/**
 * The process-wide state of the chat server in A1/server_grp.cpp, and one
 * pure transition per function that runs under `clients_mutex`. Every
 * `send` is recorded, in order, in `outbox`.
 *
 * `operator[]` of `std::unordered_map` inserts a default value for a
 * missing key; where the server reads a map with `[]`, the transitions
 * insert that default too (socket 0, username "").
 */
module ChatSpec {
  import opened Common
  import opened ChatCommand

  type Socket = int

  /** One `send` call: the socket written to and the text written. */
  datatype Send = Send(socket: Socket, text: string)

  /** `users`, `client_usernames`, `username_to_socket`, `groups`, `clients`, and the sends so far. */
  datatype State = State(
    users: map<string, string>,
    clientUsernames: map<Socket, string>,
    usernameToSocket: map<string, Socket>,
    groups: map<string, seq<string>>,
    clients: seq<Socket>,
    outbox: seq<Send>)

  const Initial: State := State(map[], map[], map[], map[], [], [])

  // ----------------------------------------------------------------------
  // Sequence helpers: `std::find` and the erase-remove idiom

  /** The index of the first `x` in `s`, or `|s|` when there is none. */
  function IndexOf<T(==)>(s: seq<T>, x: T): (i: nat)
    ensures i <= |s| && (i < |s| ==> s[i] == x)
    ensures forall k :: 0 <= k < i ==> s[k] != x
    ensures i == |s| <==> x !in s
  {
    if s == [] then 0 else if s[0] == x then 0 else 1 + IndexOf(s[1..], x)
  }

  /** `vector::erase(std::find(...))`: removes the first occurrence of `x`, if any. */
  function RemoveFirst<T(==)>(s: seq<T>, x: T): seq<T> {
    var i := IndexOf(s, x);
    if i == |s| then s else s[..i] + s[i + 1..]
  }

  /** `erase(std::remove(s.begin(), s.end(), x), s.end())`: every `x` removed, order kept. */
  function Without(s: seq<Socket>, x: Socket): (r: seq<Socket>)
    ensures multiset(r) == multiset(s)[x := 0]
    ensures forall y :: y in r <==> y in s && y != x
  {
    if s == [] then []
    else
      var init := s[..|s| - 1];
      assert s == init + [s[|s| - 1]];
      Without(init, x) + (if s[|s| - 1] == x then [] else [s[|s| - 1]])
  }

  predicate NoDup<T(==)>(s: seq<T>) {
    forall i, j :: 0 <= i < j < |s| ==> s[i] != s[j]
  }

  // ----------------------------------------------------------------------
  // load_users

  /** A credential line splits at its first ':'; a line without one is skipped. */
  function ParseCredential(line: string): (r: Option<(string, string)>)
    ensures r.Some? <==> ':' in line
    ensures r.Some? ==> r.value.0 + ":" + r.value.1 == line && ':' !in r.value.0
  {
    var i := IndexOf(line, ':');
    if i == |line| then None
    else
      assert line == line[..i] + ":" + line[i + 1..];
      Some((line[..i], line[i + 1..]))
  }

  /** The line names `username`. */
  predicate Names(line: string, username: string) {
    ParseCredential(line).Some? && ParseCredential(line).value.0 == username
  }

  /** `users[username] = password` for each line read, in order. */
  function LoadUsers(users: map<string, string>, lines: seq<string>): map<string, string>
    decreases |lines|
  {
    if lines == [] then users
    else
      var users' := LoadUsers(users, lines[..|lines| - 1]);
      match ParseCredential(lines[|lines| - 1])
      case Some((u, p)) => users'[u := p]
      case None => users'
  }

  // ----------------------------------------------------------------------
  // Map reads with operator[]

  /** `username_to_socket[username]`: 0 for a username that has no entry. */
  function SocketOf(st: State, username: string): Socket {
    if username in st.usernameToSocket then st.usernameToSocket[username] else 0
  }

  /** `client_usernames[s]`: "" for a socket that has no entry. */
  function UsernameOf(st: State, s: Socket): string {
    if s in st.clientUsernames then st.clientUsernames[s] else ""
  }

  /** The state after `username_to_socket[username]` inserted its default. */
  function TouchSocket(st: State, username: string): State {
    st.(usernameToSocket := st.usernameToSocket[username := SocketOf(st, username)])
  }

  /** The state after `client_usernames[s]` inserted its default. */
  function TouchUsername(st: State, s: Socket): State {
    st.(clientUsernames := st.clientUsernames[s := UsernameOf(st, s)])
  }

  /** `send(username_to_socket[username], text)`. */
  function Reply(st: State, username: string, text: string): State {
    var st1 := TouchSocket(st, username);
    st1.(outbox := st1.outbox + [Send(SocketOf(st, username), text)])
  }

  /**
   * `r` differs from `st` only by one reply `text` to the socket of
   * `username` (and the entry `operator[]` inserts for it), and by `groups`.
   */
  predicate Replied(st: State, r: State, username: string, text: string) {
    && r.outbox == st.outbox + [Send(SocketOf(st, username), text)]
    && r.usernameToSocket == st.usernameToSocket[username := SocketOf(st, username)]
    && r.users == st.users && r.clientUsernames == st.clientUsernames && r.clients == st.clients
  }

  // ----------------------------------------------------------------------
  // authenticate_user and the registration in handle_client

  /**
   * The two prompts, then the check of the submitted `username` and
   * `password` (the two received texts) against `users`.
   */
  function AuthenticateUser(st: State, s: Socket, username: string, password: string): (r: (State, bool))
    ensures r.1 <==> username in st.users && st.users[username] == password
    ensures r.0.users == st.users && r.0.groups == st.groups && r.0.clients == st.clients
    ensures r.0.outbox == st.outbox + [Send(s, "Enter username: "), Send(s, "Enter password: "),
      Send(s, if r.1 then "Welcome to the server!" else "Authentication failed")]
    ensures r.1 ==> (r.0.clientUsernames == st.clientUsernames[s := username]
                     && r.0.usernameToSocket == st.usernameToSocket[username := s])
    ensures !r.1 ==> (r.0.clientUsernames == st.clientUsernames
                      && r.0.usernameToSocket == st.usernameToSocket)
  {
    var prompted := st.outbox + [Send(s, "Enter username: "), Send(s, "Enter password: ")];
    if username in st.users && st.users[username] == password then
      (st.(clientUsernames := st.clientUsernames[s := username],
           usernameToSocket := st.usernameToSocket[username := s],
           outbox := prompted + [Send(s, "Welcome to the server!")]), true)
    else
      (st.(outbox := prompted + [Send(s, "Authentication failed")]), false)
  }

  /** Authentication, then `clients.push_back(s)` on success. */
  function Admit(st: State, s: Socket, username: string, password: string): (r: (State, bool))
    ensures r.1 <==> username in st.users && st.users[username] == password
    ensures r.1 ==> r.0.clients == st.clients + [s]
    ensures !r.1 ==> r.0 == st.(outbox := r.0.outbox)
  {
    var (st1, ok) := AuthenticateUser(st, s, username, password);
    if ok then (st1.(clients := st1.clients + [s]), true) else (st1, false)
  }

  // ----------------------------------------------------------------------
  // Deliveries

  /** The sends of the loop over `clients` that skips the sender. */
  function BroadcastSends(clients: seq<Socket>, sender: Socket, message: string): seq<Send> {
    if clients == [] then []
    else
      var c := clients[|clients| - 1];
      BroadcastSends(clients[..|clients| - 1], sender, message) + (if c != sender then [Send(c, message)] else [])
  }

  function BroadcastMessage(st: State, message: string, sender: Socket): State {
    st.(outbox := st.outbox + BroadcastSends(st.clients, sender, message))
  }

  /** `send_private_message`: one send, to the recipient or, as an error, back to the sender. */
  function SendPrivateMessage(st: State, recipient: string, message: string, sender: Socket): (r: State)
    ensures |r.outbox| == |st.outbox| + 1 && r.outbox[..|st.outbox|] == st.outbox
    ensures recipient in st.usernameToSocket ==>
      r.outbox[|st.outbox|] == Send(st.usernameToSocket[recipient], "[" + UsernameOf(st, sender) + "] " + message)
    ensures recipient in st.usernameToSocket ==>
      r.clientUsernames == st.clientUsernames[sender := UsernameOf(st, sender)]
    ensures recipient !in st.usernameToSocket ==>
      r.outbox[|st.outbox|] == Send(sender, "User " + recipient + " not found.") && r.clientUsernames == st.clientUsernames
    ensures r.users == st.users && r.usernameToSocket == st.usernameToSocket
    ensures r.groups == st.groups && r.clients == st.clients
  {
    if recipient in st.usernameToSocket then
      var text := "[" + UsernameOf(st, sender) + "] " + message;
      var st1 := TouchUsername(st, sender);
      st1.(outbox := st1.outbox + [Send(st.usernameToSocket[recipient], text)])
    else
      st.(outbox := st.outbox + [Send(sender, "User " + recipient + " not found.")])
  }

  /** The sends of the loop over a group's members: online members only, in member order. */
  function GroupSends(members: seq<string>, sockets: map<string, Socket>, text: string): seq<Send> {
    if members == [] then []
    else
      var m := members[|members| - 1];
      GroupSends(members[..|members| - 1], sockets, text) + (if m in sockets then [Send(sockets[m], text)] else [])
  }

  /** The text every member of `group` receives from `sender`. */
  function GroupText(st: State, group: string, message: string, sender: Socket): string {
    "[Group " + group + " from " + UsernameOf(st, sender) + "] " + message
  }

  function SendGroupMessage(st: State, group: string, message: string, sender: Socket): (r: State)
    ensures group in st.groups ==>
      r.outbox == st.outbox + GroupSends(st.groups[group], st.usernameToSocket, GroupText(st, group, message, sender))
    ensures group in st.groups ==>
      r.clientUsernames == st.clientUsernames[sender := UsernameOf(st, sender)]
    ensures group !in st.groups ==>
      r == st.(outbox := st.outbox + [Send(sender, "Group " + group + " not found.")])
    ensures r.users == st.users && r.usernameToSocket == st.usernameToSocket
    ensures r.groups == st.groups && r.clients == st.clients
  {
    if group in st.groups then
      var text := GroupText(st, group, message, sender);
      var st1 := TouchUsername(st, sender);
      st1.(outbox := st1.outbox + GroupSends(st.groups[group], st.usernameToSocket, text))
    else
      st.(outbox := st.outbox + [Send(sender, "Group " + group + " not found.")])
  }

  // ----------------------------------------------------------------------
  // Groups

  function CreateGroup(st: State, group: string, username: string): (r: State)
    ensures group !in st.groups ==>
      r.groups == st.groups[group := [username]] && Replied(st, r, username, "Group " + group + " created successfully.")
    ensures group in st.groups ==>
      r.groups == st.groups && Replied(st, r, username, "Group " + group + " already exists.")
  {
    if group !in st.groups then
      Reply(st.(groups := st.groups[group := [username]]), username, "Group " + group + " created successfully.")
    else
      Reply(st, username, "Group " + group + " already exists.")
  }

  function JoinGroup(st: State, group: string, username: string): (r: State)
    ensures group in st.groups && username !in st.groups[group] ==>
      r.groups == st.groups[group := st.groups[group] + [username]]
      && Replied(st, r, username, "You have joined group " + group + ".")
    ensures group in st.groups && username in st.groups[group] ==>
      r.groups == st.groups && Replied(st, r, username, "You are already a member of group " + group + ".")
    ensures group !in st.groups ==>
      r.groups == st.groups && Replied(st, r, username, "Group " + group + " not found.")
  {
    if group in st.groups then
      var members := st.groups[group];
      if IndexOf(members, username) == |members| then
        Reply(st.(groups := st.groups[group := members + [username]]), username, "You have joined group " + group + ".")
      else
        Reply(st, username, "You are already a member of group " + group + ".")
    else
      Reply(st, username, "Group " + group + " not found.")
  }

  function LeaveGroup(st: State, group: string, username: string): (r: State)
    ensures group in st.groups && username in st.groups[group] ==>
      r.groups == st.groups[group := RemoveFirst(st.groups[group], username)]
      && Replied(st, r, username, "You have left group " + group + ".")
    ensures group in st.groups && username !in st.groups[group] ==>
      r.groups == st.groups && Replied(st, r, username, "You are not a member of group " + group + ".")
    ensures group !in st.groups ==>
      r.groups == st.groups && Replied(st, r, username, "Group " + group + " not found.")
  {
    if group in st.groups then
      var members := st.groups[group];
      if IndexOf(members, username) < |members| then
        Reply(st.(groups := st.groups[group := RemoveFirst(members, username)]), username, "You have left group " + group + ".")
      else
        Reply(st, username, "You are not a member of group " + group + ".")
    else
      Reply(st, username, "Group " + group + " not found.")
  }

  // ----------------------------------------------------------------------
  // handle_client

  /**
   * One iteration of the command loop of `handle_client` for the message
   * `line` received on `s`; `false` when `substr(1)` threw, which ends the
   * whole process before anything is dispatched.
   */
  function HandleLine(st: State, s: Socket, line: string): (State, bool) {
    Execute(st, s, ParseCommand(line))
  }

  /** The branch of the dispatch in `handle_client` that the parsed command selects. */
  function Execute(st: State, s: Socket, command: Command): (State, bool) {
    match command
    case Broadcast(text) =>
      (BroadcastMessage(TouchUsername(st, s), UsernameOf(st, s) + ": " + text, s), true)
    case Private(recipient, text) => (SendPrivateMessage(st, recipient, text, s), true)
    case Create(group) => (CreateGroup(TouchUsername(st, s), group, UsernameOf(st, s)), true)
    case Join(group) => (JoinGroup(TouchUsername(st, s), group, UsernameOf(st, s)), true)
    case Leave(group) => (LeaveGroup(TouchUsername(st, s), group, UsernameOf(st, s)), true)
    case GroupMessage(group, text) => (SendGroupMessage(st, group, text, s), true)
    case InvalidGroupCommand => (st.(outbox := st.outbox + [Send(s, "Invalid group command.")]), true)
    case InvalidCommand => (st.(outbox := st.outbox + [Send(s, "Invalid command.")]), true)
    case OutOfRange => (st, false)
  }

  /** The cleanup after the command loop of `handle_client`. */
  function Cleanup(st: State, s: Socket): (r: State)
    ensures multiset(r.clients) == multiset(st.clients)[s := 0] && s !in r.clients
    ensures r.usernameToSocket == st.usernameToSocket - {UsernameOf(st, s)}
    ensures r.clientUsernames == st.clientUsernames - {s}
    ensures r.users == st.users && r.groups == st.groups && r.outbox == st.outbox
  {
    st.(clients := Without(st.clients, s),
        usernameToSocket := st.usernameToSocket - {UsernameOf(st, s)},
        clientUsernames := st.clientUsernames - {s})
  }

  /** The messages `lines` handled in turn; `false` when one of them ended the process. */
  function HandleLines(st: State, s: Socket, lines: seq<string>): (State, bool)
    decreases |lines|
  {
    if lines == [] then (st, true)
    else
      var (st1, ok) := HandleLine(st, s, lines[0]);
      if !ok then (st1, false) else HandleLines(st1, s, lines[1..])
  }

  /** How a session ends. */
  datatype Outcome = Rejected | Closed | Aborted

  /**
   * `handle_client` for a client that submits `username` and `password`,
   * then sends `lines` and closes the connection.
   */
  function HandleClient(st: State, s: Socket, username: string, password: string, lines: seq<string>): (State, Outcome) {
    var (st1, ok) := Admit(st, s, username, password);
    if !ok then (st1, Rejected)
    else
      var (st2, alive) := HandleLines(st1, s, lines);
      if alive then (Cleanup(st2, s), Closed) else (st2, Aborted)
  }

  // ----------------------------------------------------------------------
  // The server as a transition system

  /** One atomic step of some session. */
  datatype Event =
    | Connect(s: Socket, username: string, password: string)
    | Receive(s: Socket, line: string)
    | Hangup(s: Socket)

  /** The state after `e`; `false` when `e` ended the process. */
  function Next(st: State, e: Event): (State, bool) {
    match e
    case Connect(s, u, p) => (Admit(st, s, u, p).0, true)
    case Receive(s, line) => HandleLine(st, s, line)
    case Hangup(s) => (Cleanup(st, s), true)
  }

  /** The invariant every step keeps. */
  predicate Inv(st: State) {
    && (forall g :: g in st.groups ==> NoDup(st.groups[g]))
    && (forall c :: c in st.clients ==> c in st.clientUsernames)
  }
}
