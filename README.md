# Chat server, handshake checksum and routing simulator — a Dafny model

This project models the sequential core of three networking programs and
proves properties of the model:

- **The multi-user chat server** (A1/server_grp.cpp). It covers:
  - the credential file parsing of `load_users`;
  - the check of `authenticate_user`;
  - the three delivery rules (broadcast, private message, group message);
  - group create, join and leave;
  - the `std::istringstream` tokenising and alias dispatch of `handle_client`;
  - the cleanup after a session.

  The process-wide maps and vectors are the fields of the class
  `ChatServer.Server`. Each of its methods changes them in place, and each
  promises that the new state is the pure transition of the same name in
  `ChatSpec`. Every `send` is appended to an outbox, in order. The lemmas in
  `ChatProperties` and `ChatCommandLemmas` state what those transitions
  promise.
- **The raw-socket TCP client** (A3/client.cpp). It covers:
  - the Internet checksum `checksum`, the loop of section 4.1 of RFC 1071,
    as an imperative method proved equal to a function on the input bytes;
  - the properties of that checksum: word count, odd-byte padding, the
    folds as a ones'-complement sum, order independence, and verification;
  - the 32 bytes `send_tcp_packet` feeds it: the pseudo header of
    section 3.1 of RFC 793, then the TCP header;
  - the SYN-ACK test of the handshake wait loop and the numbers of the
    final ACK.
- **The routing simulator** (A4/routing_sim.cpp). It covers:
  - `simulateDVR` over two-dimensional arrays: the neighbour relaxation
    repeated until nothing changes;
  - `simulateLSR` over arrays: Dijkstra from every source;
  - the next-hop walk of `printLSRTable`;
  - the matrix fill of `readGraphFromFile`.

  Termination of the distance-vector loop is proved by a measure, the sum of
  the off-diagonal distances. Both algorithms are proved to yield shortest
  routes when the link costs are non-negative: each finite distance is the
  cost of an actual path, and no path costs less.

The files:

| Module | Contents |
|---|---|
| `Common` | `Option` |
| `ChatCommand`, `ChatCommandLemmas` | How `handle_client` takes a line apart |
| `ChatSpec` | The server state and one transition per locked function |
| `ChatProperties` | What the transitions promise, alone and in sequence |
| `ChatServer` | The class over that state |
| `Checksum`, `Handshake` | A3 |
| `Graph`, `DistanceVector`, `LinkState` | A4 |

Two behaviours of the code may be unexpected. The model follows the code:

- **A group message reaches its own sender.** A reader might expect the
  sender to be skipped, but the loop over the members does not skip them,
  so a member who is online receives their own group message
  (A1/server_grp.cpp:102-106). `ChatProperties.SenderReceivesOwnGroupMessage`
  states what the code does.
- **An empty trailing text ends the process.** A bad command might be
  expected to be non-fatal, but `substr(1)` on an empty trailing text throws
  `std::out_of_range`. Nothing catches it, so the whole process ends. The
  parse yields `OutOfRange`, and `HandleLine` returns `false` ("the process
  ended").

The cleanup erases `username_to_socket[client_usernames[s]]` even when a
later login of the same user replaced that entry (A1/server_grp.cpp:252).
`ChatProperties.ReloginLosesEntry` and `ChatProperties.ReloginMisroutes`
state the consequence, as coded.

## Model

| member | source | states |
|---|---|---|
| ChatCommandLemmas.ReadWordOf | A1/server_grp.cpp:189-190 | `iss >> word` after any whitespace reads exactly the next whitespace-free word; the stream stays good iff something follows it |
| ChatCommandLemmas.ParseWord | A1/server_grp.cpp:187-192 | a message made of whitespace, a command word w and the rest r is dispatched on w, with the stream positioned at r |
| ChatCommandLemmas.ParseGroupWord | A1/server_grp.cpp:203-206 | `/group` followed by a subcommand is dispatched on that subcommand, with the stream positioned after it |
| ChatCommandLemmas.DispatchAliases | A1/server_grp.cpp:206-242 | on any stream, `/create_group`, `/join_group` and `/leave_group` and the long and short subcommands of `/group` select the same operation on the next word |
| ChatCommandLemmas.CreateAliases | A1/server_grp.cpp:206-208 | `/create_group g`, `/group create g` and `/group create_group g` all create the group named by the same next word |
| ChatCommandLemmas.JoinAliases | A1/server_grp.cpp:209-211 | `/join_group`, `/group join` and `/group join_group` all join the group named by the same next word |
| ChatCommandLemmas.LeaveAliases | A1/server_grp.cpp:212-214 | `/leave_group`, `/group leave` and `/group leave_group` all leave the group named by the same next word |
| ChatCommandLemmas.MessageAliases | A1/server_grp.cpp:215-220 | `/group_msg` and `/group group_msg` parse to exactly what `/group msg` parses to, group and text alike |
| ChatCommandLemmas.InvalidCommandIff | A1/server_grp.cpp:243-246 | "Invalid command." is the outcome iff the first word is none of the seven command words |
| ChatCommandLemmas.InvalidGroupCommandIff | A1/server_grp.cpp:221-224 | "Invalid group command." is the outcome iff the first word is `/group` and the subcommand is none of the eight known ones |
| ChatCommandLemmas.TrailingTextAfter | A1/server_grp.cpp:193-195 | the trailing text is the rest of the line with exactly its one leading character dropped |
| ChatCommandLemmas.BroadcastText | A1/server_grp.cpp:192-196 | `/broadcast` then one separator then t broadcasts the line t, and exactly t when t has no newline |
| ChatCommandLemmas.PrivateText | A1/server_grp.cpp:197-202 | `/msg r` then one separator then t sends the line t privately to r |
| ChatCommandLemmas.GroupMessageText | A1/server_grp.cpp:215-220 | `/group msg g` then one separator then t sends the line t to group g |
| ChatCommandLemmas.BroadcastWithoutText | A1/server_grp.cpp:194-195 | `/broadcast` with nothing before the line end makes `substr(1)` throw: nothing is dispatched |
| ChatCommandLemmas.PrivateWithoutText | A1/server_grp.cpp:200-201 | `/msg r` with no text makes `substr(1)` throw too |
| ChatSpec.IndexOf | A1/server_grp.cpp:132 | `std::find`: the first position holding x, or the length iff x does not occur |
| ChatSpec.Without | A1/server_grp.cpp:251 | erase-remove: every occurrence of the socket gone, every other element kept with its multiplicity |
| ChatSpec.ParseCredential | A1/server_grp.cpp:38-41 | a line yields a credential iff it has a colon; the username has no colon, so the split is at the first one and later colons stay in the password |
| ChatSpec.AuthenticateUser | A1/server_grp.cpp:50-70 | two prompts, then success iff the username is a key whose password equals the one submitted; success sets both maps and says "Welcome to the server!", failure changes no map and says "Authentication failed" |
| ChatSpec.Admit | A1/server_grp.cpp:169-177 | a successful login appends the socket to `clients`; a failed one changes nothing but the outbox |
| ChatSpec.SendPrivateMessage | A1/server_grp.cpp:83-93 | exactly one send: "[sender] text" to the recipient's socket when the recipient has an entry, else "User r not found." to the sender; a found recipient inserts the empty default name for an unnamed sender, no other map changes |
| ChatSpec.SendGroupMessage | A1/server_grp.cpp:96-112 | for a known group, the group text goes to the members that have sockets, in member order, and an unnamed sender gets the empty default name; for an unknown group, one "Group g not found." to the sender and nothing else |
| ChatSpec.CreateGroup | A1/server_grp.cpp:115-125 | a new group gets exactly `[creator]` and the reply "created successfully."; an existing one is unchanged and the reply is "already exists."; each reply goes only to `username_to_socket[user]` |
| ChatSpec.JoinGroup | A1/server_grp.cpp:128-144 | join appends the user only when absent; otherwise groups are unchanged and the one reply is "already a member" or "not found" |
| ChatSpec.LeaveGroup | A1/server_grp.cpp:147-164 | leave erases the first occurrence only when present; otherwise groups are unchanged and the one reply is "not a member" or "not found"; a group is never removed |
| ChatSpec.Cleanup | A1/server_grp.cpp:249-254 | every occurrence of the socket leaves `clients`, the entry of its username and its own entry are erased, groups, credentials and sends are untouched |
| ChatProperties.LastLineWins | A1/server_grp.cpp:37-46 | the password a username ends up with is the one on the last line naming it |
| ChatProperties.UnnamedUnchanged | A1/server_grp.cpp:37-46 | a username no line names keeps whatever entry it had, or stays absent |
| ChatProperties.LineWithoutColon | A1/server_grp.cpp:39-45 | a line without a colon adds nothing |
| ChatProperties.BroadcastReachesOthers | A1/server_grp.cpp:73-80 | a broadcast writes the message to exactly the elements of `clients` other than the sender, in list order |
| ChatProperties.GroupReachesOnline | A1/server_grp.cpp:102-106 | a group message reaches exactly the members with a socket entry, in member order, one send each |
| ChatProperties.OnlineAndOffline | A1/server_grp.cpp:102-107 | with one online and one offline member, exactly one send is made, to the online one, and no error |
| ChatProperties.SenderReceivesOwnGroupMessage | A1/server_grp.cpp:102-106 | an online member who sends to their own group receives the message too |
| ChatProperties.CreateTwice | A1/server_grp.cpp:117-123 | creating a group twice fails the second time with "already exists." and leaves the members `[creator]` |
| ChatProperties.JoinTwice | A1/server_grp.cpp:132-138 | a second join changes no group and replies "already a member" |
| ChatProperties.LeaveTwice | A1/server_grp.cpp:151-158 | on a duplicate-free list, a second leave changes no group and replies "not a member", and the group survives |
| ChatProperties.RemoveFirstOfUnique | A1/server_grp.cpp:151-153 | leave erases one occurrence; on a duplicate-free list the user is then absent and the list still has no duplicate |
| ChatProperties.JoinThenLeave | A1/server_grp.cpp:128-164 | joining a group one is not in and then leaving it restores every group |
| ChatProperties.UnknownGroup | A1/server_grp.cpp:140-143 | join and leave of an unknown group change no group and send exactly "Group g not found." to `username_to_socket[user]` |
| ChatProperties.ExecuteKeepsInv | A1/server_grp.cpp:192-246 | every branch of the dispatch keeps member lists duplicate-free and every listed client named |
| ChatProperties.NextKeepsInv | A1/server_grp.cpp:168-256 | so does every login, message and hangup |
| ChatProperties.ExecuteKeepsHistory | A1/server_grp.cpp:192-246 | no branch of the dispatch changes a credential, removes a group or loses a recorded send |
| ChatProperties.NextKeepsHistory | A1/server_grp.cpp:168-256 | neither does any login, message or hangup |
| ChatProperties.RunKeepsInv | A1/server_grp.cpp:168-256 | the invariant holds after any run of events |
| ChatProperties.InitialInv | A1/server_grp.cpp:21-25 | the empty initial state satisfies the invariant |
| ChatProperties.ReloginLosesEntry | A1/server_grp.cpp:252 | after two logins of one user and the hangup of the first, the user has no socket entry, although the second socket is still connected |
| ChatProperties.ReloginMisroutes | A1/server_grp.cpp:85-91 | the still-connected user is then "not found" for private messages, and the replies to their group commands go to socket 0 |
| ChatServer.Find | A1/server_grp.cpp:132 | the search loop returns the position `std::find` returns |
| ChatServer.Remove | A1/server_grp.cpp:251 | the filtering loop keeps exactly what erase-remove keeps |
| ChatServer.Server.constructor | A1/server_grp.cpp:21-25 | the globals start empty |
| ChatServer.Server.LoadUsers | A1/server_grp.cpp:36-46 | the `getline` loop leaves `users` as the lines assign it, nothing else changed |
| ChatServer.Server.SocketFor | A1/server_grp.cpp:120 | `username_to_socket[user]` yields the entry or 0, and inserts 0 when absent |
| ChatServer.Server.UsernameFor | A1/server_grp.cpp:99 | `client_usernames[s]` yields the name or "", and inserts "" when absent |
| ChatServer.Server.Reply | A1/server_grp.cpp:120 | one send to `username_to_socket[user]` |
| ChatServer.Server.AuthenticateUser | A1/server_grp.cpp:50-70 | the new state and answer are those of `ChatSpec.AuthenticateUser` |
| ChatServer.Server.BroadcastMessage | A1/server_grp.cpp:73-80 | the loop over `clients` makes the sends of `ChatSpec.BroadcastMessage` |
| ChatServer.Server.SendPrivateMessage | A1/server_grp.cpp:83-93 | the new state is that of `ChatSpec.SendPrivateMessage` |
| ChatServer.Server.SendGroupMessage | A1/server_grp.cpp:96-112 | the loop over the members makes the sends of `ChatSpec.SendGroupMessage` |
| ChatServer.Server.CreateGroup | A1/server_grp.cpp:115-125 | the new state is that of `ChatSpec.CreateGroup` |
| ChatServer.Server.JoinGroup | A1/server_grp.cpp:128-144 | the new state is that of `ChatSpec.JoinGroup` |
| ChatServer.Server.LeaveGroup | A1/server_grp.cpp:147-164 | the new state is that of `ChatSpec.LeaveGroup` |
| ChatServer.Server.HandleLine | A1/server_grp.cpp:187-246 | one message dispatched: the new state and liveness are those of `ChatSpec.HandleLine` |
| ChatServer.Server.Execute | A1/server_grp.cpp:192-246 | the branch for the parsed command: the new state and liveness are those of `ChatSpec.Execute` |
| ChatServer.Server.Cleanup | A1/server_grp.cpp:249-254 | the new state is that of `ChatSpec.Cleanup` |
| ChatServer.Server.HandleClient | A1/server_grp.cpp:168-256 | a whole session (login, message loop, cleanup) ends in the state and outcome of `ChatSpec.HandleClient` |
| Checksum.ComputeChecksum | A3/client.cpp:22-43 | the word loop, the odd byte, the folds and the complement compute `ChecksumOf` of the input bytes |
| Checksum.WordsLength | A3/client.cpp:27-36 | the loop adds ⌊n/2⌋ words, plus one for an odd final byte |
| Checksum.WordsOfConcat | A3/client.cpp:27-30 | words never straddle an even boundary |
| Checksum.WordAt | A3/client.cpp:27-36 | word k is the load of bytes 2k and 2k+1; an odd last byte is padded with a zero second byte |
| Checksum.OddTail | A3/client.cpp:32-36 | an odd final byte is added as a word of its own, with a zero high byte |
| Checksum.OnesSumIsResidue | A3/client.cpp:28 | the word-by-word ones'-complement sum is the residue of the plain sum modulo 0xFFFF |
| Checksum.FoldIsResidue | A3/client.cpp:38-39 | below 2^32, the two folds leave the ones'-complement residue in the low 16 bits |
| Checksum.ChecksumIsComplementOfOnesSum | A3/client.cpp:38-42 | the result plus the ones'-complement sum of the words is 0xFFFF |
| Checksum.EmptyChecksum | A3/client.cpp:22-43 | zero bytes give 0xFFFF |
| Checksum.SumOfPermutation | A3/client.cpp:27-30 | the raw sum depends only on which words occur and how often |
| Checksum.ChecksumOfPermutation | A3/client.cpp:27-42 | the checksum is the same for any order of the same words |
| Checksum.StoredChecksumVerifies | A3/client.cpp:90-94 | computed with a zero check field and stored there, the checksum makes the same bytes sum to 0 |
| Handshake.HeaderBytes | A3/client.cpp:68-78 | the TCP header in memory is 20 bytes |
| Handshake.PseudoHeader | A3/client.cpp:82-87 | the pseudo header is 12 bytes: the addresses, a zero, the protocol and the TCP length |
| Handshake.ChecksumInput | A3/client.cpp:90-92 | the checksum input is the 32 bytes of pseudo header then header |
| Handshake.SendTcpPacket | A3/client.cpp:46-94 | the header carries the given ports, numbers and flags and window 8192 |
| Handshake.SentHeaderVerifies | A3/client.cpp:77-94 | the receiver's checksum over the pseudo header and a header `send_tcp_packet` built is 0 |
| Handshake.CheckFieldVerifies | A3/client.cpp:77-94 | storing the checksum computed with a zero check field makes the input verify |
| Handshake.FirstSynAck | A3/client.cpp:147-154 | the first received datagram that is TCP, from port 12345 to port 54321, with SYN and ACK set; none iff no datagram is |
| Handshake.AwaitSynAck | A3/client.cpp:142-165 | the wait loop skips failures and other datagrams and stops at the first SYN-ACK |
| Handshake.FinalAck | A3/client.cpp:168-173 | the final segment has seq 600, ack the server's sequence number plus one modulo 2^32, SYN clear, ACK set |
| Handshake.ClientHandshake | A3/client.cpp:135-173 | a SYN with seq 200 is sent first; the final ACK follows iff a SYN-ACK arrived; every segment goes from 54321 to 12345 |
| Handshake.SegmentsVerify | A3/client.cpp:135-173 | every segment of the handshake carries a checksum the server accepts |
| Handshake.AckWrapsAround | A3/client.cpp:169 | the acknowledgement of sequence number 2^32-1 wraps to 0 |
| Handshake.HandshakeWithServer | A3/client.cpp:142-173 | a server answering with sequence number 400, after any other datagrams, gets ack 401 from seq 600 |
| Graph.ReadGraph | A4/routing_sim.cpp:149-155 | the first integer is n; the matrix is n by n, filled row-major from the next n·n integers (0 once they run out); a negative n fails |
| DistanceVector.InitNextHop | A4/routing_sim.cpp:33-44 | `nextHop` starts -1 on the diagonal, j over a direct link, -1 otherwise |
| DistanceVector.InitialTable | A4/routing_sim.cpp:32-44 | the initial tables satisfy the invariant every update keeps |
| DistanceVector.UpdateKeepsTable | A4/routing_sim.cpp:65-67 | an update through neighbour k keeps the invariant and strictly lowers the termination measure |
| DistanceVector.CostUpdate | A4/routing_sim.cpp:66 | lowering one off-diagonal distance lowers the measure by the same amount |
| DistanceVector.TableCostNonNegative | A4/routing_sim.cpp:48-74 | the measure is never negative, so the rounds cannot lower it forever |
| DistanceVector.AtMostDirectLink | A4/routing_sim.cpp:32-66 | every distance is at most the cost of the direct link |
| DistanceVector.StableRoutesExact | A4/routing_sim.cpp:48-74 | at the fixpoint, a route is INF with no hop, the direct link, or the link to a neighbour plus that neighbour's distance |
| DistanceVector.StableIsShortest | A4/routing_sim.cpp:48-74 | at the fixpoint with non-negative links, every distance is at most the cost of every path |
| DistanceVector.RelaxEntry | A4/routing_sim.cpp:59-71 | the loop over k leaves no neighbour offering a shorter way to j, keeps the invariant, and changes something only by lowering the measure |
| DistanceVector.RelaxRound | A4/routing_sim.cpp:50-73 | a round that changes nothing ends at the fixpoint; a round that updates lowers the measure |
| DistanceVector.InitialWitnessed | A4/routing_sim.cpp:32-44 | before any round, every finite distance is a direct link, itself a path of that cost |
| DistanceVector.UpdateKeepsWitnessed | A4/routing_sim.cpp:65-67 | lowering `dist[i][j]` to the way through k keeps every finite distance backed by a path that costs no more: the link i→k in front of k's path |
| DistanceVector.StableIsLeastCost | A4/routing_sim.cpp:46-74 | at the fixpoint, each finite distance is the cost of an actual path from i to j, so with `StableIsShortest` it is the least path cost |
| DistanceVector.SimulateDVR | A4/routing_sim.cpp:30-74 | the `do … while (updated)` loop terminates with tables satisfying the invariant at a fixpoint, every finite distance backed by a path that costs no more |
| LinkState.InitialInv | A4/routing_sim.cpp:101-104 | `dist[src] = 0`, all else INF, `prev` all -1, none visited: the loop invariant holds |
| LinkState.SelectMin | A4/routing_sim.cpp:109-116 | -1 iff every unvisited node is at INF or more; otherwise the unvisited node of least distance below INF, the lowest index on ties |
| LinkState.RelaxOnlyLowers | A4/routing_sim.cpp:127-133 | relaxation only lowers `dist[v]`, only for an unvisited v over a real link, and then sets `prev[v]` to u |
| LinkState.Relax | A4/routing_sim.cpp:127-133 | the loop over v makes `dist` and `prev` what relaxing u's links gives |
| LinkState.VisitKeepsInv | A4/routing_sim.cpp:107-133 | visiting the selected node and relaxing its links keeps the invariant, one more node visited |
| LinkState.FinalRelaxed | A4/routing_sim.cpp:107-134 | when the loop stops, no link offers a shortcut (non-negative links) |
| LinkState.ShortestPaths | A4/routing_sim.cpp:100-134 | per source, `prev` forms a tree from the source whose walks cost `dist`, and `dist` has no shortcut when links are non-negative |
| LinkState.TreePathCost | A4/routing_sim.cpp:127-133 | the walk back along `prev` from a reachable node is a path from the source costing exactly `dist[v]` |
| LinkState.RelaxedIsShortest | A4/routing_sim.cpp:98-134 | distances with no shortcut are at most the cost of every path from the source |
| LinkState.StopIsFirstHop | A4/routing_sim.cpp:88-91 | the walk stops at the node whose predecessor is the source: the second node of the path from the source |
| LinkState.NextHop | A4/routing_sim.cpp:88-91 | the walk gives -1 iff the node is unreachable; otherwise the first hop of its tree path, whose predecessor is the source |
| LinkState.RouteOfTree | A4/routing_sim.cpp:82-92 | a table row built from the tree describes a real route of its cost leaving by its next hop, and a shortest one on non-negative links |
| LinkState.LsrTable | A4/routing_sim.cpp:82-94 | one row for each destination but the source, in order, each with `dist` as its cost and a correct route |
| LinkState.SimulateLSR | A4/routing_sim.cpp:98-138 | a table for every source, each row a real and (on non-negative links) shortest route |

## Left out

- A2/dns_sol.py is not part of this model. It is network queries through a resolver library, with timeouts and printing.
- Sockets, threads and the mutex of the chat server are left out. Each locked function is one atomic step, and each `send` is an append to the outbox.
- `authenticate_user` writes the two maps without holding the lock (A1/server_grp.cpp:63-64). The race this allows with other sessions is not modelled.
- A `recv` buffer of 1024 bytes that is not NUL-terminated is not modelled; neither are send lengths that count the trailing NUL. Received texts are strings.
- A client that hangs up before sending its password, or a `recv` that fails during login, is not modelled. The login takes the two submitted texts as parameters.
- Opening `users.txt` is not modelled, nor is the exit when it is missing; `LoadUsers` takes the file's lines. Opening the graph file is not modelled either; `ReadGraph` takes its integers.
- Graph.ReadGraph: non-numeric text in the graph file and stream failure are not modelled. A huge n that exhausts memory is not modelled. The input is a sequence of integers.
- The raw socket, `IP_HDRINCL`, the IP header, `sendto` and `inet_addr` are left out. An address is the four bytes `inet_addr` leaves in memory, and a received datagram is decoded into its protocol and TCP fields.
- Handshake.AwaitSynAck: the packets `recv` returns are a parameter, and a `recv` failure is one element of it. The loop itself performs no I/O. The C++ `while (true)` never leaves without a SYN-ACK; a finite run in which none arrives stands for "still waiting", and the handshake then shows only the SYN.
- Checksum.ComputeChecksum: the sum of a `long` is an unbounded integer. It agrees with the 64-bit sum for every input the client passes, since that is 32 bytes.
- Console output is left out: `printDVRTable` entirely, and the printing in `printLSRTable` (its rows are returned instead).
- The command-line argument handling, timing and `main` of the routing simulator are left out.
- DistanceVector.SimulateDVR: requires non-negative link costs, which the code does not check. A negative cycle can keep the `do … while (updated)` loop from terminating.
- DistanceVector.SimulateDVR, LinkState.SimulateLSR: the sums `graph[i][k] + dist[k][j]` and `dist[u] + graph[u][v]` are unbounded integers. 32-bit overflow, which needs costs near 2^31, is not modelled.
- LinkState.RouteOfTree, LinkState.LsrTable, LinkState.SimulateLSR: that every route is shortest is stated only for non-negative link costs. Dijkstra does not promise it otherwise. Reachability and path cost are stated for all inputs.
