/**
 * The command line of one client message, as `handle_client` in
 * A1/server_grp.cpp takes it apart with an `std::istringstream`:
 * `iss >> word` reads one whitespace-delimited word, `std::getline` the
 * rest of the line, and `substr(1)` drops one leading character of it.
 */
module ChatCommand {
  import opened Common

  /** The characters `std::isspace` accepts in the "C" locale. */
  predicate IsSpace(c: char) {
    c == ' ' || c == '\t' || c == '\n' || c == '\r' || c == '\U{000B}' || c == '\U{000C}'
  }

  predicate NoSpace(w: string) {
    forall i :: 0 <= i < |w| ==> !IsSpace(w[i])
  }

  predicate AllSpace(w: string) {
    forall i :: 0 <= i < |w| ==> IsSpace(w[i])
  }

  /** The unread characters of a string stream, and whether it can still extract. */
  datatype Stream = Stream(rest: string, good: bool)

  /** What is left after skipping leading whitespace. */
  function SkipSpace(s: string): string {
    if s != [] && IsSpace(s[0]) then SkipSpace(s[1..]) else s
  }

  /** The length of the leading run of non-whitespace characters. */
  function WordLength(s: string): (n: nat)
    ensures n <= |s|
  {
    if s == [] || IsSpace(s[0]) then 0 else 1 + WordLength(s[1..])
  }

  /**
   * `iss >> word`: skips whitespace, then reads a maximal run of
   * non-whitespace. The stream fails when it reaches the end of its input
   * (before a word, or while reading one); a failed stream yields "".
   */
  function ReadWord(st: Stream): (string, Stream) {
    if !st.good then ("", st)
    else
      var t := SkipSpace(st.rest);
      if t == [] then ("", Stream([], false))
      else
        var n := WordLength(t);
        (t[..n], Stream(t[n..], n < |t|))
  }

  /** The characters before the first newline. */
  function LineOf(s: string): string {
    if s == [] || s[0] == '\n' then [] else [s[0]] + LineOf(s[1..])
  }

  /**
   * `std::getline(iss, text)` on a fresh `text`, then `text.substr(1)`:
   * `None` when the text is empty, where `substr(1)` throws.
   */
  function TrailingText(st: Stream): Option<string> {
    var text := if st.good then LineOf(st.rest) else "";
    if text == [] then None else Some(text[1..])
  }

  /** The commands `handle_client` tells apart. */
  datatype Command =
    | Broadcast(text: string)
    | Private(recipient: string, text: string)
    | Create(group: string)
    | Join(group: string)
    | Leave(group: string)
    | GroupMessage(group: string, text: string)
    | InvalidGroupCommand
    | InvalidCommand
    | OutOfRange  // `substr(1)` threw std::out_of_range: nothing is dispatched

  function WithText(t: Option<string>, f: string -> Command): Command {
    match t
    case None => OutOfRange
    case Some(text) => f(text)
  }

  /** The `/group` subcommands and their `_group` aliases, once the subcommand is read. */
  function DispatchGroup(sub: string, st: Stream): Command {
    if sub == "create" || sub == "create_group" then Create(ReadWord(st).0)
    else if sub == "join" || sub == "join_group" then Join(ReadWord(st).0)
    else if sub == "leave" || sub == "leave_group" then Leave(ReadWord(st).0)
    else if sub == "msg" || sub == "group_msg" then
      var (g, st1) := ReadWord(st);
      WithText(TrailingText(st1), text => GroupMessage(g, text))
    else InvalidGroupCommand
  }

  /** The dispatch of `handle_client` on the command word `cmd`, with the stream after it. */
  function Dispatch(cmd: string, st: Stream): Command {
    if cmd == "/broadcast" then WithText(TrailingText(st), text => Broadcast(text))
    else if cmd == "/msg" then
      var (r, st1) := ReadWord(st);
      WithText(TrailingText(st1), text => Private(r, text))
    else if cmd == "/group" then
      var (sub, st1) := ReadWord(st);
      DispatchGroup(sub, st1)
    else if cmd == "/create_group" then Create(ReadWord(st).0)
    else if cmd == "/join_group" then Join(ReadWord(st).0)
    else if cmd == "/group_msg" then
      var (g, st1) := ReadWord(st);
      WithText(TrailingText(st1), text => GroupMessage(g, text))
    else if cmd == "/leave_group" then Leave(ReadWord(st).0)
    else InvalidCommand
  }

  /** The command one received message holds. */
  function ParseCommand(line: string): Command {
    var (cmd, st) := ReadWord(Stream(line, true));
    Dispatch(cmd, st)
  }
}

/** What the tokenising of `handle_client` promises. */
module ChatCommandLemmas {
  import opened Common
  import opened ChatCommand

  lemma {:induction false} SkipLeadingSpace(ws: string, s: string)
    requires AllSpace(ws) && (s == [] || !IsSpace(s[0]))
    ensures SkipSpace(ws + s) == s
  {
    if ws != [] {
      assert (ws + s)[1..] == ws[1..] + s;
      SkipLeadingSpace(ws[1..], s);
    }
  }

  lemma {:induction false} WordLengthOf(w: string, r: string)
    requires NoSpace(w) && (r == [] || IsSpace(r[0]))
    ensures WordLength(w + r) == |w|
  {
    if w != [] {
      assert (w + r)[1..] == w[1..] + r;
      WordLengthOf(w[1..], r);
    }
  }

  /** `iss >> word` after whitespace `ws` reads exactly the word `w`; the stream fails iff nothing follows it. */
  lemma ReadWordOf(ws: string, w: string, r: string)
    requires AllSpace(ws) && w != [] && NoSpace(w) && (r == [] || IsSpace(r[0]))
    ensures ReadWord(Stream(ws + w + r, true)) == (w, Stream(r, r != []))
  {
    assert ws + w + r == ws + (w + r);
    SkipLeadingSpace(ws, w + r);
    var t := SkipSpace(ws + w + r);
    assert t == w + r;
    WordLengthOf(w, r);
    assert t[..|w|] == w && t[|w|..] == r;
  }

  /** A stream positioned at whitespace `ws` followed by `w` and `r`. */
  lemma ReadWordAfter(ws: string, w: string, r: string)
    requires AllSpace(ws) && ws != [] && w != [] && NoSpace(w) && (r == [] || IsSpace(r[0]))
    ensures ReadWord(Stream(ws + w + r, true)) == (w, Stream(r, r != []))
    ensures (ws + w + r)[0] == ws[0] && IsSpace(ws[0])
  {
    ReadWordOf(ws, w, r);
  }

  /** A message made of whitespace, the command word `w` and the text `r`. */
  lemma ParseWord(lead: string, w: string, r: string)
    requires AllSpace(lead) && w != [] && NoSpace(w) && (r == [] || IsSpace(r[0]))
    ensures ParseCommand(lead + w + r) == Dispatch(w, Stream(r, r != []))
  {
    ReadWordOf(lead, w, r);
  }

  /** `/group`, whitespace, the subcommand `sub` and the text `r`. */
  lemma ParseGroupWord(lead: string, ws: string, sub: string, r: string)
    requires AllSpace(lead) && AllSpace(ws) && ws != [] && (r == [] || IsSpace(r[0]))
    requires sub != [] && NoSpace(sub)
    ensures ParseCommand(lead + "/group" + ws + sub + r) == DispatchGroup(sub, Stream(r, r != []))
  {
    assert lead + "/group" + ws + sub + r == lead + "/group" + (ws + sub + r);
    ParseWord(lead, "/group", ws + sub + r);
    ReadWordOf(ws, sub, r);
  }

  /** The command words and subcommands are words: non-empty, without whitespace. */
  lemma CommandWordsAreWords()
    ensures forall w :: w in Commands || w in Subcommands ==> w != [] && NoSpace(w)
  {
  }

  /** Each `_group` command and subcommand alias dispatches like its short form. */
  lemma DispatchAliases(st: Stream)
    ensures Dispatch("/create_group", st) == DispatchGroup("create_group", st) == DispatchGroup("create", st)
    ensures DispatchGroup("create", st) == Create(ReadWord(st).0)
    ensures Dispatch("/join_group", st) == DispatchGroup("join_group", st) == DispatchGroup("join", st)
    ensures DispatchGroup("join", st) == Join(ReadWord(st).0)
    ensures Dispatch("/leave_group", st) == DispatchGroup("leave_group", st) == DispatchGroup("leave", st)
    ensures DispatchGroup("leave", st) == Leave(ReadWord(st).0)
    ensures Dispatch("/group_msg", st) == DispatchGroup("group_msg", st) == DispatchGroup("msg", st)
  {
  }

  /**
   * `/create_group`, `/group create` and `/group create_group` read the
   * same group name from the same remaining text.
   */
  lemma CreateAliases(lead: string, ws: string, r: string)
    requires AllSpace(lead) && AllSpace(ws) && ws != [] && (r == [] || IsSpace(r[0]))
    ensures ParseCommand(lead + "/create_group" + r) == Create(ReadWord(Stream(r, r != [])).0)
    ensures ParseCommand(lead + "/group" + ws + "create" + r) == Create(ReadWord(Stream(r, r != [])).0)
    ensures ParseCommand(lead + "/group" + ws + "create_group" + r) == Create(ReadWord(Stream(r, r != [])).0)
  {
    CommandWordsAreWords();
    DispatchAliases(Stream(r, r != []));
    ParseWord(lead, "/create_group", r);
    ParseGroupWord(lead, ws, "create", r);
    ParseGroupWord(lead, ws, "create_group", r);
  }

  /** `/join_group`, `/group join` and `/group join_group` read the same group name. */
  lemma JoinAliases(lead: string, ws: string, r: string)
    requires AllSpace(lead) && AllSpace(ws) && ws != [] && (r == [] || IsSpace(r[0]))
    ensures ParseCommand(lead + "/join_group" + r) == Join(ReadWord(Stream(r, r != [])).0)
    ensures ParseCommand(lead + "/group" + ws + "join" + r) == Join(ReadWord(Stream(r, r != [])).0)
    ensures ParseCommand(lead + "/group" + ws + "join_group" + r) == Join(ReadWord(Stream(r, r != [])).0)
  {
    CommandWordsAreWords();
    DispatchAliases(Stream(r, r != []));
    ParseWord(lead, "/join_group", r);
    ParseGroupWord(lead, ws, "join", r);
    ParseGroupWord(lead, ws, "join_group", r);
  }

  /** `/leave_group`, `/group leave` and `/group leave_group` read the same group name. */
  lemma LeaveAliases(lead: string, ws: string, r: string)
    requires AllSpace(lead) && AllSpace(ws) && ws != [] && (r == [] || IsSpace(r[0]))
    ensures ParseCommand(lead + "/leave_group" + r) == Leave(ReadWord(Stream(r, r != [])).0)
    ensures ParseCommand(lead + "/group" + ws + "leave" + r) == Leave(ReadWord(Stream(r, r != [])).0)
    ensures ParseCommand(lead + "/group" + ws + "leave_group" + r) == Leave(ReadWord(Stream(r, r != [])).0)
  {
    CommandWordsAreWords();
    DispatchAliases(Stream(r, r != []));
    ParseWord(lead, "/leave_group", r);
    ParseGroupWord(lead, ws, "leave", r);
    ParseGroupWord(lead, ws, "leave_group", r);
  }

  /** `/group_msg`, `/group msg` and `/group group_msg` read the same group name and text. */
  lemma MessageAliases(lead: string, ws: string, r: string)
    requires AllSpace(lead) && AllSpace(ws) && ws != [] && (r == [] || IsSpace(r[0]))
    ensures ParseCommand(lead + "/group_msg" + r) == ParseCommand(lead + "/group" + ws + "msg" + r)
    ensures ParseCommand(lead + "/group" + ws + "group_msg" + r) == ParseCommand(lead + "/group" + ws + "msg" + r)
  {
    CommandWordsAreWords();
    DispatchAliases(Stream(r, r != []));
    ParseWord(lead, "/group_msg", r);
    ParseGroupWord(lead, ws, "msg", r);
    ParseGroupWord(lead, ws, "group_msg", r);
  }

  /** The command words `handle_client` recognises, and the `/group` subcommands. */
  const Commands: set<string> :=
    {"/broadcast", "/msg", "/group", "/create_group", "/join_group", "/group_msg", "/leave_group"}
  const Subcommands: set<string> :=
    {"create", "create_group", "join", "join_group", "leave", "leave_group", "msg", "group_msg"}

  /** "Invalid command." is the answer exactly when the first word is none of the command words. */
  lemma InvalidCommandIff(line: string)
    ensures ParseCommand(line) == InvalidCommand <==> ReadWord(Stream(line, true)).0 !in Commands
  {
  }

  /** "Invalid group command." is the answer exactly for `/group` with an unknown subcommand. */
  lemma InvalidGroupCommandIff(line: string)
    ensures ParseCommand(line) == InvalidGroupCommand <==>
      var (cmd, st) := ReadWord(Stream(line, true));
      cmd == "/group" && ReadWord(st).0 !in Subcommands
  {
    var (cmd, st) := ReadWord(Stream(line, true));
    if cmd == "/group" {
      var (sub, st1) := ReadWord(st);
      UnknownSubcommandIff(sub, st1);
    } else {
      OtherCommandIsNotGroup(cmd, st);
    }
  }

  lemma UnknownSubcommandIff(sub: string, st: Stream)
    ensures DispatchGroup(sub, st) == InvalidGroupCommand <==> sub !in Subcommands
  {
    if sub == "msg" || sub == "group_msg" {
      var (g, st1) := ReadWord(st);
      assert WithText(TrailingText(st1), text => GroupMessage(g, text)) != InvalidGroupCommand;
    }
  }

  lemma OtherCommandIsNotGroup(cmd: string, st: Stream)
    requires cmd != "/group"
    ensures Dispatch(cmd, st) != InvalidGroupCommand
  {
    var (w, st1) := ReadWord(st);
    if cmd == "/broadcast" {
      assert WithText(TrailingText(st), text => Broadcast(text)) != InvalidGroupCommand;
    } else if cmd == "/msg" {
      assert WithText(TrailingText(st1), text => Private(w, text)) != InvalidGroupCommand;
    } else if cmd == "/group_msg" {
      assert WithText(TrailingText(st1), text => GroupMessage(w, text)) != InvalidGroupCommand;
    }
  }

  lemma {:induction false} LineOfNoNewline(t: string)
    requires '\n' !in t
    ensures LineOf(t) == t
  {
    if t != [] {
      assert '\n' !in t[1..] by {
        assert forall k :: 0 <= k < |t[1..]| ==> t[1..][k] == t[k + 1];
      }
      LineOfNoNewline(t[1..]);
      assert [t[0]] + t[1..] == t;
    }
  }

  /** The trailing text after a separator `c` is the rest of the line: `substr(1)` drops `c`. */
  lemma TrailingTextAfter(c: char, t: string)
    requires c != '\n'
    ensures TrailingText(Stream([c] + t, true)) == Some(LineOf(t))
  {
    assert ([c] + t)[1..] == t;
  }

  /** A text with no newline is passed on whole. */
  lemma BroadcastText(lead: string, c: char, t: string)
    requires AllSpace(lead) && IsSpace(c) && c != '\n'
    ensures ParseCommand(lead + "/broadcast" + [c] + t) == Broadcast(LineOf(t))
    ensures '\n' !in t ==> ParseCommand(lead + "/broadcast" + [c] + t) == Broadcast(t)
  {
    assert lead + "/broadcast" + [c] + t == lead + "/broadcast" + ([c] + t);
    ParseWord(lead, "/broadcast", [c] + t);
    TrailingTextAfter(c, t);
    if '\n' !in t {
      LineOfNoNewline(t);
    }
  }

  /** `/msg` reads the recipient word, then the text after one separator. */
  lemma PrivateText(lead: string, ws: string, r: string, c: char, t: string)
    requires AllSpace(lead) && AllSpace(ws) && ws != [] && r != [] && NoSpace(r)
    requires IsSpace(c) && c != '\n'
    ensures ParseCommand(lead + "/msg" + ws + r + [c] + t) == Private(r, LineOf(t))
  {
    assert lead + "/msg" + ws + r + [c] + t == lead + "/msg" + (ws + r + ([c] + t));
    ParseWord(lead, "/msg", ws + r + ([c] + t));
    ReadWordOf(ws, r, [c] + t);
    TrailingTextAfter(c, t);
  }

  /** `/group msg` reads the group word, then the text after one separator. */
  lemma GroupMessageText(lead: string, ws: string, ws': string, g: string, c: char, t: string)
    requires AllSpace(lead) && AllSpace(ws) && ws != [] && AllSpace(ws') && ws' != []
    requires g != [] && NoSpace(g) && IsSpace(c) && c != '\n'
    ensures ParseCommand(lead + "/group" + ws + "msg" + (ws' + g + [c] + t)) == GroupMessage(g, LineOf(t))
  {
    var r := ws' + g + [c] + t;
    assert r[0] == ws'[0];
    ParseGroupWord(lead, ws, "msg", r);
    GroupMessageDispatch(ws', g, c, t);
  }

  lemma GroupMessageDispatch(ws': string, g: string, c: char, t: string)
    requires AllSpace(ws') && ws' != [] && g != [] && NoSpace(g) && IsSpace(c) && c != '\n'
    ensures DispatchGroup("msg", Stream(ws' + g + [c] + t, true)) == GroupMessage(g, LineOf(t))
  {
    assert ws' + g + [c] + t == ws' + g + ([c] + t);
    ReadWordOf(ws', g, [c] + t);
    TrailingTextAfter(c, t);
  }

  /** With nothing after the command word but a line end, `substr(1)` throws. */
  lemma BroadcastWithoutText(lead: string, t: string)
    requires AllSpace(lead) && (t == [] || t[0] == '\n')
    ensures ParseCommand(lead + "/broadcast" + t) == OutOfRange
  {
    ParseWord(lead, "/broadcast", t);
  }

  /** `/msg` with a recipient and no text throws too. */
  lemma PrivateWithoutText(lead: string, ws: string, r: string)
    requires AllSpace(lead) && AllSpace(ws) && ws != [] && r != [] && NoSpace(r)
    ensures ParseCommand(lead + "/msg" + ws + r) == OutOfRange
  {
    assert lead + "/msg" + ws + r == lead + "/msg" + (ws + r);
    ParseWord(lead, "/msg", ws + r);
    assert ws + r == ws + r + [];
    ReadWordOf(ws, r, []);
  }
}
