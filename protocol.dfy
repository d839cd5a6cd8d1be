/** The chat server's line protocol: how a received line is classified into
    a command by ordered prefix tests, how LOGIN and REGISTER lines are
    tokenised, and how an outgoing message is framed on the wire. */
module Protocol {
  import opened GoStrings

  /** The branch of the dispatcher a received line takes. */
  datatype Command = Quit | Logout | ListAll | ListOnline | Login | Register | Chat

  /** The keyword whose prefix test selects a command; a chat line has none. */
  function Keyword(c: Command): string {
    match c
    case Quit => "QUIT"
    case Logout => "LOGOUT"
    case ListAll => "LISTALL"
    case ListOnline => "LISTONLINE"
    case Login => "LOGIN"
    case Register => "REGISTER"
    case Chat => ""
  }

  /** The dispatcher's if-chain: the first keyword, in the order QUIT,
      LOGOUT, LISTALL, LISTONLINE, LOGIN, REGISTER, that is a prefix of the
      whole raw line decides; no match makes it a chat line. */
  function Classify(msg: string): (c: Command)
    ensures c != Chat ==> HasPrefix(msg, Keyword(c))
  {
    if HasPrefix(msg, "QUIT") then Quit
    else if HasPrefix(msg, "LOGOUT") then Logout
    else if HasPrefix(msg, "LISTALL") then ListAll
    else if HasPrefix(msg, "LISTONLINE") then ListOnline
    else if HasPrefix(msg, "LOGIN") then Login
    else if HasPrefix(msg, "REGISTER") then Register
    else Chat
  }

  /** When two strings are prefixes of the same line, the shorter is a prefix
      of the longer. */
  lemma PrefixOfCommonLine(msg: string, p: string, q: string)
    requires HasPrefix(msg, p) && HasPrefix(msg, q) && |p| <= |q|
    ensures HasPrefix(q, p)
  {
    assert q[..|p|] == msg[..|q|][..|p|] == msg[..|p|];
  }

  /** No line starts with two different keywords: none of the six keywords
      is a prefix of another. */
  lemma KeywordsExclusive(msg: string, c: Command, d: Command)
    requires c != Chat && d != Chat && c != d
    ensures !(HasPrefix(msg, Keyword(c)) && HasPrefix(msg, Keyword(d)))
  {
    var p, q := Keyword(c), Keyword(d);
    if HasPrefix(msg, p) && HasPrefix(msg, q) {
      if |p| <= |q| {
        PrefixOfCommonLine(msg, p, q);
        KeywordNotPrefix(p, q);
      } else {
        PrefixOfCommonLine(msg, q, p);
        KeywordNotPrefix(q, p);
      }
    }
  }

  /** The pairwise check behind KeywordsExclusive, keyword by keyword. */
  lemma KeywordNotPrefix(p: string, q: string)
    requires p in {"QUIT", "LOGOUT", "LISTALL", "LISTONLINE", "LOGIN", "REGISTER"}
    requires q in {"QUIT", "LOGOUT", "LISTALL", "LISTONLINE", "LOGIN", "REGISTER"}
    requires p != q
    ensures !HasPrefix(q, p)
  {
    if p[0] != q[0] {
      DifferAt(p, q, 0);
    } else if p[1] != q[1] {
      DifferAt(p, q, 1);
    } else if p[3] != q[3] {
      DifferAt(p, q, 3);
    } else {
      DifferAt(p, q, 4);
    }
  }

  /** Two strings that differ at a position both have are not prefixes of one
      another. */
  lemma DifferAt(p: string, q: string, i: nat)
    requires i < |p| && i < |q| && p[i] != q[i]
    ensures !HasPrefix(q, p)
  {
    if |p| <= |q| {
      assert q[..|p|][i] == q[i];
    }
  }

  /** Because the keywords are prefix-free, the order of the tests does not
      matter: a line takes a command's branch exactly when the command's
      keyword is a prefix of it, and it is a chat line exactly when no keyword
      is. So "QUITNOW" quits and "LOGINX a b" is handled as LOGIN. */
  lemma ClassifyByPrefix(msg: string, c: Command)
    ensures c != Chat ==> (Classify(msg) == c <==> HasPrefix(msg, Keyword(c)))
    ensures c == Chat ==> (Classify(msg) == Chat <==>
      forall d :: d != Chat ==> !HasPrefix(msg, Keyword(d)))
  {
    var k := Classify(msg);
    if c != Chat {
      if k != c && k != Chat && HasPrefix(msg, Keyword(c)) {
        KeywordsExclusive(msg, c, k);
      }
    } else if k == Chat {
      forall d | d != Chat ensures !HasPrefix(msg, Keyword(d)) {
        match d
        case Quit =>
        case Logout =>
        case ListAll =>
        case ListOnline =>
        case Login =>
        case Register =>
      }
    } else {
      assert HasPrefix(msg, Keyword(k));
    }
  }

  /** A command line as a client types it, "<KEYWORD> <user> <pass>", takes
      that keyword's branch. */
  lemma ClassifyCommandLine(c: Command, user: string, pass: string)
    requires c != Chat
    ensures Classify(Keyword(c) + " " + user + " " + pass) == c
  {
    var line := Keyword(c) + " " + user + " " + pass;
    assert line[..|Keyword(c)|] == Keyword(c);
    ClassifyByPrefix(line, c);
  }

  /** The pieces of a LOGIN or REGISTER line: `strings.SplitN(msg, " ", 3)`,
      that is command word, username and the rest of the line as password.
      The username never holds a space. */
  function Tokens(msg: string): (t: seq<string>)
    ensures 1 <= |t| <= 3
    ensures |t| == 3 ==> ' ' !in t[1]
  {
    SplitN(msg, ' ', 3)
  }

  /** A line has all three tokens exactly when it holds at least two spaces;
      then it is the command word, a space, the username, a space and the
      password, where only the password may hold further spaces. */
  lemma TokensShape(msg: string)
    ensures |Tokens(msg)| < 3 <==> Count(msg, ' ') < 2
    ensures var t := Tokens(msg);
      |t| == 3 ==> msg == t[0] + " " + t[1] + " " + t[2] && ' ' !in t[0]
  {
    var t := Tokens(msg);
    SplitNLength(msg, ' ', 3);
    if |t| == 3 {
      SplitNJoin(msg, ' ', 3);
      JoinThree(t[0], t[1], t[2], " ");
      assert t == [t[0], t[1], t[2]];
    }
  }

  /** A LOGIN or REGISTER line built from a separator-free command word and
      username and any password is tokenised back into exactly those three
      pieces: the password may hold spaces. */
  lemma TokensOfCommandLine(word: string, user: string, pass: string)
    requires ' ' !in word && ' ' !in user
    ensures Tokens(word + " " + user + " " + pass) == [word, user, pass]
  {
    var r := [word, user, pass];
    JoinThree(word, user, pass, " ");
    SplitNUnique(word + " " + user + " " + pass, ' ', 3, r);
  }

  /** ChatConn.Write's framing: the message followed by CRLF. */
  function Frame(message: string): (f: string)
    ensures |f| == |message| + 2 && HasPrefix(f, message)
    ensures Unframe(f) == message
  {
    message + "\r\n"
  }

  /** The content of a frame: everything but the trailing two characters (the
      server's own log line takes `str[:len(str)-2]`). */
  function Unframe(f: string): (message: string)
    requires |f| >= 2
    ensures |message| == |f| - 2 && HasPrefix(f, message)
  {
    f[..|f| - 2]
  }

  /** The index of the first QUIT line, or |lines| when there is none: the
      number of lines a connection's handler reads before it stops. */
  function QuitAt(lines: seq<string>): (i: nat)
    ensures i <= |lines|
    ensures forall k :: 0 <= k < i ==> Classify(lines[k]) != Quit
    ensures i < |lines| ==> Classify(lines[i]) == Quit
  {
    if lines == [] then 0
    else if Classify(lines[0]) == Quit then 0
    else 1 + QuitAt(lines[1..])
  }
}
