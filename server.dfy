/** The chat server's shared state and its per-line dispatcher, run as a
    sequential state machine: each received line is one atomic step. */
module ChatServer {
  import opened GoStrings
  import opened Protocol

  /** A live connection; stands for the *ChatConn reference that keys the
      registry. */
  type ConnId = nat

  /** One socket write: `frame` sent to connection `to`. */
  datatype Delivery = Delivery(to: ConnId, frame: string)

  ghost predicate Distinct<T>(xs: seq<T>) {
    forall i, j :: 0 <= i < j < |xs| ==> xs[i] != xs[j]
  }

  /** `xs` lists every element of `s` exactly once, in some order: what a Go
      `range` over a map, or a store cursor over a bucket, visits. */
  ghost predicate Enumerates<T(!new)>(xs: seq<T>, s: set<T>) {
    Distinct(xs) && forall x :: x in xs <==> x in s
  }

  /** An enumeration has one entry per element of the set. */
  lemma {:induction false} EnumerationSize<T(!new)>(xs: seq<T>, s: set<T>)
    requires Enumerates(xs, s)
    ensures |xs| == |s|
  {
    if xs == [] {
      assert s == {};
    } else {
      var x, rest := xs[0], xs[1..];
      forall y ensures y in rest <==> y in s - {x} {
        if y in rest {
          var k :| 0 <= k < |rest| && rest[k] == y;
          assert xs[k + 1] == y;
        }
        if y in s && y != x {
          var k :| 0 <= k < |xs| && xs[k] == y;
          assert rest[k - 1] == y;
        }
      }
      assert Distinct(rest) by {
        forall i, j | 0 <= i < j < |rest| ensures rest[i] != rest[j] {
          assert rest[i] == xs[i + 1] && rest[j] == xs[j + 1];
        }
      }
      EnumerationSize(rest, s - {x});
    }
  }

  /** Visits the elements of `s` in an unspecified order, as Go's `range`
      over a map does. */
  method Enumerate<T(!new)>(s: set<T>) returns (xs: seq<T>)
    ensures Enumerates(xs, s)
  {
    xs := [];
    var rest := s;
    while rest != {}
      invariant Distinct(xs)
      invariant forall x :: x in s <==> x in xs || x in rest
      invariant forall x :: x in xs ==> x !in rest
      decreases |rest|
    {
      var x :| x in rest;
      xs := xs + [x];
      rest := rest - {x};
    }
  }

  /** The frames connection `id` has been sent, in order: what its client
      reads off its socket. */
  function Received(out: seq<Delivery>, id: ConnId): seq<string> {
    if out == [] then []
    else
      var last := out[|out| - 1];
      Received(out[..|out| - 1], id) + (if last.to == id then [last.frame] else [])
  }

  lemma ReceivedSnoc(out: seq<Delivery>, d: Delivery, id: ConnId)
    ensures Received(out + [d], id) == Received(out, id) + (if d.to == id then [d.frame] else [])
  {
    assert (out + [d])[..|out|] == out;
  }

  /** The logins of the connections listed in `order`, in that order. */
  function LoginsAlong(order: seq<ConnId>, conns: map<ConnId, string>): seq<string>
    requires forall id :: id in order ==> id in conns
  {
    seq(|order|, k requires 0 <= k < |order| => conns[order[k]])
  }

  /** A login the dispatcher can give a session: "" (not logged in), a stored
      username (set by REGISTER) or a stored password (set by LOGIN). */
  ghost predicate KnownLogin(login: string, users: map<string, string>) {
    login == "" || login in users || exists u :: u in users && users[u] == login
  }

  /** Adding a new account keeps every known login known. */
  lemma KnownLoginGrows(login: string, users: map<string, string>, user: string, pass: string)
    requires user !in users && KnownLogin(login, users)
    ensures KnownLogin(login, users[user := pass])
  {
    if login != "" && login !in users {
      var u :| u in users && users[u] == login;
      assert users[user := pass][u] == login;
    }
  }

  /** The reply LISTALL gives an admin lists every account once; since no
      stored username holds a space, splitting the list on spaces into as many
      pieces as there are accounts gives the usernames back. */
  lemma ListAllReplyParses(users: map<string, string>, names: seq<string>)
    requires users != map[]
    requires forall u :: u in users ==> ' ' !in u
    requires Enumerates(names, users.Keys)
    ensures |names| == |users|
    ensures SplitN(Join(names, " "), ' ', |users|) == names
  {
    EnumerationSize(names, users.Keys);
    var u :| u in users;
    assert u in names;
    JoinThenSplit(names, ' ');
  }

  /** What the dispatcher reads and changes: the credential store (the
      `users` bucket, username to password), the registry of live connections
      with each one's current login, and every frame written so far. */
  datatype State = State(users: map<string, string>, conns: map<ConnId, string>, outbox: seq<Delivery>)

  /** The reply `text` went to `conn` and nothing else was written. */
  ghost predicate Replied(before: State, after: State, conn: ConnId, text: string) {
    after.outbox == before.outbox + [Delivery(conn, Frame(text))]
  }

  /** Every session but `conn` keeps its registry entry and its login. */
  ghost predicate OthersUnchanged(before: State, after: State, conn: ConnId) {
    forall id :: id != conn ==>
      (id in after.conns <==> id in before.conns) &&
      (id in after.conns ==> after.conns[id] == before.conns[id])
  }

  /** Every account of `before` is still there with the same password. */
  ghost predicate KeepsAccounts(before: map<string, string>, after: map<string, string>) {
    forall u :: u in before ==> u in after && after[u] == before[u]
  }

  /** QUIT: "Bye" to the sender, then the deferred Close takes it out of the
      registry. */
  ghost predicate QuitOutcome(before: State, after: State, conn: ConnId) {
    after.users == before.users && after.conns == before.conns - {conn} &&
    Replied(before, after, conn, "Bye")
  }

  /** LOGOUT: whatever the login was, it becomes "" and the reply is
      "Logged out". */
  ghost predicate LogoutOutcome(before: State, after: State, conn: ConnId) {
    after.users == before.users && after.conns == before.conns[conn := ""] &&
    Replied(before, after, conn, "Logged out")
  }

  /** LISTALL: an admin session is sent "All users: " and every stored
      username once, space-separated, in some order; any other session is
      refused. Nothing else changes. */
  ghost predicate ListAllOutcome(before: State, after: State, conn: ConnId)
    requires conn in before.conns
  {
    after.users == before.users && after.conns == before.conns &&
    if before.conns[conn] == "admin" then
      exists names :: Enumerates(names, before.users.Keys) &&
        Replied(before, after, conn, "All users: " + Join(names, " "))
    else
      Replied(before, after, conn, "You are not admin")
  }

  /** LISTONLINE: an admin session is sent "All users: " and the login of
      every registry member once ("" for one not logged in), space-separated,
      in some order; any other session is refused. Nothing else changes. */
  ghost predicate ListOnlineOutcome(before: State, after: State, conn: ConnId)
    requires conn in before.conns
  {
    after.users == before.users && after.conns == before.conns &&
    if before.conns[conn] == "admin" then
      exists order :: Enumerates(order, before.conns.Keys) &&
        Replied(before, after, conn, "All users: " + Join(LoginsAlong(order, before.conns), " "))
    else
      Replied(before, after, conn, "You are not admin")
  }

  /** LOGIN user pass: never writes the store. Too few tokens, an unknown
      user or a wrong password leave the login as it was; otherwise the
      session's login becomes the PASSWORD token. */
  ghost predicate LoginOutcome(before: State, after: State, conn: ConnId, msg: string) {
    var t := Tokens(msg);
    after.users == before.users &&
    if |t| < 3 then
      after.conns == before.conns && Replied(before, after, conn, "Login and password is required")
    else if t[1] !in before.users then
      after.conns == before.conns && Replied(before, after, conn, "No such account")
    else if before.users[t[1]] != t[2] then
      after.conns == before.conns && Replied(before, after, conn, "Wrong password")
    else
      after.conns == before.conns[conn := t[2]] && Replied(before, after, conn, "Logged in")
  }

  /** REGISTER user pass: too few tokens or an existing user change nothing
      but the reply. The store refuses an empty username (bbolt's Put fails
      with ErrKeyRequired), and `stored` false stands for any other failed
      Put; either way the handler returns the error and nothing changes, not
      even the outbox. Otherwise exactly the one account user -> pass is added
      and the session's login becomes the USERNAME token. */
  ghost predicate RegisterOutcome(before: State, after: State, conn: ConnId, msg: string, stored: bool) {
    var t := Tokens(msg);
    if |t| < 3 then
      after.users == before.users && after.conns == before.conns &&
      Replied(before, after, conn, "Login and password is required")
    else if t[1] in before.users then
      after.users == before.users && after.conns == before.conns &&
      Replied(before, after, conn, "User already exists")
    else if t[1] == "" || !stored then
      after == before
    else
      after.users == before.users[t[1] := t[2]] && after.conns == before.conns[conn := t[1]] &&
      Replied(before, after, conn, "Registered")
  }

  /** A chat line: refused when the session is not logged in; otherwise every
      registry member, the sender included, is sent "<login>: <msg>" once
      and nobody else anything. Store and registry do not change. */
  ghost predicate ChatOutcome(before: State, after: State, conn: ConnId, msg: string)
    requires conn in before.conns
  {
    after.users == before.users && after.conns == before.conns &&
    if before.conns[conn] == "" then
      Replied(before, after, conn, "Need to login")
    else
      |after.outbox| == |before.outbox| + |before.conns| &&
      after.outbox[..|before.outbox|] == before.outbox &&
      forall id :: (Received(after.outbox, id) == Received(before.outbox, id) +
        (if id in before.conns then [Frame(before.conns[conn] + ": " + msg)] else []))
  }

  /** One pass of the handleConnection loop: the outcome of the branch that
      Classify picks for the line `msg` received on `conn`. */
  ghost predicate Step(before: State, after: State, conn: ConnId, msg: string, stored: bool)
    requires conn in before.conns
  {
    match Classify(msg)
    case Quit => QuitOutcome(before, after, conn)
    case Logout => LogoutOutcome(before, after, conn)
    case ListAll => ListAllOutcome(before, after, conn)
    case ListOnline => ListOnlineOutcome(before, after, conn)
    case Login => LoginOutcome(before, after, conn, msg)
    case Register => RegisterOutcome(before, after, conn, msg, stored)
    case Chat => ChatOutcome(before, after, conn, msg)
  }

  /** `trace` is the run of the first `n` lines on `conn`: state k + 1 is one
      step from state k on line k, and the connection is registered before
      each of those steps. */
  ghost predicate Run(trace: seq<State>, conn: ConnId, lines: seq<string>, stored: seq<bool>, n: nat) {
    |trace| == n + 1 && n <= |lines| && n <= |stored| &&
    forall k :: 0 <= k < n ==>
      conn in trace[k].conns && Step(trace[k], trace[k + 1], conn, lines[k], stored[k])
  }

  /** A run of n lines followed by one more step is a run of n + 1 lines. */
  lemma RunExtend(trace: seq<State>, conn: ConnId, lines: seq<string>, stored: seq<bool>, n: nat, next: State)
    requires Run(trace, conn, lines, stored, n) && n < |lines| && n < |stored|
    requires conn in trace[n].conns && Step(trace[n], next, conn, lines[n], stored[n])
    ensures Run(trace + [next], conn, lines, stored, n + 1)
  {
    var longer := trace + [next];
    forall k | 0 <= k < n + 1
      ensures conn in longer[k].conns && Step(longer[k], longer[k + 1], conn, lines[k], stored[k])
    {
      assert longer[k] == trace[k];
      assert k < n ==> longer[k + 1] == trace[k + 1];
    }
  }

  /** A QUIT line ends with "Bye" to its sender, who is then unregistered. */
  lemma QuitStepSaysBye(before: State, after: State, conn: ConnId, msg: string, stored: bool)
    requires conn in before.conns && Step(before, after, conn, msg, stored) && Classify(msg) == Quit
    ensures conn !in after.conns
    ensures after.outbox != [] && after.outbox[|after.outbox| - 1] == Delivery(conn, Frame("Bye"))
  {
  }

  /** Leaving the other sessions alone composes. */
  lemma OthersUnchangedTrans(a: State, b: State, c: State, conn: ConnId)
    requires OthersUnchanged(a, b, conn) && OthersUnchanged(b, c, conn)
    ensures OthersUnchanged(a, c, conn)
  {
  }

  /** No line ever removes an account or changes a password: REGISTER only
      adds a username that was not stored. */
  lemma StepKeepsAccounts(before: State, after: State, conn: ConnId, msg: string, stored: bool)
    requires conn in before.conns && Step(before, after, conn, msg, stored)
    ensures KeepsAccounts(before.users, after.users)
  {
    if Classify(msg) == Register {
      var t := Tokens(msg);
      if |t| == 3 && t[1] !in before.users && t[1] != "" && stored {
        assert after.users == before.users[t[1] := t[2]];
      }
    }
  }

  /** Along a whole run the store only grows. */
  lemma {:induction false} RunKeepsAccounts(trace: seq<State>, conn: ConnId, lines: seq<string>, stored: seq<bool>, n: nat)
    requires Run(trace, conn, lines, stored, n)
    ensures KeepsAccounts(trace[0].users, trace[n].users)
  {
    if n > 0 {
      assert Run(trace[..n], conn, lines, stored, n - 1) by {
        forall k | 0 <= k < n - 1
          ensures conn in trace[..n][k].conns && Step(trace[..n][k], trace[..n][k + 1], conn, lines[k], stored[k])
        {
          assert trace[..n][k] == trace[k] && trace[..n][k + 1] == trace[k + 1];
        }
      }
      RunKeepsAccounts(trace[..n], conn, lines, stored, n - 1);
      StepKeepsAccounts(trace[n - 1], trace[n], conn, lines[n - 1], stored[n - 1]);
    }
  }

  /** The server: the three parts of State, and the counter new connection
      ids come from. */
  class Server {
    var users: map<string, string>
    var conns: map<ConnId, string>
    var outbox: seq<Delivery>
    var nextId: ConnId

    /** The current store, registry and outbox. */
    function Snapshot(): State
      reads this
    {
      State(users, conns, outbox)
    }

    /** Ids are allocated from a counter, so every live id is below it;
        usernames are non-empty (the store refuses an empty key) and hold no
        space (they are the second SplitN piece); and every session login is
        one the dispatcher can produce. */
    ghost predicate Valid()
      reads this
    {
      && (forall id :: id in conns ==> id < nextId)
      && "" !in users
      && (forall u :: u in users ==> ' ' !in u)
      && (forall id :: id in conns ==> KnownLogin(conns[id], users))
    }

    /** NewServer with a freshly opened, empty store. */
    constructor ()
      ensures Valid()
      ensures users == map[] && conns == map[] && outbox == []
    {
      users, conns, outbox, nextId := map[], map[], [], 0;
    }

    /** A newly accepted connection joins the registry, not logged in. */
    method Connect() returns (id: ConnId)
      requires Valid()
      modifies this
      ensures Valid()
      ensures id !in old(conns) && conns == old(conns)[id := ""]
      ensures users == old(users) && outbox == old(outbox)
    {
      id := nextId;
      nextId := nextId + 1;
      conns := conns[id := ""];
    }

    /** ChatConn.Close: the connection leaves the registry; no other entry
        changes. Closing an id that is not there changes nothing. */
    method Close(id: ConnId)
      requires Valid()
      modifies this`conns
      ensures Valid()
      ensures conns == old(conns) - {id}
    {
      conns := conns - {id};
    }

    /** ChatConn.Write: one CRLF-terminated frame to connection `id`. */
    method Write(id: ConnId, message: string)
      modifies this`outbox
      ensures outbox == old(outbox) + [Delivery(id, Frame(message))]
    {
      outbox := outbox + [Delivery(id, Frame(message))];
    }

    /** Server.Broadcast: every registry member, the sender included, is
        sent exactly one frame "<login>: <what>", and nobody else is sent
        anything. */
    method Broadcast(who: ConnId, what: string)
      requires who in conns
      modifies this`outbox
      ensures |outbox| == |old(outbox)| + |conns|
      ensures outbox[..|old(outbox)|] == old(outbox)
      ensures forall id :: (Received(outbox, id) == Received(old(outbox), id) +
        (if id in conns then [Frame(conns[who] + ": " + what)] else []))
    {
      var order := Enumerate(conns.Keys);
      EnumerationSize(order, conns.Keys);
      var line := conns[who] + ": " + what;
      var i := 0;
      while i < |order|
        invariant 0 <= i <= |order|
        invariant |outbox| == |old(outbox)| + i && outbox[..|old(outbox)|] == old(outbox)
        invariant forall id :: (Received(outbox, id) == Received(old(outbox), id) +
          (if id in order[..i] then [Frame(line)] else []))
      {
        ghost var before := outbox;
        Write(order[i], line);
        forall id ensures Received(outbox, id) == Received(old(outbox), id) +
          (if id in order[..i + 1] then [Frame(line)] else [])
        {
          ReceivedSnoc(before, Delivery(order[i], Frame(line)), id);
          assert order[..i + 1] == order[..i] + [order[i]];
          assert order[i] !in order[..i];
        }
        i := i + 1;
      }
      assert order[..|order|] == order;
    }

    /** The logins of all registry members, one per member, including "" for
        connections that are not logged in (the LISTONLINE loop). */
    method OnlineLogins() returns (logins: seq<string>)
      ensures |logins| == |conns|
      ensures exists order :: Enumerates(order, conns.Keys) && logins == LoginsAlong(order, conns)
    {
      var order := Enumerate(conns.Keys);
      EnumerationSize(order, conns.Keys);
      logins := [];
      var i := 0;
      while i < |order|
        invariant 0 <= i <= |order|
        invariant |logins| == i
        invariant forall k :: 0 <= k < i ==> logins[k] == conns[order[k]]
      {
        logins := logins + [conns[order[i]]];
        i := i + 1;
      }
      assert logins == LoginsAlong(order, conns);
    }

    /** The QUIT branch: "Bye", then the deferred Close. */
    method HandleQuit(conn: ConnId)
      requires Valid() && conn in conns
      modifies this
      ensures Valid() && QuitOutcome(old(Snapshot()), Snapshot(), conn)
      ensures OthersUnchanged(old(Snapshot()), Snapshot(), conn)
    {
      Write(conn, "Bye");
      Close(conn);
    }

    /** The LOGOUT branch. */
    method HandleLogout(conn: ConnId)
      requires Valid() && conn in conns
      modifies this
      ensures Valid() && LogoutOutcome(old(Snapshot()), Snapshot(), conn)
      ensures OthersUnchanged(old(Snapshot()), Snapshot(), conn)
    {
      conns := conns[conn := ""];
      Write(conn, "Logged out");
    }

    /** The LISTALL branch: a read-only store transaction walking the bucket. */
    method HandleListAll(conn: ConnId)
      requires Valid() && conn in conns
      modifies this
      ensures Valid() && ListAllOutcome(old(Snapshot()), Snapshot(), conn)
      ensures OthersUnchanged(old(Snapshot()), Snapshot(), conn)
    {
      if conns[conn] == "admin" {
        var names := Enumerate(users.Keys);
        Write(conn, "All users: " + Join(names, " "));
      } else {
        Write(conn, "You are not admin");
      }
    }

    /** The LISTONLINE branch. */
    method HandleListOnline(conn: ConnId)
      requires Valid() && conn in conns
      modifies this
      ensures Valid() && ListOnlineOutcome(old(Snapshot()), Snapshot(), conn)
      ensures OthersUnchanged(old(Snapshot()), Snapshot(), conn)
    {
      if conns[conn] == "admin" {
        var logins := OnlineLogins();
        Write(conn, "All users: " + Join(logins, " "));
      } else {
        Write(conn, "You are not admin");
      }
    }

    /** The LOGIN branch: a read-only store transaction. */
    method HandleLogin(conn: ConnId, msg: string)
      requires Valid() && conn in conns
      modifies this
      ensures Valid() && LoginOutcome(old(Snapshot()), Snapshot(), conn, msg)
      ensures OthersUnchanged(old(Snapshot()), Snapshot(), conn)
    {
      var tokens := Tokens(msg);
      if |tokens| < 3 {
        Write(conn, "Login and password is required");
      } else if tokens[1] !in users {
        Write(conn, "No such account");
      } else if users[tokens[1]] != tokens[2] {
        Write(conn, "Wrong password");
      } else {
        assert KnownLogin(tokens[2], users) by {
          assert users[tokens[1]] == tokens[2];
        }
        conns := conns[conn := tokens[2]];
        Write(conn, "Logged in");
      }
    }

    /** The REGISTER branch: a read-write store transaction. Its Put fails
        for an empty username, and otherwise succeeds exactly when `stored`;
        a failed Put rolls the transaction back before anything is written. */
    method HandleRegister(conn: ConnId, msg: string, stored: bool)
      requires Valid() && conn in conns
      modifies this
      ensures Valid() && RegisterOutcome(old(Snapshot()), Snapshot(), conn, msg, stored)
      ensures OthersUnchanged(old(Snapshot()), Snapshot(), conn)
    {
      var tokens := Tokens(msg);
      if |tokens| < 3 {
        Write(conn, "Login and password is required");
      } else if tokens[1] in users {
        Write(conn, "User already exists");
      } else if tokens[1] != "" && stored {
        forall id | id in conns ensures KnownLogin(conns[id], users[tokens[1] := tokens[2]]) {
          KnownLoginGrows(conns[id], users, tokens[1], tokens[2]);
        }
        users := users[tokens[1] := tokens[2]];
        conns := conns[conn := tokens[1]];
        Write(conn, "Registered");
      }
    }

    /** The chat branch. */
    method HandleChat(conn: ConnId, msg: string)
      requires Valid() && conn in conns
      modifies this
      ensures Valid() && ChatOutcome(old(Snapshot()), Snapshot(), conn, msg)
      ensures OthersUnchanged(old(Snapshot()), Snapshot(), conn)
    {
      if conns[conn] == "" {
        Write(conn, "Need to login");
      } else {
        Broadcast(conn, msg);
      }
    }

    /** One pass of the handleConnection loop for a line `msg` received on
        `conn`: the first keyword among QUIT, LOGOUT, LISTALL, LISTONLINE,
        LOGIN, REGISTER that prefixes the line picks the branch, anything else
        is chat. `stored` is the outcome of the store write REGISTER makes
        for a non-empty username (false: the write failed and its transaction
        was rolled back). The result says whether the handler returns, which
        is when its deferred Close runs. */
    method HandleLine(conn: ConnId, msg: string, stored: bool) returns (quit: bool)
      requires Valid() && conn in conns
      modifies this
      ensures Valid() && OthersUnchanged(old(Snapshot()), Snapshot(), conn)
      ensures quit <==> Classify(msg) == Quit
      ensures conn in conns <==> !quit
      ensures Step(old(Snapshot()), Snapshot(), conn, msg, stored)
    {
      quit := false;
      if HasPrefix(msg, "QUIT") {
        HandleQuit(conn);
        quit := true;
      } else if HasPrefix(msg, "LOGOUT") {
        HandleLogout(conn);
      } else if HasPrefix(msg, "LISTALL") {
        HandleListAll(conn);
      } else if HasPrefix(msg, "LISTONLINE") {
        HandleListOnline(conn);
      } else if HasPrefix(msg, "LOGIN") {
        HandleLogin(conn, msg);
      } else if HasPrefix(msg, "REGISTER") {
        HandleRegister(conn, msg, stored);
      } else {
        HandleChat(conn, msg);
      }
    }

    /** handleConnection for one client whose lines arrive as `lines` (with
        `stored[k]` the outcome of any store write line k makes): the
        connection is registered, its lines are dispatched in order up to and
        including the first QUIT line, each one a Step recorded in `trace`,
        and it leaves the registry exactly when such a line came, after a
        final "Bye". The store only grows, and other connections stay
        registered with their logins. */
    method HandleConnection(lines: seq<string>, stored: seq<bool>)
      returns (id: ConnId, handled: nat, ghost trace: seq<State>)
      requires Valid() && |stored| == |lines|
      modifies this
      ensures Valid()
      ensures id !in old(conns)
      ensures handled == if QuitAt(lines) < |lines| then QuitAt(lines) + 1 else |lines|
      ensures Run(trace, id, lines, stored, handled)
      ensures trace[0] == State(old(users), old(conns)[id := ""], old(outbox))
      ensures trace[handled] == Snapshot()
      ensures id in conns <==> QuitAt(lines) == |lines|
      ensures QuitAt(lines) < |lines| ==> outbox != [] && outbox[|outbox| - 1] == Delivery(id, Frame("Bye"))
      ensures KeepsAccounts(old(users), users)
      ensures OthersUnchanged(old(Snapshot()), Snapshot(), id)
    {
      id := Connect();
      handled := 0;
      trace := [Snapshot()];
      var quit := false;
      while handled < |lines| && !quit
        invariant Valid()
        invariant 0 <= handled <= |lines|
        invariant Run(trace, id, lines, stored, handled)
        invariant trace[0] == State(old(users), old(conns)[id := ""], old(outbox))
        invariant trace[handled] == Snapshot()
        invariant !quit ==> id in conns && handled <= QuitAt(lines)
        invariant quit ==> id !in conns && handled == QuitAt(lines) + 1
        invariant quit ==> outbox != [] && outbox[|outbox| - 1] == Delivery(id, Frame("Bye"))
        invariant OthersUnchanged(old(Snapshot()), Snapshot(), id)
      {
        ghost var before := Snapshot();
        quit := HandleLine(id, lines[handled], stored[handled]);
        RunExtend(trace, id, lines, stored, handled, Snapshot());
        OthersUnchangedTrans(old(Snapshot()), before, Snapshot(), id);
        if quit {
          QuitStepSaysBye(before, Snapshot(), id, lines[handled], stored[handled]);
        }
        trace := trace + [Snapshot()];
        handled := handled + 1;
      }
      RunKeepsAccounts(trace, id, lines, stored, handled);
    }
  }

  /** REGISTER with a fresh, non-empty username and a password, as a client
      types it: the account is created, the session's login becomes the
      username and the reply is "Registered". */
  method RegisterFresh(s: Server, conn: ConnId, user: string, pass: string)
    requires s.Valid() && conn in s.conns
    requires user != "" && ' ' !in user && user !in s.users
    modifies s
    ensures s.Valid()
    ensures s.users == old(s.users)[user := pass]
    ensures s.conns == old(s.conns)[conn := user]
    ensures s.outbox == old(s.outbox) + [Delivery(conn, Frame("Registered"))]
  {
    var line := Keyword(Register) + " " + user + " " + pass;
    ClassifyCommandLine(Register, user, pass);
    TokensOfCommandLine(Keyword(Register), user, pass);
    var quit := s.HandleLine(conn, line, true);
  }

  /** REGISTER with an empty username ("REGISTER  pass"): the store refuses
      the key, so there is no account, no reply and no change of login,
      whatever the store would do with another key. */
  method RegisterEmptyName(s: Server, conn: ConnId, pass: string, stored: bool)
    requires s.Valid() && conn in s.conns
    modifies s
    ensures s.Valid()
    ensures s.users == old(s.users) && s.conns == old(s.conns) && s.outbox == old(s.outbox)
  {
    var line := Keyword(Register) + " " + "" + " " + pass;
    ClassifyCommandLine(Register, "", pass);
    TokensOfCommandLine(Keyword(Register), "", pass);
    var quit := s.HandleLine(conn, line, stored);
  }

  /** LOGIN with a stored username and its password: the reply is
      "Logged in" and the session's login becomes the password. */
  method LoginKnown(s: Server, conn: ConnId, user: string, pass: string)
    requires s.Valid() && conn in s.conns
    requires ' ' !in user && user in s.users && s.users[user] == pass
    modifies s
    ensures s.Valid()
    ensures s.users == old(s.users)
    ensures s.conns == old(s.conns)[conn := pass]
    ensures s.outbox == old(s.outbox) + [Delivery(conn, Frame("Logged in"))]
  {
    var line := Keyword(Login) + " " + user + " " + pass;
    ClassifyCommandLine(Login, user, pass);
    TokensOfCommandLine(Keyword(Login), user, pass);
    var quit := s.HandleLine(conn, line, true);
  }

  /** The round trip a new user makes: REGISTER u p on connection `a`, then
      LOGIN u p on connection `b` (another client, or the same one again).
      The account is created, and the login of `b` ends as the password. */
  method RegisterThenLogin(s: Server, a: ConnId, b: ConnId, user: string, pass: string)
    requires s.Valid() && a in s.conns && b in s.conns
    requires user != "" && ' ' !in user && user !in s.users
    modifies s
    ensures s.Valid()
    ensures s.users == old(s.users)[user := pass]
    ensures s.conns == old(s.conns)[a := user][b := pass]
    ensures s.outbox == old(s.outbox) + [Delivery(a, Frame("Registered")), Delivery(b, Frame("Logged in"))]
  {
    RegisterFresh(s, a, user, pass);
    LoginKnown(s, b, user, pass);
  }
}
