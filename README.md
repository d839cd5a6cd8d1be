# nets-chat server dispatcher, modelled in Dafny

This project models the core of the nets-chat server (`server/main.go`): a
line-oriented TCP chat service. It accepts connections, checks logins against
a credential store and broadcasts chat lines to every connected client. The
model is a sequential state machine over three pieces of state, held by the
class `ChatServer.Server`:

- `users`: the credential store, a map from username to password. It stands
  for the bbolt bucket `users`, whose `View` and `Update` transactions become
  a read or a write of the map. It starts empty.
- `conns`: the registry, a map from each live connection id to that
  connection's current `login` ("" when not logged in). It stands for the
  `s.conns` set of `*ChatConn` and their `login` fields. Ids come from a
  counter, which stands for the allocation of a new `ChatConn`.
- `outbox`: every frame written to a socket so far, as (recipient, frame)
  pairs in write order. `Received(outbox, id)` is what the client of `id`
  reads.

One received line is one atomic step, `Server.HandleLine`. It is the body of
the `for` loop in `handleConnection`:

- it picks a branch by the first of the prefixes QUIT, LOGOUT, LISTALL,
  LISTONLINE, LOGIN, REGISTER that starts the raw line, else chat;
- it tokenises LOGIN and REGISTER lines with `strings.SplitN(msg, " ", 3)`;
- it then updates the session login, the store or the registry, and writes
  the replies or the broadcast frames.

Each branch is its own method. Its outcome is a predicate over the `State`
before and after the step (`LoginOutcome`, `RegisterOutcome`, …), and
`Step(before, after, conn, msg, stored)` is the outcome of the branch
`Classify(msg)` picks. `HandleLine` promises `Step` for its line, and
`HandleConnection` returns the trace of states its lines went through, one
`Step` apart (`Run`). `Server.Valid()` is the invariant every step keeps:

- every live id is below the id counter;
- no stored username is empty or holds a space;
- every session login is "", a stored username (set by REGISTER) or a stored
  password (set by LOGIN).

The Go string functions the dispatcher uses (`HasPrefix`, `Index`, `SplitN`,
`Join`) are written out with Go's semantics in module `GoStrings`. The
protocol (classification, tokenising, CRLF framing) is in module `Protocol`.

Quirks of the code worth pinning down; the model follows the code:

- Commands match on a prefix of the whole raw line, not on an exact first
  token. "QUITNOW" quits, "LOGINX a b" is a LOGIN for account `a` (and on
  success sets the login to `b`), and "LOGOUTX" logs out.
- LOGIN and REGISTER split on single spaces, not on any whitespace. The
  third token is the rest of the line, spaces included.
- LOGIN sets the session login to the password token. REGISTER sets it to the
  username token. A session is therefore "admin" whenever it logged in to any
  account whose password is "admin".
- A failed store write in REGISTER sends no reply at all. The transaction's
  error is dropped, and the login is unchanged. The store always refuses an
  empty username, so "REGISTER  pass" (two spaces) is silently ignored.
- A read error or EOF does not end the handler. `Read` returns "" and the
  loop treats "" as a chat line (see "Left out").

## Model

| member | source | states |
|---|---|---|
| GoStrings.HasPrefixPointwise | server/main.go:72-133 | `HasPrefix(s, p)` (strings.HasPrefix) holds iff `s` is at least as long as `p` and agrees with it at every position of `p`; then `s` is `p` followed by the rest |
| GoStrings.JoinShape | server/main.go:90 | `Join` (strings.Join, also at line 104) starts with the first element and is as long as all elements plus one separator per gap |
| GoStrings.Index | server/main.go:110 | the index of the first occurrence of a character, or -1 exactly when it is absent (the search SplitN makes) |
| GoStrings.SplitN | server/main.go:110 | at most n pieces, at least one when n > 0, none for n = 0; every piece but the last is free of the separator |
| GoStrings.SplitNJoin | server/main.go:110 | joining the pieces with the separator gives the line back, so nothing is lost |
| GoStrings.SplitNLast | server/main.go:134 | the last piece holds a separator only when the limit n was reached |
| GoStrings.SplitNUnique | server/main.go:134 | any list meeting SplitN's contract (≤ n pieces, joins back, separator-free pieces) IS SplitN's result |
| GoStrings.SplitNLength | server/main.go:111 | the number of pieces is min(n, separators + 1), so a LOGIN or REGISTER line has < 3 tokens exactly when it has < 2 spaces |
| GoStrings.JoinThenSplit | server/main.go:90 | a non-empty list of space-free names joined by spaces splits back into the same list |
| Protocol.Classify | server/main.go:72-157 | the dispatcher's if-chain: a command other than chat is only picked when its keyword prefixes the raw line (the converse, and chat, in ClassifyByPrefix) |
| Protocol.KeywordsExclusive | server/main.go:72-133 | no line starts with two different keywords |
| Protocol.ClassifyByPrefix | server/main.go:72-157 | a line takes a command's branch iff that keyword prefixes the raw line, whatever the test order; it is chat iff no keyword does |
| Protocol.ClassifyCommandLine | server/main.go:109-133 | a line "<KEYWORD> <user> <pass>" takes that keyword's branch |
| Protocol.Tokens | server/main.go:110 | one to three tokens; with three, the username token holds no space |
| Protocol.TokensShape | server/main.go:110-114 | fewer than three tokens iff fewer than two spaces; with three, line = word + " " + user + " " + rest, where the rest keeps its spaces |
| Protocol.TokensOfCommandLine | server/main.go:134 | "<word> <user> <pass>" with space-free word and user tokenises to exactly [word, user, pass], even if pass holds spaces |
| Protocol.Frame | server/main.go:37-41 | a frame is the message followed by CRLF; removing the last two characters gives the message back |
| Protocol.Unframe | server/main.go:39 | the logged text `str[:len(str)-2]`: two characters shorter than the frame and a prefix of it; Frame's contract makes it Frame's inverse |
| Protocol.QuitAt | server/main.go:70-74 | the first QUIT line: no line before it is QUIT, and the line at it is |
| ChatServer.EnumerationSize | server/main.go:87-90 | a listing of a set with each element exactly once has one entry per element |
| ChatServer.Enumerate | server/main.go:101 | a range over a map visits every key exactly once, in some order |
| ChatServer.KnownLoginGrows | server/main.go:148-152 | adding a new account keeps every existing session's login accounted for |
| ChatServer.ListAllReplyParses | server/main.go:87-90 | the LISTALL names number the accounts, and splitting the joined list on spaces recovers them |
| ChatServer.Server.constructor | server/main.go:48-52 | a new server has an empty registry, an empty store and has written nothing |
| ChatServer.Server.Connect | server/main.go:60-67 | an accepted connection joins the registry under a fresh id, not logged in; nothing else changes |
| ChatServer.Server.Close | server/main.go:21-24 | the connection leaves the registry and every other entry is kept; closing an absent id changes nothing |
| ChatServer.Server.Write | server/main.go:37-41 | exactly one frame, message + CRLF, is written to the connection |
| ChatServer.Server.Broadcast | server/main.go:54-58 | every registry member, the sender included, is sent exactly one "<login>: <what>" frame; no one else is sent anything |
| ChatServer.Server.OnlineLogins | server/main.go:99-103 | one login per registry member, "" included, in some order of the members |
| ChatServer.StepKeepsAccounts | server/main.go:140-155 | no line removes an account or changes a password: REGISTER only adds an unstored username |
| ChatServer.RunKeepsAccounts | server/main.go:70-164 | along a whole run of lines the store only grows |
| ChatServer.QuitStepSaysBye | server/main.go:72-74 | a QUIT step's last write is "Bye" to its sender, who is then unregistered |
| ChatServer.Server.HandleQuit | server/main.go:72-74 | "Bye" to the sender, then the deferred Close removes exactly that connection; store unchanged |
| ChatServer.Server.HandleLogout | server/main.go:75-78 | the login becomes "" whatever it was, the reply is "Logged out", and store and registry are unchanged |
| ChatServer.Server.HandleListAll | server/main.go:79-96 | admin: "All users: " + every stored username once, space-joined; otherwise "You are not admin"; nothing changes |
| ChatServer.Server.HandleListOnline | server/main.go:97-108 | admin: "All users: " + every member's login once, space-joined; otherwise "You are not admin"; nothing changes |
| ChatServer.Server.HandleLogin | server/main.go:109-132 | store never changes; too few tokens, unknown user or wrong password keep the login; success sets it to the password token |
| ChatServer.Server.HandleRegister | server/main.go:133-156 | too few tokens or an existing user change nothing but the reply; an empty username or a failed write changes nothing, not even the outbox; otherwise exactly user ↦ pass is added and the login becomes user |
| ChatServer.Server.HandleChat | server/main.go:159-163 | not logged in: "Need to login" and no broadcast; otherwise every member gets "<login>: <msg>" once |
| ChatServer.Server.HandleLine | server/main.go:70-164 | dispatch by first matching prefix: the new store, registry and outbox are the `Step` outcome of the branch `Classify` picks; the handler returns iff QUIT, and the connection stays registered iff not; other sessions are never touched; Valid() is kept |
| ChatServer.Server.HandleConnection | server/main.go:60-166 | a fresh connection is registered; lines are handled in order up to and including the first QUIT, each one a `Step` recorded in the returned trace, which ends in the final state; a QUIT run ends with "Bye" and the connection unregistered, otherwise it stays; the store only grows; other connections keep entry and login |
| ChatServer.RegisterFresh | server/main.go:140-155 | REGISTER of a new, non-empty, space-free name (with a successful write) creates exactly that account, logs the session in as the name and replies "Registered" |
| ChatServer.RegisterEmptyName | server/main.go:148-150 | "REGISTER  pass" creates no account, sends nothing and leaves the login alone, because the store refuses the empty key |
| ChatServer.LoginKnown | server/main.go:116-131 | LOGIN with a stored name and its password replies "Logged in" and sets the login to the password |
| ChatServer.RegisterThenLogin | server/main.go:133-155 | REGISTER u p on one connection, then LOGIN u p on the same or another, gives "Registered" then "Logged in", with the account u ↦ p and the second login p |

## Left out

- Sockets, `bufio.Scanner` reading and `io.WriteString` (server/main.go:26-41). A received line is a parameter, and a socket write is an append to `outbox`. Socket close is not modelled.
- End of input: `Read` returns "" when scanning fails, and the loop goes on forever with "" lines. The model treats "" as an ordinary chat line and does not model EOF.
- One goroutine per connection and the unsynchronised shared `conns` map (server/main.go:44, server/main.go:196). The model runs steps one at a time, as atomic `HandleLine` calls, so the data race is not captured.
- bbolt transactions, durability and bucket creation (server/main.go:178-189). The store is an in-memory map that starts empty.
- bbolt's `Put` refusals other than the empty key: a key over 32768 bytes, a value over its size limit, or a disk error. They are all the parameter `stored` of `HandleLine`, because the model counts characters, not UTF-8 bytes. The empty key is modelled exactly.
- A failed commit of REGISTER's `Update` transaction (server/main.go:140-155). In the code the closure has already replied "Registered" and set the login to the username when the commit fails, so the store lacks an account the session is logged in as. The model has no such outcome: a REGISTER either commits or changes nothing, and `Valid()` relies on that.
- ChatServer.Server.HandleListAll: bbolt's cursor gives usernames in byte order, but the contract only says "every username once, in some order", because cursor ordering is part of bbolt.
- ChatServer.Server.Broadcast: Go's map iteration order is random. The contract fixes each recipient's frames and the total count, but not how frames to different recipients interleave.
- `main`: flag parsing, panics on listen, open and accept errors, and `fmt.Println` logging (server/main.go:168-198).
- client/main.go: the terminal UI and its socket read loop. It holds no dispatcher logic.
