/**
 The six operations of the messaging backend. Each takes the current state
 and its arguments and returns an outcome: the errors of the guards that
 refused the call (the state is then untouched), or the reply together with
 the state after the call.
 */
module Messenger {
  import opened Store
  import opened Guards
  import opened History

  /** The reply to an add-user call: the new name, or the payload that says
      the name is taken. The second is a reply, not a refusal. */
  datatype AddUserReply = Added(username: Username) | UsernameTaken

  /** The reply to a send: the stored message's timestamp, author and text. */
  datatype Receipt = Receipt(timestamp: int, user: Username, message: string)

  /** Issues the token `digest(username + password)` to a registered user.
      The password is never compared with anything, and the same arguments
      always give the same token. */
  function GetToken(s: State, digest: string -> Token, username: Username, password: string): (r: Outcome<Token>)
    ensures r.Raised? <==> username !in s.users
    ensures r.Raised? ==> r.errors == [UserNotFound]
    ensures r.Done? ==> r.value == digest(username + password)
    ensures r.Done? ==> r.next.tokens.Keys == s.tokens.Keys + {r.value}
    ensures r.Done? ==> r.next.tokens[r.value] == username
    ensures r.Done? ==> forall t :: t in s.tokens && t != r.value ==> r.next.tokens[t] == s.tokens[t]
    ensures r.Done? ==> r.next.users.Keys == s.users.Keys
    ensures r.Done? ==> r.next.users[username].lastToken == Some(r.value)
    ensures r.Done? ==> forall u :: u in s.users && u != username ==> r.next.users[u] == s.users[u]
    ensures r.Done? ==> r.next.channels == s.channels
    ensures Inv(s) && r.Done? ==> Inv(r.next)
  {
    var errs := Failures([ValidUser(s, username)]);
    if errs != [] then Raised(errs)
    else
      var token := digest(username + password);
      var record := s.users[username].(lastToken := Some(token));
      Done(token, s.(users := s.users[username := record], tokens := s.tokens[token := username]))
  }

  /** Registers a new user with an empty record. Needs an admin token; a
      name already registered gets the "already exists" reply and changes
      nothing. */
  function AddUser(s: State, token: Token, username: Username): (r: Outcome<AddUserReply>)
    ensures r.Raised? <==> !IsAdminToken(s, token)
    ensures r.Raised? && token !in s.tokens ==> r.errors == [InvalidToken]
    ensures r.Raised? && token in s.tokens ==> r.errors == [InvalidAdminToken]
    ensures r.Done? ==> (r.value == UsernameTaken <==> username in s.users)
    ensures r.Done? && r.value == UsernameTaken ==> r.next == s
    ensures r.Done? && r.value.Added? ==> r.value.username == username
    ensures r.Done? && r.value.Added? ==> r.next.users.Keys == s.users.Keys + {username}
    ensures r.Done? && r.value.Added? ==> r.next.users[username] == UserRecord(None)
    ensures r.Done? ==> forall u :: u in s.users ==> r.next.users[u] == s.users[u]
    ensures r.Done? ==> r.next.tokens == s.tokens && r.next.channels == s.channels
    ensures Inv(s) && r.Done? ==> Inv(r.next)
  {
    var errs := Failures([ValidAdminToken(s, token)]);
    if errs != [] then Raised(errs)
    else if username in s.users then Done(UsernameTaken, s)
    else Done(Added(username), s.(users := s.users[username := UserRecord(None)]))
  }

  /** Creates the channel with an empty log. Needs an admin token. There is
      no existence check: an existing channel loses its messages. */
  function AddChannel(s: State, token: Token, channel: ChannelName): (r: Outcome<ChannelName>)
    ensures r.Raised? <==> !IsAdminToken(s, token)
    ensures r.Raised? && token !in s.tokens ==> r.errors == [InvalidToken]
    ensures r.Raised? && token in s.tokens ==> r.errors == [InvalidAdminToken]
    ensures r.Done? ==> r.value == channel
    ensures r.Done? ==> r.next.channels.Keys == s.channels.Keys + {channel}
    ensures r.Done? ==> r.next.channels[channel] == []
    ensures r.Done? ==> forall c :: c in s.channels && c != channel ==> r.next.channels[c] == s.channels[c]
    ensures r.Done? ==> r.next.users == s.users && r.next.tokens == s.tokens
    ensures Inv(s) && r.Done? ==> Inv(r.next)
  {
    var errs := Failures([ValidAdminToken(s, token)]);
    if errs != [] then Raised(errs)
    else Done(channel, s.(channels := s.channels[channel := []]))
  }

  /** Appends one message, authored by the token's owner and stamped with
      the clock reading `now`, to the end of the channel's log. */
  function SendMessage(s: State, token: Token, channel: ChannelName, message: string,
                       files: seq<Attachment>, now: int): (r: Outcome<Receipt>)
    ensures r.Raised? <==> token !in s.tokens || channel !in s.channels
    ensures r.Raised? ==> (InvalidToken in r.errors <==> token !in s.tokens)
    ensures r.Raised? ==> (ChannelNotFound in r.errors <==> channel !in s.channels)
    ensures r.Raised? ==> r.errors[0] == if token !in s.tokens then InvalidToken else ChannelNotFound
    ensures r.Raised? ==> |r.errors| == (if token !in s.tokens then 1 else 0) + (if channel !in s.channels then 1 else 0)
    ensures r.Done? ==> r.next.channels.Keys == s.channels.Keys
    ensures r.Done? ==> |r.next.channels[channel]| == |s.channels[channel]| + 1
    ensures r.Done? ==> r.next.channels[channel][..|s.channels[channel]|] == s.channels[channel]
    ensures r.Done? ==>
      var stored := r.next.channels[channel][|s.channels[channel]|];
      && stored == Message(s.tokens[token], now, message, files)
      && r.value == Receipt(stored.ts, stored.user, stored.message)
    ensures r.Done? ==> forall c :: c in s.channels && c != channel ==> r.next.channels[c] == s.channels[c]
    ensures r.Done? ==> r.next.users == s.users && r.next.tokens == s.tokens
    ensures Inv(s) && r.Done? ==> Inv(r.next)
  {
    var errs := Failures([ValidToken(s, token), ValidChannel(s, channel)]);
    if errs != [] then Raised(errs)
    else
      var m := Message(s.tokens[token], now, message, files);
      var log := s.channels[channel] + [m];
      assert log[..|s.channels[channel]|] == s.channels[channel];
      Done(Receipt(m.ts, m.user, m.message), s.(channels := s.channels[channel := log]))
  }

  /** The channel's messages stamped at or after `from`, in stored order.
      Reading changes nothing. */
  function ReadChannel(s: State, token: Token, channel: ChannelName, from: int): (r: Outcome<seq<Message>>)
    ensures r.Raised? <==> token !in s.tokens || channel !in s.channels
    ensures r.Raised? ==> (InvalidToken in r.errors <==> token !in s.tokens)
    ensures r.Raised? ==> (ChannelNotFound in r.errors <==> channel !in s.channels)
    ensures r.Raised? ==> r.errors[0] == if token !in s.tokens then InvalidToken else ChannelNotFound
    ensures r.Raised? ==> |r.errors| == (if token !in s.tokens then 1 else 0) + (if channel !in s.channels then 1 else 0)
    ensures r.Done? ==> r.next == s
    ensures r.Done? ==> IsSubseq(r.value, s.channels[channel])
    ensures r.Done? ==> forall m :: multiset(r.value)[m] == if m.ts >= from then multiset(s.channels[channel])[m] else 0
  {
    var errs := Failures([ValidToken(s, token), ValidChannel(s, channel)]);
    if errs != [] then Raised(errs)
    else
      var log := s.channels[channel];
      SinceIsSubseq(log, from);
      SinceMultiplicity(log, from);
      Done(Since(log, from), s)
  }

  /** Throws every user but the admin, every token and every channel away.
      Needs an admin token, which is itself invalid afterwards. */
  function CleanDb(s: State, token: Token): (r: Outcome<()>)
    ensures r.Raised? <==> !IsAdminToken(s, token)
    ensures r.Raised? && token !in s.tokens ==> r.errors == [InvalidToken]
    ensures r.Raised? && token in s.tokens ==> r.errors == [InvalidAdminToken]
    ensures r.Done? ==> r.next.users.Keys == {Admin} && r.next.users[Admin].lastToken == None
    ensures r.Done? ==> forall t :: ValidToken(r.next, t) == Fail(InvalidToken)
    ensures r.Done? ==> forall c :: ValidChannel(r.next, c) == Fail(ChannelNotFound)
    ensures r.Done? ==> Inv(r.next)
  {
    var errs := Failures([ValidAdminToken(s, token)]);
    if errs != [] then Raised(errs)
    else Done((), Init)
  }
}
