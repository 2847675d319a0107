/**
 Sequences of calls from the start-up state: what every reachable state
 satisfies, what only a reset takes away, and how the operations interact.
 */
module Sessions {
  import opened Store
  import opened Guards
  import opened History
  import opened Messenger

  /** One call as it arrives from the HTTP layer; `now` is the clock reading
      the backend would take while serving a send. */
  datatype Call =
    | GetTokenCall(username: Username, password: string)
    | AddUserCall(token: Token, username: Username)
    | AddChannelCall(token: Token, channel: ChannelName)
    | SendMessageCall(token: Token, channel: ChannelName, message: string, files: seq<Attachment>, now: int)
    | ReadChannelCall(token: Token, channel: ChannelName, from: int)
    | CleanDbCall(token: Token)

  /** The state after serving `c` in `s`; a refused call leaves `s`. */
  function Step(s: State, digest: string -> Token, c: Call): (s': State)
    ensures Inv(s) ==> Inv(s')
    ensures !c.CleanDbCall? ==> s.users.Keys <= s'.users.Keys && s.tokens.Keys <= s'.tokens.Keys
  {
    match c
    case GetTokenCall(u, p) => After(GetToken(s, digest, u, p), s)
    case AddUserCall(t, u) => After(AddUser(s, t, u), s)
    case AddChannelCall(t, ch) => After(AddChannel(s, t, ch), s)
    case SendMessageCall(t, ch, m, fs, now) => After(SendMessage(s, t, ch, m, fs, now), s)
    case ReadChannelCall(t, ch, from) => After(ReadChannel(s, t, ch, from), s)
    case CleanDbCall(t) => After(CleanDb(s, t), s)
  }

  /** The state after serving `calls` one after another, starting in `s`. */
  function Run(s: State, digest: string -> Token, calls: seq<Call>): State
    decreases |calls|
  {
    if |calls| == 0 then s else Run(Step(s, digest, calls[0]), digest, calls[1..])
  }

  lemma {:induction false} RunPreservesInv(s: State, digest: string -> Token, calls: seq<Call>)
    requires Inv(s)
    ensures Inv(Run(s, digest, calls))
    decreases |calls|
  {
    if |calls| > 0 {
      RunPreservesInv(Step(s, digest, calls[0]), digest, calls[1..]);
    }
  }

  /** Every state reachable from start-up satisfies the invariant. */
  lemma ReachableInv(digest: string -> Token, calls: seq<Call>)
    ensures Inv(Run(Init, digest, calls))
    ensures Admin in Run(Init, digest, calls).users
  {
    RunPreservesInv(Init, digest, calls);
  }

  /** Without a reset, no user disappears and no issued token stops being
      valid. */
  lemma {:induction false} NothingLostWithoutReset(s: State, digest: string -> Token, calls: seq<Call>)
    requires forall i :: 0 <= i < |calls| ==> !calls[i].CleanDbCall?
    ensures s.users.Keys <= Run(s, digest, calls).users.Keys
    ensures s.tokens.Keys <= Run(s, digest, calls).tokens.Keys
    decreases |calls|
  {
    if |calls| > 0 {
      NothingLostWithoutReset(Step(s, digest, calls[0]), digest, calls[1..]);
    }
  }

  /** Asking again with the same credentials gives the same token and
      changes nothing further: tokens are not unique per call. */
  lemma GetTokenRepeat(s: State, digest: string -> Token, username: Username, password: string)
    requires username in s.users
    ensures
      var first := GetToken(s, digest, username, password);
      var second := GetToken(first.next, digest, username, password);
      && second.Done?
      && second.value == first.value
      && second.next == first.next
  {
  }

  /** Different users whose name-and-password strings concatenate to the
      same text get the same token, and the later request takes it over:
      "admi" asking with password "nx" receives the admin's token for
      password "x", which no longer passes the admin validator. */
  lemma ConcatenationCollision(s: State, digest: string -> Token)
    requires Admin in s.users && "admi" in s.users
    ensures
      var a := GetToken(s, digest, Admin, "x");
      var b := GetToken(a.next, digest, "admi", "nx");
      && a.Done? && b.Done?
      && b.value == a.value
      && b.next.tokens[a.value] == "admi"
      && ValidAdminToken(b.next, a.value) == Fail(InvalidAdminToken)
  {
    assert Admin + "x" == "admi" + "nx";
  }

  /** Adding a name twice: the second call answers with the "already
      exists" reply and leaves the state as the first call left it. */
  lemma AddUserTwice(s: State, token: Token, username: Username)
    requires IsAdminToken(s, token)
    ensures
      var first := AddUser(s, token, username);
      var second := AddUser(first.next, token, username);
      second == Done(UsernameTaken, first.next)
  {
  }

  /** Re-creating a channel throws its messages away: after a send and a
      second creation, a read from any threshold returns nothing. */
  lemma RecreateClearsMessages(s: State, token: Token, channel: ChannelName, message: string,
                               files: seq<Attachment>, now: int, from: int)
    requires IsAdminToken(s, token)
    ensures
      var created := AddChannel(s, token, channel);
      var sent := SendMessage(created.next, token, channel, message, files, now);
      var again := AddChannel(sent.next, token, channel);
      && sent.Done?
      && again.Done?
      && ReadChannel(again.next, token, channel, from) == Done([], again.next)
  {
  }

  /** A send changes later reads of that channel by exactly the new message,
      at the end, when it passes the threshold. */
  lemma ReadAfterSend(s: State, token: Token, channel: ChannelName, message: string,
                      files: seq<Attachment>, now: int, reader: Token, from: int)
    requires token in s.tokens && reader in s.tokens && channel in s.channels
    ensures
      var sent := SendMessage(s, token, channel, message, files, now);
      var before := ReadChannel(s, reader, channel, from);
      var after := ReadChannel(sent.next, reader, channel, from);
      && before.Done? && after.Done?
      && after.value == before.value + (if now >= from then [Message(s.tokens[token], now, message, files)] else [])
  {
    var m := Message(s.tokens[token], now, message, files);
    SinceAppend(s.channels[channel], m, from);
  }

  /** A log whose timestamps never decrease. */
  predicate Chronological(log: seq<Message>)
  {
    forall i, j :: 0 <= i < j < |log| ==> log[i].ts <= log[j].ts
  }

  /** The clock is not trusted to be monotonic; when it does not go back,
      a send keeps the channel's log in timestamp order. */
  lemma SendKeepsChronological(s: State, token: Token, channel: ChannelName, message: string,
                               files: seq<Attachment>, now: int)
    requires channel in s.channels && Chronological(s.channels[channel])
    requires forall i :: 0 <= i < |s.channels[channel]| ==> s.channels[channel][i].ts <= now
    ensures
      var sent := SendMessage(s, token, channel, message, files, now);
      Chronological(After(sent, s).channels[channel])
  {
  }

  /** One send of a run: who sends it, what it says, what it carries and
      the clock reading taken while serving it. */
  datatype Post = Post(token: Token, text: string, files: seq<Attachment>, now: int)

  /** The calls that make each post of `posts` to `channel`, in order. */
  function Sends(channel: ChannelName, posts: seq<Post>): (calls: seq<Call>)
    ensures |calls| == |posts|
    ensures forall i :: 0 <= i < |posts| ==> calls[i].SendMessageCall? && calls[i].channel == channel
  {
    if |posts| == 0 then []
    else [SendMessageCall(posts[0].token, channel, posts[0].text, posts[0].files, posts[0].now)] + Sends(channel, posts[1..])
  }

  /** The messages those calls store, each authored by its token's owner
      in `owners`. */
  function Posted(owners: map<Token, Username>, posts: seq<Post>): (log: seq<Message>)
    requires forall i :: 0 <= i < |posts| ==> posts[i].token in owners
    ensures |log| == |posts|
  {
    if |posts| == 0 then []
    else
      var p := posts[0];
      [Message(owners[p.token], p.now, p.text, p.files)] + Posted(owners, posts[1..])
  }

  /** The i-th stored message carries the i-th post's author, text,
      attachments and clock reading. */
  lemma {:induction false} PostedAt(owners: map<Token, Username>, posts: seq<Post>)
    requires forall i :: 0 <= i < |posts| ==> posts[i].token in owners
    ensures forall i :: 0 <= i < |posts| ==>
      Posted(owners, posts)[i] == Message(owners[posts[i].token], posts[i].now, posts[i].text, posts[i].files)
  {
    if |posts| > 0 {
      PostedAt(owners, posts[1..]);
    }
  }

  /** One send through `Step`: the message lands at the end of the log. */
  lemma SendStep(s: State, digest: string -> Token, channel: ChannelName, post: Post)
    requires post.token in s.tokens && channel in s.channels
    ensures var s1 := Step(s, digest, SendMessageCall(post.token, channel, post.text, post.files, post.now));
      && s1.tokens == s.tokens
      && channel in s1.channels
      && s1.channels[channel] == s.channels[channel] + [Message(s.tokens[post.token], post.now, post.text, post.files)]
  {
  }

  /** A run of sends, from any issued tokens, appends their messages to the
      channel's log in the order sent and leaves the tokens alone. */
  lemma {:induction false} SendsAppend(s: State, digest: string -> Token, channel: ChannelName, posts: seq<Post>)
    requires channel in s.channels
    requires forall i :: 0 <= i < |posts| ==> posts[i].token in s.tokens
    ensures var s' := Run(s, digest, Sends(channel, posts));
      && s'.tokens == s.tokens
      && channel in s'.channels
      && s'.channels[channel] == s.channels[channel] + Posted(s.tokens, posts)
    decreases |posts|
  {
    if |posts| > 0 {
      var calls := Sends(channel, posts);
      var p := posts[0];
      var s1 := Step(s, digest, calls[0]);
      var m := Message(s.tokens[p.token], p.now, p.text, p.files);
      SendStep(s, digest, channel, p);
      assert calls[1..] == Sends(channel, posts[1..]);
      assert Run(s, digest, calls) == Run(s1, digest, calls[1..]);
      SendsAppend(s1, digest, channel, posts[1..]);
      assert Posted(s.tokens, posts) == [m] + Posted(s.tokens, posts[1..]);
      AppendThenExtend(s.channels[channel], m, Posted(s.tokens, posts[1..]));
    }
  }

  /** Appending one message and then a run equals appending the run with the
      message at its front. */
  lemma AppendThenExtend(log: seq<Message>, m: Message, more: seq<Message>)
    ensures (log + [m]) + more == log + ([m] + more)
  {
  }

  /** Reading a freshly created channel from a threshold no later than any
      send's clock reading returns exactly the messages sent, in order, with
      their authors and attachments. */
  lemma ReadReturnsAllSent(s: State, digest: string -> Token, reader: Token, channel: ChannelName,
                           posts: seq<Post>, from: int)
    requires reader in s.tokens && channel in s.channels && s.channels[channel] == []
    requires forall i :: 0 <= i < |posts| ==> posts[i].token in s.tokens && posts[i].now >= from
    ensures
      var s' := Run(s, digest, Sends(channel, posts));
      ReadChannel(s', reader, channel, from) == Done(Posted(s.tokens, posts), s')
  {
    SendsAppend(s, digest, channel, posts);
    var s' := Run(s, digest, Sends(channel, posts));
    assert s'.channels[channel] == Posted(s.tokens, posts);
    PostedAt(s.tokens, posts);
    SinceAll(Posted(s.tokens, posts), from);
  }

  /** Reading with a higher threshold returns a subsequence of what a lower
      one returns, so it never shows a message the lower one left out. */
  lemma ReadChannelMonotone(s: State, token: Token, channel: ChannelName, lo: int, hi: int)
    requires token in s.tokens && channel in s.channels && lo <= hi
    ensures
      var low := ReadChannel(s, token, channel, lo);
      var high := ReadChannel(s, token, channel, hi);
      && low.Done? && high.Done?
      && IsSubseq(high.value, low.value)
      && forall m :: m in high.value ==> m in low.value
  {
    SinceMonotone(s.channels[channel], lo, hi);
    SinceMembers(s.channels[channel], lo);
    SinceMembers(s.channels[channel], hi);
  }

  /** The walk-through: the admin gets a token, creates a channel, posts
      "hello" at time `t0`, reads it back from time 0, and sees nothing from
      `t0 + 1`. */
  lemma AdminScenario(digest: string -> Token, t0: int)
    requires digest(Admin + "admin") != ""
    requires t0 >= 0
    ensures
      var got := GetToken(Init, digest, Admin, "admin");
      var token := got.value;
      var created := AddChannel(got.next, token, "general");
      var sent := SendMessage(created.next, token, "general", "hello", [], t0);
      var all := ReadChannel(sent.next, token, "general", 0);
      var later := ReadChannel(sent.next, token, "general", t0 + 1);
      && got.Done? && created.Done? && sent.Done?
      && sent.value == Receipt(t0, Admin, "hello")
      && all.Done? && |all.value| == 1 && all.value[0].message == "hello" && all.value[0].user == Admin
      && later == Done([], sent.next)
  {
  }
}
