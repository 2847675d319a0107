/**
 The in-memory state of the messaging backend: registered users, issued
 tokens and channel logs, held as one immutable value that every operation
 takes and returns.
 */
module Store {

  type Username = string
  type Token = string
  type ChannelName = string

  /** An attachment exactly as the caller handed it over; the backend never
      looks inside. */
  type Attachment = string

  /** The reserved user that exists from start-up and after every reset. */
  const Admin: Username := "admin"

  datatype Option<T> = None | Some(value: T)

  /** A user's record: empty when created, and holding the most recently
      issued token once the user has asked for one. */
  datatype UserRecord = UserRecord(lastToken: Option<Token>)

  /** One posted message. `ts` is the clock reading taken when it was sent. */
  datatype Message = Message(user: Username, ts: int, message: string, files: seq<Attachment>)

  datatype State = State(
    users: map<Username, UserRecord>,
    tokens: map<Token, Username>,
    channels: map<ChannelName, seq<Message>>)

  /** The state at start-up, and the state a reset returns to. */
  const Init: State := State(map[Admin := UserRecord(None)], map[], map[])

  /** The ways a guard refuses a call. */
  datatype Error = UserNotFound | InvalidToken | InvalidAdminToken | ChannelNotFound

  /** What a call produces: a payload with the state after the call, or the
      errors of every guard that refused it, in parameter order. A refused
      call leaves the state as it was. */
  datatype Outcome<T> = Done(value: T, next: State) | Raised(errors: seq<Error>)

  /** The state after a call whose outcome is `o`, started in `s`. */
  function After<T>(o: Outcome<T>, s: State): State
  {
    match o
    case Done(_, next) => next
    case Raised(_) => s
  }

  /** What every reachable state satisfies: the admin user exists, every
      token belongs to a registered user, and every token a user record
      remembers is still issued. */
  predicate Inv(s: State)
  {
    && Admin in s.users
    && (forall t :: t in s.tokens ==> s.tokens[t] in s.users)
    && (forall u :: u in s.users && s.users[u].lastToken.Some? ==> s.users[u].lastToken.value in s.tokens)
  }
}
