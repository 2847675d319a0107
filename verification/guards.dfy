/**
 The four argument validators that run before an operation's body, and the
 way their verdicts are combined: every annotated argument is validated and
 the call is refused with the errors of all those that failed.
 */
module Guards {
  import opened Store

  /** The verdict of one validator on one argument. */
  datatype Check = Pass | Fail(error: Error)

  /** A token that the admin validator accepts: issued, owned by the admin
      user, and non-empty, since the validator tests the truth of the token
      string that the token validator hands back. */
  predicate IsAdminToken(s: State, token: Token)
  {
    token in s.tokens && s.tokens[token] == Admin && token != ""
  }

  function ValidUser(s: State, username: Username): (c: Check)
    ensures c.Pass? <==> username in s.users
    ensures c.Fail? ==> c.error == UserNotFound
  {
    if username in s.users then Pass else Fail(UserNotFound)
  }

  function ValidToken(s: State, token: Token): (c: Check)
    ensures c.Pass? <==> token in s.tokens
    ensures c.Fail? ==> c.error == InvalidToken
  {
    if token in s.tokens then Pass else Fail(InvalidToken)
  }

  /** Runs the token validator first; only an issued token reaches the
      admin test. */
  function ValidAdminToken(s: State, token: Token): (c: Check)
    ensures c.Pass? <==> IsAdminToken(s, token)
    ensures token !in s.tokens ==> c == Fail(InvalidToken)
    ensures token in s.tokens && !IsAdminToken(s, token) ==> c == Fail(InvalidAdminToken)
  {
    match ValidToken(s, token)
    case Fail(e) => Fail(e)
    case Pass => if token != "" && s.tokens[token] == Admin then Pass else Fail(InvalidAdminToken)
  }

  function ValidChannel(s: State, channel: ChannelName): (c: Check)
    ensures c.Pass? <==> channel in s.channels
    ensures c.Fail? ==> c.error == ChannelNotFound
  {
    if channel in s.channels then Pass else Fail(ChannelNotFound)
  }

  /** The errors of the failing verdicts, in order. */
  function Failures(checks: seq<Check>): (errs: seq<Error>)
    ensures errs == [] <==> forall i :: 0 <= i < |checks| ==> checks[i].Pass?
    ensures forall e :: e in errs <==> Fail(e) in checks
    ensures |errs| <= |checks|
  {
    if |checks| == 0 then []
    else
      var rest := Failures(checks[1..]);
      assert checks == [checks[0]] + checks[1..];
      match checks[0]
      case Pass => rest
      case Fail(e) => [e] + rest
  }
}
