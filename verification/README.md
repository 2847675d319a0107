# Messenger store, modelled in Dafny

This project models the core of `messenger.py`, a small HTTP messaging backend. The core is three in-memory maps and six operations behind argument validators:

- `users` maps a username to a record. The record holds the last token issued to that user.
- `tokens` maps an issued token to the user who owns it.
- `channels` maps a channel name to its append-only list of messages.

Start-up seeds the user `"admin"`. A user gets a token from `get_token`. With an admin token, a user can add users, add channels and wipe everything with `clean_db`. Any token lets its owner post to and read from existing channels.

The model is functional. The state is an immutable `Store.State` value. Each operation is a pure function from a state and its arguments to a `Store.Outcome`. An outcome is one of two things:

- `Raised(errors)`: the validators refused the call, and the state is unchanged.
- `Done(reply, next)`: the call ran, and `next` is the state after it.

Modules:

- `Store` (`store.dfy`) defines the entities (`UserRecord`, `Message`, `State`), the start-up state `Init`, the error kinds, and the invariant `Inv`.
- `Guards` (`guards.dfy`) defines the four validators and `Failures`. `Failures` combines the verdicts of every validated argument.
- `History` (`history.dfy`) defines the timestamp filter behind `read_channel`: the function `Since`, a loop version `ReadSince`, and the subsequence relation `IsSubseq`.
- `Messenger` (`messenger.dfy`) defines the six operations.
- `Sessions` (`sessions.dfy`) covers sequences of calls from start-up: the reachability invariant, what only a reset removes, and how operations interact.

Modelling choices:

- **Token digest.** The token is SHA-224 of `username + password`. The model takes the digest as a parameter `digest: string -> string` and applies it to the concatenated string. The operations assume nothing about the digest except that it is a function.
- **Clock.** Each send takes its clock reading `now` as an integer argument.
- **Refused calls.** The HTTP framework validates every annotated argument and reports the errors of all the failing ones together. So `send_message` and `read_channel` can report both `InvalidToken` and `ChannelNotFound`, in parameter order.
- **Admin check on empty tokens.** `valid_admin_token` (messenger.py:33) tests the truth of the string that `valid_token` returns. So an empty token is refused with the admin error even if it is issued and owned by `"admin"`. `Guards.IsAdminToken` keeps this condition. A real SHA-224 hex digest is never empty, so with the real digest this branch cannot happen. `Sessions.AdminScenario` therefore assumes `digest("adminadmin") != ""`.

Where the doc strings disagree with the code, the model follows the code:

- **Line 45: unique tokens.** The doc string promises a unique token per call, but the token is a deterministic digest. `Sessions.GetTokenRepeat` proves that repeating a request returns the same token and leaves the state as it was.
- **Line 53: duplicate user.** The doc string says a duplicate user raises. The code instead returns the `{"errors": {"username": ...}}` payload as an ordinary reply. This is `Messenger.AddUserReply.UsernameTaken`.
- **Line 61: duplicate channel.** The doc string says a duplicate channel raises. The code instead resets that channel's log to empty, without any check. See `Messenger.AddChannel` and `Sessions.RecreateClearsMessages`.

Two further consequences of the code are worth stating:

- **Re-issuing a token can move it to another user.** The digest hashes the concatenation, not the pair, so `"admin" + "x"` and `"admi" + "nx"` give the same token. If user `"admi"` asks second, the token moves to `"admi"` and stops being an admin token. `Sessions.ConcatenationCollision` proves this.
- **Timestamps can go backwards.** The timestamp is `time.time()`, a wall clock that can go backwards, so a channel's log is not necessarily in timestamp order. The model proves ordering only under an explicit assumption, in `Sessions.SendKeepsChronological`.

## Model

| member | source | states |
|---|---|---|
| Guards.ValidUser | messenger.py:19-23 | Passes exactly when the username is registered; otherwise fails with the user-not-found error. |
| Guards.ValidToken | messenger.py:25-29 | Passes exactly when the token is issued; otherwise fails with the invalid-token error. |
| Guards.ValidChannel | messenger.py:37-41 | Passes exactly when the channel exists; otherwise fails with the channel-not-found error. |
| Guards.ValidAdminToken | messenger.py:25-35 | Accepts exactly the tokens that are issued, owned by "admin" and non-empty. An unissued token fails with the invalid-token error before the admin test. An issued token that is not an admin token fails with the invalid-admin-token error. |
| Guards.Failures | messenger.py:66 | The combined verdict is empty exactly when every validator passed. Every failing validator's error appears in it, and no other error does. |
| Messenger.GetToken | messenger.py:43-49 | Fails with only user-not-found exactly when the username is unknown. Otherwise it returns digest(username+password). Afterwards the token maps to that user and the user's record holds it. The token keys grow by exactly that token, and every other token keeps its owner. No user is added or removed, other records are unchanged, channels are unchanged, and the invariant is preserved. |
| Messenger.AddUser | messenger.py:51-57 | Refused exactly when the token is not an admin token: invalid-token if unissued, invalid-admin-token otherwise. The "already exists" reply comes exactly when the name is registered, and then the state is unchanged. Otherwise exactly that name is added with an empty record, existing records keep their values, and tokens and channels are unchanged. Preserves the invariant. |
| Messenger.AddChannel | messenger.py:59-63 | Refused exactly when the token is not an admin token, with the same two errors as AddUser. On success it returns the name and the channel's log is empty, even if the channel existed before. The channel keys grow by at most that name, other channels keep their logs, users and tokens are unchanged, and the invariant is preserved. |
| Messenger.SendMessage | messenger.py:65-70 | Refused exactly when the token is unissued or the channel is missing, reporting each failing check in parameter order. On success the channel's log grows by exactly one message at the end and its old prefix is untouched. The new message is authored by the token's owner and stamped with the given clock reading. The reply's timestamp, user and text equal the stored message's fields. Other channels, users and tokens are unchanged. Preserves the invariant. |
| Messenger.ReadChannel | messenger.py:72-76 | Refused exactly when the token is unissued or the channel is missing, reporting each failing check in parameter order. On success the state is unchanged. The result is a subsequence of the channel's log. Every message stamped at or after the threshold keeps its multiplicity, and no other message appears. |
| Messenger.CleanDb | messenger.py:78-84 | Refused exactly when the token is not an admin token. Afterwards the only user is "admin" and its record holds no token. Every token is invalid, including the one just used, and every channel is missing. The invariant holds. |
| History.Since | messenger.py:76 | The filtered list is no longer than the log, and each element is stamped at or after the threshold. |
| History.SinceMembers | messenger.py:76 | A message is in the filtered list exactly when it is in the log and stamped at or after the threshold. |
| History.ReadSince | messenger.py:76 | The comprehension, run as a loop over the log, computes the same list as the filter function Since. |
| History.SinceAppend | messenger.py:69 | Appending a message to a log changes the filtered list only by adding that message at the end, and only when it passes the threshold. |
| History.SinceIsSubseq | messenger.py:76 | The filtered list is a subsequence of the log, so stored order is kept. |
| History.SinceMultiplicity | messenger.py:76 | Each message at or after the threshold occurs in the result as often as in the log. Every other message occurs zero times. |
| History.SinceAll | messenger.py:76 | When every message passes the threshold, the result is the whole log. |
| History.SinceSince | messenger.py:76 | Filtering the lower threshold's result at a higher threshold gives the higher threshold's result. |
| History.SinceMonotone | messenger.py:76 | Raising the threshold yields a subsequence of the lower threshold's result. |
| Sessions.Step | messenger.py:43-84 | Every operation, refused or not, preserves the invariant. Every operation except the reset keeps all users and all issued tokens. |
| Sessions.RunPreservesInv | messenger.py:8-10 | Any sequence of calls from a state that satisfies the invariant ends in a state that satisfies it. |
| Sessions.ReachableInv | messenger.py:8-10 | Every state reachable from start-up has the admin user, every token owned by a registered user, and every remembered token still issued. |
| Sessions.NothingLostWithoutReset | messenger.py:44-57 | Without a reset in the sequence, no user disappears and no issued token becomes invalid. |
| Sessions.GetTokenRepeat | messenger.py:44-48 | A repeated token request with the same credentials succeeds, returns the same token and leaves the state as the first request left it. |
| Sessions.ConcatenationCollision | messenger.py:46-48 | "admi" with password "nx" receives the same token as "admin" with password "x". The token then belongs to "admi" and the admin validator refuses it. |
| Sessions.AddUserTwice | messenger.py:52-56 | Adding the same name a second time returns the "already exists" reply and leaves the state unchanged. |
| Sessions.RecreateClearsMessages | messenger.py:60-62 | Creating a channel, sending to it and creating it again leaves a log from which every read returns nothing. |
| Sessions.ReadAfterSend | messenger.py:66-76 | After a send, a read of that channel returns the earlier read's result, followed by the new message exactly when it passes the threshold. |
| Sessions.SendKeepsChronological | messenger.py:66-69 | If the log is in timestamp order and the clock reading is not earlier than any stored one, the log stays in timestamp order after the send. |
| Sessions.SendsAppend | messenger.py:66-70 | A run of sends to one channel, each from any issued token and with any text, attachments and clock reading, appends their messages to the log in the order sent. Each message is authored by its token's owner. The tokens are unchanged. |
| Sessions.ReadReturnsAllSent | messenger.py:66-76 | A freshly created channel, after any run of sends from issued tokens, read by any issued token from a threshold at or below every send's clock reading, returns exactly the messages sent, in order, with their authors, texts and attachments. |
| Sessions.ReadChannelMonotone | messenger.py:73-76 | Reading a channel with a higher threshold returns a subsequence of what a lower threshold returns, so it never shows a message the lower one left out. |
| Sessions.AdminScenario | messenger.py:43-76 | The admin gets a token, creates "general" and posts "hello" at t0. The reply is (t0, "admin", "hello"). A read from 0 returns that one message, and a read from t0+1 returns nothing. |

## Left out

- HTTP routing, request parsing and documentation examples (the `hug` decorators) are left out. The model keeps only their effect: validators run before the body, and a refusal leaves the state unchanged. The framework's own refusals for missing parameters or a non-numeric `from_timestamp` are not modelled.
- Messenger.GetToken: SHA-224 and the `raw_unicode_escape` encoding are foreign library code. They are replaced by the `digest` parameter. The model claims no collision resistance.
- Messenger.SendMessage: the clock reading is an integer argument rather than a float from `time.time()`. Floating-point timestamps and thresholds are not modelled.
- Messenger.ReadChannel: the result is the message records themselves. The JSON serialisation of each record is library code and is not modelled.
- Attachments are opaque. The size and type limits appear only in a doc string, and the code never enforces them.
- Concurrency is not modelled. The source keeps process-wide mutable state without locking, and the model threads the state through each call instead.
- Error messages are modelled as error kinds, not as the exception text.
