# freegpt-webui website handlers, modelled in Dafny

This project models the logic of `server/website.py` of the freegpt-webui
front-end: the flat-file credential store (`load_login_details`,
`authenticate`), the session gate (`login_required`), the POST branch of the
login handler, the chat-by-id handler and the conversation-id format of the
index handler. The web framework is abstracted: the session and the form are
maps, a handler's result is a `Response` value, and the file, the random bytes
and the clock reading are inputs.

Files and modules:

- `wrappers.dfy` (`Wrappers`): `Option` and `Result`; a Python exception is a `Failure`.
- `pystr.dfy` (`PyStr`): Python's `str.strip()` (with its whitespace set),
  `str.split(sep)` for one separator character, and `sep.join`, with the
  round trips between split and join.
- `hex.dfy` (`Hex`): `bytes.hex()` and `hex(n)`, each with an inverse and round-trip lemmas.
- `credentials.dfy` (`Credentials`): the loader as a loop over the file's lines
  (`LoadLoginDetails`), proved equal to the specification function `Load`,
  whose properties (success iff every line parses, first error wins, a later
  line for a username replaces an earlier one) are proved as lemmas; and
  `Authenticate`.
- `server.dfy` (`Server`): `Response`, the session gate, conversation ids and
  their inverse, and the handlers of a `Website` value (which holds the one
  piece of instance state the handlers read, the URL prefix).

The loader's behaviour on a malformed file follows the code: a line whose
stripped text does not hold exactly one `:` (a blank line included) raises
`ValueError`, which nothing catches, so no map is returned and every login
attempt with both fields filled in then fails with a server error. Only a missing file is tolerated, and
it yields the empty map. Credentials are compared as the code compares them:
a pair is accepted only if it is on the last line for that username, so a
pair that appears earlier in the file, with a later line rebinding the same
username, is refused (`ShadowedPairRejected`). The looser reading that every
pair present in the file is accepted does not match the code.

## Model

| member | source | states |
|---|---|---|
| PyStr.LStrip | server/website.py:29 | the result is a suffix of the input, everything cut off is whitespace, and it does not start with whitespace |
| PyStr.RStrip | server/website.py:29 | the result is a prefix of the input, everything cut off is whitespace, and it does not end with whitespace |
| PyStr.Strip | server/website.py:29 | `line.strip()`: left strip then right strip; what it keeps and cuts is stated by `PyStr.StripShape` and `PyStr.StripTrailingSpace` |
| PyStr.StripShape | server/website.py:29 | `strip()` keeps one contiguous slice of the line, cuts only whitespace on either side, and leaves no whitespace at either end |
| PyStr.StripTrailingSpace | server/website.py:27-29 | trailing whitespace such as the line's newline is removed by `strip()` and nothing else is |
| PyStr.Split | server/website.py:29 | `split(":")` gives one more piece than there are colons, and no piece holds a colon |
| PyStr.JoinSplit | server/website.py:29 | joining the pieces of a split with the separator gives back the original text |
| PyStr.SplitJoin | server/website.py:29 | splitting a join of separator-free pieces gives back exactly those pieces |
| PyStr.SplitInTwo | server/website.py:29 | the two-name unpack succeeds iff the stripped line has exactly one colon, and the line is then `name:password` |
| Hex.BytesHex | server/website.py:127 | `bytes.hex()` writes two lower-case hex digits per byte |
| Hex.BytesHexRoundTrip | server/website.py:127 | the hex text of a byte string reads back to that byte string |
| Hex.ParseBytesHexRoundTrip | server/website.py:127 | any text that reads as bytes is exactly the hex text of those bytes |
| Hex.IntHex | server/website.py:127 | the digits of `hex(n)` after `0x` are at least one lower-case hex digit, with no leading zero unless n is 0 |
| Hex.PyHex | server/website.py:127 | `hex(n)` always has at least three characters; dropping the first two leaves the digits of n for n >= 0, and `x` followed by the digits of -n for n < 0 |
| Hex.IntHexRoundTrip | server/website.py:127 | the hex digits of a non-negative number denote that number |
| Hex.HexValueRoundTrip | server/website.py:127 | every hex text without a redundant leading zero is the text `hex` writes for its value |
| Credentials.ParseLine | server/website.py:29 | one line stripped, split on `:` and unpacked into two names; its outcomes are stated by `Credentials.ParseLineOutcome` and `Credentials.ParseLineExactly` |
| Credentials.ParseLineOutcome | server/website.py:29 | a line unpacks iff its stripped text has exactly one `:`; no colon raises "not enough values", two or more "too many"; a parsed line is `name:password` with colon-free halves |
| Credentials.ParseLineExactly | server/website.py:29 | a line parses to `(u, p)` iff its stripped text is exactly `u:p` with no other colon |
| Credentials.ParseFileLine | server/website.py:27-29 | a well-formed line as read from the file, newline included, parses to its two names |
| Credentials.BlankLineFails | server/website.py:29 | a blank or whitespace-only line raises "not enough values" |
| Credentials.Collect | server/website.py:28-31 | the parsed lines folded into a map in order, a later pair replacing an earlier one, the first failure escaping; stated by `Credentials.CollectSucceeds`, `Credentials.CollectFirstError`, `Credentials.CollectKeys`, `Credentials.CollectLastWins` and `Credentials.CollectLookup` |
| Credentials.ParseLines | server/website.py:27-31 | all lines of the file parsed one by one and collected; stated by the `Collect` lemmas and `Credentials.AuthenticateLines` |
| Credentials.Load | server/website.py:24-33 | the loader's result: the empty map for a missing file, the open error for any other open failure, the collected lines otherwise; `Credentials.LoadLoginDetails` is proved equal to it |
| Credentials.CollectSucceeds | server/website.py:28-31 | loading the lines succeeds iff every line parses |
| Credentials.CollectFirstError | server/website.py:28-31 | a failing load raises the error of the first line that does not parse, and returns no partial map |
| Credentials.CollectKeys | server/website.py:28-30 | the usernames of a successful load are exactly the usernames some line names |
| Credentials.CollectLastWins | server/website.py:28-30 | a successful load binds each username to the password on the last line naming it |
| Credentials.CollectLookup | server/website.py:28-30 | every bound username has a last line naming it, and that line holds its password |
| Credentials.LoadLoginDetails | server/website.py:24-33 | the loop over the file's lines returns exactly `Load(file)`: the empty map for a missing file, a propagated error for any other open failure, the folded lines otherwise |
| Credentials.BadLineBreaksLoad | server/website.py:26-38 | one line without exactly one colon makes loading raise, and every authentication attempt with it |
| Credentials.Authenticate | server/website.py:31-38 | with the file missing every pair is refused; with the file unreadable the open error propagates |
| Credentials.AuthenticateLines | server/website.py:24-38 | against a file of lines, authentication raises iff some line does not parse, and otherwise accepts exactly the pair on the last line for the username, compared verbatim |
| Credentials.ShadowedPairRejected | server/website.py:28-38 | a pair in the file is refused when a later line rebinds its username to another password |
| Server.LoginRequired | server/website.py:11-21 | without `user_id` in the session the result is a redirect to `/login`; with it, exactly the view's result |
| Server.GateNeverConsultsView | server/website.py:14-15 | without a session the gate's result does not depend on the view or its arguments, so the view is not run |
| Server.ConversationId | server/website.py:127 | the id joins the four random byte strings in hex and `hex` of the clock minus its first two characters with `-`; whatever the clock reads, the first eight characters are the hex of the first four bytes and the ninth is `-` |
| Server.ConversationIdFields | server/website.py:127 | an id splits on `-` into the four random byte strings in hex (8, 4, 4, 4 digits) and the millisecond clock in hex |
| Server.ConversationIdRoundTrip | server/website.py:127 | an id reads back to the random bytes and clock reading it was built from |
| Server.ConversationIdInjective | server/website.py:127 | different random bytes or clock readings give different ids |
| Server.Website.Login | server/website.py:78-116 | GET shows the form; a POST without `user_id` is a bad request; an empty user id or an empty or absent password gives the "fill in" message whatever the file holds; a store that raises gives a server error; a refused pair gives the "invalid" message; only an accepted pair binds `user_id` in the session, changing nothing else, and redirects to `/` |
| Server.Website.Chat | server/website.py:119-123 | an id without `-` redirects to the index route; an id with one renders the chat page with that exact id |
| Server.Website.Index | server/website.py:125-127 | the index page renders a chat page whose id contains `-`, and for a clock reading at or after the epoch is well formed and reads back to the bytes and clock |
| Server.Website.ChatRoute | server/website.py:118-123 | the `/chat/<conversation_id>` route: a redirect to `/login` without `user_id` in the session, and exactly the chat handler's result with it |
| Server.Website.IndexRoute | server/website.py:125-127 | the `/chat/` route: a redirect to `/login` without `user_id` in the session, and exactly the index handler's result with it |
| Server.Website.GatedRoutesNeedSession | server/website.py:118-127 | no chat page, for a given or a fresh id, is served to a session without `user_id`; both routes redirect to `/login` |
| Server.Website.IssuedIdIsAccepted | server/website.py:118-127 | with a session, the id the index route issues is accepted by the chat route and shown exactly as issued |

## Left out

- Route table, dispatch and templates (server/website.py:45-72, `render_template`, `redirect`, `url_for`): a handler's result is the abstract `Response`; `RedirectToIndex` stands for `redirect(url_for('._index'))`, whose URL depends on where the blueprint is mounted. The `/` route's redirect lambda is part of that table.
- File I/O: the file is an input value, `NotFound`, `Unreadable` (any other error from `open`) or its lines as iteration yields them; decoding errors and errors while reading are not modelled. The notice printed for a missing file has no effect on the result and is omitted.
- Per-user login record (server/website.py:92-102): attaching a file handler to the process-wide logger, writing one line to `log/<user_id>.log` and detaching it is file I/O on shared state, not modelled; so an error while opening that log file after the session was updated is not modelled either.
- Randomness and time: the four `urandom` results are the `Draw` input and `int(time() * 1000)` is the integer `ms` input; the floating-point multiplication and truncation are not modelled.
- Server.Website.Index: the field layout and the round trip are proved only for `ms >= 0`, because for a negative clock reading `hex` writes a minus sign and the id's last field becomes `x` followed by digits; the hyphen check still passes then, which is proved.
- Server.ConversationIdFields, Server.ConversationIdRoundTrip, Server.ConversationIdInjective: stated only for clock readings `ms >= 0`, for the same reason; ids from negative readings are not shown to be distinct from the others, although their last field, starting with `x`, cannot be a hex field.
- Locale handlers `change_language`, `get_locale`, `get_languages` (server/website.py:129-139): JSON parsing and calls into the translation library, which is not part of this model.
- Logout (server/website.py:74-76): it pops `user_id` from the session and redirects to `/login`, but it is declared without `self` while being registered as a bound method, so calling it raises a `TypeError`; no version of it is modelled.
- Form fields: a field submitted several times is modelled by its first value only.
