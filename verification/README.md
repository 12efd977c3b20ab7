# Derivity AI account signup, modelled in Dafny

This project models the JSON request handlers of the Derivity AI marketing
site (`main/views.py`). Most of their logic is in account creation
(`user_signup`):

- An email that some user already holds, compared exactly, is refused with
  "An account with this email already exists". The user table is left
  unchanged.
- The username is the email's text before the first `@`. If a user already
  holds that name, the handler appends `1`, `2`, … and keeps the first
  name nobody holds.
- The full name is split at single spaces. The first piece becomes the
  first name. The remaining pieces, re-joined with one space, become the
  last name.

The other handlers form a thin dispatch layer around signup:

- `contact_form` acknowledges every parsed POST and stores nothing.
- `user_login` defers to the framework's credential check.
- `ai_chat` returns one fixed reply.
- All four handlers answer any method other than POST with
  "Invalid request method".

## Files

| file | module | contents |
|---|---|---|
| `strings.dfy` | `Strings` | Python's `str.split(sep)` and `sep.join(parts)` for a one-character separator. Split and join are proved inverse in both directions. The first piece is characterised as the longest separator-free prefix. |
| `numerals.dfy` | `Numerals` | `str(n)` for a natural number, and its parser. Both round trips are proved, which makes `str` injective. |
| `accounts.dfy` | `Accounts` | The user table. Also: the base username, the suffix-search loop with its pigeonhole termination bound, the reference "first free candidate" definition, and the name split. |
| `http.dfy` | `Http` | Requests (method and parsed body) and the response envelope. |
| `views.dfy` | `Views` | The four handlers, the signup reference function and the signup handler method, the dispatch, and the signup properties. |

Modelling choices:

- The user table is a sequence of immutable `User` rows: username, email,
  first name, last name. Signup either returns the table unchanged or
  appends one row.
- A request body is `None` when `json.loads` rejects it or it is not a JSON
  object. The handlers' `except` branch then answers with its fixed
  message. Otherwise the body is a map from keys to text. A key that is
  absent or `null` reads as `None`, as `data.get` does.
- The framework's `authenticate` is a function parameter of `UserLogin` and
  `Route`. Its result decides login and nothing else.
- Signup's `except` branch is reached in three ways:
  - the body is not parsed;
  - the email is missing, so `None.split('@')` raises;
  - the derived username is empty, which happens for an empty local part
    (an email that is empty or starts with `@`) when that name is free. The
    framework's `create_user` raises on an empty username. This rule is the
    documented behaviour of that library call and does not appear in
    `views.py` itself.
- `Accounts.ChooseUsername` is the `while` loop as written. It builds the
  set of held usernames once, tests membership once per try, and counts
  with `counter` from 1.
  `Accounts.DeriveUsername` (through `FirstFree`) is an independent
  recursive reference for the same choice. The loop is proved to return the
  reference's username, and `Views.HandleSignup` is proved to compute
  `Views.UserSignup`.

What the code does and does not do:

- Emails are compared exactly, with no case folding
  (`main/views.py:129`).
- `main/views.py` has no account lockout, no input validators and no
  security-event log.
- The suffix loop (`main/views.py:139-141`) has no cap. The model proves it
  terminates, because the table is finite and `str` is injective.
- Login reads the `username` field, not `email` (`main/views.py:71`).

## Model

| member | source | states |
|---|---|---|
| Http.Field | main/views.py:123-126 | `data.get(key)` is present exactly when the key is, with its value |
| Strings.Split | main/views.py:136 | `str.split` on one character gives at least one piece, and no piece contains the separator |
| Strings.Join | main/views.py:149 | `' '.join` starts with the first piece, followed by the separator when there are two or more pieces; JoinSplit and SplitJoin make it the inverse of Split |
| Strings.JoinSplit | main/views.py:149 | joining the pieces of a split with the separator gives back the original text |
| Strings.SplitJoin | main/views.py:149 | splitting a join of separator-free pieces gives back the pieces |
| Strings.SplitHead | main/views.py:136 | the first piece is a prefix with no separator, followed by the separator unless it is the whole text; it is the whole text, and the only piece, exactly when the text has no separator |
| Numerals.Decimal | main/views.py:140 | `str(counter)` is a non-empty string of digits with no leading zero |
| Numerals.ValueOfDecimal | main/views.py:140 | reading back the printed decimal gives the number |
| Numerals.DecimalOfValue | main/views.py:140 | every canonical digit string is the printed form of its value |
| Numerals.DecimalInjective | main/views.py:140 | distinct counters give distinct suffixes |
| Accounts.UsernamesBound | main/views.py:139 | the table holds no more distinct usernames than rows |
| Accounts.EmailInUse | main/views.py:129 | the duplicate-email query holds exactly when the submitted text is among the held emails, compared exactly |
| Accounts.BaseUsername | main/views.py:136 | the base username is the email text before the first '@', or the whole email when it has none, and it contains no '@' |
| Accounts.CandidateInjective | main/views.py:138-140 | different loop iterations try different usernames |
| Accounts.Pigeonhole | main/views.py:139-141 | if the first k tries are all taken, at least k usernames are held |
| Accounts.FirstFree | main/views.py:137-141 | the first free try is free, every earlier try is taken, and its index is at most the number of held usernames |
| Accounts.DeriveUsername | main/views.py:137-141 | the reference choice is held by no user; it is the base if the base is free, and otherwise base + str(k) for the smallest free k >= 1, every suffix below k held and k at most the number of held names |
| Accounts.DeriveUsernameIsSmallestFree | main/views.py:136-141 | the chosen username is free. It is the base if the base is free. Otherwise it is base + str(k) for the smallest free k >= 1, with every suffix below k taken and k at most the number of users |
| Accounts.FirstFreeUnique | main/views.py:137-141 | at most one try is free with all earlier tries taken |
| Accounts.ChooseUsername | main/views.py:136-141 | the loop ends with a free username, counter between 1 and the number of users + 1, the base or base + str(counter - 1) with all smaller suffixes taken; this is the reference choice |
| Accounts.SplitFullName | main/views.py:148-149 | the first name has no space and is a prefix; with a space, first + " " + last is the full name; without one, the first name is the full name and the last is empty; an empty name gives two empty names |
| Accounts.NewUser | main/views.py:144-150 | the inserted row has a username no user holds, starting with the local part and equal to it exactly when it is free, the submitted email, and the split name |
| Accounts.NewUserKeepsUsernamesUnique | main/views.py:139-150 | the inserted row's username is held by no user, so usernames stay distinct |
| Views.ContactForm | main/views.py:41-63 | success exactly for a parsed POST, with the fixed thanks; a non-POST gets "Invalid request method"; an unparsed body gets the fixed failure message |
| Views.UserLogin | main/views.py:66-92 | success exactly for a parsed POST whose username and password the credential check accepts; a non-POST gets "Invalid request method"; an unparsed body gets "There was an error processing your request"; rejected credentials get "Invalid username or password" |
| Views.AiChat | main/views.py:95-115 | every parsed POST gets the same fixed reply, whatever the message; a non-POST gets "Invalid request method"; an unparsed body gets "There was an error processing your request" |
| Views.SubmittedName | main/views.py:123 | the full name is the submitted text, or empty when the key is absent, which splits into two empty names |
| Views.UserSignup | main/views.py:118-167 | success exactly when the table changes; on success the old rows are kept in place and exactly one row is added; otherwise the answer is an error |
| Views.HandleSignup | main/views.py:118-167 | the handler with its suffix loop returns the same answer and table as the reference signup |
| Views.SignupRejectsDuplicateEmail | main/views.py:128-133 | a parsed POST with an email some user holds exactly gets "An account with this email already exists" and the table is unchanged |
| Views.SignupCreatesAccount | main/views.py:136-160 | success exactly for a parsed POST whose email no user holds and whose derived username is not empty; the new row holds a username no user held (the derived one), the submitted email, and the split full name |
| Views.SignupKeepsUsernamesUnique | main/views.py:139-150 | signup preserves distinct usernames in the table |
| Views.SignupIgnoresNewsletter | main/views.py:126-155 | setting or removing the newsletter flag changes neither the answer nor the table |
| Views.FirstSignupTakesLocalPart | main/views.py:136-150 | on an empty table, "a@x.com" creates user "a" with empty names |
| Views.SecondSignupGetsSuffix | main/views.py:136-150 | after "a@x.com", "a@y.com" with name "Jane Doe" creates user "a1" named Jane Doe |
| Views.Route | main/views.py:40-167 | only signup changes the table, and every endpoint answers a non-POST with "Invalid request method" and leaves the table unchanged |

## Left out

- Template-rendering views (`main/views.py:8-38`): they only render a page.
- `main/urls.py` routing is not part of this model. `Route` takes the
  endpoint as a value. The URL table also names `dashboard_view` and
  `user_logout`, which `main/views.py` does not define.
- The framework's `authenticate` and `login` calls: credential checking is a
  parameter. Session establishment and the `last_login` update that `login`
  performs are not modelled, and the `User` row has no such field.
- `create_user` internals other than its refusal of an empty username:
  - password hashing (the password is not stored in the model);
  - `normalize_email`, which strips surrounding white space and lower-cases
    the domain part of an email that contains '@' (the model stores the
    email exactly as submitted);
  - database length limits on username and names, which depend on the
    database backend.
- Views.UserSignup: does not model the NFKC normalisation
  (`normalize_username`) that `create_user` applies to the username before
  saving. The loop tests the raw name, so a local part in compatibility
  characters (fullwidth `ｊａｎｅ`) can pass the loop and then be saved as
  `jane`. If `jane` is already held, the unique constraint fails and the
  real handler answers "There was an error creating your account. Please
  try again.", while the model answers success with username `ｊａｎｅ`.
  Unicode normalisation tables are outside what this model represents.
- JSON values that are not text, such as a number as the full name or a list
  as the body. A text-only body covers every path the handlers take on
  well-formed input. Parser internals are framework plumbing.
- Concurrency: two simultaneous signups could both choose the same free
  username. The database's unique constraint would then reject one, and the
  `except` branch would answer. The model handles one request at a time.
- `main/models.py`, `main/admin.py`: field declarations and admin
  configuration with no behaviour. `ContactMessage` is never written by
  `contact_form`.
- The unreachable second `return` at `main/views.py:169`.
- `static/js/*.js`: browser-side DOM, timers, storage and animation code.
