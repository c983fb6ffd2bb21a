# Registration form validation, modelled in Dafny

This project models the validation state machine behind the Register dialog
of the map-pinning frontend. The dialog keeps one record for its four inputs:
username, email, password and password confirmation. Each input stores the raw
text typed so far and an `isValid` flag, and the form as a whole has an
`isFormValid` flag that enables the Register button. A reducer updates this
record on five action types:

- `USERNAME_CHECK`, `EMAIL_CHECK`, `PASSWORD_CHECK` and `CONFIRMPASSWORD_CHECK`
  each store their input and recompute that input's flag;
- `FORM_VALID` recomputes the form flag as the conjunction of the four;
- any other type leaves the state as it is.

An effect watching the four values dispatches `FORM_VALID` once when the
dialog first appears and again after any of the values changes.

Files:

- `JsString.dfy` models the two JavaScript string built-ins the rules use.
  `Trim` is `String.prototype.trim`: it cuts ECMAScript WhiteSpace and
  LineTerminator characters from both ends. `Utf16Length` is `length`, which
  counts UTF-16 code units, so a character outside the Basic Multilingual
  Plane counts as two. The module proves what `trim` means: the result is the
  infix left once the whitespace at each end is cut, and nothing more can be
  cut. It also proves that `trim` undoes whitespace padding, is idempotent and
  yields the empty string exactly for all-whitespace input.
- `Register.dfy` holds the state (`Field`, `State`), the actions (`Action`,
  whose `kind` is the action's `type` string), the initial state, the four
  input rules and the reducer `Reduce`. Its lemmas state what each action
  does and what it leaves alone. `Handle` and `Replay` model the reducer
  followed by the effect at lines 118-120 of `Register.jsx`. The main theorem,
  `SubmitEnabledIffLastInputsPass`, says that after any sequence of input
  events the Register button is enabled exactly when the last username,
  email, password and confirmation typed pass their rules.

The confirm-password rule is modelled as written. Its second conjunct only
asks that the stored password's trimmed length be at least 0, which always
holds, so the confirmation is never compared with the password.
`ConfirmPasswordCheckIgnoresPassword` and `MismatchedConfirmationAccepted`
state this.

The email rule `includes('@')` is modelled as membership of `'@'` in the
input. These agree on every string, because no UTF-16 surrogate code unit
equals `'@'`.

The username and password rules count the trimmed input in UTF-16 code
units; the email rule only looks for '@'.

## Model

| member | source | states |
|---|---|---|
| `Register.InitialState` | frontend/src/components/Register.jsx:10-28 | the form starts with all four values empty, all four flags false and the form flag false |
| `Register.InitialStateSettled` | frontend/src/components/Register.jsx:10-28 | the initial state already agrees with the rules: every flag matches its rule on the empty value, and the form flag matches the four flags |
| `Register.UsernameCheckSetsOnlyUsername` | frontend/src/components/Register.jsx:42-49 | `USERNAME_CHECK` stores the untrimmed input; the flag is set iff the trimmed input is longer than 3 UTF-16 units; the other fields and the form flag are unchanged |
| `Register.EmailCheckSetsOnlyEmail` | frontend/src/components/Register.jsx:50-57 | `EMAIL_CHECK` stores the input; the flag is set iff some character of the untrimmed input is '@'; everything else is unchanged |
| `Register.PasswordCheckSetsOnlyPassword` | frontend/src/components/Register.jsx:58-65 | `PASSWORD_CHECK` stores the input; the flag is set iff the trimmed input has at least 6 UTF-16 units; everything else is unchanged |
| `Register.ConfirmPasswordCheckIgnoresPassword` | frontend/src/components/Register.jsx:66-73 | `CONFIRMPASSWORD_CHECK` stores the input; the flag is set iff the trimmed confirmation has at least 6 UTF-16 units, whatever password is stored; everything else is unchanged |
| `Register.MismatchedConfirmationAccepted` | frontend/src/components/Register.jsx:71 | a valid password followed by a different confirmation of at least 6 trimmed units leaves both flags set: the two inputs are never compared |
| `Register.FormValidIsConjunction` | frontend/src/components/Register.jsx:33-41 | `FORM_VALID` sets the form flag iff all four field flags are set and leaves all four fields unchanged |
| `Register.FormValidIdempotent` | frontend/src/components/Register.jsx:33-41 | dispatching `FORM_VALID` twice gives the same state as dispatching it once |
| `Register.UnrecognisedActionIsIgnored` | frontend/src/components/Register.jsx:74-75 | an action whose type is none of the five known types returns the state unchanged |
| `Register.CheckKeepsFormFlag` | frontend/src/components/Register.jsx:42-75 | no action other than `FORM_VALID` changes the form flag |
| `Register.ReduceKeepsConsistent` | frontend/src/components/Register.jsx:31-77 | if every flag agrees with its rule on the stored value, this still holds after any action |
| `Register.SameValuesSameFlags` | frontend/src/components/Register.jsx:42-73 | in states where flags agree with their rules, equal values give equal flags, one by one, and so the same conjunction of the four flags |
| `Register.HandleSetsNamedValue` | frontend/src/components/Register.jsx:42-73 | after one input event, the input the action's type names holds the payload, and every other input keeps its value |
| `Register.HandleKeepsSettled` | frontend/src/components/Register.jsx:118-120 | one input event, followed by the `FORM_VALID` the effect dispatches when a value changed, keeps the flags consistent and the form flag equal to the conjunction of the four |
| `Register.MountFormValidIsNoOp` | frontend/src/components/Register.jsx:118-120 | the `FORM_VALID` the effect dispatches when the dialog first appears leaves the initial state unchanged, so a run may start from the initial state |
| `Register.ReplayTracksLastInputs` | frontend/src/components/Register.jsx:118-120 | over any run of input events from a settled state, the form stays settled, and each input holds the payload of the last action of its type (or its earlier value if there was none) |
| `Register.SubmitEnabledIffLastInputsPass` | frontend/src/components/Register.jsx:167 | from the initial state, after any run of input events, the Register button is enabled iff the last username, email, password and confirmation typed pass their four rules |
| `Register.PaddedShortUsernameRejected` | frontend/src/components/Register.jsx:47 | the username "  abc  " is stored as typed but is invalid, because its surrounding blanks are trimmed before counting |
| `Register.TwoEmojiUsernameAccepted` | frontend/src/components/Register.jsx:47 | a username of two astral-plane characters is valid, because `length` counts them as four UTF-16 units |
| `JsString.SkipLeading` | frontend/src/components/Register.jsx:47 | the index returned is the first non-whitespace character at or after the start, with only whitespace before it |
| `JsString.SkipTrailing` | frontend/src/components/Register.jsx:47 | the index returned ends the text just after its last non-whitespace character, with only whitespace after it |
| `JsString.Trim` | frontend/src/components/Register.jsx:47 | `trim` returns the infix of its input with only whitespace before and after it, and no whitespace at either end of the result |
| `JsString.FramesUnique` | frontend/src/components/Register.jsx:47 | a non-empty infix framed by whitespace with non-whitespace ends is unique, so `trim` has exactly one possible result |
| `JsString.TrimStripsPadding` | frontend/src/components/Register.jsx:47 | `trim` undoes padding: whitespace added before and after a trimmed non-empty text is removed, and nothing else is |
| `JsString.TrimKeepsTrimmed` | frontend/src/components/Register.jsx:47 | a text with no whitespace at either end is returned unchanged |
| `JsString.TrimIdempotent` | frontend/src/components/Register.jsx:47 | trimming twice is the same as trimming once |
| `JsString.AllWhitespaceTrimsToEmpty` | frontend/src/components/Register.jsx:47 | `trim` yields the empty string iff every character of the input is whitespace |
| `JsString.CodeUnits` | frontend/src/components/Register.jsx:63 | a character takes one UTF-16 code unit iff it is in the Basic Multilingual Plane, and two otherwise |
| `JsString.Utf16Length` | frontend/src/components/Register.jsx:63 | `length` of a one-character string is that character's code-unit count; `length` lies between the number of characters and twice that, and equals the number of characters iff all of them are in the Basic Multilingual Plane |
| `JsString.Utf16LengthAppend` | frontend/src/components/Register.jsx:63 | `length` of a concatenation is the sum of the lengths, so with the one-character case it fixes the exact code-unit count of every string |

## Left out

- `frontend/src/App.js` is not part of this model. It holds React UI state, map rendering and HTTP calls, with no logic of its own beyond forwarding data to and from the server.
- `backend/index.js` parses JSON, connects the database and mounts the router in `backend/routes/pins` (backend/index.js:5, 26). The route handlers and data models are outside this model.
- The Register dialog's `submitHandler` (a POST to `/users/register` with error display), `cancelClickHandler`, the success effect and the portal rendering are I/O and rendering. They are left out.
- React's scheduling is not modelled. `Handle` treats each input event as one dispatch, one render and then the effect at lines 118-120; batching several dispatches into one render is not covered.
- Every action carries a payload string. A dispatch that omitted the property its type reads would make the missing property's `trim` or `includes` call throw. The dialog never dispatches such an action, so that path is not modelled.
- JavaScript strings are sequences of UTF-16 code units, and the model's strings are sequences of Unicode scalar values. Lone surrogates cannot be represented. `Utf16Length` counts code units for every string the model can represent.
