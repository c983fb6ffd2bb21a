/** The registration form's validation state machine: the state the form
    keeps for its four inputs, the reducer that updates it on each action,
    and the effect that re-checks the whole form after any input changes. */
module Register {
  import opened JsString

  /** One input of the form: the raw text typed so far and whether it
      passed that input's rule. */
  datatype Field = Field(value: string, isValid: bool)

  datatype State = State(
    username: Field,
    email: Field,
    password: Field,
    confirmPassword: Field,
    isFormValid: bool)

  /** A dispatched action: `kind` is the action's `type` string and
      `payload` the text it carries (the `username`, `email`, `password` or
      `confirmPassword` property, depending on the type; ignored otherwise). */
  datatype Action = Action(kind: string, payload: string)

  const FormValid: string := "FORM_VALID"
  const UsernameCheck: string := "USERNAME_CHECK"
  const EmailCheck: string := "EMAIL_CHECK"
  const PasswordCheck: string := "PASSWORD_CHECK"
  const ConfirmPasswordCheck: string := "CONFIRMPASSWORD_CHECK"

  /** The form as it is first shown: every input empty and invalid. */
  function InitialState(): (s: State)
    ensures s.username.value == s.email.value == s.password.value == s.confirmPassword.value == ""
    ensures !s.username.isValid && !s.email.isValid && !s.password.isValid && !s.confirmPassword.isValid
    ensures !s.isFormValid
  {
    State(Field("", false), Field("", false), Field("", false), Field("", false), false)
  }

  // The four input rules. `length` is JavaScript's, counted in UTF-16 code
  // units; `includes('@')` is plain membership, since no surrogate code
  // unit equals '@'.

  predicate UsernameRule(input: string) {
    Utf16Length(Trim(input)) > 3
  }

  predicate EmailRule(input: string) {
    '@' in input
  }

  predicate PasswordRule(input: string) {
    Utf16Length(Trim(input)) >= 6
  }

  /** The confirm rule as written: its second conjunct asks only that the
      stored password's trimmed length be at least 0. */
  predicate ConfirmPasswordRule(confirm: string, password: string) {
    Utf16Length(Trim(confirm)) >= 6 && Utf16Length(Trim(password)) >= 0
  }

  predicate AllFieldsValid(s: State) {
    s.username.isValid && s.email.isValid && s.password.isValid && s.confirmPassword.isValid
  }

  /** The reducer: a switch on the action's type. */
  function Reduce(s: State, a: Action): (s': State) {
    if a.kind == FormValid then
      s.(isFormValid := AllFieldsValid(s))
    else if a.kind == UsernameCheck then
      s.(username := Field(a.payload, UsernameRule(a.payload)))
    else if a.kind == EmailCheck then
      s.(email := Field(a.payload, EmailRule(a.payload)))
    else if a.kind == PasswordCheck then
      s.(password := Field(a.payload, PasswordRule(a.payload)))
    else if a.kind == ConfirmPasswordCheck then
      s.(confirmPassword := Field(a.payload, ConfirmPasswordRule(a.payload, s.password.value)))
    else
      s
  }

  // ---------------------------------------------------------------------
  // One action at a time

  lemma UsernameCheckSetsOnlyUsername(s: State, input: string)
    ensures var s' := Reduce(s, Action(UsernameCheck, input));
      && s'.username.value == input
      && (s'.username.isValid <==> Utf16Length(Trim(input)) > 3)
      && s'.email == s.email && s'.password == s.password && s'.confirmPassword == s.confirmPassword
      && s'.isFormValid == s.isFormValid
  {
  }

  lemma EmailCheckSetsOnlyEmail(s: State, input: string)
    ensures var s' := Reduce(s, Action(EmailCheck, input));
      && s'.email.value == input
      && (s'.email.isValid <==> exists k :: 0 <= k < |input| && input[k] == '@')
      && s'.username == s.username && s'.password == s.password && s'.confirmPassword == s.confirmPassword
      && s'.isFormValid == s.isFormValid
  {
  }

  lemma PasswordCheckSetsOnlyPassword(s: State, input: string)
    ensures var s' := Reduce(s, Action(PasswordCheck, input));
      && s'.password.value == input
      && (s'.password.isValid <==> Utf16Length(Trim(input)) >= 6)
      && s'.username == s.username && s'.email == s.email && s'.confirmPassword == s.confirmPassword
      && s'.isFormValid == s.isFormValid
  {
  }

  /** The confirm check never looks at the password: whatever password is
      stored, the confirm flag depends on the confirm input alone. */
  lemma ConfirmPasswordCheckIgnoresPassword(s: State, input: string)
    ensures var s' := Reduce(s, Action(ConfirmPasswordCheck, input));
      && s'.confirmPassword.value == input
      && (s'.confirmPassword.isValid <==> Utf16Length(Trim(input)) >= 6)
      && s'.username == s.username && s'.email == s.email && s'.password == s.password
      && s'.isFormValid == s.isFormValid
  {
  }

  lemma FormValidIsConjunction(s: State, p: string)
    ensures var s' := Reduce(s, Action(FormValid, p));
      && (s'.isFormValid <==> s.username.isValid && s.email.isValid && s.password.isValid && s.confirmPassword.isValid)
      && s'.username == s.username && s'.email == s.email
      && s'.password == s.password && s'.confirmPassword == s.confirmPassword
  {
  }

  lemma FormValidIdempotent(s: State, p: string, q: string)
    ensures Reduce(Reduce(s, Action(FormValid, p)), Action(FormValid, q)) == Reduce(s, Action(FormValid, p))
  {
  }

  predicate IsKnownKind(kind: string) {
    kind in {FormValid, UsernameCheck, EmailCheck, PasswordCheck, ConfirmPasswordCheck}
  }

  lemma UnrecognisedActionIsIgnored(s: State, a: Action)
    requires !IsKnownKind(a.kind)
    ensures Reduce(s, a) == s
  {
  }

  // ---------------------------------------------------------------------
  // The form as the user fills it in

  /** Every flag agrees with its rule applied to the stored input. */
  predicate Consistent(s: State) {
    && s.username.isValid == UsernameRule(s.username.value)
    && s.email.isValid == EmailRule(s.email.value)
    && s.password.isValid == PasswordRule(s.password.value)
    && s.confirmPassword.isValid == ConfirmPasswordRule(s.confirmPassword.value, s.password.value)
  }

  /** Consistent, and the form-level flag agrees with the four field flags. */
  predicate Settled(s: State) {
    Consistent(s) && s.isFormValid == AllFieldsValid(s)
  }

  predicate SameValues(s: State, t: State) {
    && s.username.value == t.username.value && s.email.value == t.email.value
    && s.password.value == t.password.value && s.confirmPassword.value == t.confirmPassword.value
  }

  /** One input event: the reducer runs, and when any of the four values
      differs from what was rendered before, the effect that watches them
      dispatches FORM_VALID. */
  function Handle(s: State, a: Action): (t: State) {
    var s' := Reduce(s, a);
    if SameValues(s, s') then s' else Reduce(s', Action(FormValid, ""))
  }

  function Replay(s: State, acts: seq<Action>): (t: State)
    decreases |acts|
  {
    if acts == [] then s else Replay(Handle(s, acts[0]), acts[1..])
  }

  /** The payload of the last action of type `kind` in `acts`, or `dflt`
      when there is none. */
  function LastInput(acts: seq<Action>, kind: string, dflt: string): (input: string)
    decreases |acts|
  {
    if acts == [] then dflt
    else LastInput(acts[1..], kind, if acts[0].kind == kind then acts[0].payload else dflt)
  }

  lemma ReduceKeepsConsistent(s: State, a: Action)
    requires Consistent(s)
    ensures Consistent(Reduce(s, a))
  {
    // One case per branch of the switch keeps each proof obligation small.
    if a.kind == FormValid {
    } else if a.kind == UsernameCheck {
    } else if a.kind == EmailCheck {
    } else if a.kind == PasswordCheck {
    } else if a.kind == ConfirmPasswordCheck {
    }
  }

  lemma HandleKeepsSettled(s: State, a: Action)
    requires Settled(s)
    ensures Settled(Handle(s, a))
  {
    var s' := Reduce(s, a);
    ReduceKeepsConsistent(s, a);
    if !SameValues(s, s') {
      ReduceKeepsConsistent(s', Action(FormValid, ""));
    } else if a.kind != FormValid {
      // An unchanged input recomputes an unchanged flag.
      SameValuesSameFlags(s, s');
      CheckKeepsFormFlag(s, a);
    }
  }

  /** Only FORM_VALID writes the form-level flag. */
  lemma CheckKeepsFormFlag(s: State, a: Action)
    requires a.kind != FormValid
    ensures Reduce(s, a).isFormValid == s.isFormValid
  {
  }

  /** In a consistent state the flags are determined by the values. */
  lemma SameValuesSameFlags(s: State, t: State)
    requires Consistent(s) && Consistent(t) && SameValues(s, t)
    ensures s.username.isValid == t.username.isValid && s.email.isValid == t.email.isValid
    ensures s.password.isValid == t.password.isValid && s.confirmPassword.isValid == t.confirmPassword.isValid
    ensures AllFieldsValid(s) == AllFieldsValid(t)
  {
  }

  /** Each input event replaces the value of the one input its type names. */
  lemma HandleSetsNamedValue(s: State, a: Action)
    ensures var t := Handle(s, a);
      && t.username.value == (if a.kind == UsernameCheck then a.payload else s.username.value)
      && t.email.value == (if a.kind == EmailCheck then a.payload else s.email.value)
      && t.password.value == (if a.kind == PasswordCheck then a.payload else s.password.value)
      && t.confirmPassword.value == (if a.kind == ConfirmPasswordCheck then a.payload else s.confirmPassword.value)
  {
  }

  lemma InitialStateSettled()
    ensures Settled(InitialState())
  {
    assert Trim("") == "";
  }

  /** The effect also runs once when the dialog first appears; its
      FORM_VALID leaves the initial state as it is. */
  lemma MountFormValidIsNoOp()
    ensures Reduce(InitialState(), Action(FormValid, "")) == InitialState()
  {
  }

  /** Over any run of input events, each input holds what was last typed
      into it, and the form stays settled. */
  lemma {:induction false} ReplayTracksLastInputs(s: State, acts: seq<Action>)
    requires Settled(s)
    ensures var t := Replay(s, acts);
      && Settled(t)
      && t.username.value == LastInput(acts, UsernameCheck, s.username.value)
      && t.email.value == LastInput(acts, EmailCheck, s.email.value)
      && t.password.value == LastInput(acts, PasswordCheck, s.password.value)
      && t.confirmPassword.value == LastInput(acts, ConfirmPasswordCheck, s.confirmPassword.value)
    decreases |acts|
  {
    if acts != [] {
      var s' := Handle(s, acts[0]);
      HandleKeepsSettled(s, acts[0]);
      HandleSetsNamedValue(s, acts[0]);
      ReplayTracksLastInputs(s', acts[1..]);
      assert Replay(s, acts) == Replay(s', acts[1..]);
    }
  }

  /** The Register button is enabled exactly when the last username, email,
      password and confirmation typed pass their rules. */
  lemma {:induction false} SubmitEnabledIffLastInputsPass(acts: seq<Action>)
    ensures var t := Replay(InitialState(), acts);
      var user := LastInput(acts, UsernameCheck, "");
      var email := LastInput(acts, EmailCheck, "");
      var pass := LastInput(acts, PasswordCheck, "");
      var confirm := LastInput(acts, ConfirmPasswordCheck, "");
      t.isFormValid <==>
        && Utf16Length(Trim(user)) > 3
        && '@' in email
        && Utf16Length(Trim(pass)) >= 6
        && Utf16Length(Trim(confirm)) >= 6
  {
    InitialStateSettled();
    ReplayTracksLastInputs(InitialState(), acts);
  }

  // ---------------------------------------------------------------------
  // Concrete inputs

  /** Surrounding blanks do not count towards the username's length. */
  lemma PaddedShortUsernameRejected(s: State)
    ensures !Reduce(s, Action(UsernameCheck, "  abc  ")).username.isValid
    ensures Reduce(s, Action(UsernameCheck, "  abc  ")).username.value == "  abc  "
  {
  }

  /** `length` counts UTF-16 code units: two emoji make a valid username. */
  lemma TwoEmojiUsernameAccepted(s: State)
    ensures Reduce(s, Action(UsernameCheck, "\U{1F600}\U{1F600}")).username.isValid
  {
  }

  /** A confirmation that differs from the password is accepted all the
      same: typing a valid password and then any other text of six or more
      characters leaves both flags set. */
  lemma MismatchedConfirmationAccepted(s: State, password: string, confirm: string)
    requires PasswordRule(password) && Utf16Length(Trim(confirm)) >= 6 && confirm != password
    ensures var t := Reduce(Reduce(s, Action(PasswordCheck, password)), Action(ConfirmPasswordCheck, confirm));
      t.password.isValid && t.confirmPassword.isValid && t.password.value != t.confirmPassword.value
  {
    PasswordCheckSetsOnlyPassword(s, password);
    ConfirmPasswordCheckIgnoresPassword(Reduce(s, Action(PasswordCheck, password)), confirm);
  }
}
