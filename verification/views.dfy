/**
  The JSON request handlers: contact form, login, AI chat placeholder and
  signup, and the dispatch from endpoint to handler.
 */
module Views {
  import opened Http
  import opened Accounts
  import opened Strings
  import opened Numerals

  const ContactThanks: string := "Thank you for your message! We'll get back to you soon."
  const ContactFailed: string := "There was an error sending your message. Please try again."
  const LoginOk: string := "Login successful!"
  const LoginRejected: string := "Invalid username or password"
  const ProcessingFailed: string := "There was an error processing your request"
  const ChatReply: string :=
    "Thank you for your interest in Derivity AI! We're currently in development and will be launching soon. Stay tuned for updates!"
  const EmailExists: string := "An account with this email already exists"
  const SignupOk: string := "Account created successfully! Welcome to Derivity AI."
  const SignupFailed: string := "There was an error creating your account. Please try again."

  /** The contact form acknowledges every parsed POST and stores nothing. */
  function ContactForm(req: Request): (r: Response)
    ensures r == Success(ContactThanks) <==> IsPost(req) && req.body.Some?
    ensures !IsPost(req) ==> r == Error(InvalidMethod)
    ensures IsPost(req) && req.body.None? ==> r == Error(ContactFailed)
  {
    if !IsPost(req) then Error(InvalidMethod)
    else if req.body.None? then Error(ContactFailed)
    else Success(ContactThanks)
  }

  /** Login succeeds exactly when the credential check accepts the
      submitted username and password. The check (the framework's
      `authenticate`) is a parameter. */
  function UserLogin(req: Request, authenticate: (Option<string>, Option<string>) -> bool): (r: Response)
    ensures r == Success(LoginOk) <==>
      IsPost(req) && req.body.Some? &&
      authenticate(Field(req.body.value, "username"), Field(req.body.value, "password"))
    ensures !IsPost(req) ==> r == Error(InvalidMethod)
    ensures IsPost(req) && req.body.None? ==> r == Error(ProcessingFailed)
    ensures (IsPost(req) && req.body.Some? &&
             !authenticate(Field(req.body.value, "username"), Field(req.body.value, "password")))
            ==> r == Error(LoginRejected)
  {
    if !IsPost(req) then Error(InvalidMethod)
    else if req.body.None? then Error(ProcessingFailed)
    else
      var data := req.body.value;
      if authenticate(Field(data, "username"), Field(data, "password")) then Success(LoginOk)
      else Error(LoginRejected)
  }

  /** The chat placeholder gives one fixed answer, whatever the message. */
  function AiChat(req: Request): (r: Response)
    ensures r.Answer? <==> IsPost(req) && req.body.Some?
    ensures r.Answer? ==> r.response == ChatReply
    ensures !IsPost(req) ==> r == Error(InvalidMethod)
    ensures IsPost(req) && req.body.None? ==> r == Error(ProcessingFailed)
  {
    if !IsPost(req) then Error(InvalidMethod)
    else if req.body.None? then Error(ProcessingFailed)
    else Answer(ChatReply)
  }

  /** The full name as the signup handler reads it: a missing name reads
      as empty, which splits into two empty names. */
  function SubmittedName(data: JsonObject): (name: string)
    ensures "fullName" in data ==> name == data["fullName"]
    ensures "fullName" !in data ==> name == "" && SplitFullName(name) == Names("", "")
  {
    match Field(data, "fullName")
    case None => ""
    case Some(n) => n
  }

  /** Signup, as a reference: the response and the user table after it.
      The table either stays as it was, with an error, or gains exactly
      one row at the end, with success. */
  function UserSignup(store: Store, req: Request): (out: (Response, Store))
    ensures out.0.Success? <==> out.1 != store
    ensures out.0.Success? ==>
      out.0.message == SignupOk && |out.1| == |store| + 1 && out.1[..|store|] == store
    ensures !out.0.Success? ==> out.0.Error?
  {
    if !IsPost(req) then (Error(InvalidMethod), store)
    else if req.body.None? then (Error(SignupFailed), store)
    else
      var data := req.body.value;
      match Field(data, "email")
      case None =>
        (Error(SignupFailed), store)
      case Some(email) =>
        if EmailInUse(store, email) then (Error(EmailExists), store)
        else
          var user := NewUser(store, email, SubmittedName(data));
          if user.username == "" then (Error(SignupFailed), store)
          else (Success(SignupOk), store + [user])
  }

  /** The signup handler as written: the duplicate-email query, the
      username loop, then `create_user`. It computes exactly the reference
      outcome. */
  method HandleSignup(store: Store, req: Request) returns (resp: Response, store': Store)
    ensures (resp, store') == UserSignup(store, req)
  {
    if !IsPost(req) {
      return Error(InvalidMethod), store;
    }
    if req.body.None? {
      return Error(SignupFailed), store;
    }
    var data := req.body.value;
    var fullName := SubmittedName(data);
    var email := Field(data, "email");
    if email.Some? && EmailInUse(store, email.value) {
      return Error(EmailExists), store;
    }
    if email.None? {
      // `None.split('@')` raises; the except branch answers.
      return Error(SignupFailed), store;
    }
    var username, counter := ChooseUsername(store, BaseUsername(email.value));
    if username == "" {
      // `create_user` refuses an empty username by raising.
      return Error(SignupFailed), store;
    }
    var names := SplitFullName(fullName);
    resp := Success(SignupOk);
    store' := store + [User(username, email.value, names.first, names.last)];
  }

  // ---------------------------------------------------------------------
  // What signup promises
  // ---------------------------------------------------------------------

  /** An email some user already holds, matched exactly, is refused and
      the table is left alone. */
  lemma SignupRejectsDuplicateEmail(store: Store, req: Request)
    requires IsPost(req) && req.body.Some?
    requires Field(req.body.value, "email").Some?
    requires EmailInUse(store, Field(req.body.value, "email").value)
    ensures UserSignup(store, req) == (Error(EmailExists), store)
  {
  }

  /** Signup succeeds exactly for a parsed POST whose email no user holds
      and whose derived username is not empty; the one row it adds holds
      a username no user held, the submitted email, and the split name. */
  lemma SignupCreatesAccount(store: Store, req: Request)
    ensures UserSignup(store, req).0.Success? <==>
      && IsPost(req) && req.body.Some?
      && Field(req.body.value, "email").Some?
      && !EmailInUse(store, Field(req.body.value, "email").value)
      && DeriveUsername(Usernames(store), BaseUsername(Field(req.body.value, "email").value)) != ""
    ensures UserSignup(store, req).0.Success? ==>
      var data := req.body.value;
      var email := Field(data, "email").value;
      var user := UserSignup(store, req).1[|store|];
      && user.username !in Usernames(store)
      && user.email == email
      && Names(user.firstName, user.lastName) == SplitFullName(SubmittedName(data))
      && user.username == DeriveUsername(Usernames(store), BaseUsername(email))
  {
  }

  /** Signup keeps the usernames of the table distinct. */
  lemma SignupKeepsUsernamesUnique(store: Store, req: Request)
    requires UniqueUsernames(store)
    ensures UniqueUsernames(UserSignup(store, req).1)
  {
    if UserSignup(store, req).0.Success? {
      var data := req.body.value;
      NewUserKeepsUsernamesUnique(store, Field(data, "email").value, SubmittedName(data));
    }
  }

  /** The newsletter flag is read but has no effect: setting or removing it
      changes neither the answer nor the table. */
  lemma SignupIgnoresNewsletter(store: Store, verb: string, data: JsonObject, flag: string)
    ensures UserSignup(store, Request(verb, Some(data))) ==
            UserSignup(store, Request(verb, Some(data["newsletter" := flag])))
    ensures UserSignup(store, Request(verb, Some(data))) ==
            UserSignup(store, Request(verb, Some(data - {"newsletter"})))
  {
    assert Field(data["newsletter" := flag], "email") == Field(data, "email");
    assert Field(data["newsletter" := flag], "fullName") == Field(data, "fullName");
    assert Field(data - {"newsletter"}, "email") == Field(data, "email");
    assert Field(data - {"newsletter"}, "fullName") == Field(data, "fullName");
  }

  /** A first signup as "a@x.com" on an empty table takes the username
      "a"; a missing full name leaves both names empty. */
  lemma FirstSignupTakesLocalPart()
    ensures UserSignup([], Request("POST", Some(map["email" := "a@x.com"]))).1
         == [User("a", "a@x.com", "", "")]
  {
    var data := map["email" := "a@x.com"];
    assert Field(data, "email") == Some("a@x.com");
    assert SubmittedName(data) == "";
    assert Usernames([]) == {};
    assert BaseUsername("a@x.com") == "a" by {
      assert Split("a@x.com", '@')[0] == "a";
    }
    assert FirstFree({}, "a", 0) == 0;
    assert NewUser([], "a@x.com", "") == User("a", "a@x.com", "", "");
  }

  /** A second signup whose email has the same local part, "a@y.com", gets
      "a1"; the name "Jane Doe" splits at its space. */
  lemma SecondSignupGetsSuffix()
    ensures UserSignup([User("a", "a@x.com", "", "")],
                       Request("POST", Some(map["email" := "a@y.com", "fullName" := "Jane Doe"]))).1
         == [User("a", "a@x.com", "", ""), User("a1", "a@y.com", "Jane", "Doe")]
  {
    var one := [User("a", "a@x.com", "", "")];
    var data := map["email" := "a@y.com", "fullName" := "Jane Doe"];
    assert Field(data, "email") == Some("a@y.com");
    assert SubmittedName(data) == "Jane Doe";
    assert !EmailInUse(one, "a@y.com") by {
      assert one[0].email != "a@y.com";
    }
    SecondRow();
  }

  /** The row the second signup of `SecondSignupGetsSuffix` inserts. */
  lemma SecondRow()
    ensures NewUser([User("a", "a@x.com", "", "")], "a@y.com", "Jane Doe")
         == User("a1", "a@y.com", "Jane", "Doe")
  {
    OneUsername();
    LocalPartOfSecondEmail();
    FirstSuffixIsFree();
    JaneDoeSplits();
    assert Candidate("a", 1) == "a1" by {
      assert Decimal(1) == "1";
    }
  }

  /** Scenario step: a table with one row "a" holds only the name "a". */
  lemma OneUsername()
    ensures Usernames([User("a", "a@x.com", "", "")]) == {"a"}
  {
    var one := [User("a", "a@x.com", "", "")];
    assert one[0].username == "a";
  }

  /** Scenario step: the local part of "a@y.com" is "a". */
  lemma LocalPartOfSecondEmail()
    ensures BaseUsername("a@y.com") == "a"
  {
    assert Split("a@y.com", '@')[0] == "a";
  }

  /** Scenario step: with only "a" held, the first free try is "a1". */
  lemma FirstSuffixIsFree()
    ensures FirstFree({"a"}, "a", 0) == 1
  {
    assert Candidate("a", 1) == "a1" by {
      assert Decimal(1) == "1";
    }
  }

  /** Scenario step: "Jane Doe" splits into first "Jane" and last "Doe". */
  lemma JaneDoeSplits()
    ensures SplitFullName("Jane Doe") == Names("Jane", "Doe")
  {
    assert "Jane Doe" == "Jane" + [' '] + "Doe";
    SplitAfterPiece("Jane", "Doe", ' ');
    SplitWithoutSeparator("Doe", ' ');
  }

  // ---------------------------------------------------------------------
  // Dispatch
  // ---------------------------------------------------------------------

  datatype Endpoint = ContactEndpoint | LoginEndpoint | ChatEndpoint | SignupEndpoint

  /** One request to one endpoint: the answer and the user table after it.
      Only signup writes, and every endpoint turns away a method other
      than POST without touching the table. */
  function Route(endpoint: Endpoint, req: Request, store: Store,
                 authenticate: (Option<string>, Option<string>) -> bool): (out: (Response, Store))
    ensures endpoint != SignupEndpoint ==> out.1 == store
    ensures !IsPost(req) ==> out == (Error(InvalidMethod), store)
  {
    match endpoint
    case ContactEndpoint => (ContactForm(req), store)
    case LoginEndpoint => (UserLogin(req, authenticate), store)
    case ChatEndpoint => (AiChat(req), store)
    case SignupEndpoint => UserSignup(store, req)
  }
}
