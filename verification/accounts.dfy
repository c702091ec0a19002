/** Accounts: the login window's `login` and `create_account`,
    `User.authenticate`, and the main window's lookup of the member id that
    belongs to a logged-in user. Passwords are compared as stored text. */
module Accounts {
  import opened Store
  import opened Text

  /** The two entries of the login window's role box. */
  datatype RoleChoice = MemberChoice | LibrarianChoice

  /** The selected entry's text lower-cased, as stored in `users.role`. */
  function RoleName(c: RoleChoice): string
  {
    match c
    case MemberChoice => "member"
    case LibrarianChoice => "librarian"
  }

  /** The user object handed to the main window. */
  datatype SessionUser = SessionUser(userId: int, username: string, role: string)

  /** User ids are below their counter, and so are the users that own a
      member row; member ids are below theirs. */
  predicate AccountsValid(st: Library)
  {
    && (forall u :: u in st.users ==> st.users[u].userId < st.nextUserId)
    && (forall uid :: uid in st.members ==> uid < st.nextUserId && st.members[uid].memberId < st.nextMemberId)
  }

  /** A row with exactly this username, password and role exists. */
  predicate HasAccount(st: Library, username: string, password: string, role: string)
  {
    username in st.users && st.users[username].password == password && st.users[username].role == role
  }

  /** `LoginWindow.login`: strip both fields, refuse empty ones, then look
      for a user matching username, password and the selected role. */
  function Login(st: Library, usernameText: string, passwordText: string, choice: RoleChoice)
    : (r: Result<SessionUser>)
    ensures r == Err(MissingCredentials) <==> AllSpace(usernameText) || AllSpace(passwordText)
    ensures r.Ok? <==> && !AllSpace(usernameText) && !AllSpace(passwordText)
                       && HasAccount(st, Strip(usernameText), Strip(passwordText), RoleName(choice))
    ensures r.Ok? ==> && r.value.username == Strip(usernameText)
                      && r.value.role == RoleName(choice)
                      && r.value.userId == st.users[r.value.username].userId
    ensures r.Err? ==> r.error == MissingCredentials || r.error == InvalidCredentials
  {
    var username := Strip(usernameText);
    var password := Strip(passwordText);
    var role := RoleName(choice);
    if username == [] || password == [] then Err(MissingCredentials)
    else if HasAccount(st, username, password, role) then
      Ok(SessionUser(st.users[username].userId, username, role))
    else Err(InvalidCredentials)
  }

  /** `LoginWindow.create_account`. The checks run in the order of the
      handler; on success one `users` row is inserted, and for the member
      role one `members` row linked to the new user id. */
  function CreateAccount(st: Library, usernameText: string, fullNameText: string,
                         passwordText: string, choice: RoleChoice): (r: Result<Library>)
    ensures AllSpace(usernameText) || AllSpace(passwordText) ==> r == Err(MissingCredentials)
    ensures !AllSpace(usernameText) && !AllSpace(passwordText)
            && choice == MemberChoice && AllSpace(fullNameText)
            ==> r == Err(FullNameRequired)
    ensures r.Ok? <==> && !AllSpace(usernameText) && !AllSpace(passwordText)
                       && (choice == MemberChoice ==> !AllSpace(fullNameText))
                       && Strip(usernameText) !in st.users
    ensures r.Err? && !AllSpace(usernameText) && !AllSpace(passwordText)
            && (choice == MemberChoice ==> !AllSpace(fullNameText))
            ==> r.error == UsernameTaken
    ensures r.Ok? ==> var st' := r.value;
                      && st'.users.Keys == st.users.Keys + {Strip(usernameText)}
                      && st'.users[Strip(usernameText)]
                         == UserRow(st.nextUserId, Strip(passwordText), RoleName(choice))
                      && (forall u :: u in st.users ==> st'.users[u] == st.users[u])
                      && st'.nextUserId == st.nextUserId + 1
    ensures r.Ok? && choice == MemberChoice ==>
              && r.value.members == st.members[st.nextUserId := MemberRow(st.nextMemberId, Strip(fullNameText))]
              && r.value.nextMemberId == st.nextMemberId + 1
    ensures r.Ok? && choice == LibrarianChoice ==>
              r.value.members == st.members && r.value.nextMemberId == st.nextMemberId
    ensures r.Ok? ==> r.value == st.(users := r.value.users, nextUserId := r.value.nextUserId,
                                     members := r.value.members, nextMemberId := r.value.nextMemberId)
  {
    var username := Strip(usernameText);
    var fullName := Strip(fullNameText);
    var password := Strip(passwordText);
    if username == [] || password == [] then Err(MissingCredentials)
    else if choice == MemberChoice && fullName == [] then Err(FullNameRequired)
    else if username in st.users then Err(UsernameTaken)
    else
      var withUser := st.(users := st.users[username := UserRow(st.nextUserId, password, RoleName(choice))],
                          nextUserId := st.nextUserId + 1);
      if choice == MemberChoice then
        Ok(withUser.(members := st.members[st.nextUserId := MemberRow(st.nextMemberId, fullName)],
                     nextMemberId := st.nextMemberId + 1))
      else Ok(withUser)
  }

  /** `User.authenticate`: the username and password are matched as given,
      without stripping, and the role is not part of the match. */
  function Authenticate(st: Library, username: string, password: string): (r: Option<SessionUser>)
    ensures r.Some? <==> username in st.users && st.users[username].password == password
    ensures r.Some? ==> r.value == SessionUser(st.users[username].userId, username, st.users[username].role)
  {
    if username in st.users && st.users[username].password == password then
      Some(SessionUser(st.users[username].userId, username, st.users[username].role))
    else None
  }

  /** The main window's start-up lookup of the member id: only a member-role
      user with a `members` row gets one. */
  function ResolveMemberId(st: Library, userId: int, role: string): (r: Option<int>)
    ensures r.Some? <==> role == "member" && userId in st.members
    ensures r.Some? ==> r.value == st.members[userId].memberId
  {
    if role == "member" && userId in st.members then Some(st.members[userId].memberId) else None
  }

  // ---------------------------------------------------------------------
  // Properties
  // ---------------------------------------------------------------------

  lemma {:induction false} CreateAccountPreservesValid(st: Library, usernameText: string,
                                                       fullNameText: string, passwordText: string,
                                                       choice: RoleChoice)
    requires AccountsValid(st)
    ensures var r := CreateAccount(st, usernameText, fullNameText, passwordText, choice);
            r.Ok? ==> AccountsValid(r.value)
  {
  }

  /** An account just created can log in with the same form contents. */
  lemma {:induction false} CreateThenLogin(st: Library, usernameText: string, fullNameText: string,
                                           passwordText: string, choice: RoleChoice)
    requires CreateAccount(st, usernameText, fullNameText, passwordText, choice).Ok?
    ensures var st' := CreateAccount(st, usernameText, fullNameText, passwordText, choice).value;
            Login(st', usernameText, passwordText, choice)
            == Ok(SessionUser(st.nextUserId, Strip(usernameText), RoleName(choice)))
  {
  }

  /** After a member account is created its user resolves to the new member
      id; a librarian account resolves to none. */
  lemma {:induction false} CreatedAccountResolves(st: Library, usernameText: string, fullNameText: string,
                                                  passwordText: string, choice: RoleChoice)
    requires AccountsValid(st)
    requires CreateAccount(st, usernameText, fullNameText, passwordText, choice).Ok?
    ensures var st' := CreateAccount(st, usernameText, fullNameText, passwordText, choice).value;
            ResolveMemberId(st', st.nextUserId, RoleName(choice))
            == if choice == MemberChoice then Some(st.nextMemberId) else None
  {
    assert st.nextUserId !in st.members;
  }

  /** A rejected creation changes nothing, and in particular never gives a
      second user an existing username. */
  lemma {:induction false} DuplicateUsernameRejected(st: Library, usernameText: string, fullNameText: string,
                                                     passwordText: string, choice: RoleChoice)
    requires Strip(usernameText) in st.users
    ensures CreateAccount(st, usernameText, fullNameText, passwordText, choice).Err?
  {
  }

  /** For credentials typed without surrounding spaces, the login window
      admits exactly the users `authenticate` admits whose stored role is
      the selected one: the two differ only in the role test. */
  lemma {:induction false} LoginIsAuthenticatePlusRole(st: Library, username: string, password: string,
                                                       choice: RoleChoice)
    requires username != [] && password != []
    requires Trimmed(username) && Trimmed(password)
    ensures Login(st, username, password, choice).Ok?
            <==> Authenticate(st, username, password).Some?
                 && Authenticate(st, username, password).value.role == RoleName(choice)
    ensures Login(st, username, password, choice).Ok?
            ==> Login(st, username, password, choice).value == Authenticate(st, username, password).value
  {
    StripTrimmed(username);
    StripTrimmed(password);
  }
}
