/** The user-administration screen: the new-user validator, role
    normalisation and display, the search/role filter, and the handlers for
    create, enable/disable and delete written as transitions of the screen
    state that also report the requests sent and the alerts shown. */
module AdminUsers {
  import opened Wrappers
  import JsString
  import Seqs
  import EmailRegex

  /** A user record as the list endpoint returns it. Fields the server may
      leave out are options. */
  datatype User = User(
    userId: int,
    username: Option<string>,
    fullName: Option<string>,
    role: Option<string>,
    isActive: bool)

  /** The create form's draft, posted as the request body. */
  datatype Draft = Draft(
    username: string,
    password: string,
    fullName: string,
    email: string,
    role: string)

  /** The draft the form starts with and returns to after a create. */
  const EmptyDraft := Draft("", "", "", "", "TEACHER")

  const UsernameTooShort := "Username phải có ít nhất 3 ký tự!"
  const UsernameHasSpace := "Username không được chứa khoảng trắng!"
  const PasswordTooShort := "Mật khẩu phải có ít nhất 6 ký tự!"
  const FullNameBlank := "Họ và tên không được để trống!"
  const EmailMalformed := "Email không đúng định dạng!"

  /** Validate a draft: the rules are checked in order and the first one
      that fails decides the message. Lengths are JavaScript lengths. */
  function ValidateDraft(d: Draft): (r: Outcome<string>)
    ensures r == Fail(UsernameTooShort) <==> JsString.Utf16Length(d.username) < 3
    ensures r == Fail(UsernameHasSpace) <==>
              JsString.Utf16Length(d.username) >= 3 && JsString.HasSpace(d.username)
    ensures r == Fail(PasswordTooShort) <==>
              && JsString.Utf16Length(d.username) >= 3 && !JsString.HasSpace(d.username)
              && JsString.Utf16Length(d.password) < 6
    ensures r == Fail(FullNameBlank) <==>
              && JsString.Utf16Length(d.username) >= 3 && !JsString.HasSpace(d.username)
              && JsString.Utf16Length(d.password) >= 6
              && JsString.AllSpace(d.fullName)
    ensures r == Fail(EmailMalformed) <==>
              && JsString.Utf16Length(d.username) >= 3 && !JsString.HasSpace(d.username)
              && JsString.Utf16Length(d.password) >= 6
              && !JsString.AllSpace(d.fullName)
              && !EmailRegex.MatchesEmailRegex(d.email)
    ensures r == Pass <==>
              && JsString.Utf16Length(d.username) >= 3 && !JsString.HasSpace(d.username)
              && JsString.Utf16Length(d.password) >= 6
              && !JsString.AllSpace(d.fullName)
              && EmailRegex.MatchesEmailRegex(d.email)
  {
    EmailRegex.IsEmailIffRegex(d.email);
    if JsString.Utf16Length(d.username) < 3 then Fail(UsernameTooShort)
    else if JsString.HasSpace(d.username) then Fail(UsernameHasSpace)
    else if JsString.Utf16Length(d.password) < 6 then Fail(PasswordTooShort)
    else if JsString.Utf16Length(JsString.Trim(d.fullName)) == 0 then Fail(FullNameBlank)
    else if !EmailRegex.IsEmail(d.email) then Fail(EmailMalformed)
    else Pass
  }

  /** The draft the form is reset to can never be submitted as it is: its
      username is the first rule to fail. */
  lemma EmptyDraftRejected()
    ensures ValidateDraft(EmptyDraft) == Fail(UsernameTooShort)
  {
  }

  // ---------------------------------------------------------------- roles

  /** `normalizeRole`: a missing or empty role becomes "", any other is
      upper-cased. */
  function NormalizeRole(role: Option<string>): (n: string)
    ensures role.None? ==> n == ""
    ensures role.Some? ==> |n| == |role.value|
    ensures role.Some? ==> forall i :: 0 <= i < |n| ==> n[i] == role.value[i] || 'A' <= n[i] <= 'Z'
    ensures role.Some? ==> forall i :: 0 <= i < |n| && 'a' <= role.value[i] <= 'z' ==>
              n[i] as int == role.value[i] as int - 32
    ensures JsString.Upper(n) == n
  {
    match role
    case None => ""
    case Some(r) => JsString.UpperIdempotent(r); JsString.Upper(r)
  }

  /** A role normalises to a name of capitals exactly when it spells that
      name in some mix of cases; a missing role counts as "". */
  lemma NormalizeRoleIffCasing(role: Option<string>, name: string)
    requires JsString.AllCapitals(name)
    ensures NormalizeRole(role) == name <==>
              if role.Some? then JsString.CasingOf(role.value, name) else name == ""
  {
    if role.Some? {
      JsString.UpperIffCasing(role.value, name);
    }
  }

  predicate IsAdminName(r: string)
  {
    r == "ADMIN" || r == "ROLE_ADMIN"
  }

  predicate IsTeacherName(r: string)
  {
    r == "TEACHER" || r == "ROLE_TEACHER"
  }

  /** Role text that names the admin role: any casing of either spelling. */
  predicate AdminCasing(role: Option<string>)
  {
    role.Some? && (JsString.CasingOf(role.value, "ADMIN") || JsString.CasingOf(role.value, "ROLE_ADMIN"))
  }

  /** Role text that names the teacher role: any casing of either spelling. */
  predicate TeacherCasing(role: Option<string>)
  {
    role.Some? && (JsString.CasingOf(role.value, "TEACHER") || JsString.CasingOf(role.value, "ROLE_TEACHER"))
  }

  /** The normalised role is an admin name exactly for the admin casings,
      and a teacher name exactly for the teacher casings. */
  lemma RoleNamesIffCasing(role: Option<string>)
    ensures IsAdminName(NormalizeRole(role)) <==> AdminCasing(role)
    ensures IsTeacherName(NormalizeRole(role)) <==> TeacherCasing(role)
  {
    NormalizeRoleIffCasing(role, "ADMIN");
    NormalizeRoleIffCasing(role, "ROLE_ADMIN");
    NormalizeRoleIffCasing(role, "TEACHER");
    NormalizeRoleIffCasing(role, "ROLE_TEACHER");
  }

  const AdminLabel := "Quản trị viên"
  const TeacherLabel := "Giảng viên"

  /** `getRoleDisplay`: the localised label of a recognised role; any other
      role, missing ones included, is passed through unchanged. */
  function RoleDisplay(role: Option<string>): (r: Option<string>)
    ensures IsAdminName(NormalizeRole(role)) ==> r == Some(AdminLabel)
    ensures IsTeacherName(NormalizeRole(role)) ==> r == Some(TeacherLabel)
    ensures !IsAdminName(NormalizeRole(role)) && !IsTeacherName(NormalizeRole(role)) ==> r == role
    ensures AdminCasing(role) ==> r == Some(AdminLabel)
    ensures TeacherCasing(role) ==> r == Some(TeacherLabel)
    ensures !AdminCasing(role) && !TeacherCasing(role) ==> r == role
  {
    RoleNamesIffCasing(role);
    var n := NormalizeRole(role);
    if IsAdminName(n) then Some(AdminLabel)
    else if IsTeacherName(n) then Some(TeacherLabel)
    else role
  }

  /** The role column of the table: the admin label, or the teacher label
      for every other role. */
  function RoleCell(role: Option<string>): string
  {
    if RoleDisplay(role) == Some(AdminLabel) then AdminLabel else TeacherLabel
  }

  /** The delete button's `disabled` attribute. */
  predicate DeleteDisabled(role: Option<string>)
  {
    RoleDisplay(role) == Some(AdminLabel)
  }

  /** The delete button is disabled exactly for admin roles, in any casing
      and either spelling, and for a role whose raw text is the admin label
      itself (passed through by the display mapping); the table shows the
      admin label in exactly the same cases. */
  lemma DeleteDisabledIff(role: Option<string>)
    ensures DeleteDisabled(role) <==> IsAdminName(NormalizeRole(role)) || role == Some(AdminLabel)
    ensures RoleCell(role) == AdminLabel <==> DeleteDisabled(role)
    ensures RoleCell(role) == AdminLabel || RoleCell(role) == TeacherLabel
  {
    if role == Some(AdminLabel) {
      assert |NormalizeRole(role)| == 13;
    }
  }

  /** Every casing of `ADMIN` and `ROLE_ADMIN` is recognised as admin. */
  lemma AdminSpellings()
    ensures IsAdminName(NormalizeRole(Some("admin")))
    ensures IsAdminName(NormalizeRole(Some("ADMIN")))
    ensures IsAdminName(NormalizeRole(Some("Role_Admin")))
    ensures IsAdminName(NormalizeRole(Some("ROLE_ADMIN")))
    ensures IsAdminName(NormalizeRole(Some("admın")))
  {
    assert JsString.Upper("admın") == "ADMIN";
    assert JsString.Upper("admin") == "ADMIN";
    assert JsString.Upper("Role_Admin") == "ROLE_ADMIN";
  }

  // ---------------------------------------------------------------- filter

  /** A present field whose lower-cased text contains `keyword`; a missing
      field fails the test. */
  predicate FieldIncludes(field: Option<string>, keyword: string)
  {
    field.Some? && JsString.Includes(JsString.Lower(field.value), keyword)
  }

  /** The keyword test of the list filter. */
  predicate MatchesSearch(u: User, searchKeyword: string)
    ensures JsString.AllSpace(searchKeyword) ==> MatchesSearch(u, searchKeyword)
    ensures MatchesSearch(u, searchKeyword) && !JsString.AllSpace(searchKeyword) ==>
              u.username.Some? || u.fullName.Some?
  {
    JsString.CaseKeepsSpaces(searchKeyword);
    var keyword := JsString.Trim(JsString.Lower(searchKeyword));
    keyword == "" || FieldIncludes(u.username, keyword) || FieldIncludes(u.fullName, keyword)
  }

  /** The role test of the list filter: "ALL" passes everyone, "ADMIN"
      admin roles, and any other value teacher roles. */
  predicate MatchesRole(u: User, filterRole: string)
    ensures filterRole == "ALL" ==> MatchesRole(u, filterRole)
    ensures filterRole != "ALL" && MatchesRole(u, filterRole) ==>
              RoleCell(u.role) == if filterRole == "ADMIN" then AdminLabel else TeacherLabel
    ensures filterRole == "ADMIN" ==> (MatchesRole(u, filterRole) <==> AdminCasing(u.role))
    ensures filterRole != "ALL" && filterRole != "ADMIN" ==>
              (MatchesRole(u, filterRole) <==> TeacherCasing(u.role))
  {
    RoleNamesIffCasing(u.role);
    var role := NormalizeRole(u.role);
    if filterRole == "ALL" then true
    else if filterRole == "ADMIN" then IsAdminName(role)
    else IsTeacherName(role)
  }

  predicate Shown(u: User, searchKeyword: string, filterRole: string)
  {
    MatchesSearch(u, searchKeyword) && MatchesRole(u, filterRole)
  }

  /** The test `filteredUsers` applies to each user. */
  function ShownBy(searchKeyword: string, filterRole: string): User -> bool
  {
    (u: User) => Shown(u, searchKeyword, filterRole)
  }

  /** `filteredUsers`: the users the table lists. */
  function FilteredUsers(users: seq<User>, searchKeyword: string, filterRole: string): (r: seq<User>)
    ensures Seqs.KeepsExactly(r, users, ShownBy(searchKeyword, filterRole))
    ensures Seqs.IsSubsequence(r, users)
    ensures forall i :: 0 <= i < |r| ==> Shown(r[i], searchKeyword, filterRole)
    ensures forall i :: 0 <= i < |users| && Shown(users[i], searchKeyword, filterRole) ==> users[i] in r
    ensures JsString.AllSpace(searchKeyword) && filterRole == "ALL" ==> r == users
  {
    var shown := ShownBy(searchKeyword, filterRole);
    Seqs.FilterIsSubsequence(users, shown);
    Seqs.FilterKeepsExactly(users, shown);
    if JsString.AllSpace(searchKeyword) && filterRole == "ALL" then
      BlankFilterShowsAll(users, searchKeyword, filterRole);
      Seqs.Filter(users, shown)
    else
      Seqs.Filter(users, shown)
  }

  lemma BlankFilterShowsAll(users: seq<User>, searchKeyword: string, filterRole: string)
    requires JsString.AllSpace(searchKeyword) && filterRole == "ALL"
    ensures Seqs.Filter(users, ShownBy(searchKeyword, filterRole)) == users
  {
    assert JsString.AllSpace(JsString.Lower(searchKeyword));
    Seqs.FilterKeepsAll(users, ShownBy(searchKeyword, filterRole));
  }

  /** The keyword test is a substring search, case-insensitive on both
      sides, against the username or the full name. */
  lemma SearchIsSubstring(u: User, searchKeyword: string)
    ensures var keyword := JsString.Trim(JsString.Lower(searchKeyword));
      MatchesSearch(u, searchKeyword) <==>
        || keyword == ""
        || (u.username.Some? && exists i :: JsString.OccursAt(JsString.Lower(u.username.value), keyword, i))
        || (u.fullName.Some? && exists i :: JsString.OccursAt(JsString.Lower(u.fullName.value), keyword, i))
  {
    var keyword := JsString.Trim(JsString.Lower(searchKeyword));
    if u.username.Some? {
      JsString.IncludesIffOccurs(JsString.Lower(u.username.value), keyword);
    }
    if u.fullName.Some? {
      JsString.IncludesIffOccurs(JsString.Lower(u.fullName.value), keyword);
    }
  }

  /** Upper-casing the keyword, or the stored names, changes nothing, as
      long as the upper-cased text holds no `ı` or `ſ`. */
  lemma SearchIgnoresCase(u: User, searchKeyword: string)
    ensures JsString.CaseStable(searchKeyword) ==>
              MatchesSearch(u, JsString.Upper(searchKeyword)) == MatchesSearch(u, searchKeyword)
    ensures (u.username.Some? ==> JsString.CaseStable(u.username.value))
            && (u.fullName.Some? ==> JsString.CaseStable(u.fullName.value)) ==>
            var v := u.(username := if u.username.Some? then Some(JsString.Upper(u.username.value)) else None,
                        fullName := if u.fullName.Some? then Some(JsString.Upper(u.fullName.value)) else None);
            MatchesSearch(v, searchKeyword) == MatchesSearch(u, searchKeyword)
  {
    JsString.LowerOfUpper(searchKeyword);
    if u.username.Some? { JsString.LowerOfUpper(u.username.value); }
    if u.fullName.Some? { JsString.LowerOfUpper(u.fullName.value); }
  }

  /** Without that condition case does matter: the user "ı" matches the
      keyword "ı" but not its capital "I", whose lower case is "i". */
  lemma DotlessIKeyword(u: User)
    requires u.username == Some("ı") && u.fullName == None
    ensures MatchesSearch(u, "ı")
    ensures !MatchesSearch(u, JsString.Upper("ı"))
  {
    assert JsString.Upper("ı") == "I";
    assert JsString.Lower("I") == "i";
    assert JsString.Lower("ı") == "ı";
    assert JsString.Trim("i") == "i" by {
      assert JsString.LeadingSpaces("i") == 0;
    }
    assert JsString.Trim("ı") == "ı" by {
      assert JsString.LeadingSpaces("ı") == 0;
    }
    assert JsString.Includes("ı", "ı") by {
      assert "ı"[..1] == "ı";
    }
    JsString.IncludesIffOccurs("ı", "i");
  }

  /** A filter value other than "ALL" and "ADMIN" behaves as "TEACHER". */
  lemma OtherFilterIsTeacher(u: User, filterRole: string)
    requires filterRole != "ALL" && filterRole != "ADMIN"
    ensures MatchesRole(u, filterRole) == MatchesRole(u, "TEACHER")
  {
  }

  // ---------------------------------------------------------------- handlers

  /** The local state of the screen (the loading flag is left out). */
  datatype Screen = Screen(
    users: seq<User>,
    showAddForm: bool,
    showDeleteModal: bool,
    userToDelete: Option<User>,
    searchKeyword: string,
    filterRole: string,
    newUser: Draft)

  const InitialScreen := Screen([], false, false, None, "", "ALL", EmptyDraft)

  /** Requests sent to the backend. */
  datatype Call =
    | GetUsers
    | PostUser(body: Draft)
    | PutStatus(userId: int, isActive: bool)
    | DeleteUser(userId: int)

  /** What the backend answers a mutating request with; an error may carry
      a message from the server. */
  datatype Reply = Ok | Err(message: Option<string>)

  /** What the list request yields. */
  datatype Listing = Loaded(users: seq<User>) | LoadFailed

  /** A handler's effect: the next state, the requests in the order sent,
      and the alerts in the order shown. */
  datatype Reaction = Reaction(screen: Screen, calls: seq<Call>, alerts: seq<string>)

  const LoadFailedText := "Không thể tải danh sách người dùng!"
  const CreatedText := "Tạo tài khoản thành công!"
  const CreateFailedText := "Lỗi khi tạo tài khoản!"
  const ToggledText := "Thao tác thành công!"
  const ToggleFailedText := "Lỗi khi cập nhật trạng thái!"
  const DeletedText := "Đã xóa tài khoản thành công!"
  const DeleteFailedText := "Lỗi khi xóa tài khoản!"
  const DeleteBlockedText :=
    "Không thể xóa người dùng này do đã có lịch sử mượn/trả. Vui lòng chọn 'Vô hiệu hóa' thay vì Xóa."

  /** The server's message when it sent a non-empty one, else `fallback`. */
  function ErrorText(message: Option<string>, fallback: string): (t: string)
    ensures message.Some? && message.value != "" ==> t == message.value
    ensures message.None? || message.value == "" ==> t == fallback
  {
    match message
    case Some(m) => if m != "" then m else fallback
    case None => fallback
  }

  /** `fetchUsers` once the list request has completed. */
  function HandleListing(s: Screen, result: Listing): (r: Reaction)
    ensures r.calls == []
    ensures result.Loaded? ==> r.screen == s.(users := result.users) && r.alerts == []
    ensures result.LoadFailed? ==> r.screen == s && r.alerts == [LoadFailedText]
  {
    match result
    case Loaded(us) => Reaction(s.(users := us), [], [])
    case LoadFailed => Reaction(s, [], [LoadFailedText])
  }

  /** `handleAddUser`: validate, then post the draft; on success close the
      form, reset the draft and reload the list. */
  function AddUser(s: Screen, reply: Reply): (r: Reaction)
    ensures ValidateDraft(s.newUser).Fail? ==>
              r == Reaction(s, [], [ValidateDraft(s.newUser).error])
    ensures ValidateDraft(s.newUser).Pass? && reply.Ok? ==>
              && r.screen == s.(showAddForm := false, newUser := EmptyDraft)
              && r.calls == [PostUser(s.newUser), GetUsers]
              && r.alerts == [CreatedText]
    ensures ValidateDraft(s.newUser).Pass? && reply.Err? ==>
              && r.screen == s
              && r.calls == [PostUser(s.newUser)]
              && r.alerts == [ErrorText(reply.message, CreateFailedText)]
  {
    match ValidateDraft(s.newUser)
    case Fail(m) => Reaction(s, [], [m])
    case Pass =>
      match reply
      case Ok => Reaction(s.(showAddForm := false, newUser := EmptyDraft), [PostUser(s.newUser), GetUsers], [CreatedText])
      case Err(m) => Reaction(s, [PostUser(s.newUser)], [ErrorText(m, CreateFailedText)])
  }

  /** Only a draft that satisfies every rule is ever posted, and a rejected
      draft sends nothing whatever the server would have answered. */
  lemma PostedDraftsAreValid(s: Screen, reply: Reply, other: Reply)
    ensures forall c :: c in AddUser(s, reply).calls && c.PostUser? ==>
              && c.body == s.newUser
              && JsString.Utf16Length(c.body.username) >= 3
              && !JsString.HasSpace(c.body.username)
              && JsString.Utf16Length(c.body.password) >= 6
              && !JsString.AllSpace(c.body.fullName)
              && EmailRegex.EmailShape(c.body.email)
    ensures ValidateDraft(s.newUser).Fail? ==> AddUser(s, reply) == AddUser(s, other)
  {
    EmailRegex.RegexIffShape(s.newUser.email);
  }

  /** The verb for switching an account to `active`. */
  function ActionWord(active: bool): string
  {
    if active then "kích hoạt" else "vô hiệu hóa"
  }

  const PromptHead := "Bạn có chắc muốn "
  const PromptMiddle := " tài khoản \""

  /** The question put to the user before a status change: it names the
      action that sets the negation of the current status, then the quoted
      username. */
  function ConfirmPrompt(currentStatus: bool, username: string): (p: string)
    ensures var w := ActionWord(!currentStatus);
      && |p| == |PromptHead| + |w| + |PromptMiddle| + |username| + 2
      && p[..|PromptHead|] == PromptHead
      && p[|PromptHead|..|PromptHead| + |w|] == w
      && p[|PromptHead| + |w|..|p| - |username| - 2] == PromptMiddle
      && p[|p| - |username| - 2..] == username + "\"?"
  {
    var w := ActionWord(!currentStatus);
    var p := PromptHead + w + PromptMiddle + username + "\"?";
    assert p == PromptHead + (w + (PromptMiddle + (username + "\"?")));
    p
  }

  /** The prompt's verb names the status the request will set, so the two
      statuses are asked about differently. */
  lemma PromptMatchesRequest(s: Screen, userId: int, currentStatus: bool, reply: Reply, username: string)
    ensures var c := ToggleStatus(s, userId, currentStatus, true, reply).calls[0];
      var p := ConfirmPrompt(currentStatus, username);
      p[|PromptHead|..|PromptHead| + |ActionWord(c.isActive)|] == ActionWord(c.isActive)
    ensures ConfirmPrompt(true, username) != ConfirmPrompt(false, username)
  {
    var pt := ConfirmPrompt(true, username);
    var pf := ConfirmPrompt(false, username);
    assert pt[|PromptHead|] == ActionWord(false)[0];
    assert pf[|PromptHead|] == ActionWord(true)[0];
  }

  /** `handleToggleStatus`: after confirmation, send the negated status;
      on success reload. A failure always shows the canned text. */
  function ToggleStatus(s: Screen, userId: int, currentStatus: bool, confirmed: bool, reply: Reply): (r: Reaction)
    ensures r.screen == s
    ensures !confirmed ==> r.calls == [] && r.alerts == []
    ensures confirmed ==> |r.calls| >= 1 && r.calls[0] == PutStatus(userId, !currentStatus)
    ensures confirmed && reply.Ok? ==> r.calls[1..] == [GetUsers] && r.alerts == [ToggledText]
    ensures confirmed && reply.Err? ==> |r.calls| == 1 && r.alerts == [ToggleFailedText]
  {
    if !confirmed then Reaction(s, [], [])
    else match reply
      case Ok => Reaction(s, [PutStatus(userId, !currentStatus), GetUsers], [ToggledText])
      case Err(_) => Reaction(s, [PutStatus(userId, !currentStatus)], [ToggleFailedText])
  }

  /** The delete button's click: open the confirmation for `u`. A disabled
      button does not react. */
  function AskDelete(s: Screen, u: User): (t: Screen)
    ensures DeleteDisabled(u.role) ==> t == s
    ensures !DeleteDisabled(u.role) ==> t == s.(userToDelete := Some(u), showDeleteModal := true)
  {
    if DeleteDisabled(u.role) then s else s.(userToDelete := Some(u), showDeleteModal := true)
  }

  /** The modal's cancel button: close it, keeping the target. */
  function CancelDelete(s: Screen): (t: Screen)
    ensures !t.showDeleteModal && t.userToDelete == s.userToDelete
    ensures t == s.(showDeleteModal := false)
  {
    s.(showDeleteModal := false)
  }

  /** `handleDeleteConfirm`: nothing happens without a target; otherwise
      send the delete and, whatever the reply, close the modal and clear
      the target. */
  function ConfirmDelete(s: Screen, reply: Reply): (r: Reaction)
    ensures s.userToDelete.None? ==> r == Reaction(s, [], [])
    ensures s.userToDelete.Some? ==>
              && r.screen == s.(showDeleteModal := false, userToDelete := None)
              && |r.calls| >= 1 && r.calls[0] == DeleteUser(s.userToDelete.value.userId)
    ensures s.userToDelete.Some? && reply.Ok? ==> r.calls[1..] == [GetUsers] && r.alerts == [DeletedText]
    ensures s.userToDelete.Some? && reply.Err? ==>
              |r.calls| == 1 && r.alerts == [ErrorText(reply.message, DeleteBlockedText)]
  {
    match s.userToDelete
    case None => Reaction(s, [], [])
    case Some(u) =>
      var closed := s.(showDeleteModal := false, userToDelete := None);
      match reply
      case Ok => Reaction(closed, [DeleteUser(u.userId), GetUsers], [DeletedText])
      case Err(m) => Reaction(closed, [DeleteUser(u.userId)], [ErrorText(m, DeleteBlockedText)])
  }

  /** The generic delete-failure text is never shown unless the server sent
      exactly that text: an error without a message always gets the
      borrow-history explanation. */
  lemma DeleteGenericTextUnused(s: Screen, reply: Reply)
    requires !(reply.Err? && reply.message == Some(DeleteFailedText))
    ensures DeleteFailedText !in ConfirmDelete(s, reply).alerts
  {
  }

  /** Everything the user can do on the screen. */
  datatype Event =
    | ListArrived(result: Listing)
    | SetKeyword(keyword: string)
    | SetFilter(filterRole: string)
    | SetAddFormShown(shown: bool)
    | EditDraft(draft: Draft)
    | SubmitDraft(reply: Reply)
    | ToggleClicked(userId: int, currentStatus: bool, confirmed: bool, reply: Reply)
    | DeleteClicked(user: User)
    | DeleteCancelled
    | DeleteConfirmed(reply: Reply)

  function Handle(s: Screen, e: Event): Reaction
  {
    match e
    case ListArrived(result) => HandleListing(s, result)
    case SetKeyword(k) => Reaction(s.(searchKeyword := k), [], [])
    case SetFilter(f) => Reaction(s.(filterRole := f), [], [])
    case SetAddFormShown(b) => Reaction(s.(showAddForm := b), [], [])
    case EditDraft(d) => Reaction(s.(newUser := d), [], [])
    case SubmitDraft(reply) => AddUser(s, reply)
    case ToggleClicked(id, status, confirmed, reply) => ToggleStatus(s, id, status, confirmed, reply)
    case DeleteClicked(u) => Reaction(AskDelete(s, u), [], [])
    case DeleteCancelled => Reaction(CancelDelete(s), [], [])
    case DeleteConfirmed(reply) => ConfirmDelete(s, reply)
  }

  /** The state after handling `events` in order from `s`. */
  function Replay(s: Screen, events: seq<Event>): Screen
    decreases |events|
  {
    if events == [] then s
    else Replay(Handle(s, events[0]).screen, events[1..])
  }

  /** The delete target, when there is one, is never a user whose delete
      button is disabled. */
  ghost predicate TargetDeletable(s: Screen)
  {
    s.userToDelete.Some? ==> !DeleteDisabled(s.userToDelete.value.role)
  }

  lemma HandleKeepsTargetDeletable(s: Screen, e: Event)
    requires TargetDeletable(s)
    ensures TargetDeletable(Handle(s, e).screen)
  {
  }

  lemma {:induction false} ReplayKeepsTargetDeletable(s: Screen, events: seq<Event>)
    requires TargetDeletable(s)
    ensures TargetDeletable(Replay(s, events))
    decreases |events|
  {
    if events != [] {
      HandleKeepsTargetDeletable(s, events[0]);
      ReplayKeepsTargetDeletable(Handle(s, events[0]).screen, events[1..]);
    }
  }

  /** Although `handleDeleteConfirm` itself does not look at the role, no
      sequence of user actions starting from the initial screen makes it
      send a delete request for a user whose delete button is disabled. */
  lemma NoDeleteOfAdmin(events: seq<Event>, reply: Reply)
    ensures var s := Replay(InitialScreen, events);
      forall c :: c in ConfirmDelete(s, reply).calls && c.DeleteUser? ==>
        && s.userToDelete.Some?
        && c.userId == s.userToDelete.value.userId
        && !DeleteDisabled(s.userToDelete.value.role)
  {
    ReplayKeepsTargetDeletable(InitialScreen, events);
  }
}
