/** Sign-in against the configured user table (utils/auth_manager.py). The
    table is the `auth_users` section of the application's secrets, kept in
    its own order: a sequence of (user key, record) pairs. Its values are
    TOML strings or integers. A lookup that reaches a record missing a
    required key raises `KeyError`, modelled as `Failure(key)`. */
module Auth {
  import opened Wrappers
  import opened Text
  import opened Permissions

  /** A value from the secrets file. */
  datatype Scalar = StrValue(s: string) | IntValue(i: int)

  /** `str(v)`. */
  function ToStr(v: Scalar): string {
    match v
    case StrValue(s) => s
    case IntValue(i) => IntToString(i)
  }

  /** One user record; a key absent from the record is `None`. */
  datatype UserData = UserData(
    email: Option<Scalar>, password: Option<Scalar>, name: Option<Scalar>,
    role: Option<Scalar>, permissions: Option<seq<string>>)

  type UserTable = seq<(string, UserData)>

  /** The user information handed to the page. */
  datatype UserInfo = UserInfo(id: string, email: Scalar, name: Scalar, role: Scalar, permissions: seq<string>)

  /** `(success, user_info, message)`. */
  datatype LoginReply = LoginReply(ok: bool, user: Option<UserInfo>, message: string)

  const WrongPasswordMessage: string := "비밀번호가 올바르지 않습니다."
  const UnknownEmailMessage: string := "등록되지 않은 이메일입니다."
  const NoManagerMessage: string := "권한 관리자가 초기화되지 않았습니다 (Azure 연결 문자열 누락)."
  const UpdatedMessage: string := "권한이 업데이트되었습니다."
  const SaveErrorMessage: string := "권한 저장 중 오류가 발생했습니다."

  function WelcomeMessage(name: Scalar): string {
    "환영합니다, " + ToStr(name) + "님!"
  }

  // Matching
  // ---------------------------------------------------------------------

  /** `s.strip().lower()`. */
  function NormalizeEmail(s: string): string {
    Lower(Strip(s))
  }

  /** Normalising twice is normalising once, so a stored e-mail that is
      already normalised matches itself. */
  lemma NormalizeIdempotent(s: string)
    ensures NormalizeEmail(NormalizeEmail(s)) == NormalizeEmail(s)
  {
    StripSpec(s);
    LowerTrimmed(Strip(s));
    StripTrimmed(Lower(Strip(s)));
    LowerIdempotent(Strip(s));
  }

  /** The record's e-mail as compared: a missing one counts as empty. */
  function StoredEmail(data: UserData): string {
    NormalizeEmail(ToStr(data.email.GetOr(StrValue(""))))
  }

  /** The record's password as compared: `str` of the stored value, a missing
      one counting as empty. */
  function StoredPassword(data: UserData): string {
    ToStr(data.password.GetOr(StrValue("")))
  }

  /** The index of the first record from `from` on whose e-mail matches
      `input`. */
  function FirstMatchFrom(users: UserTable, from: nat, input: string): (r: Option<nat>)
    requires from <= |users|
    ensures r.None? <==> forall k :: from <= k < |users| ==> StoredEmail(users[k].1) != input
    ensures r.Some? ==>
              from <= r.value < |users| && StoredEmail(users[r.value].1) == input &&
              forall k :: from <= k < r.value ==> StoredEmail(users[k].1) != input
    decreases |users| - from
  {
    if from == |users| then None
    else if StoredEmail(users[from].1) == input then Some(from)
    else
      var r := FirstMatchFrom(users, from + 1, input);
      assert r.Some? ==> forall k :: from <= k < r.value ==> StoredEmail(users[k].1) != input by {
        if r.Some? {
          forall k | from <= k < r.value
            ensures StoredEmail(users[k].1) != input
          {
            if k > from {
              assert from + 1 <= k < r.value;
            }
          }
        }
      }
      r
  }

  /** The index of the first record whose e-mail matches `input`. */
  function FirstMatch(users: UserTable, input: string): Option<nat> {
    FirstMatchFrom(users, 0, input)
  }

  // Records
  // ---------------------------------------------------------------------

  /** `_get_effective_permissions(email, base)`: the stored list when a
      permission manager exists and holds a non-empty list for the e-mail,
      otherwise the list from the secrets. `manager` is the manager's
      stored table, `None` when there is no manager. */
  function EffectivePermissions(manager: Option<StoredTable>, email: string, base: seq<string>): (r: seq<string>)
    ensures manager.Some? && PermissionsOf(manager.value, email) != [] ==> r == PermissionsOf(manager.value, email)
    ensures manager.None? || PermissionsOf(manager.value, email) == [] ==> r == base
  {
    if manager.Some? && PermissionsOf(manager.value, email) != [] then PermissionsOf(manager.value, email)
    else base
  }

  /** The user information built for a matched record; reading the e-mail
      and then the name by key raises when either is missing. */
  function Record(id: string, data: UserData, manager: Option<StoredTable>): (r: Result<UserInfo, string>)
    ensures r.Failure? <==> data.email.None? || data.name.None?
    ensures data.email.None? ==> r == Failure("email")
    ensures data.email.Some? && data.name.None? ==> r == Failure("name")
    ensures r.Success? ==>
              r.value.id == id && r.value.email == data.email.value && r.value.name == data.name.value &&
              r.value.role == data.role.GetOr(StrValue("user")) &&
              r.value.permissions == EffectivePermissions(manager, StoredEmail(data), data.permissions.GetOr([]))
  {
    if data.email.None? then Failure("email")
    else if data.name.None? then Failure("name")
    else
      Success(UserInfo(id, data.email.value, data.name.value, data.role.GetOr(StrValue("user")),
                       EffectivePermissions(manager, StoredEmail(data), data.permissions.GetOr([]))))
  }

  // login
  // ---------------------------------------------------------------------

  /** The answer for the record whose e-mail matched: the password is
      compared exactly, without trimming or case folding. */
  function Verdict(id: string, data: UserData, password: string, manager: Option<StoredTable>): Result<LoginReply, string> {
    if StoredPassword(data) == password then
      match Record(id, data, manager)
      case Failure(key) => Failure(key)
      case Success(info) => Success(LoginReply(true, Some(info), WelcomeMessage(info.name)))
    else
      Success(LoginReply(false, None, WrongPasswordMessage))
  }

  /** The loop of `login` from entry `from` on, with the normalised input:
      the first record whose e-mail matches decides, and no match means the
      e-mail is unknown. */
  function LoginFrom(users: UserTable, from: nat, input: string, password: string, manager: Option<StoredTable>)
    : (r: Result<LoginReply, string>)
    requires from <= |users|
    ensures FirstMatchFrom(users, from, input).None? ==> r == Success(LoginReply(false, None, UnknownEmailMessage))
    ensures FirstMatchFrom(users, from, input).Some? ==>
              var i := FirstMatchFrom(users, from, input).value;
              r == Verdict(users[i].0, users[i].1, password, manager)
    decreases |users| - from
  {
    if from == |users| then Success(LoginReply(false, None, UnknownEmailMessage))
    else if StoredEmail(users[from].1) == input then Verdict(users[from].0, users[from].1, password, manager)
    else LoginFrom(users, from + 1, input, password, manager)
  }

  /** `login(email, password)`: user information comes with success and
      only with it, a refusal says why, and only a missing `email` or
      `name` key raises. */
  function Login(users: UserTable, email: string, password: string, manager: Option<StoredTable>)
    : (r: Result<LoginReply, string>)
    ensures r.Success? ==> (r.value.ok <==> r.value.user.Some?)
    ensures r.Success? && !r.value.ok ==> r.value.message == WrongPasswordMessage || r.value.message == UnknownEmailMessage
    ensures r.Failure? ==> r.error == "email" || r.error == "name"
  {
    LoginFrom(users, 0, NormalizeEmail(email), password, manager)
  }

  /** A login succeeds exactly when the first record matching the e-mail
      carries exactly the password given and has an e-mail and a name. */
  lemma LoginSucceedsIff(users: UserTable, email: string, password: string, manager: Option<StoredTable>)
    ensures var r := Login(users, email, password, manager);
            (r.Success? && r.value.ok) <==>
              exists i :: FirstMatch(users, NormalizeEmail(email)) == Some(i) &&
                StoredPassword(users[i].1) == password &&
                users[i].1.email.Some? && users[i].1.name.Some?
  {
    var m := FirstMatch(users, NormalizeEmail(email));
    if m.Some? {
      var i := m.value;
      var r := Login(users, email, password, manager);
      assert r == Verdict(users[i].0, users[i].1, password, manager);
    }
  }

  /** A successful login reports the matched record's key, e-mail, name and
      role (by default `user`) and its effective permissions. */
  lemma LoginReportsRecord(users: UserTable, email: string, password: string, manager: Option<StoredTable>)
    requires Login(users, email, password, manager).Success? && Login(users, email, password, manager).value.ok
    ensures var r := Login(users, email, password, manager).value;
            var i := FirstMatch(users, NormalizeEmail(email)).value;
            FirstMatch(users, NormalizeEmail(email)).Some? &&
            r.user == Some(UserInfo(users[i].0, users[i].1.email.value, users[i].1.name.value,
                                    users[i].1.role.GetOr(StrValue("user")),
                                    EffectivePermissions(manager, NormalizeEmail(email), users[i].1.permissions.GetOr([])))) &&
            r.message == WelcomeMessage(users[i].1.name.value)
  {
    var m := FirstMatch(users, NormalizeEmail(email));
    assert m.Some?;
  }

  /** Leading and trailing white space and the case of ASCII letters in the
      e-mail typed do not matter. */
  lemma LoginIgnoresEmailSpelling(users: UserTable, email: string, password: string, manager: Option<StoredTable>)
    ensures Login(users, email, password, manager) == Login(users, NormalizeEmail(email), password, manager)
  {
    NormalizeIdempotent(email);
  }

  // get_user_by_email
  // ---------------------------------------------------------------------

  /** The loop of `get_user_by_email` from entry `from` on, with the
      normalised input: the record of the first match, or `None`. */
  function UserFrom(users: UserTable, from: nat, input: string, manager: Option<StoredTable>)
    : (r: Result<Option<UserInfo>, string>)
    requires from <= |users|
    ensures FirstMatchFrom(users, from, input).None? ==> r == Success(None)
    ensures FirstMatchFrom(users, from, input).Some? ==>
              var i := FirstMatchFrom(users, from, input).value;
              match Record(users[i].0, users[i].1, manager)
              case Failure(key) => r == Failure(key)
              case Success(info) => r == Success(Some(info))
    decreases |users| - from
  {
    if from == |users| then Success(None)
    else if StoredEmail(users[from].1) == input then
      match Record(users[from].0, users[from].1, manager)
      case Failure(key) => Failure(key)
      case Success(info) => Success(Some(info))
    else UserFrom(users, from + 1, input, manager)
  }

  /** `get_user_by_email(email)`: no user exactly when no record matches,
      and a user found carries an e-mail that normalises to the one asked
      for. */
  function GetUserByEmail(users: UserTable, email: string, manager: Option<StoredTable>)
    : (r: Result<Option<UserInfo>, string>)
    ensures r == Success(None) <==> FirstMatch(users, NormalizeEmail(email)).None?
    ensures r.Success? && r.value.Some? ==> NormalizeEmail(ToStr(r.value.value.email)) == NormalizeEmail(email)
  {
    UserFrom(users, 0, NormalizeEmail(email), manager)
  }

  /** Looking a user up and logging in with the right password report the
      same user. */
  lemma LookupAgreesWithLogin(users: UserTable, email: string, manager: Option<StoredTable>)
    requires FirstMatch(users, NormalizeEmail(email)).Some?
    ensures var i := FirstMatch(users, NormalizeEmail(email)).value;
            var login := Login(users, email, StoredPassword(users[i].1), manager);
            var lookup := GetUserByEmail(users, email, manager);
            (login.Success? <==> lookup.Success?) &&
            (login.Success? ==> login.value.ok && login.value.user == lookup.value)
  {
  }

  // The manager
  // ---------------------------------------------------------------------

  class AuthManager {
    const users: UserTable
    /** `None` in the source when no connection string is configured. */
    const permissionManager: PermissionManager?

    constructor(table: UserTable, manager: PermissionManager?)
      ensures users == table && permissionManager == manager
    {
      users := table;
      permissionManager := manager;
    }

    /** The permission table as the manager would load it, if there is a
        manager. */
    function ManagerTable(): (r: Option<StoredTable>)
      reads permissionManager
      ensures r.None? <==> permissionManager == null
    {
      if permissionManager == null then None else Some(permissionManager.stored)
    }

    /** `get_all_users()`: one record per table entry, in table order; the
        first entry missing its e-mail or name raises. */
    method GetAllUsers() returns (r: Result<seq<UserInfo>, string>)
      ensures r.Success? <==> forall k :: 0 <= k < |users| ==> Record(users[k].0, users[k].1, ManagerTable()).Success?
      ensures r.Success? ==>
                |r.value| == |users| &&
                forall k :: 0 <= k < |users| ==> r.value[k] == Record(users[k].0, users[k].1, ManagerTable()).value
      ensures r.Failure? ==>
                exists k :: 0 <= k < |users| && Record(users[k].0, users[k].1, ManagerTable()) == Failure(r.error) &&
                  forall j :: 0 <= j < k ==> Record(users[j].0, users[j].1, ManagerTable()).Success?
    {
      var manager := ManagerTable();
      var usersList: seq<UserInfo> := [];
      var i := 0;
      while i < |users|
        invariant 0 <= i <= |users|
        invariant |usersList| == i
        invariant forall k :: 0 <= k < i ==> Record(users[k].0, users[k].1, manager).Success?
        invariant forall k :: 0 <= k < i ==> usersList[k] == Record(users[k].0, users[k].1, manager).value
      {
        var record := Record(users[i].0, users[i].1, manager);
        if record.Failure? {
          return Failure(record.error);
        }
        usersList := usersList + [record.value];
        i := i + 1;
      }
      return Success(usersList);
    }

    /** `update_user_permissions(email, permissions)`: without a manager it
        refuses; otherwise it reports whether the manager saved the table.
        `uploadAccepted` is storage's answer to the manager's upload. */
    method UpdateUserPermissions(email: string, permissions: seq<string>, uploadAccepted: bool)
      returns (ok: bool, message: string)
      modifies permissionManager
      ensures permissionManager == null ==> !ok && message == NoManagerMessage
      ensures permissionManager != null ==>
                ok == uploadAccepted &&
                message == (if ok then UpdatedMessage else SaveErrorMessage) &&
                (ok ==> permissionManager.stored == WithEntry(old(permissionManager.stored), email, permissions)) &&
                (!ok ==> permissionManager.stored == old(permissionManager.stored))
    {
      if permissionManager == null {
        return false, NoManagerMessage;
      }
      ok := permissionManager.SetUserPermissions(email, permissions, uploadAccepted);
      message := if ok then UpdatedMessage else SaveErrorMessage;
    }
  }

  /** After an update of a normalised e-mail to a non-empty list, logging
      in with that e-mail reports exactly that list. */
  lemma UpdatedPermissionsTakeEffect(users: UserTable, email: string, password: string,
                                     stored: StoredTable, permissions: seq<string>)
    requires email == NormalizeEmail(email) && permissions != []
    requires Login(users, email, password, Some(WithEntry(stored, email, permissions))).Success?
    requires Login(users, email, password, Some(WithEntry(stored, email, permissions))).value.ok
    ensures Login(users, email, password, Some(WithEntry(stored, email, permissions))).value.user.value.permissions == permissions
  {
    var manager := Some(WithEntry(stored, email, permissions));
    LoginReportsRecord(users, email, password, manager);
    GetAfterSet(stored, email, permissions);
  }
}
