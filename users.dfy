/** The user store of src/users/main.py: the guards of `create_user`, the role
    filter of `get_all_users_by_company_id`, the salted password format with
    its check, `update_user_with` and `authenticate_user`. SHA-256 is the
    function parameter `sha256` (its hex digest) and the random salt of
    `secrets.token_hex` is the parameter `salt`. */
module Users {
  import opened Common

  datatype Role = Admin | Manager | Employee

  /** The string stored in the `role` column. */
  function RoleName(r: Role): (s: string)
    ensures ParseRole(s) == Some(r)
  {
    match r
    case Admin => "Admin"
    case Manager => "Manager"
    case Employee => "Employee"
  }

  /** The role strings `create_user` accepts. */
  function ParseRole(s: string): (r: Option<Role>)
    ensures r.Some? <==> s in ["Admin", "Manager", "Employee"]
    ensures r.Some? ==> s == match r.value case Admin => "Admin" case Manager => "Manager" case Employee => "Employee"
  {
    if s == "Admin" then Some(Admin)
    else if s == "Manager" then Some(Manager)
    else if s == "Employee" then Some(Employee)
    else None
  }

  /** A row of the users table. */
  datatype User = User(
    id: int,
    companyId: Option<int>,
    email: string,
    passwordHash: string,
    fullName: string,
    role: Role,
    managerId: Option<int>)

  datatype UserError =
    | InvalidRole
    | EmailTaken
    | CompanyRequired
    | CompanyNotFound
    | ManagerNotFound
    | UserNotFound
    | InvalidType
    | InvalidCredentials

  // ---------------------------------------------------------------------
  // Password hashing: "salt:digest"
  // ---------------------------------------------------------------------

  const Sep: char := ':'

  /** Number of occurrences of `c` in `s`. */
  function Count(s: string, c: char): nat
  {
    if s == [] then 0 else (if s[0] == c then 1 else 0) + Count(s[1..], c)
  }

  /** Python's `s.split(sep)`: the pieces between separators, at least one. */
  function Split(s: string, sep: char): (parts: seq<string>)
    ensures |parts| >= 1
    ensures forall i :: 0 <= i < |parts| ==> sep !in parts[i]
  {
    if s == [] then [[]]
    else
      var rest := Split(s[1..], sep);
      if s[0] == sep then [[]] + rest
      else [[s[0]] + rest[0]] + rest[1..]
  }

  /** `sep.join(parts)`, the inverse of `Split`. */
  function Join(parts: seq<string>, sep: char): string
    requires |parts| >= 1
  {
    if |parts| == 1 then parts[0] else parts[0] + [sep] + Join(parts[1..], sep)
  }

  /** `split` yields one piece more than there are separators. */
  lemma {:induction false} SplitCount(s: string, sep: char)
    ensures |Split(s, sep)| == Count(s, sep) + 1
  {
    if s != [] {
      SplitCount(s[1..], sep);
    }
  }

  /** Joining the pieces of a split gives back the string. */
  lemma {:induction false} JoinSplit(s: string, sep: char)
    ensures Join(Split(s, sep), sep) == s
  {
    if s != [] {
      var rest := Split(s[1..], sep);
      JoinSplit(s[1..], sep);
      if s[0] == sep {
        assert ([[]] + rest)[1..] == rest;
      } else {
        var parts := [[s[0]] + rest[0]] + rest[1..];
        if |rest| > 1 {
          assert parts[1..] == rest[1..];
          assert Join(rest, sep) == rest[0] + [sep] + Join(rest[1..], sep);
        }
      }
    }
  }

  /** Splitting pieces joined by a separator they do not contain gives back
      the pieces. */
  lemma {:induction false} SplitJoin(parts: seq<string>, sep: char)
    requires |parts| >= 1
    requires forall i :: 0 <= i < |parts| ==> sep !in parts[i]
    ensures Split(Join(parts, sep), sep) == parts
  {
    if |parts| == 1 {
      SplitPiece(parts[0], sep, []);
      assert parts[0] + [] == parts[0];
      assert [parts[0]] == parts;
    } else {
      var tail := Join(parts[1..], sep);
      SplitJoin(parts[1..], sep);
      SplitPiece(parts[0], sep, [sep] + tail);
      assert Split([sep] + tail, sep) == [[]] + parts[1..];
      assert parts[0] + [sep] + tail == parts[0] + ([sep] + tail);
      assert ([sep] + tail)[1..] == tail;
      assert parts[0] + [] == parts[0];
      assert [parts[0]] + parts[1..] == parts;
    }
  }

  /** A separator-free prefix glues onto the first piece. */
  lemma {:induction false} SplitPiece(p: string, sep: char, s: string)
    requires sep !in p
    ensures var r := Split(s, sep); Split(p + s, sep) == [p + r[0]] + r[1..]
  {
    if p != [] {
      assert (p + s)[0] == p[0];
      assert (p + s)[1..] == p[1..] + s;
      SplitPiece(p[1..], sep, s);
      assert [p[0]] + (p[1..] + Split(s, sep)[0]) == p + Split(s, sep)[0];
    } else {
      var r := Split(s, sep);
      assert p + s == s;
      assert p + r[0] == r[0];
      assert [r[0]] + r[1..] == r;
    }
  }

  lemma {:induction false} CountAppend(a: string, b: string, c: char)
    ensures Count(a + b, c) == Count(a, c) + Count(b, c)
  {
    if a == [] {
      assert a + b == b;
    } else {
      assert (a + b)[1..] == a[1..] + b;
      CountAppend(a[1..], b, c);
    }
  }

  /** `_hash_password`: the salt, a colon, and the hex digest of password
      followed by salt. The stored string starts with the salt and holds one
      colon more than salt and digest together. */
  function HashPassword(password: string, salt: string, sha256: string -> string): (h: string)
    ensures |h| > |salt| && h[..|salt|] == salt
    ensures Count(h, Sep) == Count(salt, Sep) + 1 + Count(sha256(password + salt), Sep)
  {
    var digest := sha256(password + salt);
    CountAppend(salt, [Sep], Sep);
    CountAppend(salt + [Sep], digest, Sep);
    assert (salt + [Sep] + digest)[..|salt|] == salt;
    salt + [Sep] + digest
  }

  /** `_verify_password`: false unless the stored string has exactly two
      colon-separated pieces; then whether the digest of password followed by
      the first piece is the second. It accepts exactly the strings that
      hashing this password with some colon-free salt and digest produces. */
  function VerifyPassword(password: string, stored: string, sha256: string -> string): (b: bool)
    ensures b ==> Count(stored, Sep) == 1
    ensures b <==> exists salt :: Sep !in salt && Sep !in sha256(password + salt)
                                  && stored == HashPassword(password, salt, sha256)
  {
    var parts := Split(stored, Sep);
    SplitCount(stored, Sep);
    HashesVerify(password, stored, sha256);
    |parts| == 2 && sha256(password + parts[0]) == parts[1]
  }

  /** The two directions behind `VerifyPassword`'s characterisation. */
  lemma HashesVerify(password: string, stored: string, sha256: string -> string)
    ensures var parts := Split(stored, Sep);
      (|parts| == 2 && sha256(password + parts[0]) == parts[1])
      <==> exists salt :: Sep !in salt && Sep !in sha256(password + salt)
                          && stored == HashPassword(password, salt, sha256)
  {
    var parts := Split(stored, Sep);
    if |parts| == 2 && sha256(password + parts[0]) == parts[1] {
      JoinSplit(stored, Sep);
      assert Join(parts[1..], Sep) == parts[1];
      assert stored == HashPassword(password, parts[0], sha256);
    }
    forall salt | Sep !in salt && Sep !in sha256(password + salt) && stored == HashPassword(password, salt, sha256)
      ensures |parts| == 2 && sha256(password + parts[0]) == parts[1]
    {
      HashPasswordParts(password, salt, sha256);
    }
  }

  /** A stored hash splits back into its salt and digest. */
  lemma HashPasswordParts(password: string, salt: string, sha256: string -> string)
    requires Sep !in salt && Sep !in sha256(password + salt)
    ensures Split(HashPassword(password, salt, sha256), Sep) == [salt, sha256(password + salt)]
  {
    var parts := [salt, sha256(password + salt)];
    SplitJoin(parts, Sep);
    assert Join(parts[1..], Sep) == sha256(password + salt);
  }

  /** Checking a password against a hash made from `original` succeeds exactly
      when both digests agree; so the password that was hashed verifies. */
  lemma VerifyHashedPassword(password: string, original: string, salt: string, sha256: string -> string)
    requires Sep !in salt && Sep !in sha256(original + salt)
    ensures VerifyPassword(password, HashPassword(original, salt, sha256), sha256)
        <==> sha256(password + salt) == sha256(original + salt)
    ensures VerifyPassword(original, HashPassword(original, salt, sha256), sha256)
  {
    HashPasswordParts(original, salt, sha256);
  }

  /** A stored string without exactly one colon never verifies. */
  lemma VerifyRejectsMalformed(password: string, stored: string, sha256: string -> string)
    requires Count(stored, Sep) != 1
    ensures !VerifyPassword(password, stored, sha256)
  {
    SplitCount(stored, Sep);
  }

  // ---------------------------------------------------------------------
  // Queries
  // ---------------------------------------------------------------------

  /** The first user with the given email (`filter_by(email=...).first()`). */
  function FindByEmail(users: seq<User>, email: string): (r: Option<User>)
    ensures r.None? <==> forall i :: 0 <= i < |users| ==> users[i].email != email
    ensures r.Some? ==> r.value in users && r.value.email == email
    ensures r.Some? ==> exists k :: 0 <= k < |users| && users[k] == r.value
                                    && forall j :: 0 <= j < k ==> users[j].email != email
  {
    if users == [] then None
    else if users[0].email == email then Some(users[0])
    else
      var r := FindByEmail(users[1..], email);
      assert forall i :: 1 <= i < |users| ==> users[i] == users[1..][i - 1];
      r
  }

  /** Position of the first user with the given id, if any. */
  function FindById(users: seq<User>, id: int): (k: Option<nat>)
    ensures k.None? <==> forall i :: 0 <= i < |users| ==> users[i].id != id
    ensures k.Some? ==> k.value < |users| && users[k.value].id == id
    ensures k.Some? ==> forall j :: 0 <= j < k.value ==> users[j].id != id
  {
    if users == [] then None
    else if users[0].id == id then Some(0)
    else
      match FindById(users[1..], id)
      case None => None
      case Some(k) => Some(k + 1)
  }

  /** `filter_by(company_id=...)`: the users of one company, in table order. */
  function OfCompany(users: seq<User>, companyId: int): (r: seq<User>)
    ensures forall u :: u in r <==> u in users && u.companyId == Some(companyId)
  {
    if users == [] then []
    else
      assert forall u :: u in users <==> u == users[0] || u in users[1..];
      (if users[0].companyId == Some(companyId) then [users[0]] else []) + OfCompany(users[1..], companyId)
  }

  /** The users of `users` with the given role, in order. */
  function WithRole(users: seq<User>, role: Role): (r: seq<User>)
    ensures |r| <= |users|
    ensures forall u :: u in r <==> u in users && u.role == role
  {
    if users == [] then []
    else
      assert forall u :: u in users <==> u == users[0] || u in users[1..];
      (if users[0].role == role then [users[0]] else []) + WithRole(users[1..], role)
  }

  /** `get_all_users_by_company_id`: "all" lists the company's users, "admin",
      "manager" and "employee" only those with that role, and any other type
      is refused. */
  function UsersOfType(users: seq<User>, companyId: int, kind: string): (r: Result<seq<User>, UserError>)
    ensures r.Err? <==> kind !in ["all", "admin", "manager", "employee"]
    ensures r.Err? ==> r.error == InvalidType
    ensures kind == "all" ==> r.Ok? && forall u :: u in r.value <==> u in users && u.companyId == Some(companyId)
    ensures kind == "admin" ==> r.Ok? && forall u :: u in r.value <==> u in users && u.companyId == Some(companyId) && u.role == Admin
    ensures kind == "manager" ==> r.Ok? && forall u :: u in r.value <==> u in users && u.companyId == Some(companyId) && u.role == Manager
    ensures kind == "employee" ==> r.Ok? && forall u :: u in r.value <==> u in users && u.companyId == Some(companyId) && u.role == Employee
  {
    var ofCompany := OfCompany(users, companyId);
    if kind == "all" then Ok(ofCompany)
    else if kind == "admin" then Ok(WithRole(ofCompany, Admin))
    else if kind == "manager" then Ok(WithRole(ofCompany, Manager))
    else if kind == "employee" then Ok(WithRole(ofCompany, Employee))
    else Err(InvalidType)
  }

  /** The three role listings of a company split its full listing. */
  lemma {:induction false} RoleListsPartition(users: seq<User>)
    ensures |WithRole(users, Admin)| + |WithRole(users, Manager)| + |WithRole(users, Employee)| == |users|
  {
    if users != [] {
      RoleListsPartition(users[1..]);
    }
  }

  /** `authenticate_user`: the first user with the email, when the password
      verifies against its stored hash; otherwise the invalid-credentials
      error. */
  function Authenticate(users: seq<User>, email: string, password: string, sha256: string -> string)
    : (r: Result<User, UserError>)
    ensures r.Ok? ==> r.value in users && r.value.email == email
                      && VerifyPassword(password, r.value.passwordHash, sha256)
    ensures r.Err? ==> r.error == InvalidCredentials
    ensures (forall i :: 0 <= i < |users| ==> users[i].email != email) ==> r.Err?
    ensures r.Ok? ==> FindByEmail(users, email) == Some(r.value)
    ensures FindByEmail(users, email).Some?
            && VerifyPassword(password, FindByEmail(users, email).value.passwordHash, sha256)
            ==> r == Ok(FindByEmail(users, email).value)
  {
    match FindByEmail(users, email)
    case None => Err(InvalidCredentials)
    case Some(u) => if VerifyPassword(password, u.passwordHash, sha256) then Ok(u) else Err(InvalidCredentials)
  }

  lemma {:induction false} FindByEmailAppend(users: seq<User>, u: User)
    requires forall i :: 0 <= i < |users| ==> users[i].email != u.email
    ensures FindByEmail(users + [u], u.email) == Some(u)
  {
    if users != [] {
      assert (users + [u])[1..] == users[1..] + [u];
      FindByEmailAppend(users[1..], u);
    }
  }

  /** A user appended with a fresh email and the hash of `password` can log in
      with that password. */
  lemma NewUserAuthenticates(users: seq<User>, u: User, password: string, salt: string, sha256: string -> string)
    requires forall i :: 0 <= i < |users| ==> users[i].email != u.email
    requires u.passwordHash == HashPassword(password, salt, sha256)
    requires Sep !in salt && Sep !in sha256(password + salt)
    ensures Authenticate(users + [u], u.email, password, sha256) == Ok(u)
  {
    FindByEmailAppend(users, u);
    VerifyHashedPassword(password, password, salt, sha256);
  }

  // ---------------------------------------------------------------------
  // create_user guards
  // ---------------------------------------------------------------------

  predicate HasEmail(users: seq<User>, email: string)
  {
    exists i :: 0 <= i < |users| && users[i].email == email
  }

  predicate HasId(users: seq<User>, id: int)
  {
    exists i :: 0 <= i < |users| && users[i].id == id
  }

  /** The guards of `create_user` in the order they run: the role, then the
      email, then a company for a non-Admin, then the company when a truthy
      id is given, then the manager when one is given. Ok carries the role. */
  function CreateCheck(users: seq<User>, companies: set<int>, email: string, role: string,
                       companyId: Option<int>, managerId: Option<int>): (r: Result<Role, UserError>)
    ensures r == Err(InvalidRole) <==> ParseRole(role).None?
    ensures r == Err(EmailTaken) <==> ParseRole(role).Some? && HasEmail(users, email)
    ensures r == Err(CompanyRequired)
        <==> ParseRole(role).Some? && !HasEmail(users, email) && role != "Admin" && companyId.None?
    ensures r == Err(CompanyNotFound)
        <==> (&& ParseRole(role).Some? && !HasEmail(users, email)
              && (role == "Admin" || companyId.Some?)
              && Truthy(companyId) && companyId.value !in companies)
    ensures r.Ok? <==>
      (&& ParseRole(role).Some? && !HasEmail(users, email)
       && (role == "Admin" || companyId.Some?)
       && (Truthy(companyId) ==> companyId.value in companies)
       && (managerId.Some? ==> HasId(users, managerId.value)))
    ensures r.Ok? ==> ParseRole(role) == Some(r.value)
    ensures r.Err? ==> r.error in {InvalidRole, EmailTaken, CompanyRequired, CompanyNotFound, ManagerNotFound}
  {
    match ParseRole(role)
    case None => Err(InvalidRole)
    case Some(parsed) =>
      if HasEmail(users, email) then Err(EmailTaken)
      else if role != "Admin" && companyId.None? then Err(CompanyRequired)
      else if Truthy(companyId) && companyId.value !in companies then Err(CompanyNotFound)
      else if managerId.Some? && !HasId(users, managerId.value) then Err(ManagerNotFound)
      else Ok(parsed)
  }

  // ---------------------------------------------------------------------
  // update_user_with
  // ---------------------------------------------------------------------

  /** One `setattr(user, key, value)`: a column with a value of its type, or a
      key that is no column (an attribute the table does not keep). */
  datatype FieldUpdate =
    | SetId(id: int)
    | SetCompanyId(companyId: Option<int>)
    | SetEmail(email: string)
    | SetPasswordHash(passwordHash: string)
    | SetFullName(fullName: string)
    | SetRole(role: Role)
    | SetManagerId(managerId: Option<int>)
    | SetOther(key: string)

  datatype Field = IdField | CompanyIdField | EmailField | PasswordHashField | FullNameField | RoleField | ManagerIdField

  /** The column an update writes, if any. */
  function FieldOf(up: FieldUpdate): Option<Field>
  {
    match up
    case SetId(_) => Some(IdField)
    case SetCompanyId(_) => Some(CompanyIdField)
    case SetEmail(_) => Some(EmailField)
    case SetPasswordHash(_) => Some(PasswordHashField)
    case SetFullName(_) => Some(FullNameField)
    case SetRole(_) => Some(RoleField)
    case SetManagerId(_) => Some(ManagerIdField)
    case SetOther(_) => None
  }

  /** The current value of column `f` of `u`, written as the update that would
      set it. */
  function Current(u: User, f: Field): (up: FieldUpdate)
    ensures FieldOf(up) == Some(f)
  {
    match f
    case IdField => SetId(u.id)
    case CompanyIdField => SetCompanyId(u.companyId)
    case EmailField => SetEmail(u.email)
    case PasswordHashField => SetPasswordHash(u.passwordHash)
    case FullNameField => SetFullName(u.fullName)
    case RoleField => SetRole(u.role)
    case ManagerIdField => SetManagerId(u.managerId)
  }

  function Apply(u: User, up: FieldUpdate): (v: User)
    ensures up.SetOther? ==> v == u
    ensures up.SetOther? || Current(v, FieldOf(up).value) == up
    ensures forall f :: FieldOf(up) != Some(f) ==> Current(v, f) == Current(u, f)
  {
    match up
    case SetId(x) => u.(id := x)
    case SetCompanyId(x) => u.(companyId := x)
    case SetEmail(x) => u.(email := x)
    case SetPasswordHash(x) => u.(passwordHash := x)
    case SetFullName(x) => u.(fullName := x)
    case SetRole(x) => u.(role := x)
    case SetManagerId(x) => u.(managerId := x)
    case SetOther(_) => u
  }

  /** The user after the updates, applied in order. */
  function ApplyAll(u: User, ups: seq<FieldUpdate>): User
  {
    if ups == [] then u else Apply(ApplyAll(u, ups[..|ups| - 1]), ups[|ups| - 1])
  }

  /** The last update of `ups` that writes column `f`. */
  function LastFor(ups: seq<FieldUpdate>, f: Field): (r: Option<FieldUpdate>)
    ensures r.None? <==> forall i :: 0 <= i < |ups| ==> FieldOf(ups[i]) != Some(f)
    ensures r.Some? ==> exists i :: 0 <= i < |ups| && ups[i] == r.value && FieldOf(ups[i]) == Some(f)
                                    && forall j :: i < j < |ups| ==> FieldOf(ups[j]) != Some(f)
  {
    if ups == [] then None
    else if FieldOf(ups[|ups| - 1]) == Some(f) then Some(ups[|ups| - 1])
    else
      var r := LastFor(ups[..|ups| - 1], f);
      assert forall i :: 0 <= i < |ups| - 1 ==> ups[..|ups| - 1][i] == ups[i];
      r
  }

  /** After the updates each column holds the value of the last update that
      writes it, and keeps its old value when none does. */
  lemma {:induction false} ApplyAllFields(u: User, ups: seq<FieldUpdate>, f: Field)
    ensures Current(ApplyAll(u, ups), f) == match LastFor(ups, f) case Some(up) => up case None => Current(u, f)
  {
    if ups != [] {
      ApplyAllFields(u, ups[..|ups| - 1], f);
    }
  }

  /** Updates naming no column leave the user as it was. */
  lemma {:induction false} ApplyAllOthers(u: User, ups: seq<FieldUpdate>)
    requires forall i :: 0 <= i < |ups| ==> ups[i].SetOther?
    ensures ApplyAll(u, ups) == u
  {
    if ups != [] {
      ApplyAllOthers(u, ups[..|ups| - 1]);
    }
  }

  predicate EmailsUnique(users: seq<User>)
  {
    forall i, j :: 0 <= i < j < |users| ==> users[i].email != users[j].email
  }

  /** `UsersService`, with the users table and the known company ids in
      memory and the next id the database would assign. */
  class UsersService {
    var users: seq<User>
    var companies: set<int>
    var nextId: int

    constructor (users: seq<User>, companies: set<int>, nextId: int)
      ensures this.users == users && this.companies == companies && this.nextId == nextId
    {
      this.users := users;
      this.companies := companies;
      this.nextId := nextId;
    }

    /** `create_user`: the guards in order, each failure returning at once
        with nothing stored; when all pass, a user with the hashed password is
        added. */
    method CreateUser(email: string, fullName: string, password: string, role: string,
                      companyId: Option<int>, managerId: Option<int>,
                      salt: string, sha256: string -> string) returns (r: Result<User, UserError>)
      modifies this
      ensures companies == old(companies)
      ensures var check := CreateCheck(old(users), companies, email, role, companyId, managerId);
        && (r.Err? <==> check.Err?)
        && (r.Err? ==> r.error == check.error && users == old(users) && nextId == old(nextId))
        && (r.Ok? ==>
              && r.value == User(old(nextId), companyId, email, HashPassword(password, salt, sha256),
                                 fullName, check.value, managerId)
              && users == old(users) + [r.value]
              && nextId == old(nextId) + 1)
      ensures EmailsUnique(old(users)) ==> EmailsUnique(users)
    {
      var parsed := ParseRole(role);
      if parsed.None? {
        return Err(InvalidRole);
      }
      if FindByEmail(users, email).Some? {
        return Err(EmailTaken);
      }
      if role != "Admin" && companyId.None? {
        return Err(CompanyRequired);
      }
      if Truthy(companyId) {
        if companyId.value !in companies {
          return Err(CompanyNotFound);
        }
      }
      if managerId.Some? {
        if FindById(users, managerId.value).None? {
          return Err(ManagerNotFound);
        }
      }
      var user := User(nextId, companyId, email, HashPassword(password, salt, sha256), fullName,
                       parsed.value, managerId);
      users := users + [user];
      nextId := nextId + 1;
      return Ok(user);
    }

    /** `update_user_with`: an unknown id is an error and changes nothing;
        otherwise each update is set on the first user with that id, in
        order, and the row is written back. */
    method UpdateUserWith(userId: int, data: seq<FieldUpdate>) returns (r: Result<User, UserError>)
      modifies this
      ensures companies == old(companies) && nextId == old(nextId)
      ensures r.Err? <==> FindById(old(users), userId).None?
      ensures r.Err? ==> r.error == UserNotFound && users == old(users)
      ensures r.Ok? ==>
        var k := FindById(old(users), userId).value;
        && r.value == ApplyAll(old(users)[k], data)
        && users == old(users)[k := r.value]
    {
      var found := FindById(users, userId);
      if found.None? {
        return Err(UserNotFound);
      }
      var k := found.value;
      var user := users[k];
      for i := 0 to |data|
        invariant user == ApplyAll(users[k], data[..i])
      {
        assert data[..i + 1][..i] == data[..i];
        user := Apply(user, data[i]);
      }
      assert data[..|data|] == data;
      users := users[k := user];
      return Ok(user);
    }
  }
}
