/** Draft A's users router (backend/src/routers/users.py): registration,
    updating one's own account, the admin's listing and update of any
    account. Password hashing and token handling belong to the
    authentication layer: the hash is an input of registration. */
module Users {
  import opened Common
  import opened Store

  /* ---------------------------------------------------------------- */
  /* Lookups                                                           */
  /* ---------------------------------------------------------------- */

  /** `query(User).filter(User.id == id).first()`. */
  function FindUser(users: seq<User>, id: int): (r: Option<nat>)
    ensures r.Some? ==> r.value < |users| && users[r.value].id == id
    ensures r.None? ==> forall j :: 0 <= j < |users| ==> users[j].id != id
  {
    if users == [] then None
    else if users[0].id == id then Some(0)
    else match FindUser(users[1..], id)
      case None => None
      case Some(k) => Some(k + 1)
  }

  /** The first account with this email. */
  function FindByEmail(users: seq<User>, email: string): (r: Option<nat>)
    ensures r.Some? ==> r.value < |users| && users[r.value].email == email
    ensures r.None? ==> forall j :: 0 <= j < |users| ==> users[j].email != email
  {
    if users == [] then None
    else if users[0].email == email then Some(0)
    else match FindByEmail(users[1..], email)
      case None => None
      case Some(k) => Some(k + 1)
  }

  /** The first account with this username. */
  function FindByUsername(users: seq<User>, username: string): (r: Option<nat>)
    ensures r.Some? ==> r.value < |users| && users[r.value].username == username
    ensures r.None? ==> forall j :: 0 <= j < |users| ==> users[j].username != username
  {
    if users == [] then None
    else if users[0].username == username then Some(0)
    else match FindByUsername(users[1..], username)
      case None => None
      case Some(k) => Some(k + 1)
  }

  /** Ids, emails and usernames each identify at most one account. */
  predicate UniqueAccounts(users: seq<User>)
  {
    forall i, j :: 0 <= i < j < |users| ==>
      && users[i].id != users[j].id
      && users[i].email != users[j].email
      && users[i].username != users[j].username
  }

  /* ---------------------------------------------------------------- */
  /* register                                                          */
  /* ---------------------------------------------------------------- */

  /** The fields of `UserCreate` other than the password, whose hash is
      passed separately. */
  datatype UserInput = UserInput(email: string, username: string, fullName: Option<string>)

  /** The account `register` inserts: always an active attendee. */
  function NewUser(input: UserInput, id: int, hashed: string): (u: User)
    ensures u.id == id && u.role == Attendee && u.isActive
    ensures u.email == input.email && u.username == input.username && u.fullName == input.fullName
    ensures u.hashedPassword == hashed
  {
    User(id, input.email, input.username, input.fullName, hashed, Attendee, true)
  }

  /** `register`: the users table afterwards. */
  function RegisterUserStep(users: seq<User>, input: UserInput, id: int, hashed: string): (r: Result<seq<User>>)
    ensures r.Ok? ==> |r.value| == |users| + 1 && r.value[..|users|] == users
  {
    if FindByEmail(users, input.email).Some? then Err(BadRequest("Email already registered"))
    else if FindByUsername(users, input.username).Some? then Err(BadRequest("Username already taken"))
    else Ok(users + [NewUser(input, id, hashed)])
  }

  /** Registration is refused for a taken email, and, only when the email
      is free, for a taken username; otherwise it appends an active attendee
      account holding the input. */
  lemma RegisterUserOutcome(users: seq<User>, input: UserInput, id: int, hashed: string)
    ensures RegisterUserStep(users, input, id, hashed) == Err(BadRequest("Email already registered"))
      <==> exists j :: 0 <= j < |users| && users[j].email == input.email
    ensures RegisterUserStep(users, input, id, hashed) == Err(BadRequest("Username already taken"))
      <==> ((forall j :: 0 <= j < |users| ==> users[j].email != input.email)
           && (exists j :: 0 <= j < |users| && users[j].username == input.username))
    ensures RegisterUserStep(users, input, id, hashed).Ok? ==>
      && RegisterUserStep(users, input, id, hashed).value[|users|].role == Attendee
      && RegisterUserStep(users, input, id, hashed).value[|users|].isActive
      && RegisterUserStep(users, input, id, hashed).value[|users|].email == input.email
      && RegisterUserStep(users, input, id, hashed).value[|users|].username == input.username
  {
  }

  /** Registration with a fresh id keeps ids, emails and usernames unique. */
  lemma RegisterUserKeepsUnique(users: seq<User>, input: UserInput, id: int, hashed: string)
    requires UniqueAccounts(users)
    requires forall j :: 0 <= j < |users| ==> users[j].id != id
    ensures RegisterUserStep(users, input, id, hashed).Ok? ==>
      UniqueAccounts(RegisterUserStep(users, input, id, hashed).value)
  {
    if RegisterUserStep(users, input, id, hashed).Ok? {
      var r := RegisterUserStep(users, input, id, hashed).value;
      forall i, j | 0 <= i < j < |r|
        ensures r[i].id != r[j].id && r[i].email != r[j].email && r[i].username != r[j].username
      {
        if j == |users| {
          assert r[i] == users[i];
        } else {
          assert r[i] == users[i] && r[j] == users[j];
        }
      }
    }
  }

  /** `register` against the store. */
  method RegisterUser(db: Db, input: UserInput, hashed: string) returns (res: Result<User>)
    requires db.Valid()
    modifies db
    ensures db.Valid()
    ensures db.events == old(db.events) && db.attendees == old(db.attendees)
    ensures db.nextAttendeeId == old(db.nextAttendeeId) && db.nextEventId == old(db.nextEventId)
    ensures RegisterUserStep(old(db.users), input, old(db.nextUserId), hashed).Ok? ==>
      && db.users == RegisterUserStep(old(db.users), input, old(db.nextUserId), hashed).value
      && db.nextUserId == old(db.nextUserId) + 1
      && res == Ok(NewUser(input, old(db.nextUserId), hashed))
    ensures RegisterUserStep(old(db.users), input, old(db.nextUserId), hashed).Err? ==>
      && db.users == old(db.users) && db.nextUserId == old(db.nextUserId)
      && res == Err(RegisterUserStep(old(db.users), input, old(db.nextUserId), hashed).error)
    ensures UniqueAccounts(old(db.users)) ==> UniqueAccounts(db.users)
  {
    if FindByEmail(db.users, input.email).Some? {
      return Err(BadRequest("Email already registered"));
    }
    if FindByUsername(db.users, input.username).Some? {
      return Err(BadRequest("Username already taken"));
    }
    if UniqueAccounts(db.users) {
      RegisterUserKeepsUnique(db.users, input, db.nextUserId, hashed);
    }
    var user := NewUser(input, db.nextUserId, hashed);
    db.users := db.users + [user];
    db.nextUserId := db.nextUserId + 1;
    res := Ok(user);
  }

  /* ---------------------------------------------------------------- */
  /* The fields of an update                                           */
  /* ---------------------------------------------------------------- */

  /** One entry of `user_update.dict(exclude_unset=True)`. */
  datatype UserField =
    | Email(email: string)
    | Username(username: string)
    | FullName(fullName: Option<string>)
    | NewRole(role: Role)
    | Active(isActive: bool)

  datatype UserKey = EmailKey | UsernameKey | FullNameKey | RoleKey | ActiveKey

  function Key(f: UserField): UserKey
  {
    match f
    case Email(_) => EmailKey
    case Username(_) => UsernameKey
    case FullName(_) => FullNameKey
    case NewRole(_) => RoleKey
    case Active(_) => ActiveKey
  }

  /** The current value of one field of an account. */
  function Read(u: User, key: UserKey): (f: UserField)
    ensures Key(f) == key
  {
    match key
    case EmailKey => Email(u.email)
    case UsernameKey => Username(u.username)
    case FullNameKey => FullName(u.fullName)
    case RoleKey => NewRole(u.role)
    case ActiveKey => Active(u.isActive)
  }

  /** `setattr(user, field, value)`. */
  function SetField(u: User, f: UserField): (r: User)
    ensures r.id == u.id && r.hashedPassword == u.hashedPassword
    ensures Read(r, Key(f)) == f
    ensures forall key :: key != Key(f) ==> Read(r, key) == Read(u, key)
  {
    match f
    case Email(e) => u.(email := e)
    case Username(n) => u.(username := n)
    case FullName(n) => u.(fullName := n)
    case NewRole(r) => u.(role := r)
    case Active(a) => u.(isActive := a)
  }

  /** The keys of a dict are distinct. */
  predicate DistinctKeys(data: seq<UserField>)
  {
    forall i, j :: 0 <= i < j < |data| ==> Key(data[i]) != Key(data[j])
  }

  /** The setattr loop over the supplied fields. */
  function ApplyFields(u: User, data: seq<UserField>): (r: User)
    ensures r.id == u.id && r.hashedPassword == u.hashedPassword
    decreases |data|
  {
    if data == [] then u else ApplyFields(SetField(u, data[0]), data[1..])
  }

  /** The loop sets every supplied field to its value and leaves every
      other field, the id and the password hash as they were. */
  lemma {:induction false} ApplyFieldsSpec(u: User, data: seq<UserField>)
    requires DistinctKeys(data)
    ensures ApplyFields(u, data).id == u.id && ApplyFields(u, data).hashedPassword == u.hashedPassword
    ensures forall k :: 0 <= k < |data| ==> Read(ApplyFields(u, data), Key(data[k])) == data[k]
    ensures forall key :: (forall k :: 0 <= k < |data| ==> Key(data[k]) != key) ==>
      Read(ApplyFields(u, data), key) == Read(u, key)
    decreases |data|
  {
    if data != [] {
      var rest := data[1..];
      ApplyFieldsSpec(SetField(u, data[0]), rest);
      assert forall k :: 0 <= k < |rest| ==> rest[k] == data[k + 1];
      forall k | 0 <= k < |data| ensures Read(ApplyFields(u, data), Key(data[k])) == data[k] {
        if k == 0 {
          assert forall l :: 0 <= l < |rest| ==> Key(rest[l]) != Key(data[0]);
        }
      }
    }
  }

  /** The setattr loop as the routes run it. */
  method SetFields(u: User, data: seq<UserField>) returns (r: User)
    ensures r == ApplyFields(u, data)
    ensures r.id == u.id && r.hashedPassword == u.hashedPassword
  {
    r := u;
    var i := 0;
    while i < |data|
      invariant 0 <= i <= |data|
      invariant ApplyFields(r, data[i..]) == ApplyFields(u, data)
      invariant r.id == u.id && r.hashedPassword == u.hashedPassword
    {
      assert data[i..][1..] == data[i + 1..];
      r := SetField(r, data[i]);
      i := i + 1;
    }
  }

  /** `update_data["email"]` and the like, when present. */
  function Lookup(data: seq<UserField>, key: UserKey): (r: Option<UserField>)
    ensures r.Some? ==> r.value in data && Key(r.value) == key
    ensures r.None? ==> forall k :: 0 <= k < |data| ==> Key(data[k]) != key
  {
    if data == [] then None
    else if Key(data[0]) == key then Some(data[0])
    else Lookup(data[1..], key)
  }

  /** `del update_data["role"]`. */
  function DropRole(data: seq<UserField>): (r: seq<UserField>)
    ensures forall f :: f in r <==> f in data && Key(f) != RoleKey
    ensures DistinctKeys(data) ==> DistinctKeys(r)
  {
    if data == [] then []
    else (if Key(data[0]) == RoleKey then [] else [data[0]]) + DropRole(data[1..])
  }

  /** The supplied email belongs to an account other than `id`. */
  predicate EmailTaken(users: seq<User>, id: int, data: seq<UserField>)
  {
    match Lookup(data, EmailKey)
    case None => false
    case Some(f) =>
      var j := FindByEmail(users, f.email);
      j.Some? && users[j.value].id != id
  }

  /** The supplied username belongs to an account other than `id`. */
  predicate UsernameTaken(users: seq<User>, id: int, data: seq<UserField>)
  {
    match Lookup(data, UsernameKey)
    case None => false
    case Some(f) =>
      var j := FindByUsername(users, f.username);
      j.Some? && users[j.value].id != id
  }

  /** The checked update of account `id`: the email check, then the
      username check, then (when `dropRole`) the role removed, then the
      setattr loop. */
  function Patch(users: seq<User>, id: int, data: seq<UserField>, dropRole: bool): (r: Result<(seq<User>, User)>)
    requires FindUser(users, id).Some?
    ensures r.Err? ==> r.error == BadRequest("Email already registered") || r.error == BadRequest("Username already taken")
    ensures r.Ok? ==> |r.value.0| == |users| && r.value.0[FindUser(users, id).value] == r.value.1 && r.value.1.id == id
    ensures r.Ok? ==> forall j :: 0 <= j < |users| && j != FindUser(users, id).value ==> r.value.0[j] == users[j]
  {
    var k := FindUser(users, id).value;
    if EmailTaken(users, id, data) then Err(BadRequest("Email already registered"))
    else if UsernameTaken(users, id, data) then Err(BadRequest("Username already taken"))
    else
      var u := ApplyFields(users[k], if dropRole then DropRole(data) else data);
      Ok((users[k := u], u))
  }

  /** With unique ids, an account found that has the id of account `k` is
      account `k`. */
  lemma TakenIsSelf(users: seq<User>, k: nat, found: Option<nat>)
    requires UniqueAccounts(users)
    requires k < |users|
    requires found.Some? ==> found.value < |users| && users[found.value].id == users[k].id
    ensures found.Some? ==> found.value == k
  {
  }

  /** The patched account `k` differs from every other account `j` in id,
      email and username when neither the email nor the username is taken. */
  lemma PatchedApart(users: seq<User>, k: nat, data: seq<UserField>, fields: seq<UserField>, j: nat)
    requires UniqueAccounts(users)
    requires k < |users| && j < |users| && j != k
    requires !EmailTaken(users, users[k].id, data) && !UsernameTaken(users, users[k].id, data)
    requires DistinctKeys(fields)
    requires forall f :: f in fields <==> f in data && (Key(f) == RoleKey ==> f in fields)
    ensures ApplyFields(users[k], fields).id != users[j].id
    ensures ApplyFields(users[k], fields).email != users[j].email
    ensures ApplyFields(users[k], fields).username != users[j].username
  {
    ApplyFieldsSpec(users[k], fields);
    var u := ApplyFields(users[k], fields);
    assert users[j].id != users[k].id by {
      if j < k { assert users[j].id != users[k].id; } else { assert users[k].id != users[j].id; }
    }
    var fe := Lookup(data, EmailKey);
    if fe.None? {
      assert Read(u, EmailKey) == Read(users[k], EmailKey);
    } else {
      assert fe.value in fields;
      assert Read(u, EmailKey) == fe.value;
      TakenIsSelf(users, k, FindByEmail(users, fe.value.email));
    }
    var fu := Lookup(data, UsernameKey);
    if fu.None? {
      assert Read(u, UsernameKey) == Read(users[k], UsernameKey);
    } else {
      assert fu.value in fields;
      assert Read(u, UsernameKey) == fu.value;
      TakenIsSelf(users, k, FindByUsername(users, fu.value.username));
    }
  }

  /** A checked update keeps ids, emails and usernames unique. */
  lemma PatchKeepsUnique(users: seq<User>, id: int, data: seq<UserField>, dropRole: bool)
    requires FindUser(users, id).Some?
    requires UniqueAccounts(users)
    requires DistinctKeys(data)
    ensures Patch(users, id, data, dropRole).Ok? ==> UniqueAccounts(Patch(users, id, data, dropRole).value.0)
  {
    if Patch(users, id, data, dropRole).Ok? {
      var k := FindUser(users, id).value;
      var fields := if dropRole then DropRole(data) else data;
      var u := ApplyFields(users[k], fields);
      var after := users[k := u];
      forall j | 0 <= j < |users| && j != k
        ensures u.id != users[j].id && u.email != users[j].email && u.username != users[j].username
      {
        PatchedApart(users, k, data, fields, j);
      }
      forall i, j | 0 <= i < j < |after|
        ensures after[i].id != after[j].id && after[i].email != after[j].email
          && after[i].username != after[j].username
      {
        if i != k && j != k {
          assert after[i] == users[i] && after[j] == users[j];
        }
      }
    }
  }

  /* ---------------------------------------------------------------- */
  /* update_user_me                                                    */
  /* ---------------------------------------------------------------- */

  /** `update_user_me` for the signed-in account `me`: a non-admin's role
      entry is dropped. */
  function UpdateMeStep(users: seq<User>, me: int, data: seq<UserField>): (r: Result<(seq<User>, User)>)
    requires FindUser(users, me).Some?
    ensures r.Err? ==> r.error == BadRequest("Email already registered") || r.error == BadRequest("Username already taken")
    ensures r.Ok? ==> |r.value.0| == |users| && r.value.0[FindUser(users, me).value] == r.value.1 && r.value.1.id == me
  {
    Patch(users, me, data, users[FindUser(users, me).value].role != Admin)
  }

  /** Updating one's own account fails for an email, and then for a
      username, held by another account. Otherwise only that account
      changes: every supplied field takes its value, except that a
      non-admin keeps their role; unsupplied fields, the id and the
      password hash are kept. */
  lemma UpdateMeOutcome(users: seq<User>, me: int, data: seq<UserField>)
    requires FindUser(users, me).Some?
    requires DistinctKeys(data)
    ensures UpdateMeStep(users, me, data) == Err(BadRequest("Email already registered"))
      <==> EmailTaken(users, me, data)
    ensures UpdateMeStep(users, me, data) == Err(BadRequest("Username already taken"))
      <==> !EmailTaken(users, me, data) && UsernameTaken(users, me, data)
    ensures UpdateMeStep(users, me, data).Ok? ==>
      var k := FindUser(users, me).value;
      var after := UpdateMeStep(users, me, data).value.0;
      var u := UpdateMeStep(users, me, data).value.1;
      && after == users[k := u]
      && u.id == me && u.hashedPassword == users[k].hashedPassword
      && (users[k].role != Admin ==> u.role == users[k].role)
      && (forall l :: 0 <= l < |data| && (Key(data[l]) != RoleKey || users[k].role == Admin) ==>
            Read(u, Key(data[l])) == data[l])
      && (forall key :: (forall l :: 0 <= l < |data| ==> Key(data[l]) != key) ==> Read(u, key) == Read(users[k], key))
  {
    var k := FindUser(users, me).value;
    var dropRole := users[k].role != Admin;
    var fields := if dropRole then DropRole(data) else data;
    ApplyFieldsSpec(users[k], fields);
    if UpdateMeStep(users, me, data).Ok? {
      var u := ApplyFields(users[k], fields);
      forall l | 0 <= l < |data| && (Key(data[l]) != RoleKey || !dropRole)
        ensures Read(u, Key(data[l])) == data[l]
      {
        assert data[l] in fields;
      }
      if dropRole {
        assert Read(u, RoleKey) == Read(users[k], RoleKey);
      }
      forall key | (forall l :: 0 <= l < |data| ==> Key(data[l]) != key)
        ensures Read(u, key) == Read(users[k], key)
      {
        forall l | 0 <= l < |fields| ensures Key(fields[l]) != key {
          assert fields[l] in data;
        }
      }
    }
  }

  /** Account updates through `update_user_me` keep ids, emails and
      usernames unique. */
  lemma UpdateMeKeepsUnique(users: seq<User>, me: int, data: seq<UserField>)
    requires FindUser(users, me).Some?
    requires UniqueAccounts(users)
    requires DistinctKeys(data)
    ensures UpdateMeStep(users, me, data).Ok? ==> UniqueAccounts(UpdateMeStep(users, me, data).value.0)
  {
    PatchKeepsUnique(users, me, data, users[FindUser(users, me).value].role != Admin);
  }

  /** The two uniqueness checks of `update_user_me`, email first. */
  method Conflict(users: seq<User>, me: int, data: seq<UserField>) returns (err: Option<Error>)
    ensures err == Some(BadRequest("Email already registered")) <==> EmailTaken(users, me, data)
    ensures err == Some(BadRequest("Username already taken")) <==>
      !EmailTaken(users, me, data) && UsernameTaken(users, me, data)
    ensures err.None? <==> !EmailTaken(users, me, data) && !UsernameTaken(users, me, data)
  {
    var email := Lookup(data, EmailKey);
    if email.Some? {
      var existing := FindByEmail(users, email.value.email);
      if existing.Some? && users[existing.value].id != me {
        return Some(BadRequest("Email already registered"));
      }
    }
    var username := Lookup(data, UsernameKey);
    if username.Some? {
      var existing := FindByUsername(users, username.value.username);
      if existing.Some? && users[existing.value].id != me {
        return Some(BadRequest("Username already taken"));
      }
    }
    return None;
  }

  /** `update_user_me` against the store; `me` is the signed-in account. */
  method UpdateMe(db: Db, me: int, data: seq<UserField>) returns (res: Result<User>)
    requires db.Valid()
    requires FindUser(db.users, me).Some?
    modifies db
    ensures db.Valid()
    ensures db.events == old(db.events) && db.attendees == old(db.attendees)
    ensures db.nextAttendeeId == old(db.nextAttendeeId) && db.nextEventId == old(db.nextEventId)
    ensures db.nextUserId == old(db.nextUserId)
    ensures UpdateMeStep(old(db.users), me, data).Ok? ==>
      && db.users == UpdateMeStep(old(db.users), me, data).value.0
      && res == Ok(UpdateMeStep(old(db.users), me, data).value.1)
    ensures UpdateMeStep(old(db.users), me, data).Err? ==>
      db.users == old(db.users) && res == Err(UpdateMeStep(old(db.users), me, data).error)
  {
    var users := db.users;
    var k := FindUser(users, me).value;
    var current := users[k];
    var conflict := Conflict(users, me, data);
    if conflict.Some? {
      return Err(conflict.value);
    }
    var fields := data;
    if Lookup(data, RoleKey).Some? && current.role != Admin {
      fields := DropRole(data);
    }
    assert fields == if current.role != Admin then DropRole(data) else data by {
      if Lookup(data, RoleKey).None? && current.role != Admin {
        DropRoleAbsent(data);
      }
    }
    current := SetFields(current, fields);
    assert UpdateMeStep(users, me, data) == Ok((users[k := current], current));
    db.users := users[k := current];
    res := Ok(current);
  }

  /** Removing a role entry that is not there changes nothing. */
  lemma {:induction false} DropRoleAbsent(data: seq<UserField>)
    requires forall k :: 0 <= k < |data| ==> Key(data[k]) != RoleKey
    ensures DropRole(data) == data
    decreases |data|
  {
    if data != [] {
      DropRoleAbsent(data[1..]);
    }
  }

  /* ---------------------------------------------------------------- */
  /* get_users, update_user (admin only)                               */
  /* ---------------------------------------------------------------- */

  /** `get_users`: `OFFSET skip LIMIT limit` over the users table. */
  function ListUsers(users: seq<User>, skip: nat, limit: nat): (r: seq<User>)
    ensures |r| <= limit
    ensures |r| == Min(limit, if skip <= |users| then |users| - skip else 0)
    ensures forall k :: 0 <= k < |r| ==> r[k] == users[skip + k]
  {
    Page(users, skip, limit)
  }

  /** `update_user`: 404 for a missing account, otherwise the setattr loop
      with no uniqueness check and no field withheld. */
  function UpdateUserStep(users: seq<User>, id: int, data: seq<UserField>): (r: Result<(seq<User>, User)>)
    ensures r.Ok? ==> |r.value.0| == |users|
  {
    match FindUser(users, id)
    case None => Err(NotFound("User not found"))
    case Some(k) =>
      var u := ApplyFields(users[k], data);
      Ok((users[k := u], u))
  }

  /** The admin update fails exactly for a missing account; otherwise it
      rewrites that account with every supplied field, role included, and
      keeps its id and password hash. */
  lemma UpdateUserOutcome(users: seq<User>, id: int, data: seq<UserField>)
    requires DistinctKeys(data)
    ensures UpdateUserStep(users, id, data).Err? <==> forall j :: 0 <= j < |users| ==> users[j].id != id
    ensures UpdateUserStep(users, id, data).Err? ==> UpdateUserStep(users, id, data).error == NotFound("User not found")
    ensures UpdateUserStep(users, id, data).Ok? ==>
      var k := FindUser(users, id).value;
      var u := UpdateUserStep(users, id, data).value.1;
      && UpdateUserStep(users, id, data).value.0 == users[k := u]
      && u.id == id && u.hashedPassword == users[k].hashedPassword
      && (forall l :: 0 <= l < |data| ==> Read(u, Key(data[l])) == data[l])
      && (forall key :: (forall l :: 0 <= l < |data| ==> Key(data[l]) != key) ==> Read(u, key) == Read(users[k], key))
  {
    if FindUser(users, id).Some? {
      ApplyFieldsSpec(users[FindUser(users, id).value], data);
    }
  }

  /** As written, the admin update can give an account the email of
      another account: two accounts, the second given the first's email. */
  lemma UpdateUserBreaksUniqueness()
    ensures
      var users := [User(1, "a@x", "a", None, "h", Attendee, true), User(2, "b@x", "b", None, "h", Attendee, true)];
      && UniqueAccounts(users)
      && UpdateUserStep(users, 2, [Email("a@x")]).Ok?
      && !UniqueAccounts(UpdateUserStep(users, 2, [Email("a@x")]).value.0)
  {
    var users := [User(1, "a@x", "a", None, "h", Attendee, true), User(2, "b@x", "b", None, "h", Attendee, true)];
    var after := UpdateUserStep(users, 2, [Email("a@x")]).value.0;
    assert after[0].email == after[1].email;
  }

  /** The admin update with the checks `update_user_me` makes, against the
      account being updated. */
  function UpdateUserChecked(users: seq<User>, id: int, data: seq<UserField>): (r: Result<(seq<User>, User)>)
    ensures r.Ok? ==> |r.value.0| == |users|
  {
    if FindUser(users, id).None? then Err(NotFound("User not found"))
    else Patch(users, id, data, false)
  }

  /** The checked admin update keeps ids, emails and usernames unique, and
      agrees with the unchecked one whenever it succeeds. */
  lemma UpdateUserCheckedKeepsUnique(users: seq<User>, id: int, data: seq<UserField>)
    requires UniqueAccounts(users)
    requires DistinctKeys(data)
    ensures UpdateUserChecked(users, id, data).Ok? ==>
      && UniqueAccounts(UpdateUserChecked(users, id, data).value.0)
      && UpdateUserChecked(users, id, data) == UpdateUserStep(users, id, data)
  {
    if FindUser(users, id).Some? {
      PatchKeepsUnique(users, id, data, false);
    }
  }

  /** `update_user` against the store, as written. */
  method UpdateUser(db: Db, userId: int, data: seq<UserField>) returns (res: Result<User>)
    requires db.Valid()
    modifies db
    ensures db.Valid()
    ensures db.events == old(db.events) && db.attendees == old(db.attendees)
    ensures db.nextAttendeeId == old(db.nextAttendeeId) && db.nextEventId == old(db.nextEventId)
    ensures db.nextUserId == old(db.nextUserId)
    ensures UpdateUserStep(old(db.users), userId, data).Ok? ==>
      && db.users == UpdateUserStep(old(db.users), userId, data).value.0
      && res == Ok(UpdateUserStep(old(db.users), userId, data).value.1)
    ensures UpdateUserStep(old(db.users), userId, data).Err? ==>
      db.users == old(db.users) && res == Err(UpdateUserStep(old(db.users), userId, data).error)
  {
    var found := FindUser(db.users, userId);
    if found.None? {
      return Err(NotFound("User not found"));
    }
    var user := SetFields(db.users[found.value], data);
    db.users := db.users[found.value := user];
    res := Ok(user);
  }
}
