/** The users controller: the profile read, the account deletion cascade and the profile
    edit with its email and password checks. */
module Users {
  import opened Wrappers
  import opened Seqs
  import opened Store
  import opened Guards

  // ---------------------------------------------------------------------------
  // getUserInfos

  /** The profile getUserInfos answers with; `userEmail` is the md5 of the email. */
  datatype UserInfo = UserInfo(userName: string, userEmail: string, projectsCount: nat)

  /** getUserInfos: statement 0 is the grouped count. A user with no row gives no group,
      which the handler reports as 500. */
  function GetUserInfos(db: Db, uid: int, fault: Fault, md5: string -> string): (r: Reply<UserInfo>)
    ensures uid == 0 ==> r == Refused(BadRequest400)
    ensures r.Refused? && uid != 0 ==> r.status == ServerError500
    ensures uid != 0 && !fault.Hits(0) ==> (r.Sent? <==> HasUser(db, uid))
    ensures r.Sent? ==> r.value.projectsCount == |OwnedBy(db.projects, uid)|
    ensures r.Sent? ==> exists u :: u in db.users && u.id == uid && r.value.userName == u.name && r.value.userEmail == md5(u.email)
  {
    if RejectsId(uid) then Refused(BadRequest400)
    else if fault.Hits(0) then Refused(ServerError500)
    else
      match FindUser(db.users, uid)
      case None => Refused(ServerError500)
      case Some(u) => Sent(UserInfo(u.name, md5(u.email), |OwnedBy(db.projects, uid)|))
  }

  /** The projects rows with `fk_user = uid`, as a set. */
  ghost function OwnedSet(projects: seq<Project>, uid: int): set<Project> {
    set p | p in projects && p.owner == uid
  }

  lemma OwnedSetCons(projects: seq<Project>, uid: int)
    requires |projects| > 0
    ensures OwnedSet(projects, uid)
            == (if projects[0].owner == uid then {projects[0]} else {}) + OwnedSet(projects[1..], uid)
  {
    assert forall p :: p in projects <==> p == projects[0] || p in projects[1..];
  }

  /** With unique project ids, the count is the number of distinct projects the user owns. */
  lemma {:induction false} OwnedCount(projects: seq<Project>, uid: int)
    requires UniqueBy(projects, ProjectKey)
    ensures |OwnedBy(projects, uid)| == |OwnedSet(projects, uid)|
    decreases |projects|
  {
    if |projects| == 0 {
      assert OwnedSet(projects, uid) == {};
    } else {
      UniqueByTail(projects, ProjectKey);
      OwnedCount(projects[1..], uid);
      OwnedSetCons(projects, uid);
      assert projects[0] !in OwnedSet(projects[1..], uid);
    }
  }

  // ---------------------------------------------------------------------------
  // deleteUser

  /** `DELETE FROM users_favorites WHERE user_id = ? OR favUser_id = ?`. */
  function DropEdgesOf(edges: seq<UserFav>, uid: int): seq<UserFav> {
    Filter(edges, (e: UserFav) => e.userId != uid && e.favUserId != uid)
  }

  /** `DELETE FROM projects WHERE fk_user = ?`. */
  function DropOwnedBy(projects: seq<Project>, uid: int): seq<Project> {
    Filter(projects, (p: Project) => p.owner != uid)
  }

  /** `DELETE FROM users WHERE id = ?`. */
  function DropUser(users: seq<User>, uid: int): seq<User> {
    Filter(users, (u: User) => u.id != uid)
  }

  /** The state the cascade commits. The projects' technology rows go one owned project
      at a time, in the order the SELECT returned the ids. */
  function Cascade(db: Db, uid: int): (r: Db)
    ensures forall e :: e in r.userFavs <==> e in db.userFavs && e.userId != uid && e.favUserId != uid
    ensures forall t :: t in r.projectTechs <==> t in db.projectTechs && !exists p :: p in db.projects && p.owner == uid && p.id == t.projectId
    ensures forall p :: p in r.projects <==> p in db.projects && p.owner != uid
    ensures forall u :: u in r.users <==> u in db.users && u.id != uid
    ensures r.projectFavs == db.projectFavs
  {
    db.(userFavs := DropEdgesOf(db.userFavs, uid),
        projectTechs := DropTechsOfEach(db.projectTechs, OwnedProjectIds(db.projects, uid)),
        projects := DropOwnedBy(db.projects, uid),
        users := DropUser(db.users, uid))
  }

  /** deleteUser: inside the transaction, statement 0 drops the edges, 1 selects the owned
      ids, 2 to |owned| + 1 drop their technologies, then the projects, the user, and the
      commit: |owned| + 5 statements. */
  function DeleteUser(db: Db, authId: int, uid: int, userId: int, valid: bool, fault: Fault): (r: Step)
    ensures r.status != Ok200 ==> r.db == db
    ensures r.status == Ok200 ==> uid == authId && userId == authId
    ensures uid != 0 && valid && uid == authId && userId == authId ==>
              (r.status == Ok200 <==> !fault.HitsWithin(0, |OwnedProjectIds(db.projects, userId)| + 5))
  {
    if RejectsId(uid) then Step(BadRequest400, db)
    else if !valid then Step(Unprocessable422, db)
    else if uid != authId || Impersonates(userId, authId) then Step(Unauthorized401, db)
    else Transaction(db, Cascade(db, userId), 0, |OwnedProjectIds(db.projects, userId)| + 5, fault, Ok200)
  }

  /** The checks before the transaction: 400 for id 0, 422 for an invalid body, and 401
      unless both the URL id and the body's user are the token's user. */
  lemma DeleteUserGuards(db: Db, authId: int, uid: int, userId: int, valid: bool, fault: Fault)
    ensures uid == 0 ==> DeleteUser(db, authId, uid, userId, valid, fault) == Step(BadRequest400, db)
    ensures uid != 0 && !valid ==> DeleteUser(db, authId, uid, userId, valid, fault) == Step(Unprocessable422, db)
    ensures uid != 0 && valid ==>
              (DeleteUser(db, authId, uid, userId, valid, fault).status == Unauthorized401
               <==> !(uid == authId && userId == authId))
  {
  }

  /** A failure anywhere inside the cascade answers 500 and rolls every statement back. */
  lemma DeleteUserRollBack(db: Db, authId: int, fault: Fault)
    requires authId != 0
    requires fault.HitsWithin(0, |OwnedProjectIds(db.projects, authId)| + 5)
    ensures DeleteUser(db, authId, authId, authId, true, fault) == Step(ServerError500, db)
  {
  }

  /** After a successful deletion nothing the user was part of remains: no edge from or
      to the user, no technology row of a project the user owned, no project of theirs,
      and no user row with their id. */
  lemma DeleteUserCascade(db: Db, authId: int, fault: Fault)
    requires DeleteUser(db, authId, authId, authId, true, fault).status == Ok200
    ensures var after := DeleteUser(db, authId, authId, authId, true, fault).db;
            && (forall e :: e in after.userFavs ==> e.userId != authId && e.favUserId != authId)
            && (forall t, p :: t in after.projectTechs && p in db.projects && p.owner == authId ==> t.projectId != p.id)
            && (forall p :: p in after.projects ==> p.owner != authId)
            && !HasUser(after, authId)
  {
  }

  /** What a successful deletion leaves: exactly the projects, edges and users not
      involving the user, the project favourites unchanged, and the technologies of every
      project the user did not own. */
  lemma DeleteUserFrame(db: Db, authId: int, fault: Fault, q: int)
    requires DeleteUser(db, authId, authId, authId, true, fault).status == Ok200
    requires forall p :: p in db.projects && p.id == q ==> p.owner != authId
    ensures var after := DeleteUser(db, authId, authId, authId, true, fault).db;
            && after.projectFavs == db.projectFavs
            && (forall p :: p in after.projects <==> p in db.projects && p.owner != authId)
            && (forall e :: e in after.userFavs <==> e in db.userFavs && e.userId != authId && e.favUserId != authId)
            && (forall u :: u in after.users <==> u in db.users && u.id != authId)
            && TechsOf(after.projectTechs, q) == TechsOf(db.projectTechs, q)
  {
    var owned := OwnedProjectIds(db.projects, authId);
    TechsOfDropEach(db.projectTechs, owned, q);
  }

  /** The cascade leaves other users' marks on the deleted user's projects in place:
      such a mark survives though its project is gone. */
  lemma DeleteUserKeepsProjectMarks(db: Db, authId: int, fault: Fault, m: ProjectFav)
    requires DeleteUser(db, authId, authId, authId, true, fault).status == Ok200
    requires m in db.projectFavs
    requires forall p :: p in db.projects && p.id == m.projectId ==> p.owner == authId
    ensures var after := DeleteUser(db, authId, authId, authId, true, fault).db;
            m in after.projectFavs && !HasProject(after, m.projectId)
  {
  }

  /** The cascade keeps primary keys valid, emails unique, every edge between existing
      distinct users, and every technology row anchored. */
  lemma DeleteUserPreservesInvariants(db: Db, authId: int, uid: int, userId: int, valid: bool, fault: Fault)
    requires KeysValid(db) && EmailsUnique(db) && UserFavsSound(db) && TechsAnchored(db)
    ensures var after := DeleteUser(db, authId, uid, userId, valid, fault).db;
            KeysValid(after) && EmailsUnique(after) && UserFavsSound(after) && TechsAnchored(after)
  {
    var r := DeleteUser(db, authId, uid, userId, valid, fault);
    if r.status == Ok200 {
      var after := r.db;
      UniqueByFilter(db.users, (u: User) => u.id != userId, UserKey);
      UniqueByFilter(db.users, (u: User) => u.id != userId, EmailKey);
      UniqueByFilter(db.projects, (p: Project) => p.owner != userId, ProjectKey);
      forall e | e in after.userFavs
        ensures e.userId != e.favUserId && HasUser(after, e.userId) && HasUser(after, e.favUserId)
      {
        var a :| a in db.users && a.id == e.userId;
        var b :| b in db.users && b.id == e.favUserId;
        assert a in after.users && b in after.users;
      }
      forall t | t in after.projectTechs
        ensures HasProject(after, t.projectId)
      {
        var p :| p in db.projects && p.id == t.projectId;
        assert t.projectId !in OwnedProjectIds(db.projects, userId);
        assert p in after.projects;
      }
    }
  }

  // ---------------------------------------------------------------------------
  // editUser

  /** The body of an edit; either password may be absent. */
  datatype UserEdit = UserEdit(userId: int, name: string, email: string, currentPassword: Option<string>, newPassword: Option<string>)

  /** `SELECT id FROM users WHERE email = ? AND id != ?` returns a row. */
  predicate EmailTakenByOther(users: seq<User>, email: string, uid: int) {
    exists u :: u in users && u.email == email && u.id != uid
  }

  /** `UPDATE users SET name = ?, email = ? [, password = ?] WHERE id = ?`. */
  function UpdateUser(users: seq<User>, uid: int, name: string, email: string, password: Option<string>): (r: seq<User>)
    ensures |r| == |users|
    ensures forall i :: 0 <= i < |r| ==> r[i].id == users[i].id
    ensures forall i :: 0 <= i < |r| && users[i].id != uid ==> r[i] == users[i]
    ensures forall i :: 0 <= i < |r| && users[i].id == uid ==>
              && r[i].name == name && r[i].email == email
              && r[i].password == (if password.Some? then password.value else users[i].password)
  {
    seq(|users|, i requires 0 <= i < |users| =>
      if users[i].id == uid
      then User(uid, name, email, if password.Some? then password.value else users[i].password)
      else users[i])
  }

  /** editUser. Statement 0 is the email check. Without both passwords, statement 1 is
      the update; with both, statement 1 reads the stored hash and statement 2 updates,
      storing `hash(newPassword)`. No transaction: each statement stands alone. */
  function EditUser(db: Db, authId: int, uid: int, body: UserEdit, valid: bool, fault: Fault,
                    matches: (string, string) -> bool, hash: string -> string): (r: Step)
    ensures r.status != Ok200 ==> r.db == db
    ensures r.status == Ok200 ==> uid == authId && body.userId == authId && !EmailTakenByOther(db.users, body.email, authId)
    ensures r.db.projects == db.projects && r.db.projectTechs == db.projectTechs
    ensures r.db.userFavs == db.userFavs && r.db.projectFavs == db.projectFavs
  {
    if RejectsId(uid) then Step(BadRequest400, db)
    else if !valid then Step(Unprocessable422, db)
    else if uid != authId || Impersonates(body.userId, authId) then Step(Unauthorized401, db)
    else if fault.Hits(0) then Step(ServerError500, db)
    else if EmailTakenByOther(db.users, body.email, body.userId) then Step(Unprocessable422, db)
    else if body.currentPassword.None? || body.newPassword.None? then
      if fault.Hits(1) then Step(ServerError500, db)
      else Step(Ok200, db.(users := UpdateUser(db.users, body.userId, body.name, body.email, None)))
    else if fault.Hits(1) then Step(ServerError500, db)
    else
      match FindUser(db.users, body.userId)
      case None => Step(NotFound404, db)
      case Some(u) =>
        if !matches(body.currentPassword.value, u.password) then Step(Unauthorized401, db)
        else if fault.Hits(2) then Step(ServerError500, db)
        else Step(Ok200, db.(users := UpdateUser(db.users, body.userId, body.name, body.email,
                                                 Some(hash(body.newPassword.value)))))
  }

  /** An email held by another user stops the edit with 422 before any write. */
  lemma EditUserEmailTaken(db: Db, authId: int, body: UserEdit, fault: Fault,
                           matches: (string, string) -> bool, hash: string -> string, other: User)
    requires authId != 0 && body.userId == authId && !fault.Hits(0)
    requires other in db.users && other.email == body.email && other.id != authId
    ensures EditUser(db, authId, authId, body, true, fault, matches, hash) == Step(Unprocessable422, db)
  {
  }

  /** Without both passwords the edit sets only the name and the email of the user's row,
      and reports success even when there is no such row. */
  lemma EditUserWithoutPasswords(db: Db, authId: int, body: UserEdit, fault: Fault,
                                 matches: (string, string) -> bool, hash: string -> string)
    requires authId != 0 && body.userId == authId && !fault.Hits(0) && !fault.Hits(1)
    requires !EmailTakenByOther(db.users, body.email, authId)
    requires body.currentPassword.None? || body.newPassword.None?
    ensures var r := EditUser(db, authId, authId, body, true, fault, matches, hash);
            && r.status == Ok200
            && |r.db.users| == |db.users|
            && (forall i :: 0 <= i < |db.users| ==>
                  && r.db.users[i].id == db.users[i].id
                  && r.db.users[i].password == db.users[i].password
                  && (db.users[i].id != authId ==> r.db.users[i] == db.users[i])
                  && (db.users[i].id == authId ==> r.db.users[i].name == body.name && r.db.users[i].email == body.email))
            && (!HasUser(db, authId) ==> r.db == db)
  {
    var r := EditUser(db, authId, authId, body, true, fault, matches, hash);
    if !HasUser(db, authId) {
      assert r.db.users == db.users;
    }
  }

  /** With both passwords: a missing user is 404 and a wrong current password 401, both
      without a write; a right one stores the hash of the new password. */
  lemma EditUserPasswordBranch(db: Db, authId: int, body: UserEdit, fault: Fault,
                               matches: (string, string) -> bool, hash: string -> string)
    requires authId != 0 && body.userId == authId && !fault.Hits(0) && !fault.Hits(1) && !fault.Hits(2)
    requires !EmailTakenByOther(db.users, body.email, authId)
    requires body.currentPassword.Some? && body.newPassword.Some?
    ensures var r := EditUser(db, authId, authId, body, true, fault, matches, hash);
            && (!HasUser(db, authId) ==> r == Step(NotFound404, db))
            && (forall u :: u in db.users && u.id == authId && FindUser(db.users, authId) == Some(u) ==>
                  && (!matches(body.currentPassword.value, u.password) ==> r == Step(Unauthorized401, db))
                  && (matches(body.currentPassword.value, u.password) ==>
                        && r.status == Ok200
                        && forall v :: v in r.db.users && v.id == authId ==> v.password == hash(body.newPassword.value)))
  {
    var r := EditUser(db, authId, authId, body, true, fault, matches, hash);
    if FindUser(db.users, authId).Some? && r.status == Ok200 {
      forall v | v in r.db.users && v.id == authId
        ensures v.password == hash(body.newPassword.value)
      {
        var i :| 0 <= i < |r.db.users| && r.db.users[i] == v;
      }
    }
  }

  /** A successful edit's users table, relative to the old one. */
  lemma EditUserShape(db: Db, authId: int, uid: int, body: UserEdit, valid: bool, fault: Fault,
                      matches: (string, string) -> bool, hash: string -> string)
    requires EditUser(db, authId, uid, body, valid, fault, matches, hash).status == Ok200
    ensures var us := EditUser(db, authId, uid, body, valid, fault, matches, hash).db.users;
            && |us| == |db.users|
            && (forall i :: 0 <= i < |us| ==> us[i].id == db.users[i].id)
            && (forall i :: 0 <= i < |us| && us[i].id != authId ==> us[i] == db.users[i])
            && (forall i :: 0 <= i < |us| && us[i].id == authId ==> us[i].email == body.email)
  {
  }

  /** editUser keeps primary keys valid and emails unique, and every edge's users exist. */
  lemma EditUserPreservesInvariants(db: Db, authId: int, uid: int, body: UserEdit, valid: bool, fault: Fault,
                                    matches: (string, string) -> bool, hash: string -> string)
    requires KeysValid(db) && EmailsUnique(db) && UserFavsSound(db)
    ensures var after := EditUser(db, authId, uid, body, valid, fault, matches, hash).db;
            KeysValid(after) && EmailsUnique(after) && UserFavsSound(after)
  {
    var r := EditUser(db, authId, uid, body, valid, fault, matches, hash);
    if r.status == Ok200 {
      EditUserShape(db, authId, uid, body, valid, fault, matches, hash);
      SameIdsKeysValid(db, r.db);
      EditedEmailsUnique(db.users, r.db.users, authId, body.email);
      SameIdsEdgesSound(db, r.db);
    }
  }

  /** Rewriting users in place without touching ids keeps the keys valid. */
  lemma SameIdsKeysValid(db: Db, db': Db)
    requires KeysValid(db)
    requires |db'.users| == |db.users| && forall i :: 0 <= i < |db.users| ==> db'.users[i].id == db.users[i].id
    requires db'.projects == db.projects && db'.nextUserId == db.nextUserId && db'.nextProjectId == db.nextProjectId
    ensures KeysValid(db')
  {
    var us := db'.users;
    forall i, j | 0 <= i < j < |us|
      ensures UserKey(us[i]) != UserKey(us[j])
    {
      assert UserKey(db.users[i]) != UserKey(db.users[j]);
    }
    forall u | u in us
      ensures 0 < u.id < db.nextUserId
    {
      var i :| 0 <= i < |us| && us[i] == u;
      assert db.users[i] in db.users;
    }
  }

  /** Rewriting users in place without touching ids keeps every edge's users present. */
  lemma SameIdsEdgesSound(db: Db, db': Db)
    requires UserFavsSound(db)
    requires |db'.users| == |db.users| && forall i :: 0 <= i < |db.users| ==> db'.users[i].id == db.users[i].id
    requires db'.userFavs == db.userFavs
    ensures UserFavsSound(db')
  {
    forall e | e in db'.userFavs
      ensures HasUser(db', e.userId) && HasUser(db', e.favUserId)
    {
      var a :| a in db.users && a.id == e.userId;
      var b :| b in db.users && b.id == e.favUserId;
      var i :| 0 <= i < |db.users| && db.users[i] == a;
      var j :| 0 <= j < |db.users| && db.users[j] == b;
      assert db'.users[i] in db'.users && db'.users[j] in db'.users;
    }
  }

  /** Giving user `uid` an email no other user holds keeps emails unique, when ids are. */
  lemma EditedEmailsUnique(users: seq<User>, us: seq<User>, uid: int, email: string)
    requires UniqueBy(users, UserKey) && UniqueBy(users, EmailKey)
    requires !EmailTakenByOther(users, email, uid)
    requires |us| == |users|
    requires forall i :: 0 <= i < |us| ==> us[i].id == users[i].id
    requires forall i :: 0 <= i < |us| && us[i].id != uid ==> us[i] == users[i]
    requires forall i :: 0 <= i < |us| && us[i].id == uid ==> us[i].email == email
    ensures UniqueBy(us, EmailKey)
  {
    forall i, j | 0 <= i < j < |us|
      ensures EmailKey(us[i]) != EmailKey(us[j])
    {
      assert UserKey(users[i]) != UserKey(users[j]);
      assert users[i] in users && users[j] in users;
      assert EmailKey(users[i]) != EmailKey(users[j]);
    }
  }
}
