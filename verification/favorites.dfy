/** The favourites controller: directed user-to-user edges and user-to-project marks.
    None of these handlers opens a transaction; each issues its statements one by one
    and stops at the first check that fails. */
module Favorites {
  import opened Wrappers
  import opened Seqs
  import opened Store
  import opened Guards
  import opened Aggregate

  // ---------------------------------------------------------------------------
  // User favourites

  /** The WHERE clause of the membership query for the ordered pair (a, b):
      `user_id = a AND favUser_id = b AND NOT (user_id = b AND favUser_id = a)`. */
  predicate EdgeQueryRow(e: UserFav, a: int, b: int) {
    e.userId == a && e.favUserId == b && !(e.userId == b && e.favUserId == a)
  }

  /** checkIfUserIsFav: is `uid` among the favourites of the body's `userId`?
      Statement 0 is the membership query. */
  function CheckIfUserIsFav(db: Db, authId: int, uid: int, userId: int, valid: bool, fault: Fault): (r: Reply<bool>)
    ensures r.Sent? ==> uid != 0 && valid && userId == authId && userId != uid
    ensures r.Sent? ==> (r.value <==> UserFav(userId, uid) in db.userFavs)
    ensures r.Sent? <==> uid != 0 && valid && userId == authId && userId != uid && !fault.Hits(0)
  {
    if RejectsId(uid) then Refused(BadRequest400)
    else if !valid then Refused(Unprocessable422)
    else if Impersonates(userId, authId) then Refused(Unauthorized401)
    else if uid == userId then Refused(Unauthorized401)
    else if fault.Hits(0) then Refused(ServerError500)
    else Sent(exists e :: e in db.userFavs && EdgeQueryRow(e, userId, uid))
  }

  /** addUserFav: statements 0 and 1 look up the two users, 2 looks for the edge,
      3 inserts it. */
  function AddUserFav(db: Db, authId: int, uid: int, userId: int, valid: bool, fault: Fault): (r: Step)
    ensures r.db == db || r.db == db.(userFavs := db.userFavs + [UserFav(userId, uid)])
    ensures r.status == Created201 <==> r.db != db
    ensures r.status == Created201 ==>
              && userId == authId && userId != uid
              && HasUser(db, userId) && HasUser(db, uid)
              && UserFav(userId, uid) !in db.userFavs
    ensures r.status == Created201 <==>
              && uid != 0 && valid && userId == authId && userId != uid
              && HasUser(db, userId) && HasUser(db, uid)
              && UserFav(userId, uid) !in db.userFavs
              && !fault.HitsWithin(0, 4)
  {
    if RejectsId(uid) then Step(BadRequest400, db)
    else if !valid then Step(Unprocessable422, db)
    else if Impersonates(userId, authId) then Step(Unauthorized401, db)
    else if userId == uid then Step(Unprocessable422, db)
    else if fault.Hits(0) || fault.Hits(1) then Step(ServerError500, db)
    else if !HasUser(db, userId) || !HasUser(db, uid) then Step(NotFound404, db)
    else if fault.Hits(2) then Step(ServerError500, db)
    else if UserFav(userId, uid) in db.userFavs then Step(Unprocessable422, db)
    else if fault.Hits(3) then Step(ServerError500, db)
    else Step(Created201, db.(userFavs := db.userFavs + [UserFav(userId, uid)]))
  }

  /** `DELETE FROM users_favorites WHERE user_id = ? AND favUser_id = ?`. */
  function DropUserFav(edges: seq<UserFav>, e: UserFav): seq<UserFav> {
    Filter(edges, (x: UserFav) => x != e)
  }

  /** removeUserFav: statements 0 and 1 look up the two users, 2 looks for the edge,
      3 deletes it. */
  function RemoveUserFav(db: Db, authId: int, uid: int, userId: int, valid: bool, fault: Fault): (r: Step)
    ensures r.db == db || r.db == db.(userFavs := DropUserFav(db.userFavs, UserFav(userId, uid)))
    ensures r.status == Ok200 ==>
              && userId == authId && userId != uid
              && HasUser(db, userId) && HasUser(db, uid)
              && UserFav(userId, uid) in db.userFavs
              && UserFav(userId, uid) !in r.db.userFavs
    ensures r.status != Ok200 ==> r.db == db
    ensures r.status == Ok200 <==>
              && uid != 0 && valid && userId == authId && userId != uid
              && HasUser(db, userId) && HasUser(db, uid)
              && UserFav(userId, uid) in db.userFavs
              && !fault.HitsWithin(0, 4)
  {
    if RejectsId(uid) then Step(BadRequest400, db)
    else if !valid then Step(Unprocessable422, db)
    else if Impersonates(userId, authId) then Step(Unauthorized401, db)
    else if userId == uid then Step(Unprocessable422, db)
    else if fault.Hits(0) || fault.Hits(1) then Step(ServerError500, db)
    else if !HasUser(db, userId) || !HasUser(db, uid) then Step(NotFound404, db)
    else if fault.Hits(2) then Step(ServerError500, db)
    else if UserFav(userId, uid) !in db.userFavs then Step(NotFound404, db)
    else if fault.Hits(3) then Step(ServerError500, db)
    else Step(Ok200, db.(userFavs := DropUserFav(db.userFavs, UserFav(userId, uid))))
  }

  /** The id/name pair the favourite-users listing returns. */
  datatype FavUser = FavUser(id: int, name: string)

  /** The users rows with id `id`, as listing entries. */
  function UsersNamed(users: seq<User>, id: int): (r: seq<FavUser>)
    ensures forall f :: f in r <==> f.id == id && exists u :: u in users && u.id == id && u.name == f.name
    decreases |users|
  {
    if |users| == 0 then []
    else (if users[0].id == id then [FavUser(id, users[0].name)] else []) + UsersNamed(users[1..], id)
  }

  /** `users u JOIN users_favorites uf ON u.id = uf.favUser_id WHERE uf.user_id = ?`,
      in edge order. */
  function FavUserRows(edges: seq<UserFav>, users: seq<User>, uid: int): (r: seq<FavUser>)
    ensures forall f :: f in r <==>
              UserFav(uid, f.id) in edges && exists u :: u in users && u.id == f.id && u.name == f.name
    decreases |edges|
  {
    if |edges| == 0 then []
    else
      (if edges[0].userId == uid then UsersNamed(users, edges[0].favUserId) else [])
      + FavUserRows(edges[1..], users, uid)
  }

  /** getUsersFavorites: the users `uid` has marked. The route sits behind the token check,
      but the handler never compares `uid` with the token's user. */
  function GetUsersFavorites(db: Db, uid: int, fault: Fault): (r: Reply<seq<FavUser>>)
    ensures uid == 0 ==> r == Refused(BadRequest400)
    ensures r.Sent? <==> uid != 0 && !fault.Hits(0)
    ensures r.Sent? ==> forall f :: f in r.value <==>
              UserFav(uid, f.id) in db.userFavs && exists u :: u in db.users && u.id == f.id && u.name == f.name
  {
    if RejectsId(uid) then Refused(BadRequest400)
    else if fault.Hits(0) then Refused(ServerError500)
    else Sent(FavUserRows(db.userFavs, db.users, uid))
  }

  // ---------------------------------------------------------------------------
  // Project favourites

  /** `projects INNER JOIN projects_favorites ... WHERE projects_favorites.user_id = ?`,
      one id per favourite row whose project exists. */
  function FavProjectIds(db: Db, userId: int): (ids: seq<int>)
    ensures forall pid :: pid in ids <==> ProjectFav(userId, pid) in db.projectFavs && HasProject(db, pid)
  {
    var marks := Filter(db.projectFavs, (f: ProjectFav) => f.userId == userId && HasProject(db, f.projectId));
    var ids := seq(|marks|, i requires 0 <= i < |marks| => marks[i].projectId);
    assert forall pid :: pid in ids ==> ProjectFav(userId, pid) in db.projectFavs && HasProject(db, pid) by {
      forall pid | pid in ids
        ensures ProjectFav(userId, pid) in db.projectFavs && HasProject(db, pid)
      {
        var k :| 0 <= k < |ids| && ids[k] == pid;
        assert marks[k] in marks;
        assert marks[k] == ProjectFav(userId, pid);
      }
    }
    assert forall pid :: ProjectFav(userId, pid) in db.projectFavs && HasProject(db, pid) ==> pid in ids by {
      forall pid | ProjectFav(userId, pid) in db.projectFavs && HasProject(db, pid)
        ensures pid in ids
      {
        var k :| 0 <= k < |marks| && marks[k] == ProjectFav(userId, pid);
        assert ids[k] == pid;
      }
    }
    ids
  }

  /** checkProjectsFav: the ids of the projects the body's `userId` has marked. The URL's
      `uid` is only checked to be non-zero; the query uses the body's `userId`. */
  function CheckProjectsFav(db: Db, authId: int, uid: int, userId: int, valid: bool, fault: Fault): (r: Reply<seq<int>>)
    ensures r.Sent? <==> uid != 0 && valid && userId == authId && !fault.Hits(0)
    ensures r.Sent? ==> forall pid :: pid in r.value <==> ProjectFav(userId, pid) in db.projectFavs && HasProject(db, pid)
  {
    if RejectsId(uid) then Refused(BadRequest400)
    else if !valid then Refused(Unprocessable422)
    else if Impersonates(userId, authId) then Refused(Unauthorized401)
    else if fault.Hits(0) then Refused(ServerError500)
    else
      Sent(FavProjectIds(db, userId))
  }

  /** addProjectFav: statement 0 looks the project up, statement 1 inserts the mark. */
  function AddProjectFav(db: Db, authId: int, pid: int, userId: int, valid: bool, fault: Fault): (r: Step)
    ensures r.db == db || r.db == db.(projectFavs := db.projectFavs + [ProjectFav(userId, pid)])
    ensures r.status == Created201 <==> r.db != db
    ensures r.status == Created201 ==> userId == authId && HasProject(db, pid)
  {
    if RejectsId(pid) then Step(BadRequest400, db)
    else if !valid then Step(Unprocessable422, db)
    else if Impersonates(userId, authId) then Step(Unauthorized401, db)
    else if fault.Hits(0) then Step(ServerError500, db)
    else if !HasProject(db, pid) then Step(NotFound404, db)
    else if fault.Hits(1) then Step(ServerError500, db)
    else Step(Created201, db.(projectFavs := db.projectFavs + [ProjectFav(userId, pid)]))
  }

  /** `DELETE FROM projects_favorites WHERE user_id = ? AND project_id = ?`. */
  function DropProjectFav(marks: seq<ProjectFav>, m: ProjectFav): seq<ProjectFav> {
    Filter(marks, (x: ProjectFav) => x != m)
  }

  /** removeProjectFav: statement 0 looks the project up, 1 looks for the mark,
      2 deletes it. */
  function RemoveProjectFav(db: Db, authId: int, pid: int, userId: int, valid: bool, fault: Fault): (r: Step)
    ensures r.db == db || r.db == db.(projectFavs := DropProjectFav(db.projectFavs, ProjectFav(userId, pid)))
    ensures r.status == Ok200 ==>
              && userId == authId && HasProject(db, pid)
              && ProjectFav(userId, pid) in db.projectFavs
              && ProjectFav(userId, pid) !in r.db.projectFavs
    ensures r.status != Ok200 ==> r.db == db
  {
    if RejectsId(pid) then Step(BadRequest400, db)
    else if !valid then Step(Unprocessable422, db)
    else if Impersonates(userId, authId) then Step(Unauthorized401, db)
    else if fault.Hits(0) then Step(ServerError500, db)
    else if !HasProject(db, pid) then Step(NotFound404, db)
    else if fault.Hits(1) then Step(ServerError500, db)
    else if ProjectFav(userId, pid) !in db.projectFavs then Step(NotFound404, db)
    else if fault.Hits(2) then Step(ServerError500, db)
    else Step(Ok200, db.(projectFavs := DropProjectFav(db.projectFavs, ProjectFav(userId, pid))))
  }

  /** getProjectsFavorites: the marked projects with their technologies, folded from
      the joined rows the query returns (statement 0). */
  function GetProjectsFavorites(uid: int, rows: seq<JoinRow>, fault: Fault): (r: Reply<seq<FavProject>>)
    ensures uid == 0 ==> r == Refused(BadRequest400)
    ensures r.Sent? <==> uid != 0 && !fault.Hits(0)
    ensures r.Sent? ==> forall k :: 0 <= k < |rows| ==> exists i :: 0 <= i < |r.value| && r.value[i].id == rows[k].projectId
    ensures r.Sent? ==> forall i, j :: 0 <= i < j < |r.value| ==> r.value[i].id != r.value[j].id
  {
    if RejectsId(uid) then Refused(BadRequest400)
    else if fault.Hits(0) then Refused(ServerError500)
    else
      FavoriteProjectsSpec(rows);
      Sent(FavoriteProjects(rows))
  }

  // ---------------------------------------------------------------------------
  // The rows the favourites query returns

  /** The `technologies` catalogue, which no handler writes: a technology's name, or None
      when no row has that id. */
  type Catalog = int -> Option<string>

  /** The rows one project row contributes through the two outer joins: one per
      association, in row order, with NULL technology columns when the catalogue lacks
      the id; a single row with NULL technology columns when it has no association. The
      creator's name and email are not selected. */
  function TechJoin(p: Project, assoc: seq<ProjectTech>, catalog: Catalog): (rs: seq<JoinRow>)
    ensures |rs| == if |TechsOf(assoc, p.id)| == 0 then 1 else |TechsOf(assoc, p.id)|
    ensures forall row :: row in rs ==>
              row.projectId == p.id && row.projectName == p.name && row.description == p.description && row.creatorId == p.owner
  {
    var techs := TechsOf(assoc, p.id);
    if |techs| == 0 then [JoinRow(p.id, p.name, p.description, p.owner, "", "", None, None)]
    else
      seq(|techs|, i requires 0 <= i < |techs| =>
        var name := catalog(techs[i]);
        JoinRow(p.id, p.name, p.description, p.owner, "", "", if name.Some? then Some(techs[i]) else None, name))
  }

  /** `JOIN projects ON projects_favorites.project_id = projects.id` for one mark: the
      rows of every project row with that id, none when the project is gone. */
  function ProjectJoin(projects: seq<Project>, pid: int, assoc: seq<ProjectTech>, catalog: Catalog): (rs: seq<JoinRow>)
    ensures forall row :: row in rs ==> row.projectId == pid
    ensures |rs| > 0 <==> CreatorOf(projects, pid).Some?
    decreases |projects|
  {
    if |projects| == 0 then []
    else (if projects[0].id == pid then TechJoin(projects[0], assoc, catalog) else [])
         + ProjectJoin(projects[1..], pid, assoc, catalog)
  }

  /** The query for user `uid` over the marks `marks`, mark by mark. */
  function FavJoin(marks: seq<ProjectFav>, db: Db, uid: int, catalog: Catalog): (rs: seq<JoinRow>)
    ensures forall row :: row in rs ==> ProjectFav(uid, row.projectId) in marks && HasProject(db, row.projectId)
    ensures forall m :: m in marks && m.userId == uid && HasProject(db, m.projectId) ==>
              exists row :: row in rs && row.projectId == m.projectId
    decreases |marks|
  {
    if |marks| == 0 then []
    else
      var head := if marks[0].userId == uid then ProjectJoin(db.projects, marks[0].projectId, db.projectTechs, catalog) else [];
      assert marks[0].userId == uid && HasProject(db, marks[0].projectId) ==> head[0] in head;
      assert forall m :: m in marks ==> m == marks[0] || m in marks[1..];
      head + FavJoin(marks[1..], db, uid, catalog)
  }

  /** `rows` is what the query returns for `uid`: the joined rows, in whatever order the
      server returns them. */
  ghost predicate FavoritesQuery(rows: seq<JoinRow>, db: Db, uid: int, catalog: Catalog) {
    multiset(rows) == multiset(FavJoin(db.projectFavs, db, uid, catalog))
  }

  /** Fed the rows its query returns, getProjectsFavorites lists exactly the projects the
      user has marked that still exist, each once, whatever the row order. */
  lemma FavoritesFromStore(db: Db, uid: int, rows: seq<JoinRow>, catalog: Catalog, fault: Fault)
    requires FavoritesQuery(rows, db, uid, catalog)
    requires uid != 0 && !fault.Hits(0)
    ensures var r := GetProjectsFavorites(uid, rows, fault);
            && r.Sent?
            && (forall i, j :: 0 <= i < j < |r.value| ==> r.value[i].id != r.value[j].id)
            && (forall pid :: (exists i :: 0 <= i < |r.value| && r.value[i].id == pid)
                              <==> ProjectFav(uid, pid) in db.projectFavs && HasProject(db, pid))
  {
    var favs := GetProjectsFavorites(uid, rows, fault).value;
    assert favs == FavoriteProjects(rows);
    var joined := FavJoin(db.projectFavs, db, uid, catalog);
    forall pid
      ensures (exists i :: 0 <= i < |favs| && favs[i].id == pid)
              <==> ProjectFav(uid, pid) in db.projectFavs && HasProject(db, pid)
    {
      if exists i :: 0 <= i < |favs| && favs[i].id == pid {
        ListedRowIsJoined(rows, joined, pid);
      }
      if ProjectFav(uid, pid) in db.projectFavs && HasProject(db, pid) {
        var row :| row in joined && row.projectId == pid;
        assert row in multiset(joined);
        assert row in rows;
        var k :| 0 <= k < |rows| && rows[k] == row;
      }
    }
  }

  /** A listed project has a row, which the join produced. */
  lemma ListedRowIsJoined(rows: seq<JoinRow>, joined: seq<JoinRow>, pid: int)
    requires multiset(rows) == multiset(joined)
    requires exists i :: 0 <= i < |FavoriteProjects(rows)| && FavoriteProjects(rows)[i].id == pid
    ensures exists row :: row in joined && row.projectId == pid
  {
    var favs := FavoriteProjects(rows);
    var i :| 0 <= i < |favs| && favs[i].id == pid;
    var row := rows[FirstIndex(rows, pid)];
    assert row in multiset(rows);
    assert row in joined;
  }

  // ---------------------------------------------------------------------------
  // Properties

  /** The checks before any storage access, in order: id 0, then validation, then the
      token's user, then self-reference (422 when adding or removing, 401 when checking).
      None of these outcomes depends on the database or on statement failures. */
  lemma UserFavGuardOrder(db: Db, authId: int, uid: int, userId: int, valid: bool, fault: Fault)
    ensures uid == 0 ==>
              && AddUserFav(db, authId, uid, userId, valid, fault) == Step(BadRequest400, db)
              && RemoveUserFav(db, authId, uid, userId, valid, fault) == Step(BadRequest400, db)
              && CheckIfUserIsFav(db, authId, uid, userId, valid, fault) == Refused(BadRequest400)
    ensures uid != 0 && !valid ==>
              && AddUserFav(db, authId, uid, userId, valid, fault) == Step(Unprocessable422, db)
              && RemoveUserFav(db, authId, uid, userId, valid, fault) == Step(Unprocessable422, db)
              && CheckIfUserIsFav(db, authId, uid, userId, valid, fault) == Refused(Unprocessable422)
    ensures uid != 0 && valid && userId != authId ==>
              && AddUserFav(db, authId, uid, userId, valid, fault) == Step(Unauthorized401, db)
              && RemoveUserFav(db, authId, uid, userId, valid, fault) == Step(Unauthorized401, db)
              && CheckIfUserIsFav(db, authId, uid, userId, valid, fault) == Refused(Unauthorized401)
    ensures uid != 0 && valid && userId == authId && userId == uid ==>
              && AddUserFav(db, authId, uid, userId, valid, fault) == Step(Unprocessable422, db)
              && RemoveUserFav(db, authId, uid, userId, valid, fault) == Step(Unprocessable422, db)
              && CheckIfUserIsFav(db, authId, uid, userId, valid, fault) == Refused(Unauthorized401)
  {
  }

  /** The existence checks: a missing user on either side is 404 and nothing is written. */
  lemma UserFavMissingUser(db: Db, authId: int, uid: int, valid: bool, fault: Fault)
    requires uid != 0 && valid && authId != uid
    requires !fault.Hits(0) && !fault.Hits(1)
    requires !HasUser(db, authId) || !HasUser(db, uid)
    ensures AddUserFav(db, authId, uid, authId, valid, fault) == Step(NotFound404, db)
    ensures RemoveUserFav(db, authId, uid, authId, valid, fault) == Step(NotFound404, db)
  {
  }

  /** Adding the same favourite twice: the second call answers 422 and the edge is stored
      once more than before the first call, so exactly once if it was absent. */
  lemma AddUserFavTwice(db: Db, authId: int, uid: int, valid: bool, fault1: Fault, fault2: Fault)
    requires AddUserFav(db, authId, uid, authId, valid, fault1).status == Created201
    requires !fault2.Hits(0) && !fault2.Hits(1) && !fault2.Hits(2)
    ensures var db1 := AddUserFav(db, authId, uid, authId, valid, fault1).db;
            var r2 := AddUserFav(db1, authId, uid, authId, valid, fault2);
            && r2 == Step(Unprocessable422, db1)
            && multiset(r2.db.userFavs)[UserFav(authId, uid)] == 1
  {
    var e := UserFav(authId, uid);
    var db1 := AddUserFav(db, authId, uid, authId, valid, fault1).db;
    assert db1.userFavs == db.userFavs + [e];
    assert multiset(db1.userFavs) == multiset(db.userFavs) + multiset{e};
    assert multiset(db.userFavs)[e] == 0;
    assert HasUser(db1, authId) && HasUser(db1, uid);
  }

  /** A successful removal deletes every copy of the edge (userId, uid) and leaves every
      other edge, the reverse edge (uid, userId) included, as often as it was. */
  lemma RemoveUserFavRemovesOnlyThatEdge(db: Db, authId: int, uid: int, valid: bool, fault: Fault, other: UserFav)
    requires RemoveUserFav(db, authId, uid, authId, valid, fault).status == Ok200
    requires other != UserFav(authId, uid)
    ensures var after := RemoveUserFav(db, authId, uid, authId, valid, fault).db.userFavs;
            && multiset(after)[UserFav(authId, uid)] == 0
            && multiset(after)[other] == multiset(db.userFavs)[other]
            && multiset(after)[UserFav(uid, authId)] == multiset(db.userFavs)[UserFav(uid, authId)]
  {
    var e := UserFav(authId, uid);
    var keep := (x: UserFav) => x != e;
    FilterCount(db.userFavs, keep, e);
    FilterCount(db.userFavs, keep, other);
    FilterCount(db.userFavs, keep, UserFav(uid, authId));
  }

  /** removeUserFav answers 404 when the edge is absent, even if the reverse edge exists. */
  lemma RemoveUserFavAbsentEdge(db: Db, authId: int, uid: int, valid: bool, fault: Fault)
    requires uid != 0 && valid && authId != uid
    requires !fault.Hits(0) && !fault.Hits(1) && !fault.Hits(2)
    requires HasUser(db, authId) && HasUser(db, uid)
    requires UserFav(authId, uid) !in db.userFavs
    ensures RemoveUserFav(db, authId, uid, authId, valid, fault) == Step(NotFound404, db)
  {
  }

  /** The membership answer for (userId, uid) depends only on whether that directed edge
      is stored: two stores that agree on it give the same answer, whatever they hold
      for the reverse pair. */
  lemma CheckIfUserIsFavDirected(db1: Db, db2: Db, authId: int, uid: int, valid: bool, fault: Fault)
    requires UserFav(authId, uid) in db1.userFavs <==> UserFav(authId, uid) in db2.userFavs
    ensures CheckIfUserIsFav(db1, authId, uid, authId, valid, fault) == CheckIfUserIsFav(db2, authId, uid, authId, valid, fault)
  {
  }

  /** The user-favourite handlers keep the edge invariants: no self edge, both ends exist,
      and no edge is stored twice. */
  lemma UserFavHandlersPreserveEdges(db: Db, authId: int, uid: int, userId: int, valid: bool, fault: Fault)
    requires UserFavsSound(db) && UserFavsDistinct(db)
    ensures UserFavsSound(AddUserFav(db, authId, uid, userId, valid, fault).db)
    ensures UserFavsDistinct(AddUserFav(db, authId, uid, userId, valid, fault).db)
    ensures UserFavsSound(RemoveUserFav(db, authId, uid, userId, valid, fault).db)
    ensures UserFavsDistinct(RemoveUserFav(db, authId, uid, userId, valid, fault).db)
  {
    var e := UserFav(userId, uid);
    var added := AddUserFav(db, authId, uid, userId, valid, fault);
    if added.status == Created201 {
      assert multiset(added.db.userFavs) == multiset(db.userFavs) + multiset{e};
      assert multiset(db.userFavs)[e] == 0;
      forall x | x in added.db.userFavs
        ensures x.userId != x.favUserId && HasUser(added.db, x.userId) && HasUser(added.db, x.favUserId)
      {
        if x != e {
          assert x in db.userFavs;
        }
      }
    }
    var removed := RemoveUserFav(db, authId, uid, userId, valid, fault);
    if removed.db != db {
      forall x
        ensures multiset(removed.db.userFavs)[x] <= 1
      {
        FilterCount(db.userFavs, (y: UserFav) => y != e, x);
      }
    }
  }
  /** Adding and removing a user favourite touch only the edges: keys, emails and
      technology anchoring are kept. */
  lemma UserFavHandlersKeepOthers(db: Db, authId: int, uid: int, userId: int, valid: bool, fault: Fault)
    requires KeysValid(db) && EmailsUnique(db) && TechsAnchored(db)
    ensures var a := AddUserFav(db, authId, uid, userId, valid, fault).db;
            KeysValid(a) && EmailsUnique(a) && TechsAnchored(a)
    ensures var r := RemoveUserFav(db, authId, uid, userId, valid, fault).db;
            KeysValid(r) && EmailsUnique(r) && TechsAnchored(r)
  {
  }

  /** Adding and removing a project mark keep every invariant of the store. */
  lemma ProjectFavHandlersPreserveInvariants(db: Db, authId: int, pid: int, userId: int, valid: bool, fault: Fault)
    requires KeysValid(db) && EmailsUnique(db) && UserFavsSound(db) && UserFavsDistinct(db) && TechsAnchored(db)
    ensures var a := AddProjectFav(db, authId, pid, userId, valid, fault).db;
            KeysValid(a) && EmailsUnique(a) && UserFavsSound(a) && UserFavsDistinct(a) && TechsAnchored(a)
    ensures var r := RemoveProjectFav(db, authId, pid, userId, valid, fault).db;
            KeysValid(r) && EmailsUnique(r) && UserFavsSound(r) && UserFavsDistinct(r) && TechsAnchored(r)
  {
  }


  /** Project existence is the only check before the insert: when the guards pass and no
      statement fails, the answer is 201 or 404 according to the project alone, whether or
      not the user exists and whether or not the mark is already stored. */
  lemma AddProjectFavChecksOnlyProject(db: Db, authId: int, pid: int, valid: bool, fault: Fault)
    requires pid != 0 && valid && !fault.Hits(0) && !fault.Hits(1)
    ensures AddProjectFav(db, authId, pid, authId, valid, fault).status
            == if HasProject(db, pid) then Created201 else NotFound404
  {
  }

  /** With no duplicate check, two successful adds store the mark twice more. */
  lemma AddProjectFavTwice(db: Db, authId: int, pid: int, valid: bool, fault: Fault)
    requires AddProjectFav(db, authId, pid, authId, valid, fault).status == Created201
    requires !fault.Hits(0) && !fault.Hits(1)
    ensures var db1 := AddProjectFav(db, authId, pid, authId, valid, fault).db;
            var r2 := AddProjectFav(db1, authId, pid, authId, valid, fault);
            && r2.status == Created201
            && multiset(r2.db.projectFavs)[ProjectFav(authId, pid)] == multiset(db.projectFavs)[ProjectFav(authId, pid)] + 2
  {
    var m := ProjectFav(authId, pid);
    var db1 := AddProjectFav(db, authId, pid, authId, valid, fault).db;
    assert db1.projects == db.projects;
    var db2 := AddProjectFav(db1, authId, pid, authId, valid, fault).db;
    assert multiset(db2.projectFavs) == multiset(db.projectFavs) + multiset{m} + multiset{m};
  }

  /** removeProjectFav: 404 when the project or the mark is missing; otherwise it deletes
      every copy of that (user, project) mark and leaves every other mark as it was. */
  lemma RemoveProjectFavSpec(db: Db, authId: int, pid: int, valid: bool, fault: Fault, other: ProjectFav)
    requires pid != 0 && valid && !fault.Hits(0) && !fault.Hits(1) && !fault.Hits(2)
    requires other != ProjectFav(authId, pid)
    ensures var r := RemoveProjectFav(db, authId, pid, authId, valid, fault);
            && (!HasProject(db, pid) || ProjectFav(authId, pid) !in db.projectFavs ==> r == Step(NotFound404, db))
            && (HasProject(db, pid) && ProjectFav(authId, pid) in db.projectFavs ==>
                  && r.status == Ok200
                  && multiset(r.db.projectFavs)[ProjectFav(authId, pid)] == 0
                  && multiset(r.db.projectFavs)[other] == multiset(db.projectFavs)[other]
                  && r.db.userFavs == db.userFavs && r.db.projects == db.projects
                  && r.db.users == db.users && r.db.projectTechs == db.projectTechs)
  {
    var m := ProjectFav(authId, pid);
    FilterCount(db.projectFavs, (x: ProjectFav) => x != m, m);
    FilterCount(db.projectFavs, (x: ProjectFav) => x != m, other);
  }

  /** checkProjectsFav reads the body's user, so its answer is the same whatever non-zero
      id the URL carries. */
  lemma CheckProjectsFavIgnoresUrl(db: Db, authId: int, uid1: int, uid2: int, valid: bool, fault: Fault)
    requires uid1 != 0 && uid2 != 0
    ensures CheckProjectsFav(db, authId, uid1, authId, valid, fault) == CheckProjectsFav(db, authId, uid2, authId, valid, fault)
  {
  }
}
