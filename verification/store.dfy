/** The relational store behind the API: five tables as sequences of rows (SQL bags in
    storage order), the SELECTs and DELETEs the handlers issue, the transaction scope, and
    the invariants the handlers are meant to keep. The `technologies` catalogue is only
    ever read, so it appears here as bare technology ids. */
module Store {
  import opened Wrappers
  import opened Seqs

  /** A `users` row; `password` holds the bcrypt hash. */
  datatype User = User(id: int, name: string, email: string, password: string)
  /** A `projects` row; `owner` is the `fk_user` column. */
  datatype Project = Project(id: int, name: string, description: string, owner: int)
  /** A `projects_technologies` row. */
  datatype ProjectTech = ProjectTech(projectId: int, techId: int)
  /** A `users_favorites` row: `userId` has marked `favUserId` as a favourite. */
  datatype UserFav = UserFav(userId: int, favUserId: int)
  /** A `projects_favorites` row. */
  datatype ProjectFav = ProjectFav(userId: int, projectId: int)

  /** The whole database. `nextUserId` and `nextProjectId` are the AUTO_INCREMENT
      counters that supply `insertId`. */
  datatype Db = Db(
    users: seq<User>,
    projects: seq<Project>,
    projectTechs: seq<ProjectTech>,
    userFavs: seq<UserFav>,
    projectFavs: seq<ProjectFav>,
    nextUserId: int,
    nextProjectId: int)

  /** What a mutating handler leaves behind: its status and the database. */
  datatype Step = Step(status: Status, db: Db)

  // ---------------------------------------------------------------------------
  // Reads

  predicate HasUser(db: Db, id: int) {
    exists u :: u in db.users && u.id == id
  }

  predicate HasProject(db: Db, id: int) {
    exists p :: p in db.projects && p.id == id
  }

  /** `SELECT ... FROM users WHERE <column> = ?`, first row: the first user whose `key`
      column holds `k`. */
  function FindBy<K(==)>(users: seq<User>, key: User -> K, k: K): (r: Option<User>)
    ensures r.Some? ==> r.value in users && key(r.value) == k
    ensures r.None? <==> forall u :: u in users ==> key(u) != k
    decreases |users|
  {
    if |users| == 0 then None
    else if key(users[0]) == k then Some(users[0])
    else FindBy(users[1..], key, k)
  }

  /** `SELECT ... FROM users WHERE id = ?`, first row. */
  function FindUser(users: seq<User>, id: int): Option<User> {
    FindBy(users, UserKey, id)
  }

  /** `SELECT * FROM users WHERE email = ?`, first row. */
  function FindUserByEmail(users: seq<User>, email: string): Option<User> {
    FindBy(users, EmailKey, email)
  }

  /** `SELECT fk_user FROM projects WHERE id = ?`, first row. */
  function CreatorOf(projects: seq<Project>, pid: int): (r: Option<int>)
    ensures r.Some? ==> exists p :: p in projects && p.id == pid && p.owner == r.value
    ensures r.None? <==> forall p :: p in projects ==> p.id != pid
    decreases |projects|
  {
    if |projects| == 0 then None
    else if projects[0].id == pid then Some(projects[0].owner)
    else CreatorOf(projects[1..], pid)
  }

  /** `SELECT id FROM projects WHERE fk_user = ?`, in storage order. */
  function OwnedProjectIds(projects: seq<Project>, uid: int): (ids: seq<int>)
    ensures forall pid :: pid in ids <==> exists p :: p in projects && p.owner == uid && p.id == pid
    decreases |projects|
  {
    if |projects| == 0 then []
    else (if projects[0].owner == uid then [projects[0].id] else [])
         + OwnedProjectIds(projects[1..], uid)
  }

  /** The technology ids associated with project `pid`, in row order. */
  function TechsOf(assoc: seq<ProjectTech>, pid: int): seq<int>
    decreases |assoc|
  {
    if |assoc| == 0 then []
    else (if assoc[0].projectId == pid then [assoc[0].techId] else []) + TechsOf(assoc[1..], pid)
  }

  /** The projects a user owns, as rows. */
  function OwnedBy(projects: seq<Project>, uid: int): seq<Project> {
    Filter(projects, (p: Project) => p.owner == uid)
  }

  // ---------------------------------------------------------------------------
  // Writes

  /** The rows `INSERT INTO projects_technologies (project_id, technology_id)` adds, one per id. */
  function TechRows(pid: int, techs: seq<int>): seq<ProjectTech> {
    seq(|techs|, i requires 0 <= i < |techs| => ProjectTech(pid, techs[i]))
  }

  /** `DELETE FROM projects_technologies WHERE project_id = ?`. */
  function DropProjectTechs(assoc: seq<ProjectTech>, pid: int): seq<ProjectTech> {
    Filter(assoc, (r: ProjectTech) => r.projectId != pid)
  }

  /** The per-project loop of the user cascade: one `DropProjectTechs` per id, in order. */
  function DropTechsOfEach(assoc: seq<ProjectTech>, pids: seq<int>): (r: seq<ProjectTech>)
    ensures forall x :: x in r <==> x in assoc && x.projectId !in pids
    decreases |pids|
  {
    if |pids| == 0 then assoc
    else DropTechsOfEach(DropProjectTechs(assoc, pids[0]), pids[1..])
  }

  /** A transaction around a sequence of `count` statements numbered from `first`: the
      effect `after` is committed unless one of them throws, in which case ROLLBACK
      restores `before` and the handler answers 500. */
  function Transaction(before: Db, after: Db, first: nat, count: nat, fault: Fault, success: Status): (r: Step)
    ensures r.db == before || r.db == after
    ensures r.status == success <==> !fault.HitsWithin(first, count) || success == ServerError500
    ensures r.status != success ==> r.db == before
  {
    if fault.HitsWithin(first, count) then Step(ServerError500, before) else Step(success, after)
  }

  // ---------------------------------------------------------------------------
  // Invariants

  function UserKey(u: User): int { u.id }
  function EmailKey(u: User): string { u.email }
  function ProjectKey(p: Project): int { p.id }

  /** Primary keys: ids are unique and were handed out by the AUTO_INCREMENT counters,
      which start at 1. */
  predicate KeysValid(db: Db) {
    && 0 < db.nextUserId && 0 < db.nextProjectId
    && UniqueBy(db.users, UserKey)
    && (forall u :: u in db.users ==> 0 < u.id < db.nextUserId)
    && UniqueBy(db.projects, ProjectKey)
    && (forall p :: p in db.projects ==> 0 < p.id < db.nextProjectId)
  }

  /** No two users share an email; the handlers keep this, the schema is not relied on. */
  predicate EmailsUnique(db: Db) {
    UniqueBy(db.users, EmailKey)
  }

  /** Every user-favourite edge joins two distinct existing users. */
  predicate UserFavsSound(db: Db) {
    forall e :: e in db.userFavs ==> e.userId != e.favUserId && HasUser(db, e.userId) && HasUser(db, e.favUserId)
  }

  /** Each directed user-favourite edge is stored at most once. */
  ghost predicate UserFavsDistinct(db: Db) {
    forall e :: multiset(db.userFavs)[e] <= 1
  }

  /** Every technology association points at an existing project. */
  predicate TechsAnchored(db: Db) {
    forall r :: r in db.projectTechs ==> HasProject(db, r.projectId)
  }

  // ---------------------------------------------------------------------------
  // Facts about lookups

  /** When `key` is a key of the table, looking a user's value up finds that user. */
  lemma {:induction false} FindByUnique<K>(users: seq<User>, key: User -> K, u: User)
    requires UniqueBy(users, key)
    requires u in users
    ensures FindBy(users, key, key(u)) == Some(u)
    decreases |users|
  {
    if users[0] != u {
      UniqueByTail(users, key);
      assert key(users[0]) != key(u) by {
        var k :| 0 <= k < |users| && users[k] == u;
        assert k != 0;
      }
      FindByUnique(users[1..], key, u);
    }
  }

  // ---------------------------------------------------------------------------
  // Facts about the association table

  lemma {:induction false} TechsOfConcat(a: seq<ProjectTech>, b: seq<ProjectTech>, pid: int)
    ensures TechsOf(a + b, pid) == TechsOf(a, pid) + TechsOf(b, pid)
    decreases |a|
  {
    if |a| == 0 {
      assert a + b == b;
    } else {
      assert (a + b)[0] == a[0];
      assert (a + b)[1..] == a[1..] + b;
      TechsOfConcat(a[1..], b, pid);
    }
  }

  /** The rows written for `pid` read back as exactly the list written. */
  lemma {:induction false} TechsOfRows(pid: int, techs: seq<int>, q: int)
    ensures TechsOf(TechRows(pid, techs), q) == if q == pid then techs else []
    decreases |techs|
  {
    if |techs| > 0 {
      assert TechRows(pid, techs)[1..] == TechRows(pid, techs[1..]);
      TechsOfRows(pid, techs[1..], q);
    }
  }

  /** Dropping `pid`'s rows empties `pid` and leaves every other project alone. */
  lemma {:induction false} TechsOfDrop(assoc: seq<ProjectTech>, pid: int, q: int)
    ensures TechsOf(DropProjectTechs(assoc, pid), q) == if q == pid then [] else TechsOf(assoc, q)
    decreases |assoc|
  {
    if |assoc| > 0 {
      TechsOfDrop(assoc[1..], pid, q);
      if assoc[0].projectId != pid {
        assert DropProjectTechs(assoc, pid) == [assoc[0]] + DropProjectTechs(assoc[1..], pid);
        TechsOfConcat([assoc[0]], DropProjectTechs(assoc[1..], pid), q);
      }
    }
  }

  /** The cascade's loop leaves the associations of projects outside `pids` alone. */
  lemma {:induction false} TechsOfDropEach(assoc: seq<ProjectTech>, pids: seq<int>, q: int)
    ensures TechsOf(DropTechsOfEach(assoc, pids), q) == if q in pids then [] else TechsOf(assoc, q)
    decreases |pids|
  {
    if |pids| > 0 {
      TechsOfDrop(assoc, pids[0], q);
      TechsOfDropEach(DropProjectTechs(assoc, pids[0]), pids[1..], q);
      if q == pids[0] && q in pids[1..] {
        assert TechsOf(DropProjectTechs(assoc, pids[0]), q) == [];
      }
    }
  }

  /** Dropping a project's associations twice is dropping them once. */
  lemma DropProjectTechsTwice(assoc: seq<ProjectTech>, pid: int)
    ensures DropProjectTechs(DropProjectTechs(assoc, pid), pid) == DropProjectTechs(assoc, pid)
  {
    FilterKeepsAll(DropProjectTechs(assoc, pid), (r: ProjectTech) => r.projectId != pid);
  }

  /** Nothing written for `pid` survives a drop of `pid`. */
  lemma DropProjectTechsOfRows(pid: int, techs: seq<int>)
    ensures DropProjectTechs(TechRows(pid, techs), pid) == []
  {
    FilterDropsAll(TechRows(pid, techs), (r: ProjectTech) => r.projectId != pid);
  }
}
