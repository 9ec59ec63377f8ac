/** The projects controller: the three listings, the payload-driven writes (add, edit,
    delete) and the creator lookup. The writes run inside one transaction each. */
module Projects {
  import opened Wrappers
  import opened Seqs
  import opened Store
  import opened Guards
  import opened Aggregate

  /** The body of an add or edit request. `technologies` is absent or a list of
      technology ids. */
  datatype ProjectBody = ProjectBody(userId: int, projectName: string, projectDesc: string, technologies: Option<seq<int>>)

  /** `if (technologies && technologies.length > 0) for (const techId of technologies)`:
      the ids the insert loop visits, none when the field is absent. */
  function TechList(technologies: Option<seq<int>>): seq<int> {
    if technologies.Some? then technologies.value else []
  }

  // ---------------------------------------------------------------------------
  // Listings. The joined rows arrive in whatever order the server returns them, so
  // they are a parameter; statement 0 is the query.

  /** getProjects. */
  function GetProjects(rows: seq<JoinRow>, fault: Fault, md5: string -> string): (r: Reply<seq<ProjectCard>>)
    ensures r.Sent? <==> !fault.Hits(0)
    ensures r.Refused? ==> r.status == ServerError500
    ensures r.Sent? ==> forall i, j :: 0 <= i < j < |r.value| ==> r.value[i].projectId != r.value[j].projectId
    ensures r.Sent? ==> forall k :: 0 <= k < |rows| ==> exists i :: 0 <= i < |r.value| && r.value[i].projectId == rows[k].projectId
  {
    if fault.Hits(0) then Refused(ServerError500)
    else
      ListProjectsSpec(rows, md5);
      Sent(ListProjects(rows, md5))
  }

  /** getProjectsByUserId. */
  function GetProjectsByUserId(uid: int, rows: seq<JoinRow>, fault: Fault): (r: Reply<seq<UserProjectCard>>)
    ensures uid == 0 ==> r == Refused(BadRequest400)
    ensures r.Sent? <==> uid != 0 && !fault.Hits(0)
    ensures r.Sent? ==> forall i, j :: 0 <= i < j < |r.value| ==> r.value[i].projectId != r.value[j].projectId
    ensures r.Sent? ==> forall k :: 0 <= k < |rows| ==> exists i :: 0 <= i < |r.value| && r.value[i].projectId == rows[k].projectId
  {
    if RejectsId(uid) then Refused(BadRequest400)
    else if fault.Hits(0) then Refused(ServerError500)
    else
      ListUserProjectsSpec(rows);
      Sent(ListUserProjects(rows))
  }

  /** A technology entry of the single-project view. */
  datatype TechRef = TechRef(id: Option<int>, name: Option<string>)

  /** The single-project view: name, description and creator from the first row, one
      technology entry per row. */
  datatype ProjectDetail = ProjectDetail(
    projectName: string,
    description: string,
    creatorId: int,
    technologies: seq<TechRef>)

  /** getProjectById: 404 when the query returns no row. */
  function GetProjectById(pid: int, rows: seq<JoinRow>, fault: Fault): (r: Reply<ProjectDetail>)
    ensures pid == 0 ==> r == Refused(BadRequest400)
    ensures pid != 0 && !fault.Hits(0) ==> (r == Refused(NotFound404) <==> |rows| == 0)
    ensures r.Sent? <==> pid != 0 && !fault.Hits(0) && |rows| > 0
    ensures r.Sent? ==>
              && |rows| > 0
              && r.value.projectName == rows[0].projectName
              && r.value.description == rows[0].description
              && r.value.creatorId == rows[0].creatorId
              && |r.value.technologies| == |rows|
              && forall i :: 0 <= i < |rows| ==> r.value.technologies[i] == TechRef(rows[i].techId, rows[i].techName)
  {
    if RejectsId(pid) then Refused(BadRequest400)
    else if fault.Hits(0) then Refused(ServerError500)
    else if |rows| == 0 then Refused(NotFound404)
    else Sent(ProjectDetail(rows[0].projectName, rows[0].description, rows[0].creatorId,
                            seq(|rows|, i requires 0 <= i < |rows| => TechRef(rows[i].techId, rows[i].techName))))
  }

  /** The single-project view and the full listing agree on one project's rows: the
      listing has exactly one entry, with the view's name, description and creator, and
      its technologies are the names of the view's technology entries. */
  lemma DetailAgreesWithListing(rows: seq<JoinRow>, pid: int, md5: string -> string)
    requires pid != 0 && |rows| > 0
    requires forall k :: 0 <= k < |rows| ==> rows[k].projectId == pid
    ensures var all := GetProjects(rows, NoFault, md5);
            var one := GetProjectById(pid, rows, NoFault);
            && all.Sent? && one.Sent?
            && |all.value| == 1
            && all.value[0].projectId == pid
            && all.value[0].projectName == one.value.projectName
            && all.value[0].description == one.value.description
            && all.value[0].creatorId == one.value.creatorId
            && all.value[0].technologies
               == seq(|one.value.technologies|, i requires 0 <= i < |one.value.technologies| => one.value.technologies[i].name)
  {
    var gs := GroupRows(rows, NameChild);
    GroupRowsSpec(rows, NameChild);
    assert HasKey(gs, rows[0].projectId);
    forall i | 0 <= i < |gs|
      ensures Key(gs[i]) == pid
    {
      assert rows[FirstIndex(rows, Key(gs[i]))].projectId == Key(gs[i]);
    }
    SameKeySameGroup(gs, 0, |gs| - 1);
    assert FirstIndex(rows, pid) == 0;
    CollectAllNames(rows, pid);
  }

  // ---------------------------------------------------------------------------
  // Writes

  /** getProjectCreatorId: the owner of project `pid`; 404 when there is none. */
  function GetProjectCreatorId(db: Db, pid: int, fault: Fault): (r: Reply<int>)
    ensures fault.Hits(0) ==> r == Refused(ServerError500)
    ensures !fault.Hits(0) ==> (r == Refused(NotFound404) <==> !HasProject(db, pid))
    ensures r.Sent? ==> exists p :: p in db.projects && p.id == pid && p.owner == r.value
    ensures r.Sent? && UniqueBy(db.projects, ProjectKey) ==> forall p :: p in db.projects && p.id == pid ==> p.owner == r.value
  {
    if fault.Hits(0) then Refused(ServerError500)
    else
      match CreatorOf(db.projects, pid)
      case None => Refused(NotFound404)
      case Some(owner) =>
        OwnerUnique(db.projects, pid);
        Sent(owner)
  }

  /** With unique project ids, the creator found is the owner of every row with that id. */
  lemma {:induction false} OwnerUnique(projects: seq<Project>, pid: int)
    requires CreatorOf(projects, pid).Some?
    ensures UniqueBy(projects, ProjectKey) ==>
              forall p :: p in projects && p.id == pid ==> p.owner == CreatorOf(projects, pid).value
    decreases |projects|
  {
    if UniqueBy(projects, ProjectKey) && projects[0].id != pid {
      UniqueByTail(projects, ProjectKey);
      OwnerUnique(projects[1..], pid);
    } else if UniqueBy(projects, ProjectKey) {
      forall p | p in projects && p.id == pid
        ensures p.owner == projects[0].owner
      {
        var k :| 0 <= k < |projects| && projects[k] == p;
        assert k == 0 || ProjectKey(projects[0]) != ProjectKey(projects[k]);
      }
    }
  }

  /** `INSERT INTO projects`: a new row with the next AUTO_INCREMENT id. */
  function InsertProject(db: Db, name: string, desc: string, owner: int): (r: Db)
    ensures r.projects == db.projects + [Project(db.nextProjectId, name, desc, owner)]
    ensures r.nextProjectId == db.nextProjectId + 1
    ensures r.users == db.users && r.projectTechs == db.projectTechs
    ensures r.userFavs == db.userFavs && r.projectFavs == db.projectFavs
  {
    db.(projects := db.projects + [Project(db.nextProjectId, name, desc, owner)],
        nextProjectId := db.nextProjectId + 1)
  }

  /** addProject: statement 0 inserts the project, statements 1 to |techs| insert one
      association each, the last statement commits. */
  function AddProject(db: Db, authId: int, body: ProjectBody, valid: bool, fault: Fault): (r: Step)
    ensures !valid ==> r == Step(Unprocessable422, db)
    ensures valid && body.userId != authId ==> r == Step(Unauthorized401, db)
    ensures r.status != Created201 ==> r.db == db
    ensures valid && body.userId == authId ==>
              (r.status == Created201 <==> !fault.HitsWithin(0, |TechList(body.technologies)| + 2))
  {
    if !valid then Step(Unprocessable422, db)
    else if Impersonates(body.userId, authId) then Step(Unauthorized401, db)
    else
      var techs := TechList(body.technologies);
      var inserted := InsertProject(db, body.projectName, body.projectDesc, body.userId);
      var after := inserted.(projectTechs := db.projectTechs + TechRows(db.nextProjectId, techs));
      Transaction(db, after, 0, |techs| + 2, fault, Created201)
  }

  /** `DELETE FROM projects WHERE id = ?`. */
  function DropProject(projects: seq<Project>, pid: int): seq<Project> {
    Filter(projects, (p: Project) => p.id != pid)
  }

  /** deleteProject: statement 0 drops the associations, 1 the project, 2 commits. The
      URL id is not checked and the creator is not consulted. */
  function DeleteProject(db: Db, authId: int, pid: int, userId: int, valid: bool, fault: Fault): (r: Step)
    ensures !valid ==> r == Step(Unprocessable422, db)
    ensures valid && userId != authId ==> r == Step(Unauthorized401, db)
    ensures r.status != Ok200 ==> r.db == db
  {
    if !valid then Step(Unprocessable422, db)
    else if Impersonates(userId, authId) then Step(Unauthorized401, db)
    else
      var after := db.(projectTechs := DropProjectTechs(db.projectTechs, pid),
                       projects := DropProject(db.projects, pid));
      Transaction(db, after, 0, 3, fault, Ok200)
  }

  /** `UPDATE projects SET name = ?, description = ? WHERE id = ? AND fk_user = ?`. */
  function UpdateProject(projects: seq<Project>, pid: int, owner: int, name: string, desc: string): (r: seq<Project>)
    ensures |r| == |projects|
    ensures forall i :: 0 <= i < |r| ==> r[i].id == projects[i].id && r[i].owner == projects[i].owner
    ensures forall i :: 0 <= i < |r| && projects[i].id == pid && projects[i].owner == owner ==>
              r[i].name == name && r[i].description == desc
    ensures forall i :: 0 <= i < |r| && !(projects[i].id == pid && projects[i].owner == owner) ==> r[i] == projects[i]
  {
    seq(|projects|, i requires 0 <= i < |projects| =>
      if projects[i].id == pid && projects[i].owner == owner
      then projects[i].(name := name, description := desc)
      else projects[i])
  }

  /** The state an edit commits: the row updated, the associations of `pid` replaced by
      the list sent, the other tables untouched. */
  function Edited(db: Db, pid: int, body: ProjectBody): (r: Db)
    ensures TechsOf(r.projectTechs, pid) == TechList(body.technologies)
    ensures |r.projects| == |db.projects|
    ensures r.users == db.users && r.userFavs == db.userFavs && r.projectFavs == db.projectFavs
  {
    var techs := TechList(body.technologies);
    TechsOfConcat(DropProjectTechs(db.projectTechs, pid), TechRows(pid, techs), pid);
    TechsOfDrop(db.projectTechs, pid, pid);
    TechsOfRows(pid, techs, pid);
    db.(projects := UpdateProject(db.projects, pid, body.userId, body.projectName, body.projectDesc),
        projectTechs := DropProjectTechs(db.projectTechs, pid) + TechRows(pid, TechList(body.technologies)))
  }

  /** editProject: statement 0 is the creator lookup, outside the transaction; inside it,
      statement 1 updates the row, 2 drops the associations, 3 to |techs| + 2 insert the
      new ones and the last commits. */
  function EditProject(db: Db, authId: int, pid: int, body: ProjectBody, valid: bool, fault: Fault): (r: Step)
    ensures pid == 0 ==> r == Step(BadRequest400, db)
    ensures pid != 0 && !valid ==> r == Step(Unprocessable422, db)
    ensures r.status != Ok200 ==> r.db == db
    ensures r.status == Ok200 ==> body.userId == authId && CreatorOf(db.projects, pid) == Some(authId)
    ensures pid != 0 && valid && body.userId == authId && CreatorOf(db.projects, pid) == Some(authId) ==>
              (r.status == Ok200 <==> !fault.HitsWithin(0, |TechList(body.technologies)| + 4))
  {
    if RejectsId(pid) then Step(BadRequest400, db)
    else if !valid then Step(Unprocessable422, db)
    else
      match GetProjectCreatorId(db, pid, fault)
      case Refused(status) => Step(status, db)
      case Sent(creator) =>
        if Impersonates(body.userId, authId) || body.userId != creator then Step(Unauthorized401, db)
        else Transaction(db, Edited(db, pid, body), 1, |TechList(body.technologies)| + 3, fault, Ok200)
  }

  // ---------------------------------------------------------------------------
  // Properties

  /** A statement failure inside any of the three transactions answers 500 and leaves the
      database exactly as it was. */
  lemma WritesRollBack(db: Db, authId: int, pid: int, body: ProjectBody, fault: Fault)
    requires body.userId == authId
    ensures var n := |TechList(body.technologies)|;
            fault.HitsWithin(0, n + 2) ==> AddProject(db, authId, body, true, fault) == Step(ServerError500, db)
    ensures fault.HitsWithin(0, 3) ==> DeleteProject(db, authId, pid, authId, true, fault) == Step(ServerError500, db)
    ensures var n := |TechList(body.technologies)|;
            pid != 0 && CreatorOf(db.projects, pid) == Some(authId) && fault.HitsWithin(1, n + 3) ==>
              EditProject(db, authId, pid, body, true, fault) == Step(ServerError500, db)
  {
  }

  /** editProject proceeds exactly when the body's user is both the token's user and the
      project's creator; a missing project is 404 whatever the users. */
  lemma EditProjectAuthorization(db: Db, authId: int, pid: int, body: ProjectBody, fault: Fault)
    requires pid != 0 && !fault.Hits(0)
    ensures !HasProject(db, pid) ==> EditProject(db, authId, pid, body, true, fault) == Step(NotFound404, db)
    ensures HasProject(db, pid) ==>
              (EditProject(db, authId, pid, body, true, fault).status == Unauthorized401
               <==> !(body.userId == authId && Some(body.userId) == CreatorOf(db.projects, pid)))
  {
  }

  /** After a successful edit the associations of `pid` are exactly the list sent, in
      order, and every other project's associations are as before. */
  lemma EditProjectReplacesTechs(db: Db, authId: int, pid: int, body: ProjectBody, fault: Fault, q: int)
    requires EditProject(db, authId, pid, body, true, fault).status == Ok200
    ensures var after := EditProject(db, authId, pid, body, true, fault).db;
            TechsOf(after.projectTechs, q) == if q == pid then TechList(body.technologies) else TechsOf(db.projectTechs, q)
  {
    var after := EditProject(db, authId, pid, body, true, fault).db;
    assert after == Edited(db, pid, body);
    if q != pid {
      var techs := TechList(body.technologies);
      TechsOfConcat(DropProjectTechs(db.projectTechs, pid), TechRows(pid, techs), q);
      TechsOfDrop(db.projectTechs, pid, q);
      TechsOfRows(pid, techs, q);
    }
  }

  /** A successful edit renames only the rows with that id and that owner, never changes
      an owner or an id, and touches no other table. */
  lemma EditProjectFrame(db: Db, authId: int, pid: int, body: ProjectBody, fault: Fault)
    requires EditProject(db, authId, pid, body, true, fault).status == Ok200
    ensures var after := EditProject(db, authId, pid, body, true, fault).db;
            && |after.projects| == |db.projects|
            && (forall i :: 0 <= i < |db.projects| ==>
                  && after.projects[i].id == db.projects[i].id
                  && after.projects[i].owner == db.projects[i].owner
                  && (db.projects[i].id != pid ==> after.projects[i] == db.projects[i]))
            && (forall i :: 0 <= i < |db.projects| && db.projects[i].id == pid && db.projects[i].owner == authId ==>
                  after.projects[i].name == body.projectName && after.projects[i].description == body.projectDesc)
            && after.users == db.users && after.userFavs == db.userFavs && after.projectFavs == db.projectFavs
            && after.nextProjectId == db.nextProjectId
  {
  }

  /** Repeating a successful edit with no failure leaves the state the first one left. */
  lemma EditProjectIdempotent(db: Db, authId: int, pid: int, body: ProjectBody, fault1: Fault, fault2: Fault)
    requires EditProject(db, authId, pid, body, true, fault1).status == Ok200
    requires !fault2.HitsWithin(0, |TechList(body.technologies)| + 4)
    ensures var db1 := EditProject(db, authId, pid, body, true, fault1).db;
            EditProject(db1, authId, pid, body, true, fault2) == Step(Ok200, db1)
  {
    var db1 := EditProject(db, authId, pid, body, true, fault1).db;
    assert db1 == Edited(db, pid, body);
    CreatorOfUpdate(db.projects, pid, authId, body.projectName, body.projectDesc);
    assert GetProjectCreatorId(db1, pid, fault2) == Sent(authId);
    EditedTwice(db, pid, body);
  }

  /** The state an edit commits is a fixed point of the same edit. */
  lemma EditedTwice(db: Db, pid: int, body: ProjectBody)
    ensures Edited(Edited(db, pid, body), pid, body) == Edited(db, pid, body)
  {
    var techs := TechList(body.technologies);
    var db1 := Edited(db, pid, body);
    var ps1 := db1.projects;
    var ps2 := UpdateProject(ps1, pid, body.userId, body.projectName, body.projectDesc);
    assert ps2 == ps1;
    var a0 := DropProjectTechs(db.projectTechs, pid);
    var keep := (x: ProjectTech) => x.projectId != pid;
    FilterConcat(a0, TechRows(pid, techs), keep);
    DropProjectTechsTwice(db.projectTechs, pid);
    DropProjectTechsOfRows(pid, techs);
    assert DropProjectTechs(db1.projectTechs, pid) == a0;
  }

  /** Renaming keeps every project's creator. */
  lemma {:induction false} CreatorOfUpdate(projects: seq<Project>, pid: int, owner: int, name: string, desc: string)
    ensures CreatorOf(UpdateProject(projects, pid, owner, name, desc), pid) == CreatorOf(projects, pid)
    decreases |projects|
  {
    if |projects| > 0 {
      var ps := UpdateProject(projects, pid, owner, name, desc);
      assert ps[1..] == UpdateProject(projects[1..], pid, owner, name, desc);
      CreatorOfUpdate(projects[1..], pid, owner, name, desc);
    }
  }

  /** A successful delete removes every row of `pid` from the projects and the
      associations, keeps every other row of both, and touches nothing else. */
  lemma DeleteProjectSpec(db: Db, authId: int, pid: int, fault: Fault)
    requires DeleteProject(db, authId, pid, authId, true, fault).status == Ok200
    ensures var after := DeleteProject(db, authId, pid, authId, true, fault).db;
            && (forall p :: p in after.projects <==> p in db.projects && p.id != pid)
            && (forall t :: t in after.projectTechs <==> t in db.projectTechs && t.projectId != pid)
            && TechsOf(after.projectTechs, pid) == []
            && (forall q :: q != pid ==> TechsOf(after.projectTechs, q) == TechsOf(db.projectTechs, q))
            && after.users == db.users && after.userFavs == db.userFavs && after.projectFavs == db.projectFavs
  {
    forall q
      ensures TechsOf(DropProjectTechs(db.projectTechs, pid), q) == if q == pid then [] else TechsOf(db.projectTechs, q)
    {
      TechsOfDrop(db.projectTechs, pid, q);
    }
  }

  /** deleteProject never asks who created the project: whenever the body's user is the
      token's user and nothing fails, the project goes, whoever owns it. */
  lemma DeleteProjectIgnoresCreator(db: Db, authId: int, pid: int)
    ensures DeleteProject(db, authId, pid, authId, true, NoFault).status == Ok200
    ensures forall p :: p in DeleteProject(db, authId, pid, authId, true, NoFault).db.projects ==> p.id != pid
  {
  }

  /** A successful add stores one new project owned by the body's user, under a fresh id,
      whose associations are exactly the list sent (none when it is absent or empty),
      and changes no other project's associations. */
  lemma AddProjectSpec(db: Db, authId: int, body: ProjectBody, fault: Fault, q: int)
    requires KeysValid(db) && TechsAnchored(db)
    requires AddProject(db, authId, body, true, fault).status == Created201
    ensures var after := AddProject(db, authId, body, true, fault).db;
            var pid := db.nextProjectId;
            && |after.projects| == |db.projects| + 1
            && after.projects[|db.projects|] == Project(pid, body.projectName, body.projectDesc, authId)
            && !HasProject(db, pid)
            && TechsOf(after.projectTechs, q) == (if q == pid then TechList(body.technologies) else TechsOf(db.projectTechs, q))
            && (body.technologies.None? || body.technologies == Some([]) ==> after.projectTechs == db.projectTechs)
            && after.projects[..|db.projects|] == db.projects
            && after.users == db.users && after.userFavs == db.userFavs && after.projectFavs == db.projectFavs
  {
    var pid := db.nextProjectId;
    var techs := TechList(body.technologies);
    TechsOfConcat(db.projectTechs, TechRows(pid, techs), q);
    TechsOfRows(pid, techs, q);
    if q == pid {
      NoTechsOfMissing(db, pid);
    }
    assert TechRows(pid, []) == [];
  }

  /** A project that does not exist has no associations, when all are anchored. */
  lemma {:induction false} NoTechsOfMissing(db: Db, pid: int)
    requires TechsAnchored(db)
    requires !HasProject(db, pid)
    ensures TechsOf(db.projectTechs, pid) == []
  {
    NoTechsOf(db.projectTechs, pid);
  }

  lemma {:induction false} NoTechsOf(assoc: seq<ProjectTech>, pid: int)
    requires forall t :: t in assoc ==> t.projectId != pid
    ensures TechsOf(assoc, pid) == []
    decreases |assoc|
  {
    if |assoc| > 0 {
      assert assoc[0] in assoc;
      assert forall t :: t in assoc[1..] ==> t in assoc;
      NoTechsOf(assoc[1..], pid);
    }
  }

  /** addProject keeps primary keys valid and every association anchored. */
  lemma AddProjectPreservesInvariants(db: Db, authId: int, body: ProjectBody, valid: bool, fault: Fault)
    requires KeysValid(db) && TechsAnchored(db)
    ensures var after := AddProject(db, authId, body, valid, fault).db;
            KeysValid(after) && TechsAnchored(after)
  {
    var added := AddProject(db, authId, body, valid, fault);
    if added.status == Created201 {
      var np := Project(db.nextProjectId, body.projectName, body.projectDesc, body.userId);
      UniqueByAppend(db.projects, np, ProjectKey);
      forall t | t in added.db.projectTechs
        ensures HasProject(added.db, t.projectId)
      {
        if t in db.projectTechs {
          var p :| p in db.projects && p.id == t.projectId;
          assert p in added.db.projects;
        } else {
          assert np in added.db.projects;
        }
      }
    }
  }

  /** deleteProject keeps primary keys valid and every association anchored. */
  lemma DeleteProjectPreservesInvariants(db: Db, authId: int, pid: int, userId: int, valid: bool, fault: Fault)
    requires KeysValid(db) && TechsAnchored(db)
    ensures var after := DeleteProject(db, authId, pid, userId, valid, fault).db;
            KeysValid(after) && TechsAnchored(after)
  {
    var deleted := DeleteProject(db, authId, pid, userId, valid, fault);
    if deleted.status == Ok200 {
      UniqueByFilter(db.projects, (p: Project) => p.id != pid, ProjectKey);
      forall t | t in deleted.db.projectTechs
        ensures HasProject(deleted.db, t.projectId)
      {
        var p :| p in db.projects && p.id == t.projectId;
        assert p in deleted.db.projects;
      }
    }
  }

  /** editProject keeps primary keys valid and every association anchored. */
  lemma EditProjectPreservesInvariants(db: Db, authId: int, pid: int, body: ProjectBody, valid: bool, fault: Fault)
    requires KeysValid(db) && TechsAnchored(db)
    ensures var after := EditProject(db, authId, pid, body, valid, fault).db;
            KeysValid(after) && TechsAnchored(after)
  {
    var edited := EditProject(db, authId, pid, body, valid, fault);
    if edited.status == Ok200 {
      var ps := edited.db.projects;
      assert ps == UpdateProject(db.projects, pid, body.userId, body.projectName, body.projectDesc);
      assert UniqueBy(ps, ProjectKey) by {
        forall i, j | 0 <= i < j < |ps|
          ensures ProjectKey(ps[i]) != ProjectKey(ps[j])
        {
          assert ProjectKey(db.projects[i]) != ProjectKey(db.projects[j]);
        }
      }
      forall p | p in ps
        ensures 0 < p.id < db.nextProjectId
      {
        var i :| 0 <= i < |ps| && ps[i] == p;
        assert db.projects[i] in db.projects;
      }
      assert HasProject(db, pid);
      forall t | t in edited.db.projectTechs
        ensures HasProject(edited.db, t.projectId)
      {
        var q := t.projectId;
        assert HasProject(db, q);
        var p :| p in db.projects && p.id == q;
        var i :| 0 <= i < |db.projects| && db.projects[i] == p;
        assert ps[i] in ps && ps[i].id == q;
      }
    }
  }
}
