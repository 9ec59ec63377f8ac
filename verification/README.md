# codify-api, modelled in Dafny

codify-api is an Express/MySQL back end for a project-sharing site. Users sign up and log
in. They publish projects tagged with technologies, and they mark other users and
projects as favourites. This project models the core of it as pure functions over an
immutable database, and proves what the handlers promise.

- **The store** (`store.dfy`). The five tables `users`, `projects`,
  `projects_technologies`, `users_favorites` and `projects_favorites` are sequences of
  rows, together with the next AUTO_INCREMENT ids.
  - A mutating handler is a function from the database, the token's user id, the URL id,
    the body, the validation verdict and a `Fault` to a `Step(status, db)`. It returns
    the answer and the database it leaves.
  - `Fault = NoFault | FailAt(k)` says which SQL statement, counted from 0 in issue order,
    throws.
  - `Transaction` answers 500 and restores the old state when a statement inside it
    throws.
  - Primary keys, email uniqueness, edge soundness and technology anchoring are
    invariants (`KeysValid`, `EmailsUnique`, `UserFavsSound`, `TechsAnchored`). For
    every mutating handler, a `*Preserve*` or `*KeepOthers` lemma proves that it keeps
    the invariants its writes could break.
- **Guards** (`guards.dfy`). `!id` on a numeric id rejects exactly 0. The
  impersonation check compares the body's `userId` with the token's user.
- **Favourites** (`favorites.dfy`). The directed user-favourite edges and the
  project marks: checks, adds, removals and the two listings.
- **Projects** (`projects.dfy`). The three listings, the creator lookup, and the
  transactional add, edit and delete.
- **Users and authentication** (`users.dfy`, `auth.dfy`).
  - `users.dfy`: the profile read with its project count, the deletion cascade, and the
    profile edit with its email and password guards.
  - `auth.dfy`: the email probe, signup and login.
- **The fold** (`aggregate.dfy`). The listing queries return one flat row per (project,
  technology) pair, and the handlers fold those rows into one entry per project.
  `GroupRows` is that fold. `GroupedBy` describes its result independently of how it is
  computed: distinct keys, every row covered, first-seen order, the first row's header,
  and each project's children in row order. `GroupRowsSpec` proves the fold meets it.
- **Validation and routing** (`routes.dfy`, `password.dfy`).
  - `routes.dfy`: the express-validator rule chains of each route, and which endpoints
    sit behind the token check.
  - `password.dfy`: the password expression, written construct by construct over UTF-16
    code units, and proved equal to a plain rule.

Functions passed in as parameters, because their internals are not modelled:

| function | stands for |
|---|---|
| `md5` | the md5 email hash |
| `hash`, `matches` | bcrypt's `hash` and `compare` |
| `escape` | the name sanitizer on the signup route |
| `Checks` | `isEmail`, `isNumeric` and the `isLength` count |

Joined rows come in as a parameter, because the server's row order is unspecified. For
the favourites listing, `Favorites.FavoritesQuery` also says which rows those are: the
query's join over the store, in any order.

The model follows the code as written; in particular:

- `deleteUser` and `deleteProject` issue no DELETE on `projects_favorites`. Without a
  constraint on that table, a mark on a deleted project survives
  (`Users.DeleteUserKeepsProjectMarks`).
- `editProject` rejects with `userId !== authId || userId !== creatorId`. That is
  already "both must be equal", so the model uses that condition and no fix is needed.
- `addProjectFav` has no duplicate check. Without a UNIQUE key on the table, two adds
  store the mark twice (`Favorites.AddProjectFavTwice`).
- `getProjects` and `getProjectsByUserId` append `technologyName` for every row,
  NULL included (`Aggregate.NullTechnologies`).
- The password expression's `(?=.{8,64})` puts no upper bound on the length
  (`Password.LongerStillAccepted`).
- Without the `u` flag the expression counts UTF-16 code units, so a 7-character
  password can pass (`Password.SevenCharactersCanPass`).

## Model

| member | source | states |
|---|---|---|
| Store.FindBy | ctrl/auth.js:85-89 | the user found comes from the table and holds the value in the column looked up; none is found exactly when no user holds it |
| Store.FindByUnique | ctrl/auth.js:85-89 | when the column is a key of the table, looking up a user's value finds that very user |
| Store.CreatorOf | ctrl/projects.js:278-287 | the owner found belongs to a row with that id; none is found exactly when no project has it |
| Store.OwnedProjectIds | ctrl/users.js:78 | an id is selected exactly when some project with it is owned by the user |
| Store.DropTechsOfEach | ctrl/users.js:79-81 | after the loop, a technology row survives exactly when its project is not among the ids |
| Store.Transaction | ctrl/projects.js:148-152 | the state is either the old one or the committed one; the success status is answered exactly when no statement of the transaction throws, and any other answer keeps the old state |
| Favorites.CheckIfUserIsFav | ctrl/favorites.js:5-40 | it answers exactly when the id is non-zero, the body valid, the caller the token's user, the other user a different one and the query does not fail; the answer is true exactly when the directed edge is stored |
| Favorites.AddUserFav | ctrl/favorites.js:42-82 | the only change is appending the edge (userId, uid); 201 exactly when it changes the store, and 201 exactly when the guards pass, both users exist, the edge is absent and none of the four statements fails |
| Favorites.RemoveUserFav | ctrl/favorites.js:84-124 | the only change is dropping the edge; 200 exactly when the guards pass, both users exist, the edge is stored and none of the four statements fails, and it leaves the edge absent; any other answer writes nothing |
| Favorites.UserFavGuardOrder | ctrl/favorites.js:42-100 | before any storage access: 400 for id 0, then 422 for an invalid body, then 401 for another user, then 422 (add, remove) or 401 (check) for self-reference, with no write |
| Favorites.UserFavMissingUser | ctrl/favorites.js:61-65 | a missing user on either side is 404 with the store unchanged |
| Favorites.AddUserFavTwice | ctrl/favorites.js:66-74 | a second identical add answers 422 and the edge is stored exactly once |
| Favorites.RemoveUserFavAbsentEdge | ctrl/favorites.js:108-114 | an absent edge is 404, whatever the reverse edge |
| Favorites.RemoveUserFavRemovesOnlyThatEdge | ctrl/favorites.js:115-116 | a removal deletes every copy of the edge and keeps every other edge, the reverse one included, with its multiplicity |
| Favorites.CheckIfUserIsFavDirected | ctrl/favorites.js:24-32 | the answer depends only on whether the directed edge (userId, uid) is stored, never on the reverse edge |
| Favorites.UserFavHandlersPreserveEdges | ctrl/favorites.js:56-74 | adding and removing keep edges free of self-loops, between existing users, and stored at most once |
| Favorites.UserFavHandlersKeepOthers | ctrl/favorites.js:42-124 | adding and removing a user favourite keep keys valid, emails unique and technologies anchored |
| Favorites.ProjectFavHandlersPreserveInvariants | ctrl/favorites.js:167-237 | adding and removing a project mark keep keys valid, emails unique, edges sound and distinct, and technologies anchored |
| Favorites.UsersNamed | ctrl/favorites.js:246-252 | a listing entry appears exactly when a user row with that id and name exists |
| Favorites.FavUserRows | ctrl/favorites.js:246-252 | an entry appears exactly when the user has an edge to it and a user row with that id and name exists |
| Favorites.GetUsersFavorites | ctrl/favorites.js:239-261 | 400 for id 0; a listing is sent exactly when the id is non-zero and the query does not fail, and in it an entry appears exactly when `uid` has marked that user and the user exists with that name |
| Favorites.FavProjectIds | ctrl/favorites.js:142-153 | an id is listed exactly when the user marked it and the project exists |
| Favorites.CheckProjectsFav | ctrl/favorites.js:126-165 | it answers exactly when the id is non-zero, the body valid, the caller the token's user and the query does not fail; it lists exactly the existing projects the body's user marked |
| Favorites.CheckProjectsFavIgnoresUrl | ctrl/favorites.js:127-149 | the answer is the same for every non-zero URL id |
| Favorites.AddProjectFav | ctrl/favorites.js:167-198 | the only change is appending the mark; 201 exactly when it changes the store, and then the caller is the token's user and the project exists |
| Favorites.AddProjectFavChecksOnlyProject | ctrl/favorites.js:183-190 | past the guards the answer is 201 or 404 according to the project's existence alone |
| Favorites.AddProjectFavTwice | ctrl/favorites.js:188-190 | with no duplicate check and no UNIQUE key assumed, two adds store the mark two more times |
| Favorites.RemoveProjectFav | ctrl/favorites.js:200-237 | the only change is dropping the mark; 200 needs the token's user, the project and the stored mark, and leaves the mark absent |
| Favorites.RemoveProjectFavSpec | ctrl/favorites.js:216-229 | 404 when the project or the mark is missing; otherwise every copy of that mark goes, every other mark keeps its count, and no other table changes |
| Favorites.GetProjectsFavorites | ctrl/favorites.js:264-320 | 400 for id 0; a listing exactly when the id is non-zero and the query does not fail; every row's project listed, no project twice |
| Favorites.TechJoin | ctrl/favorites.js:282-283 | a project row yields one joined row per association, or a single row when it has none, each carrying that project's id, name, description and creator |
| Favorites.ProjectJoin | ctrl/favorites.js:280-281 | every joined row has the marked id, and some row comes back exactly when a project with that id exists |
| Favorites.FavJoin | ctrl/favorites.js:271-285 | every joined row belongs to a project the user marked that exists, and every such project has a row |
| Favorites.ListedRowIsJoined | ctrl/favorites.js:286-310 | a listed project has a row of the join |
| Favorites.FavoritesFromStore | ctrl/favorites.js:264-310 | fed its query's rows in any order, the listing holds exactly the existing projects the user has marked, each once |
| Aggregate.FindGroup | ctrl/favorites.js:289 | the index found is the first group with that key, or the end when there is none |
| Aggregate.Absorb | ctrl/favorites.js:288-310 | one row adds at most one group; every existing group keeps its head, every group but the row's own is unchanged, the row lands in the group with its project id, and a new group, headed by the row, appears exactly when none had that id |
| Aggregate.GroupRows | ctrl/projects.js:26-42 | the fold yields at most one group per row, and none exactly when there is no row |
| Aggregate.GroupAt | ctrl/favorites.js:288-310 | each group is headed by its project's first row and holds the children of all that project's rows |
| Aggregate.GroupPair | ctrl/favorites.js:288-310 | two groups have different projects, in order of first appearance |
| Aggregate.GroupCover | ctrl/favorites.js:288-310 | every row's project has a group |
| Aggregate.ListProjects | ctrl/projects.js:25-42 | at most one entry per row, none exactly when there is no row, and each entry for a project some row belongs to |
| Aggregate.ListUserProjects | ctrl/projects.js:75-93 | at most one entry per row, none exactly when there is no row, and each entry for a project some row belongs to |
| Aggregate.FavoriteProjects | ctrl/favorites.js:288-310 | at most one entry per row, none exactly when there is no row, and each entry for a project some row belongs to |
| Aggregate.GroupRowsSpec | ctrl/favorites.js:288-310 | the fold's groups have distinct keys, cover every row's project, come in first-seen order, carry the first row of their project, and hold that project's children in row order |
| Aggregate.FavoriteProjectsSpec | ctrl/favorites.js:288-310 | one entry per distinct project id in first-seen order, with the name, description and creator id of its first row, whose technologies are exactly its rows with a truthy technology id, in row order |
| Aggregate.NullTechnologies | ctrl/favorites.js:304-306 | a project whose rows carry no technology gets an empty list from the favourites fold and one NULL per row from the listing fold |
| Aggregate.FavoriteFoldExamples | ctrl/favorites.js:288-310 | a lone NULL row gives one project with no technologies; rows (1,10), (1,11), (2,NULL) give project 1 with [10, 11] then project 2 with none |
| Aggregate.ListProjectsSpec | ctrl/projects.js:24-42 | one entry per distinct project id in first-seen order, with its first row's name, description, creator name, creator id and the md5 of the creator's email, and the technology names of all its rows, NULL included, in row order |
| Aggregate.ListUserProjectsSpec | ctrl/projects.js:75-93 | the same grouping for one user's projects, with the first row's name and description and no creator columns |
| Aggregate.CollectAllNames | ctrl/projects.js:26-40 | when every row is one project's, its listing technologies are all the rows' names in order |
| Projects.DetailAgreesWithListing | ctrl/projects.js:208-220 | on one project's rows, the listing has a single entry with the detail view's name, description and creator, and the names of its technology entries |
| Projects.GetProjects | ctrl/projects.js:6-52 | a listing exactly when the query does not fail, otherwise 500; every row's project listed, no project twice |
| Projects.GetProjectsByUserId | ctrl/projects.js:54-103 | 400 for id 0; a listing exactly when the id is non-zero and the query succeeds; every row's project listed, no project twice |
| Projects.GetProjectById | ctrl/projects.js:188-230 | 400 for id 0; 404 exactly when no row comes back; sent exactly when the id is non-zero, the query does not fail and a row comes back, with name, description and creator from the first row and one technology entry per row, in order |
| Projects.GetProjectCreatorId | ctrl/projects.js:275-295 | 404 exactly when no project has the id; the creator found owns a row with that id, and every such row when ids are unique |
| Projects.OwnerUnique | ctrl/projects.js:283-287 | with unique project ids, the first row's owner is the owner of every row with that id |
| Projects.AddProject | ctrl/projects.js:122-158 | 422 for an invalid body, 401 for another user, any answer but 201 leaves the state unchanged, and for a valid body from the token's user 201 comes exactly when none of the insert, association and commit statements fails |
| Projects.AddProjectSpec | ctrl/projects.js:135-149 | success appends one project owned by the caller under a fresh id and keeps every earlier project row; its associations are exactly the list sent, other projects keep theirs, an absent or empty list adds no association row, and users and favourites are untouched |
| Projects.WritesRollBack | ctrl/projects.js:148-152 | a failure inside the add, edit or delete transaction answers 500 and leaves the database exactly as it was |
| Projects.DeleteProject | ctrl/projects.js:160-186 | 422 for an invalid body, 401 for another user, and any answer but 200 leaves the state unchanged |
| Projects.DeleteProjectSpec | ctrl/projects.js:174-177 | success removes exactly the project's rows and its associations, keeps every other row of both, and touches no other table |
| Projects.DeleteProjectIgnoresCreator | ctrl/projects.js:166-177 | whoever owns the project, the caller's own id and no failure are enough to delete it |
| Projects.UpdateProject | ctrl/projects.js:250-253 | only rows matching both id and owner get the new name and description; ids and owners never change |
| Projects.CreatorOfUpdate | ctrl/projects.js:250-253 | renaming keeps every project's creator |
| Projects.Edited | ctrl/projects.js:250-262 | the committed state gives the project exactly the technologies sent, keeps the number of project rows, and leaves users and favourites alone |
| Projects.EditedTwice | ctrl/projects.js:250-262 | the committed state is a fixed point of the same edit |
| Projects.EditProject | ctrl/projects.js:232-273 | 400 for id 0, 422 for an invalid body, any answer but 200 leaves the state unchanged, 200 needs the caller to be the token's user and the creator, and for such a caller 200 comes exactly when neither the creator lookup nor any transaction statement fails |
| Projects.EditProjectAuthorization | ctrl/projects.js:243-246 | a missing project is 404; otherwise 401 exactly when the body's user is not both the token's user and the creator |
| Projects.EditProjectReplacesTechs | ctrl/projects.js:254-262 | after success the project's associations are exactly the list sent, in order, and every other project's are as before |
| Projects.EditProjectFrame | ctrl/projects.js:250-253 | success changes only the name and description of the caller's row with that id, never an id or an owner, and no table but projects and associations |
| Projects.EditProjectIdempotent | ctrl/projects.js:232-273 | repeating a successful edit succeeds again and leaves the same state |
| Projects.AddProjectPreservesInvariants | ctrl/projects.js:135-147 | adding keeps primary keys valid and every association anchored to an existing project |
| Projects.DeleteProjectPreservesInvariants | ctrl/projects.js:174-175 | deleting keeps primary keys valid and every association anchored |
| Projects.EditProjectPreservesInvariants | ctrl/projects.js:250-262 | editing keeps primary keys valid and every association anchored |
| Users.GetUserInfos | ctrl/users.js:24-57 | 400 for id 0, 500 for every other refusal; with no failure an answer exactly when the user exists; its count is the number of projects the user owns, and its name and hashed email are the user's |
| Users.OwnedCount | ctrl/users.js:32-39 | with unique project ids, the count of owned rows equals the number of distinct projects owned |
| Users.DeleteUser | ctrl/users.js:59-94 | any answer but 200 leaves the state unchanged, 200 needs both the URL id and the body's user to be the token's user, and for such a call 200 comes exactly when no statement of the cascade fails |
| Users.DeleteUserGuards | ctrl/users.js:60-72 | 400 for id 0, 422 for an invalid body, and 401 exactly when the URL id or the body's user is not the token's user |
| Users.DeleteUserRollBack | ctrl/users.js:86-88 | a failure at any statement of the cascade answers 500 and leaves the database unchanged |
| Users.Cascade | ctrl/users.js:77-83 | after the cascade an edge, a project or a user survives exactly when it does not involve the user, a technology row exactly when its project is not one the user owned, and marks are untouched |
| Users.DeleteUserCascade | ctrl/users.js:77-83 | after success no edge touches the user, no technology row refers to a project they owned, no project is theirs, and no user row has their id |
| Users.DeleteUserFrame | ctrl/users.js:77-83 | after success the projects, edges and users are exactly those not involving the user, the marks are unchanged, and a project the user did not own keeps its technologies |
| Users.DeleteUserKeepsProjectMarks | ctrl/users.js:77-83 | the cascade issues no DELETE on the marks, so with no constraint assumed a mark on a project of the deleted user survives although the project is gone |
| Users.DeleteUserPreservesInvariants | ctrl/users.js:74-85 | the cascade keeps keys valid, emails unique, edges between existing users, and technologies anchored |
| Users.UpdateUser | ctrl/users.js:121-141 | only the user's row changes: name, email, and the password only when one is given; ids never change |
| Users.EditUser | ctrl/users.js:97-151 | any answer but 200 writes nothing; 200 needs the caller to be the token's user and an email no other user holds; no table but users changes |
| Users.EditUserEmailTaken | ctrl/users.js:113-119 | an email held by another user is 422 with no write |
| Users.EditUserWithoutPasswords | ctrl/users.js:120-124 | without both passwords, success updates only the name and email and keeps the stored hash |
| Users.EditUserPasswordBranch | ctrl/users.js:125-142 | with both passwords: a missing user is 404, a wrong current password 401, both without a write; a right one stores the hash of the new password |
| Users.EditUserShape | ctrl/users.js:120-143 | after success the users keep their ids, every other user is unchanged, and the caller's row has the new email |
| Users.EditUserPreservesInvariants | ctrl/users.js:113-142 | editing keeps keys valid, emails unique, and edges between existing users |
| Auth.EmailExists | ctrl/auth.js:7-15 | 422 for an invalid body, no response for a falsy email; an answer is sent exactly when the body is valid and the email not falsy, and it is true exactly when some user has that email |
| Auth.Signup | ctrl/auth.js:17-37 | a refusal writes nothing; success needs every field and an email no user had, which a user then has |
| Auth.SignupDuplicate | ctrl/auth.js:24-27 | an email already present is 422 and no user is created |
| Auth.SignupFresh | ctrl/auth.js:28-36 | an unused email appends exactly one user under the next id with that email, the sanitized name and the password's hash, and touches no other table |
| Auth.SignupPreservesInvariants | ctrl/auth.js:24-29 | signup keeps keys valid and emails unique |
| Auth.MissingFieldTouchesNothing | ctrl/auth.js:19-22 | a falsy required field stops signup with no write and login with an answer independent of the password check |
| Auth.Login | ctrl/auth.js:39-61 | 422 for an invalid body, no response for a falsy field, and success only for a stored user with that email whose hash matches, answered with that user's id, name and email |
| Auth.LoginOutcomes | ctrl/auth.js:45-60 | an unknown email is 401; with unique emails, the user with that email is answered when the password matches and 401 otherwise |
| Password.RegexPassword | routes/users-routes.js:9 | whatever else the expression asks, it never accepts fewer than 8 code units or a line terminator |
| Password.RegexMeansRule | routes/users-routes.js:9 | the expression accepts a string exactly when it has no line terminator, a lower-case letter, an upper-case letter, a special character and at least 8 code units |
| Password.ShortRejected | routes/users-routes.js:9 | fewer than 8 code units never pass |
| Password.LineTerminatorRejected | routes/users-routes.js:9 | a line terminator anywhere fails the expression |
| Password.LongerStillAccepted | routes/users-routes.js:9 | appending to an accepted password keeps it accepted: there is no upper bound |
| Password.CheckPassword | routes/auth-routes.js:8 | the one-pass check answers true exactly when the expression matches |
| Password.Utf16Length | routes/auth-routes.js:8 | the length the expression sees is the character count plus one per character outside the Basic Multilingual Plane |
| Password.Utf16Bmp | routes/auth-routes.js:8 | characters below U+10000 are their own code units |
| Password.SevenCharactersCanPass | routes/auth-routes.js:8 | a 7-character password passes when one character lies outside the Basic Multilingual Plane |
| Routes.Passes | routes/projects-routes.js:19-23 | an array fails every validator but `isArray` and `technologies.*`; an absent field fails `notEmpty`, `isArray` and the password expression; `technologies.*` passes anything but an array |
| Routes.ValidateConcat | routes/projects-routes.js:18-24 | two rule lists of one route pass together exactly when each passes |
| Routes.PasswordTestMeaning | routes/users-routes.js:29 | the password check passes exactly for a string satisfying the rule; an absent value fails it |
| Routes.SignupRulesMeaning | routes/auth-routes.js:21-23 | signup validates exactly when the name is non-empty, the email passes the email check and the password satisfies the rule |
| Routes.SignupRulesFillNameAndPassword | routes/auth-routes.js:21-23 | a body that passes signup's rules has a non-empty name and password |
| Routes.LoginRulesMeaning | routes/auth-routes.js:31-32 | login validates exactly when the email passes the email check and the password satisfies the rule |
| Routes.EmailRulesReadOnlyEmail | routes/auth-routes.js:13 | the email route's verdict depends on the email field alone |
| Routes.EditUserRulesMeaning | routes/users-routes.js:26-30 | edit validates exactly when the user id passes, the name has 1 to 32 characters, the email passes, and each password is absent or satisfies the rule |
| Routes.DeleteRulesReadOnlyUserId | routes/projects-routes.js:41 | both delete routes' verdicts depend on the `userId` field alone |
| Routes.ProjectRulesMeaning | routes/projects-routes.js:19-34 | add and edit validate alike: a passing user id, a name of 1 to 32 characters, a description of 20 to 512, and technologies absent or an array of numeric values |
| Routes.ProtectedByVerb | routes/projects-routes.js:9-15 | a router whose open routes are all GETs and whose guarded routes are all writes protects exactly its writes |
| Routes.UsersRouterReadsArePublic | routes/users-routes.js:11-23 | in the users router an endpoint needs a token exactly when it is not a GET |
| Routes.ProjectsRouterReadsArePublic | routes/projects-routes.js:9-38 | in the projects router an endpoint needs a token exactly when it is not a GET |
| Routes.AuthRouterOpen | routes/auth-routes.js:10-35 | the auth router protects nothing |

## Left out

- Startup and wiring (`index.js`, `routes/favorites-routes.js`) are not modelled. This
  covers CORS, the error middleware and the favourites router's numeric check, which the
  handler guards already cover.
- Connection acquire and release, and all async plumbing, are not modelled.
- `getUsersName` and `getTechnologies` are not modelled. They are plain reads that only
  shape the response.
- JWT signing and verification are not modelled: the token's user id is a parameter.
- bcrypt, md5, express-validator's `isEmail`, `isNumeric` and `isLength`, and the
  `escape` sanitizer are functions passed in, with no properties assumed.
- Concurrency is not modelled: the check-then-insert race of the favourite adds needs
  two interleaved requests, and every handler here runs alone.
- Timestamps (`createdAt`, `updatedAt = DEFAULT`) are not modelled. The listing entries
  carry no dates.
- Ids are mathematical integers. JavaScript's `+req.params` coercion, NaN, and strict
  `!==` between a string and a number are not modelled.
- String comparison is exact. MySQL's default collation compares emails case- and
  trailing-space-insensitively; that is not modelled.
- Tables carry no foreign-key, UNIQUE or ON DELETE CASCADE constraints. A constraint
  rejection is representable only as a `Fault` on the statement it rejects; which
  statements a real schema would reject is not modelled.
- AUTO_INCREMENT is modelled as a counter that only moves on commit. MySQL also consumes
  an id in a rolled-back insert; that gap is not modelled.
- Auth: `executeQuery` swallows database errors and returns `undefined`. The next
  `results.length` then throws inside the async handler but outside any try/catch, and
  the request gets no response. The auth handlers are therefore modelled without
  statement failures.
- Projects.EditProject: in the code, `getProjectCreatorId` throws outside the `try`,
  and the request gets no response. The model answers 404 for a missing project and 500
  for a failed lookup.
- Projects.GetProjects: the code's error branch builds `HttpError('Error')` with no code.
  It is modelled as 500, as is the same branch of the other two listings.
- Routes.Passes: an array value fails every standard validator (`notEmpty`, `isNumeric`,
  `isEmail`, `isLength`, `matches`). express-validator may instead apply such a
  validator to each element of an array; that reading is not modelled. The meaning
  lemmas of the signup, login, edit-user and project rule tables rest on this choice.
- Routes.Passes: `check('technologies.*')` visits array elements only. What it does with
  a non-array value is not modelled, because the preceding `isArray` rejects such a
  value anyway.
- Projects.GetProjects, Projects.GetProjectsByUserId, Projects.GetProjectById: the
  joined rows are a parameter and are not tied to the store. Which rows, and how many,
  their queries return is not modelled; only the favourites query is
  (`Favorites.FavoritesQuery`).
- Favorites.FavoritesFromStore: states which projects are listed, not how many entries
  each technology list holds. A mark stored twice joins every row twice, so each
  technology would be listed twice; that count is not proved.
- Routes.ProjectRulesMeaning: the `isLength` count is a function passed in. express-validator
  counts characters, with special handling of some code points; that count is not
  modelled.
- The two route files each declare the same expression text. The model states it once
  (`Password.RegexPassword`) and uses it for both.
