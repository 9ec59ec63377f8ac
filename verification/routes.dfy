/** The routers: which endpoints sit behind the token check, and the field rules each
    route validates before its handler runs. The handlers receive the verdict as their
    `valid` argument. Email syntax, numeric syntax and express-validator's length count
    are not modelled and arrive as functions. */
module Routes {
  import opened Wrappers
  import Password

  // ---------------------------------------------------------------------------
  // Request bodies and validators

  /** A body field: absent, a string, or an array of strings. */
  datatype Field = Absent | Text(value: string) | Items(values: seq<string>)

  type Body = map<string, Field>

  function FieldOf(b: Body, name: string): Field {
    if name in b then b[name] else Absent
  }

  /** The string a standard validator reads: an absent field reads as the empty string. */
  function Str(f: Field): string {
    if f.Text? then f.value else ""
  }

  /** The validators whose internals are left out. */
  datatype Checks = Checks(isEmail: string -> bool, isNumeric: string -> bool, length: string -> nat)

  /** The validators the routes chain. */
  datatype Test =
    | NotEmpty
    | IsNumeric
    | IsEmail
    | MaxLength(max: nat)
    | LengthBetween(min: nat, max: nat)
    | MatchesPassword
    | IsArray
    | EachNumeric

  /** Whether one validator accepts a field. `EachNumeric` is `check('technologies.*')`:
      it visits the array's elements and nothing else. An array fails every validator but
      the two array ones; an absent field reads as the empty string, which is empty, no
      array, and too short for the password expression. */
  predicate Passes(t: Test, f: Field, c: Checks): (ok: bool)
    ensures f.Items? && !t.IsArray? && !t.EachNumeric? ==> !ok
    ensures f.Absent? && (t.NotEmpty? || t.IsArray? || t.MatchesPassword?) ==> !ok
    ensures !f.Items? && t.EachNumeric? ==> ok
  {
    Password.Utf16Length("");
    Password.ShortRejected(Password.Utf16(""));
    match t
    case NotEmpty => !f.Items? && |Str(f)| > 0
    case IsNumeric => !f.Items? && c.isNumeric(Str(f))
    case IsEmail => !f.Items? && c.isEmail(Str(f))
    case MaxLength(max) => !f.Items? && c.length(Str(f)) <= max
    case LengthBetween(min, max) => !f.Items? && min <= c.length(Str(f)) <= max
    case MatchesPassword => !f.Items? && Password.RegexPassword(Password.Utf16(Str(f)))
    case IsArray => f.Items?
    case EachNumeric => f.Items? ==> forall i :: 0 <= i < |f.values| ==> c.isNumeric(f.values[i])
  }

  /** `check(field)[.optional()].test1().test2()...`. */
  datatype Rule = Rule(field: string, optional: bool, tests: seq<Test>)

  /** `.optional()` skips an absent field; otherwise every test must pass. */
  predicate RulePasses(r: Rule, b: Body, c: Checks) {
    (r.optional && FieldOf(b, r.field).Absent?) || forall t :: t in r.tests ==> Passes(t, FieldOf(b, r.field), c)
  }

  /** A chain of one or two tests passes when its first and its last test do. */
  lemma ShortChain(r: Rule, b: Body, c: Checks)
    requires 1 <= |r.tests| <= 2
    ensures RulePasses(r, b, c) <==>
              (r.optional && FieldOf(b, r.field).Absent?)
              || (Passes(r.tests[0], FieldOf(b, r.field), c) && Passes(r.tests[|r.tests| - 1], FieldOf(b, r.field), c))
  {
    assert r.tests[0] in r.tests && r.tests[|r.tests| - 1] in r.tests;
    assert forall t :: t in r.tests ==> t == r.tests[0] || t == r.tests[|r.tests| - 1];
  }

  /** `validationResult(req).isEmpty()`: every rule passes. */
  predicate Validate(rules: seq<Rule>, b: Body, c: Checks) {
    forall r :: r in rules ==> RulePasses(r, b, c)
  }

  /** Two rule lists chained on one route pass together exactly when each passes. */
  lemma ValidateConcat(a: seq<Rule>, b: seq<Rule>, body: Body, c: Checks)
    ensures Validate(a + b, body, c) <==> Validate(a, body, c) && Validate(b, body, c)
  {
  }

  // ---------------------------------------------------------------------------
  // The rule tables

  const UserIdRule := Rule("userId", false, [NotEmpty, IsNumeric])

  const EmailRules := [Rule("email", false, [IsEmail])]

  const SignupRules := [
    Rule("name", false, [NotEmpty]),
    Rule("email", false, [IsEmail]),
    Rule("password", false, [MatchesPassword])]

  const LoginRules := [
    Rule("email", false, [IsEmail]),
    Rule("password", false, [MatchesPassword])]

  const DeleteUserRules := [UserIdRule]

  const EditUserRules := [
    UserIdRule,
    Rule("name", false, [NotEmpty, MaxLength(32)]),
    Rule("email", false, [IsEmail]),
    Rule("currentPassword", true, [MatchesPassword]),
    Rule("newPassword", true, [MatchesPassword])]

  const AddProjectRules := [
    UserIdRule,
    Rule("projectName", false, [NotEmpty, MaxLength(32)]),
    Rule("projectDesc", false, [LengthBetween(20, 512)]),
    Rule("technologies", true, [IsArray]),
    Rule("technologies", true, [EachNumeric])]

  const EditProjectRules := [
    UserIdRule,
    Rule("projectName", false, [NotEmpty, MaxLength(32)]),
    Rule("projectDesc", false, [LengthBetween(20, 512)]),
    Rule("technologies", true, [IsArray]),
    Rule("technologies", true, [EachNumeric])]

  const DeleteProjectRules := [UserIdRule]

  // ---------------------------------------------------------------------------
  // What the tables mean

  /** The password value passes the rule: a string, read as UTF-16, with the meaning the
      password module proves for the expression. */
  predicate PasswordOk(f: Field) {
    f.Text? && Password.PasswordRule(Password.Utf16(f.value))
  }

  lemma PasswordTestMeaning(f: Field, c: Checks)
    ensures Passes(MatchesPassword, f, c) <==> (PasswordOk(f) || (f.Absent? && Password.RegexPassword([])))
    ensures !Password.RegexPassword([])
  {
    Password.RegexMeansRule(Password.Utf16(Str(f)));
    Password.ShortRejected([]);
  }

  /** Signup: a non-empty name, an email the email check accepts, and a password
      satisfying the rule. */
  lemma SignupRulesMeaning(b: Body, c: Checks)
    ensures Validate(SignupRules, b, c) <==>
              && FieldOf(b, "name").Text? && |FieldOf(b, "name").value| > 0
              && !FieldOf(b, "email").Items? && c.isEmail(Str(FieldOf(b, "email")))
              && PasswordOk(FieldOf(b, "password"))
  {
    PasswordTestMeaning(FieldOf(b, "password"), c);
    ShortChain(SignupRules[0], b, c);
    ShortChain(SignupRules[1], b, c);
    ShortChain(SignupRules[2], b, c);
    assert Validate(SignupRules, b, c) <==>
             RulePasses(SignupRules[0], b, c) && RulePasses(SignupRules[1], b, c) && RulePasses(SignupRules[2], b, c);
  }

  /** Login applies the same password rule as signup, before any lookup. */
  lemma LoginRulesMeaning(b: Body, c: Checks)
    ensures Validate(LoginRules, b, c) <==>
              && !FieldOf(b, "email").Items? && c.isEmail(Str(FieldOf(b, "email")))
              && PasswordOk(FieldOf(b, "password"))
  {
    PasswordTestMeaning(FieldOf(b, "password"), c);
    ShortChain(LoginRules[0], b, c);
    ShortChain(LoginRules[1], b, c);
    assert Validate(LoginRules, b, c) <==> RulePasses(LoginRules[0], b, c) && RulePasses(LoginRules[1], b, c);
  }

  /** The email probe validates the email field and nothing else. */
  lemma EmailRulesReadOnlyEmail(b1: Body, b2: Body, c: Checks)
    requires FieldOf(b1, "email") == FieldOf(b2, "email")
    ensures Validate(EmailRules, b1, c) <==> Validate(EmailRules, b2, c)
  {
    assert Validate(EmailRules, b1, c) <==> RulePasses(EmailRules[0], b1, c);
    assert Validate(EmailRules, b2, c) <==> RulePasses(EmailRules[0], b2, c);
  }

  /** Both delete routes validate the body's `userId` and nothing else. */
  lemma DeleteRulesReadOnlyUserId(b1: Body, b2: Body, c: Checks)
    requires FieldOf(b1, "userId") == FieldOf(b2, "userId")
    ensures Validate(DeleteUserRules, b1, c) <==> Validate(DeleteUserRules, b2, c)
    ensures Validate(DeleteProjectRules, b1, c) <==> Validate(DeleteProjectRules, b2, c)
  {
    assert Validate(DeleteUserRules, b1, c) <==> RulePasses(UserIdRule, b1, c);
    assert Validate(DeleteUserRules, b2, c) <==> RulePasses(UserIdRule, b2, c);
  }

  /** Profile edit: a numeric user id, a name of 1 to 32 characters, a valid email, and
      each password checked against the rule only when it is present. */
  lemma EditUserRulesMeaning(b: Body, c: Checks)
    ensures Validate(EditUserRules, b, c) <==>
              && RulePasses(UserIdRule, b, c)
              && FieldOf(b, "name").Text? && |FieldOf(b, "name").value| > 0 && c.length(FieldOf(b, "name").value) <= 32
              && !FieldOf(b, "email").Items? && c.isEmail(Str(FieldOf(b, "email")))
              && (FieldOf(b, "currentPassword").Absent? || PasswordOk(FieldOf(b, "currentPassword")))
              && (FieldOf(b, "newPassword").Absent? || PasswordOk(FieldOf(b, "newPassword")))
  {
    PasswordTestMeaning(FieldOf(b, "currentPassword"), c);
    PasswordTestMeaning(FieldOf(b, "newPassword"), c);
    ShortChain(EditUserRules[0], b, c);
    ShortChain(EditUserRules[1], b, c);
    ShortChain(EditUserRules[2], b, c);
    ShortChain(EditUserRules[3], b, c);
    ShortChain(EditUserRules[4], b, c);
    assert Validate(EditUserRules, b, c) <==>
             && RulePasses(EditUserRules[0], b, c) && RulePasses(EditUserRules[1], b, c)
             && RulePasses(EditUserRules[2], b, c) && RulePasses(EditUserRules[3], b, c)
             && RulePasses(EditUserRules[4], b, c);
  }

  /** Project payloads, for add and edit alike: a numeric user id, a name of 1 to 32
      characters, a description of 20 to 512, and technologies either absent or an array
      of numeric values. */
  lemma ProjectRulesMeaning(b: Body, c: Checks)
    ensures Validate(AddProjectRules, b, c) <==> Validate(EditProjectRules, b, c)
    ensures Validate(AddProjectRules, b, c) <==>
              && RulePasses(UserIdRule, b, c)
              && FieldOf(b, "projectName").Text? && |FieldOf(b, "projectName").value| > 0
              && c.length(FieldOf(b, "projectName").value) <= 32
              && !FieldOf(b, "projectDesc").Items? && 20 <= c.length(Str(FieldOf(b, "projectDesc"))) <= 512
              && (FieldOf(b, "technologies").Absent?
                  || (FieldOf(b, "technologies").Items?
                      && forall i :: 0 <= i < |FieldOf(b, "technologies").values| ==>
                           c.isNumeric(FieldOf(b, "technologies").values[i])))
  {
    ShortChain(AddProjectRules[0], b, c);
    ShortChain(AddProjectRules[1], b, c);
    ShortChain(AddProjectRules[2], b, c);
    ShortChain(AddProjectRules[3], b, c);
    ShortChain(AddProjectRules[4], b, c);
    assert Validate(AddProjectRules, b, c) <==>
             && RulePasses(AddProjectRules[0], b, c) && RulePasses(AddProjectRules[1], b, c)
             && RulePasses(AddProjectRules[2], b, c) && RulePasses(AddProjectRules[3], b, c)
             && RulePasses(AddProjectRules[4], b, c);
  }

  /** A body that passes signup's rules has a non-empty name and a non-empty password, so
      the handler's own missing-field branch is reachable only through the email. */
  lemma SignupRulesFillNameAndPassword(b: Body, c: Checks)
    requires Validate(SignupRules, b, c)
    ensures FieldOf(b, "name").Text? && FieldOf(b, "name").value != ""
    ensures FieldOf(b, "password").Text? && FieldOf(b, "password").value != ""
  {
    SignupRulesMeaning(b, c);
    if FieldOf(b, "password").value == "" {
      Password.ShortRejected(Password.Utf16(""));
      Password.RegexMeansRule(Password.Utf16(""));
    }
  }

  // ---------------------------------------------------------------------------
  // Which endpoints need a token

  datatype Verb = GET | POST | PATCH | DELETE

  datatype Route = Route(verb: Verb, path: string)

  /** A router: the routes declared before `router.use(checkAuth)` and those after. */
  datatype Router = Router(open: seq<Route>, guarded: seq<Route>)

  /** An endpoint needs a token exactly when it is declared after the token check. */
  predicate Protected(r: Router, route: Route) {
    route in r.guarded && route !in r.open
  }

  const UsersRouter := Router(
    [Route(GET, "/getUsersName"), Route(GET, "/:uid")],
    [Route(DELETE, "/deleteUser/:uid"), Route(PATCH, "/:uid/edit")])

  const ProjectsRouter := Router(
    [Route(GET, "/getProjects"), Route(GET, "/getProjects/:uid"), Route(GET, "/getTechnologies"),
     Route(GET, "/getProject/:pid")],
    [Route(POST, "/addProject"), Route(PATCH, "/editProject/:pid"), Route(DELETE, "/deleteProject/:pid")])

  const AuthRouter := Router(
    [Route(POST, "/email"), Route(POST, "/signup"), Route(POST, "/login")],
    [])

  /** A router whose open routes are all reads and whose guarded routes are all writes
      protects exactly its writes. */
  lemma ProtectedByVerb(r: Router)
    requires forall x :: x in r.open ==> x.verb == GET
    requires forall x :: x in r.guarded ==> x.verb != GET
    ensures forall route :: route in r.open + r.guarded ==> (Protected(r, route) <==> route.verb != GET)
  {
  }

  /** In the users router the public endpoints are exactly the GETs. */
  lemma UsersRouterReadsArePublic()
    ensures forall route :: route in UsersRouter.open + UsersRouter.guarded ==>
              (Protected(UsersRouter, route) <==> route.verb != GET)
  {
    var r := UsersRouter;
    assert forall x :: x in r.open ==> x.verb == GET;
    assert forall x :: x in r.guarded ==> x.verb != GET;
    ProtectedByVerb(r);
  }

  /** In the projects router the public endpoints are exactly the GETs. */
  lemma ProjectsRouterReadsArePublic()
    ensures forall route :: route in ProjectsRouter.open + ProjectsRouter.guarded ==>
              (Protected(ProjectsRouter, route) <==> route.verb != GET)
  {
    var r := ProjectsRouter;
    assert forall x :: x in r.open ==> x.verb == GET;
    assert forall x :: x in r.guarded ==> x.verb != GET;
    ProtectedByVerb(r);
  }

  /** The auth router declares no token check, so it protects nothing. */
  lemma AuthRouterOpen()
    ensures forall route :: !Protected(AuthRouter, route)
  {
  }
}
