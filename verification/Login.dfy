/**
 The login dialog of internal/inputhandlers/login.go: its nine steps, their validators from
 login_prompt_handler.go, and the decision taken when the dialog completes.
 */
module Login {
  import opened Common
  import opened Prompts

  // What the dialog asks the rest of the server. It may differ from one call to the next.
  datatype Site = Site(
    nameSizeMin: int,
    emailOnJoin: string,
    lower: string -> string,
    validName: string -> bool,
    validPassword: string -> bool,
    validAddress: string -> bool,
    online: string -> bool,                       // a user of that name is connected
    passwordMatches: (string, string) -> bool,
    knows: string -> bool,
    loads: string -> bool,
    admits: string -> bool,                       // LoginUser succeeds
    creates: (string, string) -> bool)            // SetUsername, SetPassword and CreateUser succeed

  // ---------- validators ----------

  function ValidateNewEntry(input: string, results: Results, site: Site): Option<string> {
    if site.lower(input) == "new" then Some("new")
    else if |input| < site.nameSizeMin then None
    else Some(input)
  }

  function ValidateUsername(input: string, results: Results, site: Site): Option<string> {
    if site.validName(input) then Some(input) else None
  }

  function ValidatePassword(input: string, results: Results, site: Site): Option<string> {
    if site.validPassword(input) then Some(input) else None
  }

  function ValidatePassword2(input: string, results: Results, site: Site): Option<string> {
    if Get(results, "password-new") != input then None else Some(input)
  }

  function ValidateEmail(input: string, results: Results, site: Site): Option<string> {
    if input == "" then (if site.emailOnJoin == "required" then None else Some(""))
    else if site.validAddress(input) then Some(input)
    else None
  }

  function ValidateYesNo(input: string, results: Results, site: Site): Option<string> {
    var clean := site.lower(input);
    if |clean| == 0 then Some("n")
    else if clean[..1] == "y" then Some("y")
    else if clean[..1] == "n" then Some("n")
    else None
  }

  // ---------- the steps ----------

  predicate SigningUp(results: Results) {
    Get(results, "username") == "new"
  }

  function NewOnly(): (Results, Site) -> bool {
    (results: Results, site: Site) => SigningUp(results)
  }

  function LoginSteps(): seq<PromptStep<Site>> {
    [ PromptStep("username", ValidateNewEntry, None),
      PromptStep("password", ValidatePassword, Some((results: Results, site: Site) => !SigningUp(results))),
      PromptStep("kickuser", ValidateYesNo,
                 Some((results: Results, site: Site) =>
                        !SigningUp(results) && site.online(Get(results, "username")) &&
                        site.passwordMatches(Get(results, "username"), Get(results, "password")))),
      PromptStep("username-new", ValidateUsername, Some(NewOnly())),
      PromptStep("password-new", ValidatePassword, Some(NewOnly())),
      PromptStep("password-new-verify", ValidatePassword2, Some(NewOnly())),
      PromptStep("email-new", ValidateEmail,
                 Some((results: Results, site: Site) => SigningUp(results) && site.emailOnJoin != "none")),
      PromptStep("screen-reader-new", ValidateYesNo, Some(NewOnly())),
      PromptStep("confirm_create", ValidateYesNo, Some(NewOnly())) ]
  }

  // The steps by what the proofs need of them
  ghost predicate LoginLike(steps: seq<PromptStep<Site>>) {
    && |steps| == 9
    && (forall i, j :: 0 <= i < j < 9 ==> steps[i].id != steps[j].id)
    && steps[0].id == "username" && steps[4].id == "password-new" && steps[5].id == VERIFY_ID
    && steps[0].condition == None
    && (forall r: Results, w :: Applies(steps[1], r, w) <==> !SigningUp(r))
    && (forall r: Results, w :: Applies(steps[2], r, w) ==> !SigningUp(r))
    && (forall k, r: Results, w :: 3 <= k < 9 && k != 6 ==> (Applies(steps[k], r, w) <==> SigningUp(r)))
    && (forall r: Results, w :: Applies(steps[6], r, w) ==> SigningUp(r))
    && (forall s, r: Results, w :: steps[5].validator(s, r, w).Some? ==> steps[5].validator(s, r, w) == Some(Get(r, steps[4].id)))
  }

  lemma TheIds()
    ensures |LoginSteps()| == 9
    ensures LoginSteps()[0].id == "username" && LoginSteps()[1].id == "password" && LoginSteps()[2].id == "kickuser"
    ensures LoginSteps()[3].id == "username-new" && LoginSteps()[4].id == "password-new" && LoginSteps()[5].id == "password-new-verify"
    ensures LoginSteps()[6].id == "email-new" && LoginSteps()[7].id == "screen-reader-new" && LoginSteps()[8].id == "confirm_create"
  {
  }

  lemma IdsDiffer()
    ensures |LoginSteps()| == 9 && forall i, j :: 0 <= i < j < 9 ==> LoginSteps()[i].id != LoginSteps()[j].id
  {
    hide LoginSteps;
    TheIds();
    assert "username"[0] != "password"[0] && "username"[0] != "kickuser"[0] && "password"[0] != "kickuser"[0];
    assert "username-new"[0] != "password-new"[0];
  }

  lemma LoginStepsLike()
    ensures LoginLike(LoginSteps()) && Wellformed(LoginSteps())
  {
    IdsDiffer();
  }

  // ---------- what the dialog collects ----------

  // The results when the dialog stands before step index
  ghost predicate Collected(steps: seq<PromptStep<Site>>, index: int, results: Results)
    requires |steps| == 9
  {
    && 0 <= index <= 9
    && (index == 0 ==> results == map[])
    && (index >= 1 ==> steps[0].id in results)
    && (index <= 2 ==> steps[2].id !in results)
    && (forall id :: id in results ==> exists j :: 0 <= j < 9 && steps[j].id == id)
    && (SigningUp(results) ==>
          && steps[1].id !in results && steps[2].id !in results
          && (forall j :: 3 <= j < index && j != 6 ==> steps[j].id in results)
          && (index > 5 ==> results[steps[4].id] == results[steps[5].id]))
    && (!SigningUp(results) ==>
          && (index >= 2 ==> steps[1].id in results)
          && (forall j :: 3 <= j < 9 ==> steps[j].id !in results))
  }

  // Moving on to the next step that applies
  lemma AdvanceCollected(steps: seq<PromptStep<Site>>, i: nat, results: Results, w: Site)
    requires LoginLike(steps) && 1 <= i <= 9 && Collected(steps, i, results)
    ensures Collected(steps, FirstApplicable(steps, i, results, w), results)
  {
    SkippedDoNotApply(steps, i, results, w);
    var j := FirstApplicable(steps, i, results, w);
  }

  // Storing the answer to a step that applied, or to the one before a failed verification
  lemma StoreCollected(steps: seq<PromptStep<Site>>, i: nat, results: Results, v: string, input: string, w: Site)
    requires LoginLike(steps) && i < 9 && Collected(steps, i, results) && Asked(i, results)
    requires steps[i].validator(input, results, w) == Some(v)
    ensures Collected(steps, i + 1, results[steps[i].id := v])
  {
    var results' := results[steps[i].id := v];
    if i > 0 {
      assert steps[0].id != steps[i].id;
      assert SigningUp(results') <==> SigningUp(results);
    }
    forall id | id in results'
      ensures exists j :: 0 <= j < 9 && steps[j].id == id
    {
      if id in results {
        var j :| 0 <= j < 9 && steps[j].id == id;
      } else {
        assert steps[i].id == id;
      }
    }
  }

  // The branch of the dialog a step belongs to
  predicate Asked(i: int, results: Results) {
    && (3 <= i < 9 ==> SigningUp(results))
    && (1 <= i < 3 ==> !SigningUp(results))
  }

  ghost predicate LoginState(steps: seq<PromptStep<Site>>, d: Dialog) {
    && LoginLike(steps) && Wellformed(steps) && InBounds(steps, d)
    && (d.phase != Disconnected ==> Collected(steps, d.index, d.results))
    && (d.phase == Waiting ==> Asked(d.index, d.results))
    && (d.phase == Completed ==> d.index == 9)
  }

  lemma SubmitKeepsLoginState(steps: seq<PromptStep<Site>>, d: Dialog, input: string, w: Site)
    requires LoginState(steps, d) && d.phase == Waiting
    ensures LoginState(steps, Submit(steps, d, input, w))
  {
    var v := steps[d.index].validator(input, d.results, w);
    if v.Some? {
      var results := d.results[steps[d.index].id := v.value];
      StoreCollected(steps, d.index, d.results, v.value, input, w);
      AdvanceCollected(steps, d.index + 1, results, w);
      SkippedDoNotApply(steps, d.index + 1, results, w);
    }
  }

  lemma {:induction false} RunKeepsLoginState(w: Site, inputs: seq<(string, Site)>)
    ensures Wellformed(LoginSteps()) && LoginState(LoginSteps(), Run(LoginSteps(), w, inputs))
  {
    hide LoginSteps, LoginLike;
    LoginStepsLike();
    if inputs == [] {
      BeginsAtUsername(LoginSteps(), w);
    } else {
      var n := |inputs| - 1;
      RunKeepsLoginState(w, inputs[..n]);
      var d := Run(LoginSteps(), w, inputs[..n]);
      if d.phase == Waiting {
        SubmitKeepsLoginState(LoginSteps(), d, inputs[n].0, inputs[n].1);
      }
    }
  }

  lemma BeginsAtUsername(steps: seq<PromptStep<Site>>, w: Site)
    requires LoginLike(steps) && Wellformed(steps)
    ensures LoginState(steps, Begin(steps, NoFailures(|steps|), w))
  {
    assert Applies(steps[0], map[], w);
  }

  const SIGN_UP_IDS := {"username", "username-new", "password-new", "password-new-verify", "screen-reader-new", "confirm_create"}

  // A completed dialog has exactly the answers of its branch; the e-mail address is asked for only where
  // the site wants one, and the question about a connected user only if there is one.
  lemma CompletedAnswers(w: Site, inputs: seq<(string, Site)>)
    requires Wellformed(LoginSteps()) && Run(LoginSteps(), w, inputs).phase == Completed
    ensures var r := Run(LoginSteps(), w, inputs).results;
            && (SigningUp(r) ==> SIGN_UP_IDS <= r.Keys <= SIGN_UP_IDS + {"email-new"} && r["password-new"] == r["password-new-verify"])
            && (!SigningUp(r) ==> {"username", "password"} <= r.Keys <= {"username", "password", "kickuser"})
  {
    hide LoginLike, Run, Accepts, Fails;
    RunKeepsLoginState(w, inputs);
    CollectedIds(Run(LoginSteps(), w, inputs).results);
  }

  lemma CollectedIds(r: Results)
    requires Collected(LoginSteps(), 9, r)
    ensures SigningUp(r) ==> SIGN_UP_IDS <= r.Keys <= SIGN_UP_IDS + {"email-new"} && r["password-new"] == r["password-new-verify"]
    ensures !SigningUp(r) ==> {"username", "password"} <= r.Keys <= {"username", "password", "kickuser"}
  {
    hide SigningUp, LoginSteps;
    var steps := LoginSteps();
    TheIds();
    if SigningUp(r) {
      assert forall k :: 3 <= k < 9 && k != 6 ==> steps[k].id in r;
      forall id | id in r
        ensures id in SIGN_UP_IDS + {"email-new"}
      {
        var j :| 0 <= j < 9 && steps[j].id == id;
      }
    } else {
      forall id | id in r
        ensures id in {"username", "password", "kickuser"}
      {
        var j :| 0 <= j < 9 && steps[j].id == id;
        assert j < 3;
      }
    }
  }

  // ---------- the decision ----------

  datatype Outcome = LoggedIn(username: string, kicked: bool)
                   | Created(username: string, password: string, email: string, screenReader: bool)
                   | Refused(kicked: bool)
                   | Crashed   // the user to disconnect is gone

  // The user connected under the name is disconnected before the password is looked at.
  function Kicks(results: Results, site: Site): bool {
    Get(results, "username") != "new" && site.knows(Get(results, "username")) && Get(results, "kickuser") == "y"
  }

  // FinalizeLoginOrCreate; a refusal removes the connection.
  function Finalize(results: Results, site: Site): Outcome {
    var username, kicked := Get(results, "username"), Kicks(results, site);
    if username != "new" then
      if !site.knows(username) then Refused(kicked)
      else if kicked && !site.online(username) then Crashed
      else if !site.loads(username) || !site.passwordMatches(username, Get(results, "password")) || !site.admits(username) then Refused(kicked)
      else LoggedIn(username, kicked)
    else if "confirm_create" !in results || results["confirm_create"] != "y" then Refused(kicked)
    else if site.knows(Get(results, "username-new")) then Refused(kicked)
    else if !site.creates(Get(results, "username-new"), Get(results, "password-new")) then Refused(kicked)
    else Created(Get(results, "username-new"), Get(results, "password-new"), Get(results, "email-new"), Get(results, "screen-reader-new") == "y")
  }

  // The user named was connected and the password was right, at the time of some submission.
  ghost predicate Shown(inputs: seq<(string, Site)>, results: Results) {
    exists k :: 0 <= k < |inputs| && ShownAt(inputs[k].1, results)
  }

  predicate ShownAt(site: Site, results: Results) {
    site.online(Get(results, "username")) && site.passwordMatches(Get(results, "username"), Get(results, "password"))
  }

  lemma ShownLater(inputs: seq<(string, Site)>, results: Results, results': Results)
    requires inputs != [] && Shown(inputs[..|inputs| - 1], results)
    requires Get(results', "username") == Get(results, "username") && Get(results', "password") == Get(results, "password")
    ensures Shown(inputs, results')
  {
    var k :| 0 <= k < |inputs| - 1 && ShownAt(inputs[..|inputs| - 1][k].1, results);
    assert ShownAt(inputs[k].1, results');
  }

  // The question whether to kick is only asked once the password has been right, and its answer is kept
  // with that name and password.
  lemma {:induction false} KickWasAsked(w: Site, inputs: seq<(string, Site)>)
    ensures Wellformed(LoginSteps())
    ensures var d := Run(LoginSteps(), w, inputs);
            (d.phase == Waiting && d.index == 2) || "kickuser" in d.results ==> Shown(inputs, d.results)
  {
    hide Run, LoginLike, Shown, LoginSteps;
    RunKeepsLoginState(w, inputs);
    if inputs == [] {
      FirstQuestion(w);
    } else {
      var n := |inputs| - 1;
      KickWasAsked(w, inputs[..n]);
      RunKeepsLoginState(w, inputs[..n]);
      NextQuestion(w, inputs);
    }
  }

  lemma FirstQuestion(w: Site)
    requires Wellformed(LoginSteps())
    ensures Run(LoginSteps(), w, []).index == 0 && Run(LoginSteps(), w, []).results == map[]
  {
  }

  lemma NextQuestion(w: Site, inputs: seq<(string, Site)>)
    requires inputs != [] && Wellformed(LoginSteps())
    requires var d := Run(LoginSteps(), w, inputs[..|inputs| - 1]);
             LoginState(LoginSteps(), d) &&
             ((d.phase == Waiting && d.index == 2) || "kickuser" in d.results ==> Shown(inputs[..|inputs| - 1], d.results))
    ensures var d := Run(LoginSteps(), w, inputs);
            (d.phase == Waiting && d.index == 2) || "kickuser" in d.results ==> Shown(inputs, d.results)
  {
    hide Run, LoginLike, Shown, LoginSteps, FirstApplicable;
    var n := |inputs| - 1;
    var d, d' := Run(LoginSteps(), w, inputs[..n]), Run(LoginSteps(), w, inputs);
    RunStep(w, inputs);
    TheIds();
    if d.phase == Waiting && Accepted(LoginSteps(), d, inputs[n].0, inputs[n].1) {
      SkippedDoNotApply(LoginSteps(), d.index + 1, d'.results, inputs[n].1);
      if d'.phase == Waiting && d'.index == 2 {
        KickApplies(d'.results, inputs[n].1);
        ShownNow(inputs, d'.results);
      } else if "kickuser" in d'.results {
        AnsweredAt(d, d'.results[LoginSteps()[d.index].id]);
        ShownLater(inputs, d.results, d'.results);
      }
    } else if (d'.phase == Waiting && d'.index == 2) || "kickuser" in d'.results {
      NotFromVerify();
      ShownLater(inputs, d.results, d'.results);
    }
  }

  // Only the step itself stores an answer to the question.
  lemma AnsweredAt(d: Dialog, v: string)
    requires Wellformed(LoginSteps()) && LoginState(LoginSteps(), d) && d.phase == Waiting
    requires "kickuser" in d.results[LoginSteps()[d.index].id := v]
    ensures d.index == 2
  {
    hide LoginLike, LoginSteps;
    LoginStepsLike();
    TheIds();
  }

  // No failure goes back to the question.
  lemma NotFromVerify()
    ensures |LoginSteps()| == 9 && LoginSteps()[3].id != VERIFY_ID
  {
  }

  lemma RunStep(w: Site, inputs: seq<(string, Site)>)
    requires inputs != [] && Wellformed(LoginSteps())
    ensures var n := |inputs| - 1;
            Run(LoginSteps(), w, inputs) == Submit(LoginSteps(), Run(LoginSteps(), w, inputs[..n]), inputs[n].0, inputs[n].1)
  {
    hide LoginSteps, Submit;
  }

  lemma KickApplies(results: Results, site: Site)
    requires |LoginSteps()| == 9 && Applies(LoginSteps()[2], results, site)
    ensures ShownAt(site, results)
  {
  }

  lemma ShownNow(inputs: seq<(string, Site)>, results: Results)
    requires inputs != [] && ShownAt(inputs[|inputs| - 1].1, results)
    ensures Shown(inputs, results)
  {
  }

  // Nobody is kicked by a login that had not shown the right password before - though it may be refused
  // after the kick, when the answer of the site has changed.
  lemma KickedAfterPassword(w: Site, inputs: seq<(string, Site)>, site: Site)
    requires Wellformed(LoginSteps()) && Kicks(Run(LoginSteps(), w, inputs).results, site)
    ensures Shown(inputs, Run(LoginSteps(), w, inputs).results)
  {
    hide LoginSteps, Run, Shown;
    KickWasAsked(w, inputs);
  }

  // A completed dialog crashes exactly when the user it asked to kick is still known but no longer
  // connected - as he was when the question was asked.
  lemma CrashesWhenGone(w: Site, inputs: seq<(string, Site)>, site: Site)
    requires Wellformed(LoginSteps()) && Run(LoginSteps(), w, inputs).phase == Completed
    ensures var r := Run(LoginSteps(), w, inputs).results;
            && (Finalize(r, site) == Crashed <==>
                  "kickuser" in r && r["kickuser"] == "y" && site.knows(Get(r, "username")) && !site.online(Get(r, "username")))
            && (Finalize(r, site) == Crashed ==> Shown(inputs, r))
  {
    hide LoginSteps, Run, Shown;
    CompletedAnswers(w, inputs);
    KickWasAsked(w, inputs);
  }

  // A server where everybody is known and connected and every password is right
  function Open(): Site {
    Site(0, "none", s => s, _ => true, _ => true, _ => true, _ => true, (_, _) => true, _ => true, _ => true, _ => true, (_, _) => true)
  }

  // A user who leaves after the question crashes the login that asked to disconnect him.
  lemma KickedHasLeft()
    ensures Wellformed(LoginSteps())
    ensures var d := Run(LoginSteps(), Open(), [("bob", Open()), ("secret", Open()), ("y", Open())]);
            d.phase == Completed && Finalize(d.results, Open().(online := _ => false)) == Crashed
  {
    hide LoginSteps, FirstApplicable, LoginLike;
    RunKeepsLoginState(Open(), []);
    var one, two, three := [("bob", Open())], [("bob", Open()), ("secret", Open())], [("bob", Open()), ("secret", Open()), ("y", Open())];
    assert one[..0] == [] && two[..1] == one && three[..2] == two;
    TheIds();
    FirstQuestion(Open());
    AnswersTaken();
    var name := map["username" := "bob"];
    var both := name["password" := "secret"];
    AsksNext(1, name);
    AsksNext(2, both);
    NoSignUp(both["kickuser" := "y"]);
    var none: seq<nat> := NoFailures(9);
    assert Run(LoginSteps(), Open(), one) == Dialog(Waiting, 1, name, none);
    assert Run(LoginSteps(), Open(), two) == Dialog(Waiting, 2, both, none);
    assert Run(LoginSteps(), Open(), three) == Dialog(Completed, 9, both["kickuser" := "y"], none);
  }

  lemma AnswersTaken()
    ensures |LoginSteps()| == 9
    ensures LoginSteps()[0].validator("bob", map[], Open()) == Some("bob")
    ensures forall r: Results :: LoginSteps()[1].validator("secret", r, Open()) == Some("secret")
    ensures forall r: Results :: LoginSteps()[2].validator("y", r, Open()) == Some("y")
  {
    assert "bob"[0] != "new"[0];
  }

  lemma AsksNext(i: nat, results: Results)
    requires 1 <= i <= 2 && !SigningUp(results)
    ensures |LoginSteps()| == 9 && FirstApplicable(LoginSteps(), i, results, Open()) == i
  {
  }

  // Without a sign-up nothing is asked after the question whether to kick.
  lemma NoSignUp(results: Results)
    requires !SigningUp(results)
    ensures |LoginSteps()| == 9 && FirstApplicable(LoginSteps(), 3, results, Open()) == 9
  {
    hide FirstApplicable;
    SkippedDoNotApply(LoginSteps(), 3, results, Open());
  }

  // Exactly which question comes first at or after step i, by the answers so far and the site
  lemma NextAsked(i: nat, r: Results, site: Site)
    requires i <= 9
    ensures |LoginSteps()| == 9
    ensures FirstApplicable(LoginSteps(), i, r, site) ==
      if i == 0 then 0
      else if Get(r, "username") == "new" then
        if i <= 3 then 3 else if i == 6 && site.emailOnJoin == "none" then 7 else i
      else if i == 1 then 1
      else if i == 2 && site.online(Get(r, "username")) && site.passwordMatches(Get(r, "username"), Get(r, "password")) then 2
      else 9
  {
    hide FirstApplicable, LoginSteps, Applies;
    AppliesWhen(r, site);
    SkippedDoNotApply(LoginSteps(), i, r, site);
    var next := FirstApplicable(LoginSteps(), i, r, site);
    assert next < 9 ==> Applies(LoginSteps()[next], r, site);
    assert forall k :: i <= k < next ==> !Applies(LoginSteps()[k], r, site);
    assert i == 6 && next > 7 ==> !Applies(LoginSteps()[7], r, site);
    assert next > 3 >= i ==> !Applies(LoginSteps()[3], r, site);
    assert next > i ==> !Applies(LoginSteps()[i], r, site);
  }

  lemma AppliesWhen(r: Results, site: Site)
    ensures |LoginSteps()| == 9 && Applies(LoginSteps()[0], r, site)
    ensures Applies(LoginSteps()[1], r, site) <==> Get(r, "username") != "new"
    ensures Applies(LoginSteps()[2], r, site) <==>
      Get(r, "username") != "new" && site.online(Get(r, "username")) && site.passwordMatches(Get(r, "username"), Get(r, "password"))
    ensures forall k :: 3 <= k < 9 && k != 6 ==> (Applies(LoginSteps()[k], r, site) <==> Get(r, "username") == "new")
    ensures Applies(LoginSteps()[6], r, site) <==> Get(r, "username") == "new" && site.emailOnJoin != "none"
  {
  }

  // A submission for which check holds at that call
  ghost predicate Approved(inputs: seq<(string, Site)>, check: (string, Site) -> bool) {
    exists k :: 0 <= k < |inputs| && check(inputs[k].0, inputs[k].1)
  }

  // What is stored for step j, the step made of one of the submissions.
  lemma StoredFor(w: Site, inputs: seq<(string, Site)>, j: nat) returns (k: nat, r: Results)
    requires j < 9 && |LoginSteps()| == 9 && Wellformed(LoginSteps())
    requires LoginSteps()[j].id in Run(LoginSteps(), w, inputs).results
    ensures k < |inputs|
    ensures LoginSteps()[j].validator(inputs[k].0, r, inputs[k].1) == Some(Run(LoginSteps(), w, inputs).results[LoginSteps()[j].id])
  {
    hide Run, LoginLike, LoginSteps;
    IdsDiffer();
    StoredIsValidated(LoginSteps(), w, inputs);
    var id := LoginSteps()[j].id;
    var value := Run(LoginSteps(), w, inputs).results[id];
    k :| 0 <= k < |inputs| && ValidatedAt(LoginSteps(), w, inputs, k, id, value);
    r := Run(LoginSteps(), w, inputs[..k]).results;
  }

  // What the answers stored for some of the steps say about what was typed
  lemma AnswersStored(s: string, r: Results, a: Site)
    ensures |LoginSteps()| == 9
    ensures LoginSteps()[0].validator(s, r, a) == (if a.lower(s) == "new" then Some("new") else if |s| >= a.nameSizeMin then Some(s) else None)
    ensures LoginSteps()[1].validator(s, r, a) == LoginSteps()[4].validator(s, r, a) == (if a.validPassword(s) then Some(s) else None)
    ensures LoginSteps()[3].validator(s, r, a) == (if a.validName(s) then Some(s) else None)
    ensures LoginSteps()[5].validator(s, r, a) == (if Get(r, "password-new") == s then Some(s) else None)
    ensures LoginSteps()[6].validator(s, r, a) ==
      if (s == "" && a.emailOnJoin != "required") || (s != "" && a.validAddress(s)) then Some(s) else None
    ensures LoginSteps()[2].validator(s, r, a) == LoginSteps()[7].validator(s, r, a) == LoginSteps()[8].validator(s, r, a)
    ensures LoginSteps()[8].validator(s, r, a) == Some("y") <==> SaysYes(s, a)
    ensures LoginSteps()[8].validator(s, r, a) == Some("n") <==> a.lower(s) == "" || a.lower(s)[0] == 'n'
    ensures LoginSteps()[8].validator(s, r, a) in {Some("y"), Some("n"), None}
  {
    assert "y"[0] == 'y' && "n"[0] == 'n';
  }

  predicate SaysYes(s: string, site: Site) {
    site.lower(s) != "" && site.lower(s)[0] == 'y'
  }

  // A completed dialog logs in exactly when the name given is not "new" and is known, loads and is
  // admitted, the password given matches at that call, and the user to disconnect, if any, is there. The
  // name and the password were typed, and so was the yes that disconnects.
  lemma LoggedInByPassword(w: Site, inputs: seq<(string, Site)>, site: Site)
    requires Wellformed(LoginSteps()) && Run(LoginSteps(), w, inputs).phase == Completed
    ensures var r := Run(LoginSteps(), w, inputs).results;
            var name, password, kicked := Get(r, "username"), Get(r, "password"), Get(r, "kickuser") == "y";
            && (Finalize(r, site).LoggedIn? <==>
                  && name != "new" && site.knows(name) && (kicked ==> site.online(name))
                  && site.loads(name) && site.passwordMatches(name, password) && site.admits(name))
            && (Finalize(r, site).LoggedIn? ==>
                  && Finalize(r, site) == LoggedIn(name, kicked)
                  && Approved(inputs, (s: string, a: Site) => s == name && a.lower(s) != "new" && |s| >= a.nameSizeMin)
                  && Approved(inputs, (s: string, a: Site) => s == password && a.validPassword(s))
                  && (kicked ==> Approved(inputs, (s: string, a: Site) => SaysYes(s, a))))
  {
    hide LoginSteps, Run, Accepts, Fails, LoginLike;
    CompletedAnswers(w, inputs);
    TheIds();
    var r := Run(LoginSteps(), w, inputs).results;
    if Finalize(r, site).LoggedIn? {
      var k, r0 := StoredFor(w, inputs, 0);
      AnswersStored(inputs[k].0, r0, inputs[k].1);
      var k1, r1 := StoredFor(w, inputs, 1);
      AnswersStored(inputs[k1].0, r1, inputs[k1].1);
      if Get(r, "kickuser") == "y" {
        var k2, r2 := StoredFor(w, inputs, 2);
        AnswersStored(inputs[k2].0, r2, inputs[k2].1);
      }
    }
  }

  // An account is created exactly when "new" was entered, the sign-up is confirmed, and the name is free
  // and the account accepted at that call. Name, password and e-mail address were typed and passed the
  // site's checks, the password was typed twice, and the confirmation was a yes.
  lemma NewAccount(w: Site, inputs: seq<(string, Site)>, site: Site)
    requires Wellformed(LoginSteps()) && Run(LoginSteps(), w, inputs).phase == Completed
    ensures var r := Run(LoginSteps(), w, inputs).results;
            var name, password, email := Get(r, "username-new"), Get(r, "password-new"), Get(r, "email-new");
            && (Finalize(r, site).Created? <==>
                  Get(r, "username") == "new" && Get(r, "confirm_create") == "y" && !site.knows(name) && site.creates(name, password))
            && (Finalize(r, site).Created? ==>
                  && Finalize(r, site) == Created(name, password, email, Get(r, "screen-reader-new") == "y")
                  && password == Get(r, "password-new-verify")
                  && Approved(inputs, (s: string, a: Site) => s == name && a.validName(s))
                  && Approved(inputs, (s: string, a: Site) => s == password && a.validPassword(s))
                  && Approved(inputs, (s: string, a: Site) => a.lower(s) == "new" || s == "new")
                  && Approved(inputs, (s: string, a: Site) => SaysYes(s, a))
                  && ("email-new" in r ==>
                        Approved(inputs, (s: string, a: Site) => s == email && if s == "" then a.emailOnJoin != "required" else a.validAddress(s))))
  {
    hide LoginSteps, Run, Accepts, Fails, LoginLike;
    CompletedAnswers(w, inputs);
    TheIds();
    var r := Run(LoginSteps(), w, inputs).results;
    if Finalize(r, site).Created? {
      TypedToCreate(w, inputs);
      TypedToConfirm(w, inputs);
    }
  }

  lemma TypedToCreate(w: Site, inputs: seq<(string, Site)>)
    requires |LoginSteps()| == 9 && Wellformed(LoginSteps()) && Run(LoginSteps(), w, inputs).phase == Completed
    requires var r := Run(LoginSteps(), w, inputs).results; SigningUp(r) && SIGN_UP_IDS <= r.Keys
    ensures var r := Run(LoginSteps(), w, inputs).results;
            && Approved(inputs, (s: string, a: Site) => s == Get(r, "username-new") && a.validName(s))
            && Approved(inputs, (s: string, a: Site) => s == Get(r, "password-new") && a.validPassword(s))
            && Approved(inputs, (s: string, a: Site) => a.lower(s) == "new" || s == "new")
  {
    hide LoginSteps, Run, Accepts, Fails, LoginLike, SaysYes;
    TheIds();
    var k0, r0 := StoredFor(w, inputs, 0);
    AnswersStored(inputs[k0].0, r0, inputs[k0].1);
    var k3, r3 := StoredFor(w, inputs, 3);
    AnswersStored(inputs[k3].0, r3, inputs[k3].1);
    var k4, r4 := StoredFor(w, inputs, 4);
    AnswersStored(inputs[k4].0, r4, inputs[k4].1);
  }

  lemma TypedToConfirm(w: Site, inputs: seq<(string, Site)>)
    requires |LoginSteps()| == 9 && Wellformed(LoginSteps()) && Run(LoginSteps(), w, inputs).phase == Completed
    ensures var r := Run(LoginSteps(), w, inputs).results;
            && (Get(r, "confirm_create") == "y" ==> Approved(inputs, (s: string, a: Site) => SaysYes(s, a)))
            && ("email-new" in r ==>
                  Approved(inputs, (s: string, a: Site) =>
                    s == Get(r, "email-new") && if s == "" then a.emailOnJoin != "required" else a.validAddress(s)))
  {
    hide LoginSteps, Run, Accepts, Fails, LoginLike, SaysYes;
    TheIds();
    var r := Run(LoginSteps(), w, inputs).results;
    if Get(r, "confirm_create") == "y" {
      var k8, r8 := StoredFor(w, inputs, 8);
      AnswersStored(inputs[k8].0, r8, inputs[k8].1);
    }
    if "email-new" in r {
      var k6, r6 := StoredFor(w, inputs, 6);
      AnswersStored(inputs[k6].0, r6, inputs[k6].1);
    }
  }
}
