/** The older single-module application (app/routes.py). Its judges sign
    in with a shared-password form that stores `is_judge`, `judge_id` and
    `is_admin` in the session; the submission window is a pair of fixed
    instants; and its handlers guard themselves by reading the session. The
    ballot order, the vote replacement, the results and the admin rules are
    the ones of the newer application, reused here. */
module Routes {
  import opened Wrappers
  import opened Seqs
  import opened Text
  import opened Models
  import opened Store
  import opened Ballot
  import Votes
  import opened Results
  import Admin

  // The fixed submission window.

  /** 2024-12-28 12:11:00 at UTC-8, in seconds since the epoch. */
  const SubmissionStart: int := 1735416660
  /** 2025-02-28 23:59:59 at UTC-8, in seconds since the epoch. */
  const SubmissionEnd: int := 1740815999

  /** `is_submission_open` of the older application. */
  function IsSubmissionOpenFixed(now: int): bool {
    SubmissionStart <= now <= SubmissionEnd
  }

  /** The fixed window is the newer check with a single period of the same
      bounds: the same instants are open. */
  lemma FixedWindowIsOnePeriod(id: nat, now: int)
    ensures IsSubmissionOpenFixed(now) == Admin.IsSubmissionOpen([SubmissionPeriod(id, SubmissionStart, SubmissionEnd)], now)
  {
    var ps := [SubmissionPeriod(id, SubmissionStart, SubmissionEnd)];
    assert ps[1..] == [];
  }

  /** Both ends are included: open at the first and the last second, closed
      one second outside either. */
  lemma FixedWindowBounds()
    ensures IsSubmissionOpenFixed(SubmissionStart) && IsSubmissionOpenFixed(SubmissionEnd)
    ensures !IsSubmissionOpenFixed(SubmissionStart - 1) && !IsSubmissionOpenFixed(SubmissionEnd + 1)
    ensures IsSubmissionOpenFixed(1739620800)
  {
  }

  // The session.

  /** The `judge_id` the session holds: none, a value that is not an
      integer, or an id. */
  datatype SessionJudgeId = Missing | NotAnInt | JudgeId(id: nat)

  /** The signed session cookie of a browser. */
  class Session {
    var isJudge: bool
    var judgeId: SessionJudgeId
    var isAdmin: bool

    constructor ()
      ensures !isJudge && judgeId == Missing && !isAdmin
    {
      isJudge, judgeId, isAdmin := false, Missing, false;
    }
  }

  /** The guard of the admin pages: both session flags set. */
  predicate AdminSession(isJudge: bool, isAdmin: bool) {
    isJudge && isAdmin
  }

  // Signing in.

  /** The condition "the stored hash matches the password", with the hash
      check of the password library as a parameter. */
  function Matches(password: string, check: (string, string) -> bool): Judge -> bool {
    (j: Judge) => check(j.passwordHash, password)
  }

  /** The first judge, in table order, whose hash matches the password. */
  function FirstMatch(judges: seq<Judge>, password: string, check: (string, string) -> bool): (r: Option<Judge>)
    ensures r.None? <==> forall i :: 0 <= i < |judges| ==> !check(judges[i].passwordHash, password)
    ensures r.Some? ==> exists i ::
      && 0 <= i < |judges| && judges[i] == r.value
      && check(r.value.passwordHash, password)
      && forall k :: 0 <= k < i ==> !check(judges[k].passwordHash, password)
  {
    match FirstIndex(judges, Matches(password, check))
    case None => None
    case Some(i) => Some(judges[i])
  }

  /** The loop over the judges of `validate_judge_password`. */
  method FindJudgeByPassword(judges: seq<Judge>, password: string, check: (string, string) -> bool) returns (found: Option<Judge>)
    ensures found == FirstMatch(judges, password, check)
  {
    var i := 0;
    while i < |judges|
      invariant 0 <= i <= |judges|
      invariant forall k :: 0 <= k < i ==> !check(judges[k].passwordHash, password)
    {
      if check(judges[i].passwordHash, password) {
        return Some(judges[i]);
      }
      i := i + 1;
    }
    return None;
  }

  datatype LoginOutcome =
    | FormInvalid             // redirect to the password page
    | AdminCreated(admin: Judge) // redirect to the admin page
      /** No admin exists but a judge is already named "admin": the insert
          breaks the unique name and the request fails with 500. */
    | CreateFailed
    | LoggedIn(judge: Judge)  // redirect to the admin page or to the ballot
    | Rejected                // redirect to the password page

  /** `validate_judge_password` on the store: while no admin exists the
      first valid password creates the admin "admin"; afterwards the first
      judge whose hash matches signs in. `newHash` is the salted hash the
      library makes of the password. */
  function Login(t: Tables, formValid: bool, password: string, newHash: string, check: (string, string) -> bool): (Tables, LoginOutcome) {
    if !formValid then (t, FormInvalid)
    else if First(t.judges, (j: Judge) => j.isAdmin).None? then
      match Admin.AddJudgeTo(t, "admin", newHash, true)
      case (_, AlreadyExists(_)) => (t, CreateFailed)
      case (t', Added(a)) => (t', AdminCreated(a))
    else
      match FirstMatch(t.judges, password, check)
      case None => (t, Rejected)
      case Some(j) => (t, LoggedIn(j))
  }

  method ValidateJudgePassword(db: Database, session: Session, formValid: bool, password: string, newHash: string,
                               check: (string, string) -> bool) returns (outcome: LoginOutcome)
    requires db.Valid()
    modifies db, session
    ensures (db.Contents(), outcome) == Login(old(db.Contents()), formValid, password, newHash, check)
    ensures outcome.AdminCreated? ==> session.isJudge && session.judgeId == JudgeId(outcome.admin.id) && session.isAdmin
    ensures outcome.LoggedIn? ==>
      session.isJudge && session.judgeId == JudgeId(outcome.judge.id) && session.isAdmin == outcome.judge.isAdmin
    ensures !outcome.AdminCreated? && !outcome.LoggedIn? ==> unchanged(session)
    ensures db.Valid()
  {
    if !formValid {
      return FormInvalid;
    }
    var admin := First(db.judges, (j: Judge) => j.isAdmin);
    if admin.None? {
      var added := Admin.AddJudge(db, "admin", newHash, true);
      if added.AlreadyExists? {
        return CreateFailed;
      }
      session.isJudge, session.judgeId, session.isAdmin := true, JudgeId(added.row.id), true;
      return AdminCreated(added.row);
    }
    var found := FindJudgeByPassword(db.judges, password, check);
    if found.None? {
      return Rejected;
    }
    session.isJudge, session.judgeId, session.isAdmin := true, JudgeId(found.value.id), found.value.isAdmin;
    return LoggedIn(found.value);
  }

  /** The admin is created only while there is none, and is then the one
      admin, named "admin"; every other outcome leaves the store as it was,
      and a sign-in names the first judge whose hash matches. */
  lemma LoginRules(t: Tables, formValid: bool, password: string, newHash: string, check: (string, string) -> bool)
    requires Integrity(t)
    ensures var (t', out) := Login(t, formValid, password, newHash, check);
      && Integrity(t')
      && (out.AdminCreated? ==>
            && (forall j :: j in t.judges ==> !j.isAdmin)
            && t'.judges == t.judges + [out.admin]
            && out.admin.name == "admin" && out.admin.isAdmin && out.admin.passwordHash == newHash)
      && (!out.AdminCreated? ==> t' == t)
      && (out.LoggedIn? ==> (exists j :: j in t.judges && j.isAdmin) && Some(out.judge) == FirstMatch(t.judges, password, check))
      && (out.Rejected? <==>
            formValid && (exists j :: j in t.judges && j.isAdmin)
            && forall i :: 0 <= i < |t.judges| ==> !check(t.judges[i].passwordHash, password))
  {
    Admin.AddJudgeSoundness(t, "admin", newHash, true);
    var (t', out) := Login(t, formValid, password, newHash, check);
    if out.AdminCreated? {
      forall j | j in t.judges ensures !j.isAdmin {
        var i :| 0 <= i < |t.judges| && t.judges[i] == j;
      }
    }
  }

  /** With no admin, no judge named "admin" and a valid form, any password
      creates the admin and signs in as admin. */
  lemma BootstrapCreatesAdmin(t: Tables, password: string, newHash: string, check: (string, string) -> bool)
    requires forall j :: j in t.judges ==> !j.isAdmin && j.name != "admin"
    ensures Login(t, true, password, newHash, check).1.AdminCreated?
  {
    assert !JudgeNameTaken(t.judges, "admin");
  }

  // The ballot.

  /** A request to the ballot: a view, or a post whose `rank` field is
      given ("" when absent). The form is not validated. */
  datatype BallotRequest = Get | Post(rank: string)

  datatype BallotResponse =
    | NotSignedIn      // redirect to the password page
    | InvalidSession   // `judge_id` is not an integer: redirect to the password page
    | Saved            // redirect to the submission-success page
      /** An id without an artwork: the redirect leaves the savepoint
          without a commit, so nothing is stored. */
    | SaveFailed
    | Page(rows: seq<Candidate>)

  /** `judges_ballot` of the older application: the guard on the session,
      the saved-rank order with no random order, and the vote replacement. */
  method JudgesBallotOld(db: Database, session: Session, req: BallotRequest) returns (resp: BallotResponse)
    modifies db
    ensures !session.isJudge ==> resp == NotSignedIn && db.Contents() == old(db.Contents())
    ensures session.isJudge && !session.judgeId.JudgeId? ==> resp == InvalidSession && db.Contents() == old(db.Contents())
    ensures session.isJudge && session.judgeId.JudgeId? && req.Post? && req.rank != "" ==>
      var r := Votes.ReplaceVotes(old(db.votes), old(db.artworks), session.judgeId.id, Split(req.rank, ','));
      && (r.Ok? ==> resp == Saved && db.Contents() == old(db.Contents()).(votes := r.value))
      && (r.Err? ==> resp == SaveFailed && db.Contents() == old(db.Contents()))
    ensures session.isJudge && session.judgeId.JudgeId? && !(req.Post? && req.rank != "") ==>
      && resp == Page(RankedFirst(SavedIds(old(db.votes), session.judgeId.id), AdultCandidates(old(db.Contents()))))
      && db.Contents() == old(db.Contents())
  {
    if !session.isJudge {
      return NotSignedIn;
    }
    if !session.judgeId.JudgeId? {
      return InvalidSession;
    }
    var voter := session.judgeId.id;
    var prepared := RankedFirst(SavedIds(db.votes, voter), AdultCandidates(db.Contents()));
    if req.Post? && req.rank != "" {
      var ok := Votes.SaveRankings(db, voter, Split(req.rank, ','));
      return if ok then Saved else SaveFailed;
    }
    return Page(prepared);
  }

  // The results page, which has no guard.

  datatype ResultsPage = ResultsPage(results: seq<ResultRow>, byArtwork: map<nat, seq<VoteEntry>>, status: JudgesStatus)

  /** `judges_results` of the older application. */
  method JudgesResultsOld(db: Database) returns (page: ResultsPage)
    ensures page.results == VotedResults(db.Contents())
    ensures page.byArtwork == Grouped(VoteRows(db.Contents(), db.votes, true))
    ensures page.status == Status(db.judges, db.votes)
  {
    var t := db.Contents();
    var byArtwork := GroupVotes(VoteRows(t, t.votes, true));
    page := ResultsPage(VotedResults(t), byArtwork, Status(t.judges, t.votes));
  }

  /** The older results list exactly the rows of `AdultResults` whose
      artwork received a vote; an artwork nobody ranked is missing from them
      rather than shown with score 0. */
  lemma OldResultsAreVotedRows(t: Tables)
    ensures forall r :: r in VotedResults(t) <==> r in AdultResults(t) && Voted(t.votes)(r)
  {
    var rows := AdultRows(t, t.artworks);
    var voted := Filter(rows, Voted(t.votes));
    SortByPermutation(rows, RowScore);
    SortByPermutation(voted, RowScore);
    forall r ensures r in VotedResults(t) <==> r in AdultResults(t) && Voted(t.votes)(r) {
      assert r in VotedResults(t) <==> r in multiset(voted);
      assert r in AdultResults(t) <==> r in multiset(rows);
      if r in rows && Voted(t.votes)(r) {
        FilterKeeps(rows, Voted(t.votes), r);
      }
    }
  }

  // The admin pages.

  /** `delete_submission`: 403 unless the session is an admin's, then 404 or
      the cascade with 200. */
  method DeleteSubmissionOld(db: Database, session: Session, id: nat) returns (status: int)
    requires db.Valid()
    modifies db
    ensures !AdminSession(session.isJudge, session.isAdmin) ==> status == 403 && db.Contents() == old(db.Contents())
    ensures AdminSession(session.isJudge, session.isAdmin) && !HasSubmission(old(db.Contents()), id) ==>
      status == 404 && db.Contents() == old(db.Contents())
    ensures AdminSession(session.isJudge, session.isAdmin) && HasSubmission(old(db.Contents()), id) ==>
      status == 200 && db.Contents() == DeleteSubmissionCascade(old(db.Contents()), id)
    ensures db.Valid()
  {
    if !AdminSession(session.isJudge, session.isAdmin) {
      return 403;
    }
    status := Admin.DeleteSubmission(db, id);
  }

  /** `clear_votes`: 403 unless the session is an admin's, then every vote
      goes. */
  method ClearVotesOld(db: Database, session: Session) returns (status: int)
    requires db.Valid()
    modifies db
    ensures !AdminSession(session.isJudge, session.isAdmin) ==> status == 403 && db.Contents() == old(db.Contents())
    ensures AdminSession(session.isJudge, session.isAdmin) ==> status == 200 && db.Contents() == old(db.Contents()).(votes := [])
    ensures db.Valid()
  {
    if !AdminSession(session.isJudge, session.isAdmin) {
      return 403;
    }
    status := Admin.ClearVotes(db);
  }

  /** The posted `action` of the judge forms. */
  datatype JudgeAction =
    | AddJudgeAction(name: string, passwordHash: string, isAdmin: bool)
    | RemoveJudgeAction(id: Option<nat>)
    | NoJudgeAction

  function ApplyJudgeAction(t: Tables, a: JudgeAction): Tables {
    match a
    case AddJudgeAction(name, hash, isAdmin) => Admin.AddJudgeTo(t, name, hash, isAdmin).0
    case RemoveJudgeAction(id) => Admin.RemoveJudgeFrom(t, id).0
    case NoJudgeAction => t
  }

  /** `admin_page` and `manage_judges` of the older application, which
      handle the same two actions behind the same session guard; a refused
      guard redirects to the password page. */
  method ManageJudgesOld(db: Database, session: Session, a: JudgeAction) returns (authorized: bool)
    requires db.Valid()
    modifies db
    ensures authorized <==> AdminSession(session.isJudge, session.isAdmin)
    ensures authorized ==> db.Contents() == ApplyJudgeAction(old(db.Contents()), a)
    ensures !authorized ==> db.Contents() == old(db.Contents())
    ensures db.Valid()
  {
    if !AdminSession(session.isJudge, session.isAdmin) {
      return false;
    }
    match a {
      case AddJudgeAction(name, hash, isAdmin) =>
        var _ := Admin.AddJudge(db, name, hash, isAdmin);
      case RemoveJudgeAction(id) =>
        var _ := Admin.RemoveJudge(db, id);
      case NoJudgeAction =>
    }
    return true;
  }

  /** No judge action removes an admin or breaks the store. */
  lemma JudgeActionSound(t: Tables, a: JudgeAction)
    requires Integrity(t)
    ensures Integrity(ApplyJudgeAction(t, a))
    ensures forall j :: j in t.judges && j.isAdmin ==> j in ApplyJudgeAction(t, a).judges
  {
    match a
    case AddJudgeAction(name, hash, isAdmin) =>
      Admin.AddJudgeSoundness(t, name, hash, isAdmin);
    case RemoveJudgeAction(id) =>
      Admin.RemoveJudgeSoundness(t, id);
    case NoJudgeAction =>
  }

  /** The posted `action` of the badge forms. */
  datatype BadgeAction =
    | AddBadgeAction(name: string, description: string)
    | EditBadgeAction(id: Option<nat>, name: string, description: string)
    | DeleteBadgeAction(id: Option<nat>)
    | UploadCsvAction(upload: Option<Admin.Upload>)
    | NoBadgeAction

  function ApplyBadgeAction(t: Tables, a: BadgeAction): Tables {
    match a
    case AddBadgeAction(name, description) => Admin.AddBadgeTo(t, name, description).0
    case EditBadgeAction(id, name, description) => Admin.EditBadgeIn(t, id, name, description).0
    case DeleteBadgeAction(id) => Admin.DeleteBadgeFrom(t, id).0
    case UploadCsvAction(upload) => Admin.ImportCsvInto(t, upload).0
    case NoBadgeAction => t
  }

  /** `manage_badges` of the older application. */
  method ManageBadgesOld(db: Database, session: Session, a: BadgeAction) returns (authorized: bool)
    requires db.Valid()
    modifies db
    ensures authorized <==> AdminSession(session.isJudge, session.isAdmin)
    ensures authorized ==> db.Contents() == ApplyBadgeAction(old(db.Contents()), a)
    ensures !authorized ==> db.Contents() == old(db.Contents())
    ensures db.Valid()
  {
    if !AdminSession(session.isJudge, session.isAdmin) {
      return false;
    }
    match a {
      case AddBadgeAction(name, description) =>
        var _ := Admin.AddBadge(db, name, description);
      case EditBadgeAction(id, name, description) =>
        var _ := Admin.EditBadge(db, id, name, description);
      case DeleteBadgeAction(id) =>
        var _ := Admin.DeleteBadge(db, id);
      case UploadCsvAction(upload) =>
        var _ := Admin.ImportCsv(db, upload);
      case NoBadgeAction =>
    }
    return true;
  }

  /** No badge action breaks the store. */
  lemma BadgeActionSound(t: Tables, a: BadgeAction)
    requires Integrity(t)
    ensures Integrity(ApplyBadgeAction(t, a))
  {
    match a
    case AddBadgeAction(name, description) =>
      Admin.AddBadgeSoundness(t, name, description);
    case EditBadgeAction(id, name, description) =>
      Admin.EditBadgeSoundness(t, id, name, description);
    case DeleteBadgeAction(id) =>
      Admin.DeleteBadgeSoundness(t, id);
    case UploadCsvAction(upload) =>
      var u := upload;
      if Admin.ImportCsvInto(t, u).1.Imported? {
        Admin.ImportKeepsIntegrity(t, u.value.lines[1..]);
      }
    case NoBadgeAction =>
  }
}
