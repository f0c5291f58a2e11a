/** The administration side of the newer application (app/admin.py): the
    submission-window check, the admin guard, the judge and badge
    management handlers with the CSV badge import, the results page, and the
    delete-submission and clear-votes actions. */
module Admin {
  import opened Wrappers
  import opened Seqs
  import opened Models
  import opened Store
  import opened Results

  // The submission window.

  /** `SubmissionPeriod.query.order_by(SubmissionPeriod.id.desc()).first()` */
  function LatestPeriod(periods: seq<SubmissionPeriod>): (r: Option<SubmissionPeriod>)
    ensures r.None? <==> periods == []
    ensures r.Some? ==> r.value in periods && forall p :: p in periods ==> p.id <= r.value.id
  {
    if periods == [] then None
    else
      match LatestPeriod(periods[1..])
      case None => Some(periods[0])
      case Some(q) => if q.id > periods[0].id then Some(q) else Some(periods[0])
  }

  /** `is_submission_open`: the latest period is open at `now` when now lies
      between its start and its end, both included. */
  function IsSubmissionOpen(periods: seq<SubmissionPeriod>, now: int): bool {
    match LatestPeriod(periods)
    case None => false
    case Some(p) => p.start <= now <= p.end
  }

  /** Open exactly when some period with the highest id holds `now` within
      its inclusive bounds; with no period, never open. */
  lemma SubmissionOpenMeaning(periods: seq<SubmissionPeriod>, now: int)
    requires forall p, q :: p in periods && q in periods && p.id == q.id ==> p == q
    ensures periods == [] ==> !IsSubmissionOpen(periods, now)
    ensures IsSubmissionOpen(periods, now) <==>
      exists p :: p in periods && (forall q :: q in periods ==> q.id <= p.id) && p.start <= now <= p.end
  {
    if IsSubmissionOpen(periods, now) {
      assert LatestPeriod(periods).value in periods;
    }
  }

  /** Only the latest period counts: an older period, however wide, changes
      nothing. */
  lemma OlderPeriodIgnored(periods: seq<SubmissionPeriod>, older: SubmissionPeriod, now: int)
    requires periods != [] && older.id < LatestPeriod(periods).value.id
    ensures IsSubmissionOpen([older] + periods, now) == IsSubmissionOpen(periods, now)
  {
    assert ([older] + periods)[1..] == periods;
  }

  /** A February window: open in the middle, closed one second after its
      end, open at its first and at its last second. */
  lemma SubmissionWindowExample()
    ensures var ps := [SubmissionPeriod(1, 1738368000, 1740787199)];
      && IsSubmissionOpen(ps, 1739620800)
      && !IsSubmissionOpen(ps, 1740787200)
      && IsSubmissionOpen(ps, 1738368000) && IsSubmissionOpen(ps, 1740787199)
      && !IsSubmissionOpen(ps, 1738367999)
  {
    var ps := [SubmissionPeriod(1, 1738368000, 1740787199)];
    assert LatestPeriod(ps) == Some(ps[0]) by {
      assert ps[1..] == [];
    }
  }

  /** The status the admin page shows. */
  function SubmissionStatus(periods: seq<SubmissionPeriod>, now: int): (s: string)
    ensures s == "Open" <==> IsSubmissionOpen(periods, now)
    ensures s == "Open" || s == "Closed"
  {
    if IsSubmissionOpen(periods, now) then "Open" else "Closed"
  }

  // The admin guard.

  /** The signed-in user of the request, if any. */
  datatype CurrentUser = Anonymous | SignedIn(user: Judge)

  /** What the guard decides: run the view, or redirect to the login page
      with a flashed message and its category. */
  datatype Guard = Allow | Redirect(endpoint: string, message: string, category: string)

  /** `admin_required` */
  function AdminRequired(u: CurrentUser): Guard {
    if u.Anonymous? then Redirect("auth.judges", "Please log in to access this page.", "warning")
    else if !u.user.isAdmin then Redirect("auth.judges", "Unauthorized access. Admin privileges required.", "danger")
    else Allow
  }

  /** Only a signed-in admin reaches the view; everyone else is sent to the
      login page, a stranger with a warning and a non-admin with an error. */
  lemma AdminRequiredDecides(u: CurrentUser)
    ensures AdminRequired(u) == Allow <==> u.SignedIn? && u.user.isAdmin
    ensures AdminRequired(u).Redirect? ==> AdminRequired(u).endpoint == "auth.judges"
    ensures u.Anonymous? ==> AdminRequired(u).Redirect? && AdminRequired(u).category == "warning"
    ensures u.SignedIn? && !u.user.isAdmin ==> AdminRequired(u).Redirect? && AdminRequired(u).category == "danger"
  {
  }

  // Judges.

  /** The user a successful add creates: the next id, the name, the hash of
      the password and the admin flag. */
  function NewJudge(js: seq<Judge>, name: string, passwordHash: string, isAdmin: bool): (j: Judge)
    ensures forall x :: x in js ==> x.id != j.id
  {
    var id := NextId(JudgeIds(js));
    assert forall i :: 0 <= i < |js| ==> JudgeIds(js)[i] == js[i].id;
    Judge(id, name, passwordHash, isAdmin)
  }

  datatype AddOutcome<T> = AlreadyExists(name: string) | Added(row: T)

  /** `manage_judges`, action "add": refused when the name is taken,
      otherwise the user is appended. */
  function AddJudgeTo(t: Tables, name: string, passwordHash: string, isAdmin: bool): (Tables, AddOutcome<Judge>) {
    if JudgeNameTaken(t.judges, name) then (t, AlreadyExists(name))
    else
      var j := NewJudge(t.judges, name, passwordHash, isAdmin);
      (t.(judges := t.judges + [j]), Added(j))
  }

  method AddJudge(db: Database, name: string, passwordHash: string, isAdmin: bool) returns (outcome: AddOutcome<Judge>)
    requires db.Valid()
    modifies db
    ensures (db.Contents(), outcome) == AddJudgeTo(old(db.Contents()), name, passwordHash, isAdmin)
    ensures db.Valid()
  {
    AddJudgeSoundness(db.Contents(), name, passwordHash, isAdmin);
    var existing := First(db.judges, (j: Judge) => j.name == name);
    if existing.Some? {
      return AlreadyExists(name);
    }
    assert !JudgeNameTaken(db.judges, name);
    var j := NewJudge(db.judges, name, passwordHash, isAdmin);
    db.judges := db.judges + [j];
    return Added(j);
  }

  /** Adding a judge never creates a second user of one name: a taken name
      changes nothing, a new one adds exactly that user, and the store stays
      sound. */
  lemma AddJudgeSoundness(t: Tables, name: string, passwordHash: string, isAdmin: bool)
    requires Integrity(t)
    ensures var (t', out) := AddJudgeTo(t, name, passwordHash, isAdmin);
      && Integrity(t')
      && (JudgeNameTaken(t.judges, name) <==> out.AlreadyExists?)
      && (out.AlreadyExists? ==> t' == t)
      && (out.Added? ==>
            && t'.judges == t.judges + [out.row]
            && out.row.name == name && out.row.isAdmin == isAdmin
            && t' == t.(judges := t'.judges))
  {
    if !JudgeNameTaken(t.judges, name) {
      AddJudgeSound(t, NewJudge(t.judges, name, passwordHash, isAdmin));
    }
  }

  datatype RemoveOutcome = NotFound | AdminRefused | Removed(name: string)

  /** `manage_judges`, action "remove". The posted id is absent or names no
      user (not found), names an admin (refused), or names a user, who is
      deleted with their votes. */
  function RemoveJudgeFrom(t: Tables, id: Option<nat>): (Tables, RemoveOutcome) {
    if id.None? then (t, NotFound)
    else
      match FindJudge(t.judges, id.value)
      case None => (t, NotFound)
      case Some(j) =>
        if j.isAdmin then (t, AdminRefused)
        else (DeleteJudgeCascade(t, id.value), Removed(j.name))
  }

  method RemoveJudge(db: Database, id: Option<nat>) returns (outcome: RemoveOutcome)
    requires db.Valid()
    modifies db
    ensures (db.Contents(), outcome) == RemoveJudgeFrom(old(db.Contents()), id)
    ensures db.Valid()
  {
    RemoveJudgeSoundness(db.Contents(), id);
    if id.None? {
      return NotFound;
    }
    var j := FindJudge(db.judges, id.value);
    if j.None? {
      return NotFound;
    }
    if j.value.isAdmin {
      return AdminRefused;
    }
    db.Commit(DeleteJudgeCascade(db.Contents(), id.value));
    return Removed(j.value.name);
  }

  /** Removal never removes an admin; an unknown id and an admin change
      nothing; a removal takes away that user and their votes and keeps the
      store sound. */
  lemma RemoveJudgeSoundness(t: Tables, id: Option<nat>)
    requires Integrity(t)
    ensures var (t', out) := RemoveJudgeFrom(t, id);
      && Integrity(t')
      && (forall j :: j in t.judges && j.isAdmin ==> j in t'.judges)
      && (out.NotFound? <==> id.None? || !HasJudge(t, id.value))
      && (out.NotFound? || out.AdminRefused? ==> t' == t)
      && (out.Removed? ==> !HasJudge(t', id.value) && forall v :: v in t'.votes ==> v.voter != id.value)
  {
    if id.Some? && FindJudge(t.judges, id.value).Some? && !FindJudge(t.judges, id.value).value.isAdmin {
      var n := id.value;
      DeleteJudgeCascadeSound(t, n);
      forall j | j in t.judges && j.isAdmin ensures j in DeleteJudgeCascade(t, n).judges {
        FilterKeeps(t.judges, (j: Judge) => j.id != n, j);
      }
    }
  }

  // Badges.

  function NewBadge(bs: seq<Badge>, name: string, description: string): (b: Badge)
    ensures forall x :: x in bs ==> x.id != b.id
  {
    var id := NextId(BadgeIds(bs));
    assert forall i :: 0 <= i < |bs| ==> BadgeIds(bs)[i] == bs[i].id;
    Badge(id, name, description)
  }

  /** `manage_badges`, action "add". */
  function AddBadgeTo(t: Tables, name: string, description: string): (Tables, AddOutcome<Badge>) {
    if BadgeNameTaken(t.badges, name) then (t, AlreadyExists(name))
    else
      var b := NewBadge(t.badges, name, description);
      (t.(badges := t.badges + [b]), Added(b))
  }

  method AddBadge(db: Database, name: string, description: string) returns (outcome: AddOutcome<Badge>)
    requires db.Valid()
    modifies db
    ensures (db.Contents(), outcome) == AddBadgeTo(old(db.Contents()), name, description)
    ensures db.Valid()
  {
    AddBadgeSoundness(db.Contents(), name, description);
    var existing := First(db.badges, (b: Badge) => b.name == name);
    if existing.Some? {
      return AlreadyExists(name);
    }
    assert !BadgeNameTaken(db.badges, name);
    var b := NewBadge(db.badges, name, description);
    db.badges := db.badges + [b];
    return Added(b);
  }

  lemma AddBadgeSoundness(t: Tables, name: string, description: string)
    requires Integrity(t)
    ensures var (t', out) := AddBadgeTo(t, name, description);
      && Integrity(t')
      && (BadgeNameTaken(t.badges, name) <==> out.AlreadyExists?)
      && (out.AlreadyExists? ==> t' == t)
      && (out.Added? ==>
            && t'.badges == t.badges + [out.row]
            && out.row.name == name && out.row.description == description
            && t' == t.(badges := t'.badges))
  {
    if !BadgeNameTaken(t.badges, name) {
      AddBadgeSound(t, NewBadge(t.badges, name, description));
    }
  }

  /** The badge list with the badge of the given id rewritten. */
  function ReplaceBadge(bs: seq<Badge>, b: Badge): (r: seq<Badge>)
    ensures |r| == |bs|
    ensures forall i :: 0 <= i < |bs| ==> r[i] == if bs[i].id == b.id then b else bs[i]
  {
    seq(|bs|, i requires 0 <= i < |bs| => if bs[i].id == b.id then b else bs[i])
  }

  datatype EditOutcome = BadgeNotFound | Updated(badge: Badge)
    /** The commit broke the unique name of another badge: the error is not
        caught, the request fails with 500 and the session rolls back. */
    | ServerError

  /** `manage_badges`, action "edit". The badge's name and description are
      set in place; a name another badge already has fails at commit. */
  function EditBadgeIn(t: Tables, id: Option<nat>, name: string, description: string): (Tables, EditOutcome) {
    if id.None? then (t, BadgeNotFound)
    else
      match FindBadge(t.badges, id.value)
      case None => (t, BadgeNotFound)
      case Some(b) =>
        if exists x :: x in t.badges && x.id != id.value && x.name == name then (t, ServerError)
        else
          var edited := Badge(id.value, name, description);
          (t.(badges := ReplaceBadge(t.badges, edited)), Updated(edited))
  }

  method EditBadge(db: Database, id: Option<nat>, name: string, description: string) returns (outcome: EditOutcome)
    requires db.Valid()
    modifies db
    ensures (db.Contents(), outcome) == EditBadgeIn(old(db.Contents()), id, name, description)
    ensures db.Valid()
  {
    EditBadgeSoundness(db.Contents(), id, name, description);
    if id.None? {
      return BadgeNotFound;
    }
    var b := FindBadge(db.badges, id.value);
    if b.None? {
      return BadgeNotFound;
    }
    var clash := First(db.badges, (x: Badge) => x.id != id.value && x.name == name);
    if clash.Some? {
      return ServerError;
    }
    var edited := Badge(id.value, name, description);
    db.badges := ReplaceBadge(db.badges, edited);
    return Updated(edited);
  }

  /** Rewriting the badge of b's id puts b in and keeps every other badge
      and every id. */
  lemma ReplaceBadgeKeeps(bs: seq<Badge>, b: Badge)
    requires exists x :: x in bs && x.id == b.id
    ensures b in ReplaceBadge(bs, b)
    ensures forall x :: x in bs && x.id != b.id ==> x in ReplaceBadge(bs, b)
    ensures forall x :: x in bs ==> exists y :: y in ReplaceBadge(bs, b) && y.id == x.id
  {
    var r := ReplaceBadge(bs, b);
    var x :| x in bs && x.id == b.id;
    var k :| 0 <= k < |bs| && bs[k] == x;
    assert r[k] == b;
    forall x | x in bs ensures exists y :: y in r && y.id == x.id {
      var i :| 0 <= i < |bs| && bs[i] == x;
      assert r[i] in r;
    }
    forall x | x in bs && x.id != b.id ensures x in r {
      var i :| 0 <= i < |bs| && bs[i] == x;
      assert r[i] == x;
    }
  }

  /** When no other badge has b's name, the rewritten list still has
      unique ids and names. */
  lemma ReplaceBadgeUnique(bs: seq<Badge>, b: Badge)
    requires BadgeKeysUnique(bs)
    requires forall x :: x in bs && x.id != b.id ==> x.name != b.name
    ensures BadgeKeysUnique(ReplaceBadge(bs, b))
  {
    var r := ReplaceBadge(bs, b);
    forall i, j | 0 <= i < |r| && 0 <= j < |r| && (r[i].id == r[j].id || r[i].name == r[j].name)
      ensures r[i] == r[j]
    {
      assert bs[i] in bs && bs[j] in bs;
    }
    forall x, y | x in r && y in r && (x.id == y.id || x.name == y.name) ensures x == y {
      var i :| 0 <= i < |r| && r[i] == x;
      var j :| 0 <= j < |r| && r[j] == y;
    }
  }

  /** A successful edit keeps the store sound: the badge keeps its id, so
      its artworks stay its own. */
  lemma EditBadgeKeepsIntegrity(t: Tables, edited: Badge)
    requires Integrity(t) && HasBadge(t, edited.id)
    requires forall x :: x in t.badges && x.id != edited.id ==> x.name != edited.name
    ensures Integrity(t.(badges := ReplaceBadge(t.badges, edited)))
  {
    var t' := t.(badges := ReplaceBadge(t.badges, edited));
    ReplaceBadgeKeeps(t.badges, edited);
    ReplaceBadgeUnique(t.badges, edited);
    forall a | a in t'.artworks ensures HasBadge(t', a.badgeId) {
      var x :| x in t.badges && x.id == a.badgeId;
    }
  }

  /** An edit keeps the number of badges, every other badge, and the store
      sound; an unknown id or a name another badge has changes nothing. */
  lemma EditBadgeSoundness(t: Tables, id: Option<nat>, name: string, description: string)
    requires Integrity(t)
    ensures var (t', out) := EditBadgeIn(t, id, name, description);
      && Integrity(t')
      && |t'.badges| == |t.badges|
      && (out.BadgeNotFound? <==> id.None? || !HasBadge(t, id.value))
      && (out.ServerError? <==> id.Some? && HasBadge(t, id.value) && exists x :: x in t.badges && x.id != id.value && x.name == name)
      && (out.BadgeNotFound? || out.ServerError? ==> t' == t)
      && (out.Updated? ==>
            && out.badge == Badge(id.value, name, description)
            && out.badge in t'.badges
            && (forall x :: x in t.badges && x.id != id.value ==> x in t'.badges)
            && t' == t.(badges := t'.badges))
  {
    var (t', out) := EditBadgeIn(t, id, name, description);
    if out.Updated? {
      ReplaceBadgeKeeps(t.badges, out.badge);
      EditBadgeKeepsIntegrity(t, out.badge);
    }
  }

  /** `manage_badges`, action "delete": the badge goes, with its artworks and
      their votes. */
  function DeleteBadgeFrom(t: Tables, id: Option<nat>): (Tables, Option<string>) {
    if id.None? then (t, None)
    else
      match FindBadge(t.badges, id.value)
      case None => (t, None)
      case Some(b) => (DeleteBadgeCascade(t, id.value), Some(b.name))
  }

  method DeleteBadge(db: Database, id: Option<nat>) returns (deleted: Option<string>)
    requires db.Valid()
    modifies db
    ensures (db.Contents(), deleted) == DeleteBadgeFrom(old(db.Contents()), id)
    ensures db.Valid()
  {
    DeleteBadgeSoundness(db.Contents(), id);
    if id.None? {
      return None;
    }
    var b := FindBadge(db.badges, id.value);
    if b.None? {
      return None;
    }
    db.Commit(DeleteBadgeCascade(db.Contents(), id.value));
    return Some(b.value.name);
  }

  lemma DeleteBadgeSoundness(t: Tables, id: Option<nat>)
    requires Integrity(t)
    ensures var (t', out) := DeleteBadgeFrom(t, id);
      && Integrity(t')
      && (out.None? <==> id.None? || !HasBadge(t, id.value))
      && (out.None? ==> t' == t)
      && (out.Some? ==> !HasBadge(t', id.value) && forall a :: a in t'.artworks ==> a.badgeId != id.value)
  {
    if id.Some? && FindBadge(t.badges, id.value).Some? {
      DeleteBadgeCascadeSound(t, id.value);
      DeleteBadgeCascadeEffect(t, id.value);
    }
  }

  // The CSV badge import.

  /** An uploaded file: its name and its lines, already split into fields
      by the CSV reader. */
  datatype Upload = Upload(filename: string, lines: seq<seq<string>>)

  datatype ImportOutcome =
    | NotCsv            // no file, or a name not ending in ".csv": redirect
    | ReadFailed        // no header line: the reader raises, the session rolls back
    | BadHeader         // redirect
    | Imported(added: seq<string>)

  predicate EndsWith(s: string, suffix: string) {
    |suffix| <= |s| && s[|s| - |suffix|..] == suffix
  }

  /** A data row with two non-empty fields. */
  predicate WellFormedRow(row: seq<string>) {
    |row| == 2 && row[0] != "" && row[1] != ""
  }

  /** The badges and added names after the data rows, a row at a time:
      a well-formed row whose name no badge has yet (the session flushes the
      badges added so far before each lookup) adds a badge. */
  datatype ImportState = ImportState(badges: seq<Badge>, added: seq<string>)

  function ImportRows(bs: seq<Badge>, rows: seq<seq<string>>): (r: ImportState)
    ensures |r.badges| == |bs| + |r.added|
    ensures r.badges[..|bs|] == bs
    ensures forall i :: 0 <= i < |r.added| ==> r.badges[|bs| + i].name == r.added[i]
  {
    if rows == [] then ImportState(bs, [])
    else
      var prev := ImportRows(bs, rows[..|rows| - 1]);
      var row := rows[|rows| - 1];
      if WellFormedRow(row) && !BadgeNameTaken(prev.badges, row[0]) then
        var b := NewBadge(prev.badges, row[0], row[1]);
        assert (prev.badges + [b])[..|bs|] == prev.badges[..|bs|];
        ImportState(prev.badges + [b], prev.added + [row[0]])
      else prev
  }

  /** The whole import: the file check, the header check, then the rows. */
  function ImportCsvInto(t: Tables, upload: Option<Upload>): (Tables, ImportOutcome) {
    if upload.None? || upload.value.filename == "" || !EndsWith(upload.value.filename, ".csv") then (t, NotCsv)
    else if upload.value.lines == [] then (t, ReadFailed)
    else if upload.value.lines[0] != ["Badge Name", "Badge Description"] then (t, BadHeader)
    else
      var r := ImportRows(t.badges, upload.value.lines[1..]);
      (t.(badges := r.badges), Imported(r.added))
  }

  method ImportCsv(db: Database, upload: Option<Upload>) returns (outcome: ImportOutcome)
    requires db.Valid()
    modifies db
    ensures (db.Contents(), outcome) == ImportCsvInto(old(db.Contents()), upload)
    ensures db.Valid()
  {
    if upload.Some? && upload.value.lines != [] {
      ImportKeepsIntegrity(db.Contents(), upload.value.lines[1..]);
    }
    if upload.None? || upload.value.filename == "" || !EndsWith(upload.value.filename, ".csv") {
      return NotCsv;
    }
    var lines := upload.value.lines;
    if lines == [] {
      return ReadFailed;
    }
    var header := lines[0];
    if header != ["Badge Name", "Badge Description"] {
      return BadHeader;
    }
    var rows := lines[1..];
    var added: seq<string> := [];
    var i := 0;
    while i < |rows|
      invariant 0 <= i <= |rows|
      invariant db.Contents() == old(db.Contents()).(badges := db.badges)
      invariant ImportState(db.badges, added) == ImportRows(old(db.badges), rows[..i])
    {
      var row := rows[i];
      assert rows[..i + 1][..i] == rows[..i];
      i := i + 1;
      if |row| != 2 {
        continue;
      }
      var name, description := row[0], row[1];
      if name == "" || description == "" {
        continue;
      }
      var existing := First(db.badges, (b: Badge) => b.name == name);
      if existing.Some? {
        continue;
      }
      assert !BadgeNameTaken(db.badges, name);
      db.badges := db.badges + [NewBadge(db.badges, name, description)];
      added := added + [name];
    }
    assert rows[..i] == rows;
    return Imported(added);
  }

  /** The names that would be added if no name repeated: those of the
      well-formed rows whose name no existing badge has, in file order. */
  function FreshNames(bs: seq<Badge>, rows: seq<seq<string>>): seq<string> {
    if rows == [] then []
    else
      var row := rows[|rows| - 1];
      FreshNames(bs, rows[..|rows| - 1]) + (if WellFormedRow(row) && !BadgeNameTaken(bs, row[0]) then [row[0]] else [])
  }

  /** A name is taken after an append when it was before or the new badge
      has it. */
  lemma BadgeNameTakenSnoc(bs: seq<Badge>, b: Badge, n: string)
    ensures BadgeNameTaken(bs + [b], n) <==> BadgeNameTaken(bs, n) || b.name == n
  {
    if BadgeNameTaken(bs + [b], n) && b.name != n {
      var x :| x in bs + [b] && x.name == n;
      assert x in bs;
    }
    if BadgeNameTaken(bs, n) {
      var x :| x in bs && x.name == n;
      assert x in bs + [b];
    }
    assert b in bs + [b];
  }

  /** After the import a name is taken exactly when a badge had it before
      or some accepted row of the file names it. */
  lemma {:induction false} ImportTakenNames(bs: seq<Badge>, rows: seq<seq<string>>, n: string)
    ensures BadgeNameTaken(ImportRows(bs, rows).badges, n) <==> BadgeNameTaken(bs, n) || n in FreshNames(bs, rows)
  {
    if rows != [] {
      var init := rows[..|rows| - 1];
      var row := rows[|rows| - 1];
      ImportTakenNames(bs, init, n);
      var prev := ImportRows(bs, init);
      if WellFormedRow(row) {
        ImportTakenNames(bs, init, row[0]);
        if !BadgeNameTaken(prev.badges, row[0]) {
          BadgeNameTakenSnoc(prev.badges, NewBadge(prev.badges, row[0], row[1]), n);
        }
      }
    }
  }

  /** The import adds the first occurrence of each new name, in file order:
      a name an existing badge has, or one an earlier row already added, is
      skipped. */
  lemma {:induction false} ImportAddsFirstOccurrences(bs: seq<Badge>, rows: seq<seq<string>>)
    ensures ImportRows(bs, rows).added == Distinct(FreshNames(bs, rows))
  {
    if rows != [] {
      var init := rows[..|rows| - 1];
      var row := rows[|rows| - 1];
      ImportAddsFirstOccurrences(bs, init);
      var names := FreshNames(bs, init);
      if WellFormedRow(row) && !BadgeNameTaken(bs, row[0]) {
        ImportTakenNames(bs, init, row[0]);
        DistinctSnoc(names, row[0]);
      } else {
        assert FreshNames(bs, rows) == names + [] == names;
        if WellFormedRow(row) {
          ImportTakenNames(bs, init, row[0]);
          assert BadgeNameTaken(ImportRows(bs, init).badges, row[0]);
        }
        assert ImportRows(bs, rows) == ImportRows(bs, init);
      }
    }
  }

  /** The import keeps the store sound: every added badge has a fresh id
      and a name no badge had. */
  lemma {:induction false} ImportKeepsIntegrity(t: Tables, rows: seq<seq<string>>)
    requires Integrity(t)
    ensures Integrity(t.(badges := ImportRows(t.badges, rows).badges))
  {
    if rows != [] {
      var init := rows[..|rows| - 1];
      var row := rows[|rows| - 1];
      ImportKeepsIntegrity(t, init);
      var prev := ImportRows(t.badges, init);
      if WellFormedRow(row) && !BadgeNameTaken(prev.badges, row[0]) {
        AddBadgeSound(t.(badges := prev.badges), NewBadge(prev.badges, row[0], row[1]));
      }
    }
  }

  /** The file and header checks: a file without the ".csv" ending, an
      empty file or a different header adds nothing. */
  lemma ImportGuards(t: Tables, upload: Option<Upload>)
    ensures var (t', out) := ImportCsvInto(t, upload);
      && (out.Imported? <==>
            && upload.Some?
            && EndsWith(upload.value.filename, ".csv")
            && upload.value.lines != []
            && upload.value.lines[0] == ["Badge Name", "Badge Description"])
      && (!out.Imported? ==> t' == t)
  {
  }

  // The results page and the two destructive actions.

  /** What the results page shows. */
  datatype ResultsPage = ResultsPage(
    results: seq<ResultRow>,
    youthResults: seq<ResultRow>,
    byArtwork: map<nat, seq<VoteEntry>>,
    byYouthSubmission: map<nat, seq<VoteEntry>>,
    status: JudgesStatus)

  /** `judges_results`: builds the two vote dictionaries with the grouping
      loop; reads the store and changes nothing. */
  method JudgesResults(db: Database) returns (page: ResultsPage)
    ensures page.results == AdultResults(db.Contents())
    ensures page.youthResults == YouthResults(db.Contents())
    ensures page.byArtwork == Grouped(VoteRows(db.Contents(), db.votes, true))
    ensures page.byYouthSubmission == Grouped(VoteRows(db.Contents(), db.votes, false))
    ensures page.status == Status(db.judges, db.votes)
  {
    var t := db.Contents();
    var byArtwork := GroupVotes(VoteRows(t, t.votes, true));
    var byYouth := GroupVotes(VoteRows(t, t.votes, false));
    page := ResultsPage(AdultResults(t), YouthResults(t), byArtwork, byYouth, Status(t.judges, t.votes));
  }

  /** `delete_submission`: 404 for an unknown id, otherwise the entry goes
      with its artworks and its votes and the answer is 200. */
  method DeleteSubmission(db: Database, id: nat) returns (status: int)
    requires db.Valid()
    modifies db
    ensures !HasSubmission(old(db.Contents()), id) ==> status == 404 && db.Contents() == old(db.Contents())
    ensures HasSubmission(old(db.Contents()), id) ==> status == 200 && db.Contents() == DeleteSubmissionCascade(old(db.Contents()), id)
    ensures db.Valid()
  {
    DeleteSubmissionCascadeSound(db.Contents(), id);
    var s := FindSubmission(db.submissions, id);
    if s.None? {
      return 404;
    }
    db.Commit(DeleteSubmissionCascade(db.Contents(), id));
    return 200;
  }

  /** `clear_votes`: every vote goes, nothing else changes. */
  method ClearVotes(db: Database) returns (status: int)
    requires db.Valid()
    modifies db
    ensures status == 200 && db.Contents() == old(db.Contents()).(votes := [])
    ensures db.Valid()
  {
    ClearVotesSound(db.Contents());
    db.votes := [];
    return 200;
  }

  /** Clearing the votes keeps the store sound and leaves every score 0. */
  lemma ClearVotesSound(t: Tables)
    requires Integrity(t)
    ensures Integrity(t.(votes := []))
    ensures forall r :: r in AdultResults(t.(votes := [])) ==> r.totalScore == 0
    ensures forall r :: r in YouthResults(t.(votes := [])) ==> r.totalScore == 0
  {
    NoVotesAdultScores(t.(votes := []));
    NoVotesYouthScores(t.(votes := []));
  }
}
