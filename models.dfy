/** The persisted records of the contest (app/models.py) and the delete
    cascades its relationships declare.

    Columns declared `nullable=False` are plain (non-optional) fields here.
    One schema serves both versions of the application: `Judge` stands for
    the older `Judge` table and for the newer `User` table, and a vote's
    `voter` for `judge_id` or `user_id`. `YouthSubmission` and
    `SubmissionPeriod` hold only the columns the modelled code reads. */
module Models {
  import opened Wrappers
  import opened Seqs

  datatype Badge = Badge(id: nat, name: string, description: string)

  /** An adult entry; of its contact and biography columns only the name is
      read by the judging pages. */
  datatype ArtistSubmission = ArtistSubmission(id: nat, name: string)

  datatype YouthSubmission = YouthSubmission(id: nat, name: string, badgeId: nat, artworkFile: string)

  /** The artwork an adult entry made for one badge. */
  datatype BadgeArtwork = BadgeArtwork(id: nat, submissionId: nat, badgeId: nat, artworkFile: string)

  datatype Judge = Judge(id: nat, name: string, passwordHash: string, isAdmin: bool)

  /** One judge's rank for one submission; lower is better. */
  datatype JudgeVote = JudgeVote(voter: nat, submissionId: nat, badgeArtworkId: nat, rank: int)

  /** An open/close window, instants in seconds since the epoch (UTC). */
  datatype SubmissionPeriod = SubmissionPeriod(id: nat, start: int, end: int)

  /** The whole store; each table lists its rows in query order. */
  datatype Tables = Tables(
    badges: seq<Badge>,
    submissions: seq<ArtistSubmission>,
    youthSubmissions: seq<YouthSubmission>,
    artworks: seq<BadgeArtwork>,
    judges: seq<Judge>,
    votes: seq<JudgeVote>,
    periods: seq<SubmissionPeriod>)

  // Primary keys and unique columns: two rows that agree on the column are the same row.

  ghost predicate BadgeKeysUnique(bs: seq<Badge>) {
    forall a, b :: a in bs && b in bs && (a.id == b.id || a.name == b.name) ==> a == b
  }

  ghost predicate JudgeKeysUnique(js: seq<Judge>) {
    forall a, b :: a in js && b in js && (a.id == b.id || a.name == b.name) ==> a == b
  }

  ghost predicate SubmissionIdsUnique(ss: seq<ArtistSubmission>) {
    forall a, b :: a in ss && b in ss && a.id == b.id ==> a == b
  }

  ghost predicate ArtworkIdsUnique(aws: seq<BadgeArtwork>) {
    forall a, b :: a in aws && b in aws && a.id == b.id ==> a == b
  }

  predicate HasSubmission(t: Tables, id: nat) {
    exists s :: s in t.submissions && s.id == id
  }

  predicate HasBadge(t: Tables, id: nat) {
    exists b :: b in t.badges && b.id == id
  }

  predicate HasJudge(t: Tables, id: nat) {
    exists j :: j in t.judges && j.id == id
  }

  /** The artwork a vote points at exists and belongs to the vote's submission. */
  predicate VoteResolves(t: Tables, v: JudgeVote) {
    exists a :: a in t.artworks && a.id == v.badgeArtworkId && a.submissionId == v.submissionId
  }

  /** What the schema and the handlers together keep true of the store:
      unique keys and names, and every foreign key of a BadgeArtwork and of
      a JudgeVote pointing at an existing row. */
  ghost predicate Integrity(t: Tables) {
    && BadgeKeysUnique(t.badges)
    && JudgeKeysUnique(t.judges)
    && SubmissionIdsUnique(t.submissions)
    && ArtworkIdsUnique(t.artworks)
    && (forall a :: a in t.artworks ==> HasSubmission(t, a.submissionId) && HasBadge(t, a.badgeId))
    && (forall v :: v in t.votes ==> HasJudge(t, v.voter) && VoteResolves(t, v))
  }

  /** The id SQLite gives the next inserted row: one more than the largest. */
  function NextId(ids: seq<nat>): (r: nat)
    ensures r >= 1
    ensures forall i :: 0 <= i < |ids| ==> ids[i] < r
  {
    if ids == [] then 1
    else
      var rest := NextId(ids[1..]);
      if ids[0] < rest then rest else ids[0] + 1
  }

  function BadgeIds(bs: seq<Badge>): seq<nat> {
    seq(|bs|, i requires 0 <= i < |bs| => bs[i].id)
  }

  function JudgeIds(js: seq<Judge>): seq<nat> {
    seq(|js|, i requires 0 <= i < |js| => js[i].id)
  }

  /** `Badge.query.get(id)` */
  function FindBadge(bs: seq<Badge>, id: nat): (r: Option<Badge>)
    ensures r.Some? ==> r.value in bs && r.value.id == id
    ensures r.None? ==> forall b :: b in bs ==> b.id != id
  {
    First(bs, (b: Badge) => b.id == id)
  }

  /** `Judge.query.get(id)` / `User.query.get(id)` */
  function FindJudge(js: seq<Judge>, id: nat): (r: Option<Judge>)
    ensures r.Some? ==> r.value in js && r.value.id == id
    ensures r.None? ==> forall j :: j in js ==> j.id != id
  {
    First(js, (j: Judge) => j.id == id)
  }

  function FindSubmission(ss: seq<ArtistSubmission>, id: nat): (r: Option<ArtistSubmission>)
    ensures r.Some? ==> r.value in ss && r.value.id == id
    ensures r.None? ==> forall s :: s in ss ==> s.id != id
  {
    First(ss, (s: ArtistSubmission) => s.id == id)
  }

  predicate BadgeNameTaken(bs: seq<Badge>, name: string) {
    exists b :: b in bs && b.name == name
  }

  predicate JudgeNameTaken(js: seq<Judge>, name: string) {
    exists j :: j in js && j.name == name
  }

  /** The condition "the vote was cast by this judge". */
  function ByVoter(voter: nat): JudgeVote -> bool {
    (v: JudgeVote) => v.voter == voter
  }

  // Cascades. Deleting a row deletes the rows its `cascade='all, delete-orphan'`
  // relationships own, and theirs in turn.

  /** Deleting an ArtistSubmission deletes its BadgeArtworks and its JudgeVotes. */
  function DeleteSubmissionCascade(t: Tables, id: nat): Tables {
    t.(submissions := Filter(t.submissions, (s: ArtistSubmission) => s.id != id),
       artworks := Filter(t.artworks, (a: BadgeArtwork) => a.submissionId != id),
       votes := Filter(t.votes, (v: JudgeVote) => v.submissionId != id))
  }

  /** Ids of the artworks made for a badge. */
  function ArtworksOfBadge(aws: seq<BadgeArtwork>, badgeId: nat): set<nat> {
    set a | a in aws && a.badgeId == badgeId :: a.id
  }

  /** Deleting a Badge deletes its BadgeArtworks, and they their JudgeVotes. */
  function DeleteBadgeCascade(t: Tables, id: nat): Tables {
    var gone := ArtworksOfBadge(t.artworks, id);
    t.(badges := Filter(t.badges, (b: Badge) => b.id != id),
       artworks := Filter(t.artworks, (a: BadgeArtwork) => a.badgeId != id),
       votes := Filter(t.votes, (v: JudgeVote) => v.badgeArtworkId !in gone))
  }

  /** Deleting a Judge deletes that judge's votes. */
  function DeleteJudgeCascade(t: Tables, id: nat): Tables {
    t.(judges := Filter(t.judges, (j: Judge) => j.id != id),
       votes := Filter(t.votes, (v: JudgeVote) => v.voter != id))
  }

  /** After a submission is deleted nothing refers to it and every other
      artwork and vote is still there. */
  lemma DeleteSubmissionCascadeEffect(t: Tables, id: nat)
    ensures var t' := DeleteSubmissionCascade(t, id);
      && (forall s :: s in t'.submissions ==> s.id != id)
      && (forall a :: a in t'.artworks ==> a.submissionId != id)
      && (forall v :: v in t'.votes ==> v.submissionId != id)
      && (forall s :: s in t.submissions && s.id != id ==> s in t'.submissions)
      && (forall a :: a in t.artworks && a.submissionId != id ==> a in t'.artworks)
      && (forall v :: v in t.votes && v.submissionId != id ==> v in t'.votes)
  {
    forall s | s in t.submissions && s.id != id ensures s in DeleteSubmissionCascade(t, id).submissions {
      FilterKeeps(t.submissions, (s: ArtistSubmission) => s.id != id, s);
    }
    forall a | a in t.artworks && a.submissionId != id ensures a in DeleteSubmissionCascade(t, id).artworks {
      FilterKeeps(t.artworks, (a: BadgeArtwork) => a.submissionId != id, a);
    }
    forall v | v in t.votes && v.submissionId != id ensures v in DeleteSubmissionCascade(t, id).votes {
      FilterKeeps(t.votes, (v: JudgeVote) => v.submissionId != id, v);
    }
  }

  /** Deleting a submission with its cascade keeps every reference
      resolving. */
  lemma DeleteSubmissionCascadeSound(t: Tables, id: nat)
    requires Integrity(t)
    ensures Integrity(DeleteSubmissionCascade(t, id))
    ensures !HasSubmission(DeleteSubmissionCascade(t, id), id)
  {
    var t' := DeleteSubmissionCascade(t, id);
    DeleteSubmissionCascadeEffect(t, id);
    forall a | a in t'.artworks ensures HasSubmission(t', a.submissionId) && HasBadge(t', a.badgeId) {
      var s :| s in t.submissions && s.id == a.submissionId;
      assert s in t'.submissions;
    }
    forall v | v in t'.votes ensures HasJudge(t', v.voter) && VoteResolves(t', v) {
      var a :| a in t.artworks && a.id == v.badgeArtworkId && a.submissionId == v.submissionId;
      assert a in t'.artworks;
    }
  }

  /** After a badge is deleted its artworks and their votes are gone and
      everything else stays. */
  lemma DeleteBadgeCascadeEffect(t: Tables, id: nat)
    ensures var t' := DeleteBadgeCascade(t, id);
      && (forall b :: b in t'.badges ==> b.id != id)
      && (forall a :: a in t'.artworks ==> a.badgeId != id)
      && (forall v, a :: v in t'.votes && a in t.artworks && a.id == v.badgeArtworkId ==> a.badgeId != id)
      && (forall b :: b in t.badges && b.id != id ==> b in t'.badges)
      && (forall a :: a in t.artworks && a.badgeId != id ==> a in t'.artworks)
      && (forall v :: v in t.votes && v.badgeArtworkId !in ArtworksOfBadge(t.artworks, id) ==> v in t'.votes)
  {
    var gone := ArtworksOfBadge(t.artworks, id);
    forall b | b in t.badges && b.id != id ensures b in DeleteBadgeCascade(t, id).badges {
      FilterKeeps(t.badges, (b: Badge) => b.id != id, b);
    }
    forall a | a in t.artworks && a.badgeId != id ensures a in DeleteBadgeCascade(t, id).artworks {
      FilterKeeps(t.artworks, (a: BadgeArtwork) => a.badgeId != id, a);
    }
    forall v | v in t.votes && v.badgeArtworkId !in gone ensures v in DeleteBadgeCascade(t, id).votes {
      FilterKeeps(t.votes, (v: JudgeVote) => v.badgeArtworkId !in gone, v);
    }
  }

  /** Deleting a badge with its cascade keeps every reference resolving. */
  lemma DeleteBadgeCascadeSound(t: Tables, id: nat)
    requires Integrity(t)
    ensures Integrity(DeleteBadgeCascade(t, id))
    ensures !HasBadge(DeleteBadgeCascade(t, id), id)
  {
    var t' := DeleteBadgeCascade(t, id);
    DeleteBadgeCascadeEffect(t, id);
    forall a | a in t'.artworks ensures HasSubmission(t', a.submissionId) && HasBadge(t', a.badgeId) {
      var b :| b in t.badges && b.id == a.badgeId;
      assert b in t'.badges;
    }
    forall v | v in t'.votes ensures HasJudge(t', v.voter) && VoteResolves(t', v) {
      var a :| a in t.artworks && a.id == v.badgeArtworkId && a.submissionId == v.submissionId;
      assert a in t'.artworks;
    }
  }

  /** After a judge is deleted that judge has no votes left, every other
      vote stays, and every reference still resolves. */
  lemma DeleteJudgeCascadeSound(t: Tables, id: nat)
    requires Integrity(t)
    ensures var t' := DeleteJudgeCascade(t, id);
      && Integrity(t')
      && !HasJudge(t', id)
      && (forall v :: v in t'.votes ==> v.voter != id)
      && (forall v :: v in t.votes && v.voter != id ==> v in t'.votes)
  {
    var t' := DeleteJudgeCascade(t, id);
    forall v | v in t.votes && v.voter != id ensures v in t'.votes {
      FilterKeeps(t.votes, (v: JudgeVote) => v.voter != id, v);
    }
    forall v | v in t'.votes ensures HasJudge(t', v.voter) {
      var j :| j in t.judges && j.id == v.voter;
      FilterKeeps(t.judges, (j: Judge) => j.id != id, j);
    }
  }

  /** Appending a badge whose id is fresh and whose name is unused keeps the
      store sound. */
  lemma AddBadgeSound(t: Tables, b: Badge)
    requires Integrity(t)
    requires forall x :: x in t.badges ==> x.id != b.id && x.name != b.name
    ensures Integrity(t.(badges := t.badges + [b]))
  {
    var t' := t.(badges := t.badges + [b]);
    forall a | a in t'.artworks ensures HasSubmission(t', a.submissionId) && HasBadge(t', a.badgeId) {
      var x :| x in t.badges && x.id == a.badgeId;
      assert x in t'.badges;
    }
  }

  /** Appending a judge whose id is fresh and whose name is unused keeps the
      store sound. */
  lemma AddJudgeSound(t: Tables, j: Judge)
    requires Integrity(t)
    requires forall x :: x in t.judges ==> x.id != j.id && x.name != j.name
    ensures Integrity(t.(judges := t.judges + [j]))
  {
    var t' := t.(judges := t.judges + [j]);
    forall v | v in t'.votes ensures HasJudge(t', v.voter) && VoteResolves(t', v) {
      var x :| x in t.judges && x.id == v.voter;
      assert x in t'.judges;
    }
  }
}
