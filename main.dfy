/** The judging page of the newer application (app/main.py): the ordinal
    suffix helper and the ballot route, which shows the adult and youth
    ballots and saves a posted ranking. */
module Judging {
  import opened Wrappers
  import opened Seqs
  import opened Text
  import opened Models
  import opened Store
  import opened Ballot
  import Votes

  /** `get_rank_suffix`: Python's `%`, whose remainder has the sign of the
      divisor, agrees with Dafny's for the positive divisors used here. */
  function RankSuffix(rank: int): (s: string)
    ensures s == "st" || s == "nd" || s == "rd" || s == "th"
  {
    if rank % 100 in {11, 12, 13} then "th"
    else if rank % 10 == 1 then "st"
    else if rank % 10 == 2 then "nd"
    else if rank % 10 == 3 then "rd"
    else "th"
  }

  /** The suffix depends only on the last two digits. */
  lemma RankSuffixPeriodic(rank: int, k: int)
    ensures RankSuffix(rank + 100 * k) == RankSuffix(rank)
  {
    assert (rank + 100 * k) % 100 == rank % 100;
    assert (rank + 100 * k) % 10 == rank % 10 by {
      assert rank + 100 * k == rank + 10 * (10 * k);
    }
  }

  lemma RankSuffixExamples()
    ensures RankSuffix(1) == "st" && RankSuffix(2) == "nd" && RankSuffix(3) == "rd" && RankSuffix(4) == "th"
    ensures RankSuffix(11) == "th" && RankSuffix(12) == "th" && RankSuffix(13) == "th"
    ensures RankSuffix(21) == "st" && RankSuffix(22) == "nd" && RankSuffix(23) == "rd"
    ensures RankSuffix(111) == "th" && RankSuffix(112) == "th" && RankSuffix(101) == "st"
  {
  }

  /** The cached random orders of the session. */
  class BallotSession {
    var randomArtistOrder: Option<seq<nat>>
    var randomYouthOrder: Option<seq<nat>>

    constructor ()
      ensures randomArtistOrder == None && randomYouthOrder == None
    {
      randomArtistOrder, randomYouthOrder := None, None;
    }
  }

  /** A request to the ballot page: a view, or a posted ranking (`rank`
      absent or present) whose form either passed validation or not. */
  datatype BallotRequest = View | PostRanking(formValid: bool, rank: Option<string>)

  datatype BallotResponse =
    | Json(status: int)
    | Page(adult: seq<Candidate>, youth: seq<Candidate>)
      /** `list.index` raised for the id of a row the cached order lacks. */
    | Failed(missingId: nat)

  /** What a view shows: both ballots are ordered against the same saved
      ids, the judge's votes in ascending rank, whatever entries they name. */
  function BallotView(t: Tables, voter: nat, artistCache: Option<seq<nat>>, youthCache: Option<seq<nat>>,
                      shuffledArtists: seq<nat>, shuffledYouth: seq<nat>): Result<(Prepared, Prepared), nat>
  {
    var saved := SavedIds(t.votes, voter);
    match Prepare(saved, artistCache, AdultCandidates(t), shuffledArtists)
    case Err(id) => Err(id)
    case Ok(adult) =>
      match Prepare(saved, youthCache, YouthCandidates(t), shuffledYouth)
      case Err(id) => Err(id)
      case Ok(youth) => Ok((adult, youth))
  }

  /** The youth ballot is ordered against the judge's adult votes: when the
      judge has saved votes, none naming a youth entry's id, the youth rows
      come in query order and no random youth order is drawn. */
  lemma YouthBallotUsesAdultVotes(t: Tables, voter: nat, ac: Option<seq<nat>>, yc: Option<seq<nat>>, sa: seq<nat>, sy: seq<nat>)
    requires SavedIds(t.votes, voter) != []
    requires forall i :: 0 <= i < |YouthCandidates(t)| ==> YouthCandidates(t)[i].id !in SavedIds(t.votes, voter)
    ensures var r := BallotView(t, voter, ac, yc, sa, sy);
      r.Ok? && r.value.1.rows == YouthCandidates(t) && r.value.1.cache == yc
  {
    RankedFirstUnmatched(SavedIds(t.votes, voter), YouthCandidates(t));
  }

  /** `judges_ballot`. A valid post with a non-empty ranking saves it (200,
      or 500 with nothing changed when an id has no artwork); an empty one
      answers 400. Any other request shows the ballots, drawing and caching
      a random order for a judge with no saved votes. The judge is the
      signed-in user; `random.shuffle` permutes the ids of the rows, so the
      shuffled orders are given as permutations of them. */
  method JudgesBallot(db: Database, session: BallotSession, voter: nat, req: BallotRequest,
                      shuffledArtists: seq<nat>, shuffledYouth: seq<nat>) returns (resp: BallotResponse)
    requires multiset(shuffledArtists) == multiset(Ids(AdultCandidates(db.Contents())))
    requires multiset(shuffledYouth) == multiset(Ids(YouthCandidates(db.Contents())))
    modifies db, session
    ensures req.PostRanking? && req.formValid && (req.rank == None || req.rank == Some("")) ==>
      resp == Json(400) && db.Contents() == old(db.Contents()) && unchanged(session)
    ensures req.PostRanking? && req.formValid && req.rank.Some? && req.rank.value != "" ==>
      var r := Votes.ReplaceVotes(old(db.votes), old(db.artworks), voter, Split(req.rank.value, ','));
      && unchanged(session)
      && (r.Ok? ==> resp == Json(200) && db.Contents() == old(db.Contents()).(votes := r.value))
      && (r.Err? ==> resp == Json(500) && db.Contents() == old(db.Contents()))
    ensures !(req.PostRanking? && req.formValid) ==>
      var v := BallotView(old(db.Contents()), voter, old(session.randomArtistOrder), old(session.randomYouthOrder),
                          shuffledArtists, shuffledYouth);
      && db.Contents() == old(db.Contents())
      && (v.Ok? ==> resp == Page(v.value.0.rows, v.value.1.rows)
                    && session.randomArtistOrder == v.value.0.cache
                    && session.randomYouthOrder == v.value.1.cache)
      && (v.Err? ==> resp == Failed(v.error))
    ensures !(req.PostRanking? && req.formValid) ==>
      var a := Prepare(SavedIds(old(db.votes), voter), old(session.randomArtistOrder),
                       AdultCandidates(old(db.Contents())), shuffledArtists);
      && session.randomArtistOrder == (if a.Ok? then a.value.cache else old(session.randomArtistOrder))
      && (resp.Failed? ==> session.randomYouthOrder == old(session.randomYouthOrder))
    ensures (!(req.PostRanking? && req.formValid) && old(session.randomArtistOrder).None? && old(session.randomYouthOrder).None?)
            ==> resp.Page?
  {
    if req.PostRanking? && req.formValid {
      if req.rank == None || req.rank == Some("") {
        return Json(400);
      }
      var ok := Votes.SaveRankings(db, voter, Split(req.rank.value, ','));
      return if ok then Json(200) else Json(500);
    }
    var saved := SavedIds(db.votes, voter);
    if saved == [] {
      FreshShuffleSucceeds(AdultCandidates(db.Contents()), shuffledArtists);
      FreshShuffleSucceeds(YouthCandidates(db.Contents()), shuffledYouth);
    }
    var adult := Prepare(saved, session.randomArtistOrder, AdultCandidates(db.Contents()), shuffledArtists);
    if adult.Err? {
      return Failed(adult.error);
    }
    session.randomArtistOrder := adult.value.cache;
    var youth := Prepare(saved, session.randomYouthOrder, YouthCandidates(db.Contents()), shuffledYouth);
    if youth.Err? {
      return Failed(youth.error);
    }
    session.randomYouthOrder := youth.value.cache;
    return Page(adult.value.rows, youth.value.rows);
  }
}
