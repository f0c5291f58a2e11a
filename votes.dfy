/** Saving a judge's ranking (app/main.py save_rankings_for_user,
    app/routes.py judges_ballot POST): the comma list of submission ids is
    turned into one vote per id, rank 1 for the first, after every earlier
    vote of that judge is deleted. The work happens in a savepoint: if some
    id has no BadgeArtwork the judge's old votes survive. */
module Votes {
  import opened Wrappers
  import opened Seqs
  import opened Text
  import opened Models
  import opened Store
  import Ballot

  /** `BadgeArtwork.query.filter_by(submission_id=token).first()`: the first
      artwork of the entry the token names. A token that is not a decimal
      numeral names no entry. */
  function ResolveArtwork(aws: seq<BadgeArtwork>, token: string): (r: Option<BadgeArtwork>)
    ensures r.Some? <==> ParseNat(token).Some? && exists a :: a in aws && a.submissionId == ParseNat(token).value
    ensures r.Some? ==> r.value in aws && r.value.submissionId == ParseNat(token).value
    ensures r.Some? ==>
              exists i ::
                && 0 <= i < |aws| && aws[i] == r.value
                && forall j :: 0 <= j < i ==> aws[j].submissionId != r.value.submissionId
  {
    match ParseNat(token)
    case None => None
    case Some(n) =>
      var r := First(aws, (a: BadgeArtwork) => a.submissionId == n);
      assert r.None? ==> forall a :: a in aws ==> a.submissionId != n;
      r
  }

  predicate AllResolve(aws: seq<BadgeArtwork>, tokens: seq<string>) {
    forall i :: 0 <= i < |tokens| ==> ResolveArtwork(aws, tokens[i]).Some?
  }

  /** The vote a token at 1-based position `rank` becomes. */
  function NewVote(aws: seq<BadgeArtwork>, voter: nat, token: string, rank: int): (v: JudgeVote)
    requires ResolveArtwork(aws, token).Some?
    ensures v.voter == voter && v.rank == rank
    ensures Some(v.submissionId) == ParseNat(token)
    ensures exists a :: a in aws && a.id == v.badgeArtworkId && a.submissionId == v.submissionId
  {
    var a := ResolveArtwork(aws, token).value;
    JudgeVote(voter, a.submissionId, a.id, rank)
  }

  /** One vote per token, ranks 1, 2, ... in list order. */
  function NewVotes(aws: seq<BadgeArtwork>, voter: nat, tokens: seq<string>): (vs: seq<JudgeVote>)
    requires AllResolve(aws, tokens)
    ensures |vs| == |tokens|
    ensures forall i :: 0 <= i < |tokens| ==> vs[i] == NewVote(aws, voter, tokens[i], i + 1)
  {
    seq(|tokens|, i requires 0 <= i < |tokens| => NewVote(aws, voter, tokens[i], i + 1))
  }

  function OthersOf(votes: seq<JudgeVote>, voter: nat): seq<JudgeVote> {
    Filter(votes, Not(ByVoter(voter)))
  }

  function OwnOf(votes: seq<JudgeVote>, voter: nat): seq<JudgeVote> {
    Filter(votes, ByVoter(voter))
  }

  /** The vote table after a save: every other judge's votes, then the new
      ones. It fails with the first token that names no artwork. */
  function ReplaceVotes(votes: seq<JudgeVote>, aws: seq<BadgeArtwork>, voter: nat, tokens: seq<string>)
    : (r: Result<seq<JudgeVote>, string>)
    ensures r.Ok? <==> AllResolve(aws, tokens)
    ensures r.Err? ==> r.error in tokens && ResolveArtwork(aws, r.error).None?
  {
    match First(tokens, (tok: string) => ResolveArtwork(aws, tok).None?)
    case Some(bad) => Err(bad)
    case None => Ok(OthersOf(votes, voter) + NewVotes(aws, voter, tokens))
  }

  /** The save loop. The judge's votes are deleted, then each token in turn
      is resolved to its artwork and a vote with the running rank is added;
      the first token with no artwork abandons the savepoint and restores
      the votes as they were. */
  method SaveRankings(db: Database, voter: nat, tokens: seq<string>) returns (ok: bool)
    modifies db
    ensures ok <==> ReplaceVotes(old(db.votes), old(db.artworks), voter, tokens).Ok?
    ensures ok ==> db.Contents() == old(db.Contents()).(votes := ReplaceVotes(old(db.votes), old(db.artworks), voter, tokens).value)
    ensures !ok ==> db.Contents() == old(db.Contents())
  {
    var savepoint := db.votes;
    db.votes := OthersOf(db.votes, voter);
    var rank := 1;
    var i := 0;
    while i < |tokens|
      invariant 0 <= i <= |tokens| && rank == i + 1
      invariant db.Contents() == old(db.Contents()).(votes := db.votes)
      invariant AllResolve(db.artworks, tokens[..i])
      invariant db.votes == OthersOf(savepoint, voter) + NewVotes(db.artworks, voter, tokens[..i])
    {
      var found := ResolveArtwork(db.artworks, tokens[i]);
      if found.None? {
        db.votes := savepoint;
        assert !AllResolve(db.artworks, tokens);
        return false;
      }
      var vote := JudgeVote(voter, found.value.submissionId, found.value.id, rank);
      NewVotesSnoc(db.artworks, voter, tokens, i);
      db.votes := db.votes + [vote];
      rank := rank + 1;
      i := i + 1;
    }
    assert tokens[..i] == tokens;
    return true;
  }

  /** One more resolving token adds its vote, with the next rank, at the end. */
  lemma NewVotesSnoc(aws: seq<BadgeArtwork>, voter: nat, tokens: seq<string>, i: nat)
    requires i < |tokens| && AllResolve(aws, tokens[..i]) && ResolveArtwork(aws, tokens[i]).Some?
    ensures AllResolve(aws, tokens[..i + 1])
    ensures NewVotes(aws, voter, tokens[..i + 1]) == NewVotes(aws, voter, tokens[..i]) + [NewVote(aws, voter, tokens[i], i + 1)]
  {
    assert tokens[..i + 1] == tokens[..i] + [tokens[i]];
  }

  // Properties of a save.

  /** A save touches nothing but the judge's own votes: the other judges'
      votes are exactly as before, in the same order. */
  lemma {:induction false} ReplaceKeepsOthers(votes: seq<JudgeVote>, aws: seq<BadgeArtwork>, voter: nat, tokens: seq<string>, other: nat)
    requires ReplaceVotes(votes, aws, voter, tokens).Ok?
    requires other != voter
    ensures OwnOf(ReplaceVotes(votes, aws, voter, tokens).value, other) == OwnOf(votes, other)
  {
    var added := NewVotes(aws, voter, tokens);
    var isOther := ByVoter(other);
    FilterAppend(OthersOf(votes, voter), added, isOther);
    FilterNone(added, isOther);
    FilterImplied(votes, Not(ByVoter(voter)), isOther);
  }

  /** After a save the judge has exactly one vote per token, in token order:
      the vote for tokens[i] has rank i + 1, names the entry the token names
      and the first artwork of that entry. */
  lemma ReplaceOwnVotes(votes: seq<JudgeVote>, aws: seq<BadgeArtwork>, voter: nat, tokens: seq<string>)
    requires ReplaceVotes(votes, aws, voter, tokens).Ok?
    ensures var own := OwnOf(ReplaceVotes(votes, aws, voter, tokens).value, voter);
      && |own| == |tokens|
      && (forall i :: 0 <= i < |tokens| ==>
            && own[i].voter == voter
            && own[i].rank == i + 1
            && Some(own[i].submissionId) == ParseNat(tokens[i])
            && Some(own[i].badgeArtworkId) == FirstArtworkId(aws, own[i].submissionId))
  {
    var added := NewVotes(aws, voter, tokens);
    var mine := ByVoter(voter);
    FilterAppend(OthersOf(votes, voter), added, mine);
    FilterNone(OthersOf(votes, voter), mine);
    FilterAll(added, mine);
    forall i | 0 <= i < |tokens|
      ensures Some(added[i].badgeArtworkId) == FirstArtworkId(aws, added[i].submissionId)
    {
      var n := ParseNat(tokens[i]).value;
      assert ResolveArtwork(aws, tokens[i]) == First(aws, (a: BadgeArtwork) => a.submissionId == n);
    }
  }

  /** The id of the first artwork of an entry. */
  function FirstArtworkId(aws: seq<BadgeArtwork>, submissionId: nat): (r: Option<nat>)
    ensures r.Some? <==> exists a :: a in aws && a.submissionId == submissionId
    ensures r.Some? ==>
              exists i ::
                && 0 <= i < |aws| && aws[i].id == r.value && aws[i].submissionId == submissionId
                && forall j :: 0 <= j < i ==> aws[j].submissionId != submissionId
  {
    match First(aws, (a: BadgeArtwork) => a.submissionId == submissionId)
    case Some(a) => Some(a.id)
    case None => None
  }

  /** Saving twice is saving the second list: nothing of the first save
      survives the second. */
  lemma ReplaceTwice(votes: seq<JudgeVote>, aws: seq<BadgeArtwork>, voter: nat, t1: seq<string>, t2: seq<string>)
    requires ReplaceVotes(votes, aws, voter, t1).Ok?
    ensures ReplaceVotes(ReplaceVotes(votes, aws, voter, t1).value, aws, voter, t2)
         == ReplaceVotes(votes, aws, voter, t2)
  {
    var once := ReplaceVotes(votes, aws, voter, t1).value;
    OthersAfterReplace(votes, aws, voter, t1);
    if AllResolve(aws, t2) {
      assert ReplaceVotes(once, aws, voter, t2).value == OthersOf(once, voter) + NewVotes(aws, voter, t2);
    }
  }

  /** The other judges' votes after a save are those before it. */
  lemma OthersAfterReplace(votes: seq<JudgeVote>, aws: seq<BadgeArtwork>, voter: nat, tokens: seq<string>)
    requires ReplaceVotes(votes, aws, voter, tokens).Ok?
    ensures OthersOf(ReplaceVotes(votes, aws, voter, tokens).value, voter) == OthersOf(votes, voter)
  {
    var notMine := Not(ByVoter(voter));
    var added := NewVotes(aws, voter, tokens);
    FilterAppend(OthersOf(votes, voter), added, notMine);
    FilterNone(added, notMine);
    FilterImplied(votes, notMine, notMine);
  }

  /** Saving the same list again changes nothing. */
  lemma ReplaceIdempotent(votes: seq<JudgeVote>, aws: seq<BadgeArtwork>, voter: nat, tokens: seq<string>)
    requires ReplaceVotes(votes, aws, voter, tokens).Ok?
    ensures var once := ReplaceVotes(votes, aws, voter, tokens).value;
      ReplaceVotes(once, aws, voter, tokens) == Ok(once)
  {
    ReplaceTwice(votes, aws, voter, tokens, tokens);
  }

  /** The ids the ballot reads back for the judge (their votes in ascending
      rank) are the ids just saved, in the order they were sent. */
  lemma SavedIdsRoundTrip(votes: seq<JudgeVote>, aws: seq<BadgeArtwork>, voter: nat, tokens: seq<string>)
    requires ReplaceVotes(votes, aws, voter, tokens).Ok?
    ensures forall i :: 0 <= i < |tokens| ==> ParseNat(tokens[i]).Some?
    ensures var saved := Ballot.SavedIds(ReplaceVotes(votes, aws, voter, tokens).value, voter);
      && |saved| == |tokens|
      && forall i :: 0 <= i < |tokens| ==> Some(saved[i]) == ParseNat(tokens[i])
  {
    var r := ReplaceVotes(votes, aws, voter, tokens).value;
    var own := OwnOf(r, voter);
    ReplaceOwnVotes(votes, aws, voter, tokens);
    var rankOf := Ballot.RankOf;
    assert StrictlyAscending(own, rankOf);
    SortByAscending(own, rankOf);
  }

  /** A save by an existing judge keeps every reference in the store
      resolving. */
  lemma ReplaceKeepsIntegrity(t: Tables, voter: nat, tokens: seq<string>)
    requires Integrity(t) && HasJudge(t, voter)
    requires ReplaceVotes(t.votes, t.artworks, voter, tokens).Ok?
    ensures Integrity(t.(votes := ReplaceVotes(t.votes, t.artworks, voter, tokens).value))
  {
    var added := NewVotes(t.artworks, voter, tokens);
    var r := ReplaceVotes(t.votes, t.artworks, voter, tokens).value;
    forall v | v in r ensures HasJudge(t, v.voter) && VoteResolves(t, v) {
      if v !in added {
        assert v in OthersOf(t.votes, voter);
      }
    }
  }

  /** A token that names no artwork (a non-numeric piece, the empty piece
      between two commas, an entry without artwork) fails the save. */
  lemma UnknownTokenFails(votes: seq<JudgeVote>, aws: seq<BadgeArtwork>, voter: nat, tokens: seq<string>, i: nat)
    requires i < |tokens|
    requires ParseNat(tokens[i]).None? || forall a :: a in aws ==> a.submissionId != ParseNat(tokens[i]).value
    ensures ReplaceVotes(votes, aws, voter, tokens).Err?
  {
  }
}
