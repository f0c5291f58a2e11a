/** The judge's ballot: the candidate rows of the judging page and the order
    they are shown in (app/main.py judges_ballot, app/routes.py judges_ballot).

    Rows the judge has already ranked come first, in saved-rank order; the
    other rows follow in query order. A judge with no saved votes sees the
    rows in a random order that is drawn once per session and then reused. */
module Ballot {
  import opened Wrappers
  import opened Seqs
  import opened Models

  /** One row of the ballot query: an entry joined with one of its artworks
      and that artwork's badge. For the youth ballot `id` is the youth
      entry's id. */
  datatype Candidate = Candidate(id: nat, name: string, badgeId: nat, badgeName: string, artworkFile: string)

  /** The row an artwork contributes to the adult ballot: none when its
      entry or its badge is missing. */
  function AdultRow(t: Tables, a: BadgeArtwork): (r: Option<Candidate>)
    ensures r.Some? <==> HasSubmission(t, a.submissionId) && HasBadge(t, a.badgeId)
    ensures r.Some? ==> r.value.id == a.submissionId && r.value.badgeId == a.badgeId && r.value.artworkFile == a.artworkFile
  {
    match (FindSubmission(t.submissions, a.submissionId), FindBadge(t.badges, a.badgeId))
    case (Some(s), Some(b)) => Some(Candidate(s.id, s.name, b.id, b.name, a.artworkFile))
    case _ => None
  }

  /** `ArtistSubmission ⋈ BadgeArtwork ⋈ Badge`, in artwork order. */
  function AdultJoin(t: Tables, aws: seq<BadgeArtwork>): (rows: seq<Candidate>)
    ensures |rows| <= |aws|
  {
    if aws == [] then []
    else
      match AdultRow(t, aws[0])
      case Some(row) => [row] + AdultJoin(t, aws[1..])
      case None => AdultJoin(t, aws[1..])
  }

  /** The join holds exactly the rows of the artworks whose entry and badge
      exist. */
  lemma {:induction false} AdultJoinRows(t: Tables, aws: seq<BadgeArtwork>)
    ensures forall r :: r in AdultJoin(t, aws) <==> exists a :: a in aws && AdultRow(t, a) == Some(r)
  {
    if aws != [] {
      AdultJoinRows(t, aws[1..]);
      assert aws == [aws[0]] + aws[1..];
    }
  }

  /** The adult ballot rows, with `DISTINCT`. */
  function AdultCandidates(t: Tables): seq<Candidate> {
    Distinct(AdultJoin(t, t.artworks))
  }

  /** The row a youth entry contributes: none when its badge is missing. */
  function YouthRow(t: Tables, y: YouthSubmission): (r: Option<Candidate>)
    ensures r.Some? <==> HasBadge(t, y.badgeId)
    ensures r.Some? ==> r.value.id == y.id && r.value.name == y.name && r.value.badgeId == y.badgeId
  {
    match FindBadge(t.badges, y.badgeId)
    case Some(b) => Some(Candidate(y.id, y.name, b.id, b.name, y.artworkFile))
    case None => None
  }

  /** `YouthArtistSubmission ⋈ Badge`, in entry order. */
  function YouthJoin(t: Tables, ys: seq<YouthSubmission>): (rows: seq<Candidate>)
    ensures |rows| <= |ys|
  {
    if ys == [] then []
    else
      match YouthRow(t, ys[0])
      case Some(row) => [row] + YouthJoin(t, ys[1..])
      case None => YouthJoin(t, ys[1..])
  }

  /** The youth join holds exactly the rows of the entries whose badge
      exists. */
  lemma {:induction false} YouthJoinRows(t: Tables, ys: seq<YouthSubmission>)
    ensures forall r :: r in YouthJoin(t, ys) <==> exists y :: y in ys && YouthRow(t, y) == Some(r)
  {
    if ys != [] {
      YouthJoinRows(t, ys[1..]);
      assert ys == [ys[0]] + ys[1..];
    }
  }

  function YouthCandidates(t: Tables): seq<Candidate> {
    Distinct(YouthJoin(t, t.youthSubmissions))
  }

  /** The votes of one judge, in ascending rank (the `ORDER BY rank` query). */
  function VotesOf(votes: seq<JudgeVote>, voter: nat): seq<JudgeVote> {
    SortBy(Filter(votes, ByVoter(voter)), RankOf)
  }

  /** The sort key `JudgeVote.rank`. */
  function RankOf(v: JudgeVote): int {
    v.rank
  }

  function SubmissionIds(vs: seq<JudgeVote>): (ids: seq<nat>)
    ensures |ids| == |vs|
    ensures forall i :: 0 <= i < |vs| ==> ids[i] == vs[i].submissionId
  {
    seq(|vs|, i requires 0 <= i < |vs| => vs[i].submissionId)
  }

  /** `ranked_submission_ids`: the submission ids of the judge's votes in
      ascending rank. */
  function SavedIds(votes: seq<JudgeVote>, voter: nat): seq<nat> {
    SubmissionIds(VotesOf(votes, voter))
  }

  /** `ranked_submission_ids` lists the submission ids of exactly this
      judge's votes, in ascending rank. */
  lemma SavedIdsInRankOrder(votes: seq<JudgeVote>, voter: nat)
    ensures var vs := VotesOf(votes, voter);
      && SavedIds(votes, voter) == SubmissionIds(vs)
      && multiset(vs) == multiset(Filter(votes, ByVoter(voter)))
      && (forall i, j :: 0 <= i < j < |vs| ==> vs[i].rank <= vs[j].rank)
  {
    var own := Filter(votes, ByVoter(voter));
    SortByPermutation(own, RankOf);
    SortBySorted(own, RankOf);
  }

  /** The sort key `order.index(s.id)`. */
  function KeyIn(order: seq<nat>): Candidate -> int {
    (c: Candidate) => IndexOf(order, c.id)
  }

  /** The condition `s.id in order`. */
  function IdIn(order: seq<nat>): Candidate -> bool {
    (c: Candidate) => c.id in order
  }

  /** Ranked rows sorted by their position in `saved`, then the unranked
      rows in query order. */
  function RankedFirst(saved: seq<nat>, rows: seq<Candidate>): seq<Candidate> {
    SortBy(Filter(rows, IdIn(saved)), KeyIn(saved)) + Filter(rows, Not(IdIn(saved)))
  }

  /** `sorted(rows, key=lambda s: order.index(s.id))`: fails, naming the
      first row id the order lacks, when `list.index` would raise. */
  function OrderBy(order: seq<nat>, rows: seq<Candidate>): (r: Result<seq<Candidate>, nat>)
    ensures r.Err? <==> exists i :: 0 <= i < |rows| && rows[i].id !in order
    ensures r.Err? ==> r.error !in order
  {
    match First(rows, Not(IdIn(order)))
    case Some(c) => Err(c.id)
    case None => Ok(SortBy(rows, KeyIn(order)))
  }

  /** What a page view shows and what the session cache holds afterwards. */
  datatype Prepared = Prepared(rows: seq<Candidate>, cache: Option<seq<nat>>)

  /** The order a page view shows, given the judge's saved ids, the session's
      cached random order, the rows, and the permutation a fresh shuffle
      would draw. Saved votes win; otherwise the cached order is used, or the
      fresh shuffle, which is then cached. */
  function Prepare(saved: seq<nat>, cache: Option<seq<nat>>, rows: seq<Candidate>, shuffled: seq<nat>)
    : Result<Prepared, nat>
  {
    if saved != [] then Ok(Prepared(RankedFirst(saved, rows), cache))
    else
      var order := if cache.Some? then cache.value else shuffled;
      match OrderBy(order, rows)
      case Err(id) => Err(id)
      case Ok(sorted) => Ok(Prepared(sorted, Some(order)))
  }

  function Ids(rows: seq<Candidate>): (ids: seq<nat>)
    ensures |ids| == |rows|
    ensures forall i :: 0 <= i < |rows| ==> ids[i] == rows[i].id
  {
    seq(|rows|, i requires 0 <= i < |rows| => rows[i].id)
  }

  // Properties of the ordering.

  /** The ballot shows every candidate row exactly once: it is a permutation
      of the query result, so saved ids that match no row add nothing. */
  lemma RankedFirstPermutation(saved: seq<nat>, rows: seq<Candidate>)
    ensures multiset(RankedFirst(saved, rows)) == multiset(rows)
  {
    SortByPermutation(Filter(rows, IdIn(saved)), KeyIn(saved));
    FilterSplit(rows, IdIn(saved));
  }

  /** The ranked part of the ballot: exactly as many rows as were ranked,
      each one a ranked id, in ascending saved position. */
  lemma RankedPartSorted(saved: seq<nat>, rows: seq<Candidate>)
    ensures var s := SortBy(Filter(rows, IdIn(saved)), KeyIn(saved));
      && |s| == |Filter(rows, IdIn(saved))|
      && (forall i :: 0 <= i < |s| ==> s[i].id in saved)
      && (forall i, j :: 0 <= i < j < |s| ==> IndexOf(saved, s[i].id) <= IndexOf(saved, s[j].id))
  {
    RankedPartMembers(saved, rows);
    var s := SortBy(Filter(rows, IdIn(saved)), KeyIn(saved));
    SortBySorted(Filter(rows, IdIn(saved)), KeyIn(saved));
    forall i, j | 0 <= i < j < |s| ensures IndexOf(saved, s[i].id) <= IndexOf(saved, s[j].id) {
      assert KeyIn(saved)(s[i]) <= KeyIn(saved)(s[j]);
    }
  }

  lemma RankedPartMembers(saved: seq<nat>, rows: seq<Candidate>)
    ensures var s := SortBy(Filter(rows, IdIn(saved)), KeyIn(saved));
      && |s| == |Filter(rows, IdIn(saved))|
      && (forall i :: 0 <= i < |s| ==> s[i].id in saved)
  {
    var ranked := Filter(rows, IdIn(saved));
    var s := SortBy(ranked, KeyIn(saved));
    SortByPermutation(ranked, KeyIn(saved));
    assert |s| == |ranked| by {
      assert |multiset(s)| == |multiset(ranked)|;
    }
    forall i | 0 <= i < |s| ensures s[i].id in saved {
      assert s[i] in multiset(ranked);
    }
  }

  /** Rows of the ranked part that share a saved position (one entry with
      several artworks) keep their query order. */
  lemma RankedPartStable(saved: seq<nat>, rows: seq<Candidate>, n: nat)
    requires n < |saved|
    ensures Filter(SortBy(Filter(rows, IdIn(saved)), KeyIn(saved)), KeyIs(KeyIn(saved), n))
         == Filter(rows, KeyIs(KeyIn(saved), n))
  {
    var ranked := Filter(rows, IdIn(saved));
    var sorted := SortBy(ranked, KeyIn(saved));
    SortByStable(ranked, KeyIn(saved), n);
    FilterImplied(rows, IdIn(saved), KeyIs(KeyIn(saved), n));
  }

  /** The first k rows, k the number of ranked rows, are the ranked rows in
      ascending saved position, rows that share a position in query order;
      the rest are the unranked rows exactly in query order. */
  lemma RankedFirstShape(saved: seq<nat>, rows: seq<Candidate>)
    ensures var r := RankedFirst(saved, rows);
      var k := |Filter(rows, IdIn(saved))|;
      && k <= |r|
      && (forall i :: 0 <= i < k ==> r[i].id in saved)
      && (forall i, j :: 0 <= i < j < k ==> IndexOf(saved, r[i].id) <= IndexOf(saved, r[j].id))
      && (forall n: nat :: n < |saved| ==>
            Filter(r[..k], KeyIs(KeyIn(saved), n)) == Filter(rows, KeyIs(KeyIn(saved), n)))
      && r[k..] == Filter(rows, Not(IdIn(saved)))
  {
    var sorted := SortBy(Filter(rows, IdIn(saved)), KeyIn(saved));
    var r := RankedFirst(saved, rows);
    RankedPartSorted(saved, rows);
    assert r[..|sorted|] == sorted;
    assert r[|sorted|..] == Filter(rows, Not(IdIn(saved)));
    forall n: nat | n < |saved| ensures Filter(r[..|sorted|], KeyIs(KeyIn(saved), n)) == Filter(rows, KeyIs(KeyIn(saved), n)) {
      RankedPartStable(saved, rows, n);
    }
  }

  /** With no row among the saved ids (a youth ballot against adult votes
      whose ids do not collide) the rows keep query order. */
  lemma RankedFirstUnmatched(saved: seq<nat>, rows: seq<Candidate>)
    requires forall i :: 0 <= i < |rows| ==> rows[i].id !in saved
    ensures RankedFirst(saved, rows) == rows
  {
    FilterNone(rows, IdIn(saved));
    FilterAll(rows, Not(IdIn(saved)));
  }

  /** A saved order [3, 1] over candidates 1, 2, 3 shows 3, 1, then 2. */
  lemma RankedFirstExample(c1: Candidate, c2: Candidate, c3: Candidate)
    requires c1.id == 1 && c2.id == 2 && c3.id == 3
    ensures RankedFirst([3, 1], [c1, c2, c3]) == [c3, c1, c2]
  {
    SplitExample([3, 1], c1, c2, c3);
    SortTwoExample([3, 1], c1, c3);
  }

  lemma SplitExample(saved: seq<nat>, c1: Candidate, c2: Candidate, c3: Candidate)
    requires saved == [3, 1] && c1.id == 1 && c2.id == 2 && c3.id == 3
    ensures Filter([c1, c2, c3], IdIn(saved)) == [c1, c3]
    ensures Filter([c1, c2, c3], Not(IdIn(saved))) == [c2]
  {
    var rows := [c1, c2, c3];
    assert rows[1..] == [c2, c3] && rows[2..] == [c3] && rows[2..][1..] == [];
    HeadFilter(rows, IdIn(saved));
    HeadFilter(rows[1..], IdIn(saved));
    HeadFilter(rows[2..], IdIn(saved));
    HeadFilter(rows, Not(IdIn(saved)));
    HeadFilter(rows[1..], Not(IdIn(saved)));
    HeadFilter(rows[2..], Not(IdIn(saved)));
  }

  lemma SortTwoExample(saved: seq<nat>, c1: Candidate, c3: Candidate)
    requires saved == [3, 1] && c1.id == 1 && c3.id == 3
    ensures SortBy([c1, c3], KeyIn(saved)) == [c3, c1]
  {
    var key := KeyIn(saved);
    var s := [c1, c3];
    assert key(c1) == 1 && key(c3) == 0;
    assert MinIndex(s, key) == 1;
    HeadFilter(s, KeyIs(key, 0));
    HeadFilter(s[1..], KeyIs(key, 0));
    HeadFilter(s, KeyAbove(key, 0));
    HeadFilter(s[1..], KeyAbove(key, 0));
    assert s[1..][1..] == [];
    assert Filter(s, KeyIs(key, 0)) == [c3];
    assert Filter(s, KeyAbove(key, 0)) == [c1];
    var one := [c1];
    assert MinIndex(one, key) == 0;
    HeadFilter(one, KeyIs(key, 1));
    HeadFilter(one, KeyAbove(key, 1));
    assert one[1..] == [];
    assert SortBy(one, key) == [c1] + SortBy([], key);
  }

  /** With no saved votes and no cache, a fresh shuffle of exactly the row
      ids orders every row (no `list.index` error) and is cached. */
  lemma FreshShuffleSucceeds(rows: seq<Candidate>, shuffled: seq<nat>)
    requires multiset(shuffled) == multiset(Ids(rows))
    ensures var p := Prepare([], None, rows, shuffled);
      && p.Ok?
      && p.value.cache == Some(shuffled)
      && multiset(p.value.rows) == multiset(rows)
      && SortedBy(p.value.rows, KeyIn(shuffled))
  {
    forall i | 0 <= i < |rows| ensures rows[i].id in shuffled {
      assert Ids(rows)[i] in multiset(Ids(rows));
    }
    SortByPermutation(rows, KeyIn(shuffled));
    SortBySorted(rows, KeyIn(shuffled));
  }

  /** Once cached, the random order is reused: a later view shows the same
      rows whatever a new shuffle would have drawn, and keeps the cache. */
  lemma CachedOrderStable(order: seq<nat>, rows: seq<Candidate>, s1: seq<nat>, s2: seq<nat>)
    ensures Prepare([], Some(order), rows, s1) == Prepare([], Some(order), rows, s2)
    ensures Prepare([], Some(order), rows, s1).Ok? ==>
      Prepare([], Some(order), rows, s1).value.cache == Some(order)
  {
  }

  /** A view with no saved votes after a fresh shuffle, repeated with the
      cache it left, shows the same rows. */
  lemma RepeatViewSame(rows: seq<Candidate>, shuffled: seq<nat>, again: seq<nat>)
    requires Prepare([], None, rows, shuffled).Ok?
    ensures var p := Prepare([], None, rows, shuffled).value;
      Prepare([], p.cache, rows, again) == Ok(p)
  {
  }

  /** A cached order that lacks the id of some current row (a candidate that
      arrived after the order was drawn) makes the view fail. */
  lemma StaleCacheFails(order: seq<nat>, rows: seq<Candidate>, shuffled: seq<nat>, i: nat)
    requires i < |rows| && rows[i].id !in order
    ensures Prepare([], Some(order), rows, shuffled).Err?
  {
  }

  /** Saved votes decide the order whatever the cache holds, and leave it. */
  lemma SavedVotesIgnoreCache(saved: seq<nat>, c: Option<seq<nat>>, rows: seq<Candidate>, shuffled: seq<nat>)
    requires saved != []
    ensures Prepare(saved, c, rows, shuffled) == Ok(Prepared(RankedFirst(saved, rows), c))
  {
  }
}
