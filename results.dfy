/** The results page (app/admin.py judges_results, app/routes.py
    judges_results): each artwork's total score is the sum of the ranks it
    received (lower is better), the rows come in ascending score, each vote
    is listed under its artwork, and the judges are split into those who have
    voted and those who have not. */
module Results {
  import opened Wrappers
  import opened Seqs
  import opened Models

  /** `SUM(JudgeVote.rank)` over some votes; 0 for none (the `COALESCE`). */
  function SumRanks(vs: seq<JudgeVote>): int {
    if vs == [] then 0 else vs[0].rank + SumRanks(vs[1..])
  }

  lemma {:induction false} SumRanksAppend(a: seq<JudgeVote>, b: seq<JudgeVote>)
    ensures SumRanks(a + b) == SumRanks(a) + SumRanks(b)
  {
    if a == [] {
      assert a + b == b;
    } else {
      assert (a + b)[1..] == a[1..] + b;
      SumRanksAppend(a[1..], b);
    }
  }

  function ForArtwork(id: nat): JudgeVote -> bool {
    (v: JudgeVote) => v.badgeArtworkId == id
  }

  function ForSubmission(id: nat): JudgeVote -> bool {
    (v: JudgeVote) => v.submissionId == id
  }

  /** An adult artwork's total score. */
  function Score(votes: seq<JudgeVote>, artworkId: nat): int {
    SumRanks(Filter(votes, ForArtwork(artworkId)))
  }

  /** A youth entry's total score: the votes are matched on `submission_id`,
      the column adult votes also use for adult entry ids. */
  function YouthScore(votes: seq<JudgeVote>, youthId: nat): int {
    SumRanks(Filter(votes, ForSubmission(youthId)))
  }

  /** One results row; `itemId` is the artwork id (adult) or the youth
      entry id (youth). */
  datatype ResultRow = ResultRow(artistName: string, badgeName: string, itemId: nat, artworkFile: string, totalScore: int)

  /** The sort key `total_score`. */
  function RowScore(r: ResultRow): int {
    r.totalScore
  }

  /** The results row of an artwork: none when its entry or badge is
      missing. */
  function ArtworkRow(t: Tables, a: BadgeArtwork): (r: Option<ResultRow>)
    ensures r.Some? <==> HasSubmission(t, a.submissionId) && HasBadge(t, a.badgeId)
    ensures r.Some? ==> r.value.itemId == a.id && r.value.totalScore == Score(t.votes, a.id)
  {
    match (FindSubmission(t.submissions, a.submissionId), FindBadge(t.badges, a.badgeId))
    case (Some(s), Some(b)) => Some(ResultRow(s.name, b.name, a.id, a.artworkFile, Score(t.votes, a.id)))
    case _ => None
  }

  /** One row per artwork whose entry and badge exist, in artwork order. */
  function AdultRows(t: Tables, aws: seq<BadgeArtwork>): (rows: seq<ResultRow>)
    ensures |rows| <= |aws|
  {
    if aws == [] then []
    else
      match ArtworkRow(t, aws[0])
      case Some(row) => [row] + AdultRows(t, aws[1..])
      case None => AdultRows(t, aws[1..])
  }

  /** The adult results app/admin.py intends: every artwork, unvoted ones
      with score 0, in ascending score. (The query as written gives
      `VotedResults`; see `UnvotedArtworkOmittedAsWritten`.) */
  function AdultResults(t: Tables): seq<ResultRow> {
    SortBy(AdultRows(t, t.artworks), RowScore)
  }

  /** The condition "some vote references this row's artwork". */
  function Voted(votes: seq<JudgeVote>): ResultRow -> bool {
    (r: ResultRow) => exists i :: 0 <= i < |votes| && votes[i].badgeArtworkId == r.itemId
  }

  /** The results of app/routes.py: its join from the votes keeps only
      artworks that received a vote. The adult query of app/admin.py, read
      as written, starts from the votes too and gives the same rows. */
  function VotedResults(t: Tables): seq<ResultRow> {
    SortBy(Filter(AdultRows(t, t.artworks), Voted(t.votes)), RowScore)
  }

  /** The results row of a youth entry: none when its badge is missing. */
  function YouthEntryRow(t: Tables, y: YouthSubmission): (r: Option<ResultRow>)
    ensures r.Some? <==> HasBadge(t, y.badgeId)
    ensures r.Some? ==> r.value.itemId == y.id && r.value.totalScore == YouthScore(t.votes, y.id)
  {
    match FindBadge(t.badges, y.badgeId)
    case Some(b) => Some(ResultRow(y.name, b.name, y.id, y.artworkFile, YouthScore(t.votes, y.id)))
    case None => None
  }

  /** One row per youth entry whose badge exists, in entry order. */
  function YouthRows(t: Tables, ys: seq<YouthSubmission>): (rows: seq<ResultRow>)
    ensures |rows| <= |ys|
  {
    if ys == [] then []
    else
      match YouthEntryRow(t, ys[0])
      case Some(row) => [row] + YouthRows(t, ys[1..])
      case None => YouthRows(t, ys[1..])
  }

  function YouthResults(t: Tables): seq<ResultRow> {
    SortBy(YouthRows(t, t.youthSubmissions), RowScore)
  }

  // Scores.

  /** The score counts each vote for the artwork once: adding a vote adds its
      rank to that artwork's score and to no other. */
  lemma ScoreAddVote(votes: seq<JudgeVote>, v: JudgeVote, id: nat)
    ensures Score(votes + [v], id) == Score(votes, id) + (if v.badgeArtworkId == id then v.rank else 0)
  {
    FilterAppend(votes, [v], ForArtwork(id));
    SumRanksAppend(Filter(votes, ForArtwork(id)), Filter([v], ForArtwork(id)));
  }

  /** An artwork nobody voted for scores 0. */
  lemma ScoreNoVotes(votes: seq<JudgeVote>, id: nat)
    requires forall v :: v in votes ==> v.badgeArtworkId != id
    ensures Score(votes, id) == 0
  {
    FilterNone(votes, ForArtwork(id));
  }

  /** Ranks 2, 1 and 3 for one artwork make a score of 6; a vote for another
      artwork does not count. */
  lemma ScoreExample()
    ensures Score([JudgeVote(1, 4, 7, 2), JudgeVote(2, 4, 7, 1), JudgeVote(3, 5, 8, 1), JudgeVote(3, 4, 7, 3)], 7) == 6
  {
    var v1, v2, v3, v4 := JudgeVote(1, 4, 7, 2), JudgeVote(2, 4, 7, 1), JudgeVote(3, 5, 8, 1), JudgeVote(3, 4, 7, 3);
    ScoreAddVote([], v1, 7);
    assert [v1] + [v2] == [v1, v2];
    ScoreAddVote([v1], v2, 7);
    assert [v1, v2] + [v3] == [v1, v2, v3];
    ScoreAddVote([v1, v2], v3, 7);
    assert [v1, v2, v3] + [v4] == [v1, v2, v3, v4];
    ScoreAddVote([v1, v2, v3], v4, 7);
    assert [] + [v1] == [v1];
  }

  /** Because youth scores match votes on `submission_id`, a vote cast for
      adult entry 5 counts toward youth entry 5. */
  lemma YouthScoreSharesAdultIds()
    ensures YouthScore([JudgeVote(1, 5, 9, 2)], 5) == 2
  {
    assert [JudgeVote(1, 5, 9, 2)][1..] == [];
  }

  // Rows.

  /** The adult rows are exactly the rows of the artworks whose entry and
      badge exist, each carrying its artwork's score. */
  lemma {:induction false} AdultRowsExact(t: Tables, aws: seq<BadgeArtwork>)
    ensures forall r :: r in AdultRows(t, aws) <==> exists a :: a in aws && ArtworkRow(t, a) == Some(r)
  {
    if aws != [] {
      AdultRowsExact(t, aws[1..]);
      assert aws == [aws[0]] + aws[1..];
    }
  }

  /** The youth rows are exactly the rows of the youth entries whose badge
      exists, each carrying its entry's score. */
  lemma {:induction false} YouthRowsExact(t: Tables, ys: seq<YouthSubmission>)
    ensures forall r :: r in YouthRows(t, ys) <==> exists y :: y in ys && YouthEntryRow(t, y) == Some(r)
  {
    if ys != [] {
      YouthRowsExact(t, ys[1..]);
      assert ys == [ys[0]] + ys[1..];
    }
  }

  /** The adult results hold the same rows as the join, in ascending score. */
  lemma AdultResultsSorted(t: Tables)
    ensures multiset(AdultResults(t)) == multiset(AdultRows(t, t.artworks))
    ensures forall i, j :: 0 <= i < j < |AdultResults(t)| ==>
      AdultResults(t)[i].totalScore <= AdultResults(t)[j].totalScore
  {
    SortByPermutation(AdultRows(t, t.artworks), RowScore);
    SortBySorted(AdultRows(t, t.artworks), RowScore);
  }

  /** The youth results hold the same rows as their join, in ascending
      score. */
  lemma YouthResultsSorted(t: Tables)
    ensures multiset(YouthResults(t)) == multiset(YouthRows(t, t.youthSubmissions))
    ensures forall i, j :: 0 <= i < j < |YouthResults(t)| ==>
      YouthResults(t)[i].totalScore <= YouthResults(t)[j].totalScore
  {
    SortByPermutation(YouthRows(t, t.youthSubmissions), RowScore);
    SortBySorted(YouthRows(t, t.youthSubmissions), RowScore);
  }

  /** With no votes stored every adult row scores 0. */
  lemma NoVotesAdultScores(t: Tables)
    requires t.votes == []
    ensures forall r :: r in AdultResults(t) ==> r.totalScore == 0
  {
    AdultRowsExact(t, t.artworks);
    AdultResultsSorted(t);
    forall r | r in AdultResults(t) ensures r.totalScore == 0 {
      assert r in multiset(AdultRows(t, t.artworks));
      var a :| a in t.artworks && ArtworkRow(t, a) == Some(r);
      assert Filter(t.votes, ForArtwork(a.id)) == [];
    }
  }

  /** With no votes stored every youth row scores 0. */
  lemma NoVotesYouthScores(t: Tables)
    requires t.votes == []
    ensures forall r :: r in YouthResults(t) ==> r.totalScore == 0
  {
    YouthRowsExact(t, t.youthSubmissions);
    YouthResultsSorted(t);
    forall r | r in YouthResults(t) ensures r.totalScore == 0 {
      assert r in multiset(YouthRows(t, t.youthSubmissions));
      var y :| y in t.youthSubmissions && YouthEntryRow(t, y) == Some(r);
      assert Filter(t.votes, ForSubmission(y.id)) == [];
    }
  }

  /** The older results are the newer ones without the unvoted artworks:
      the same rows, each with at least one vote, in ascending score. */
  lemma VotedResultsSorted(t: Tables)
    ensures multiset(VotedResults(t)) == multiset(Filter(AdultRows(t, t.artworks), Voted(t.votes)))
    ensures forall r :: r in VotedResults(t) ==> r in AdultRows(t, t.artworks) && Voted(t.votes)(r)
    ensures forall i, j :: 0 <= i < j < |VotedResults(t)| ==>
      VotedResults(t)[i].totalScore <= VotedResults(t)[j].totalScore
  {
    var kept := Filter(AdultRows(t, t.artworks), Voted(t.votes));
    SortByPermutation(kept, RowScore);
    SortBySorted(kept, RowScore);
    forall r | r in VotedResults(t) ensures r in AdultRows(t, t.artworks) && Voted(t.votes)(r) {
      assert r in multiset(kept);
    }
  }

  /** Every artwork whose entry and badge exist is listed, and one nobody
      ranked is listed with score 0: the rows the outer join and the
      `COALESCE` of app/admin.py are there to keep. */
  lemma EveryArtworkListed(t: Tables, a: BadgeArtwork)
    requires a in t.artworks && HasSubmission(t, a.submissionId) && HasBadge(t, a.badgeId)
    ensures ArtworkRow(t, a).Some? && ArtworkRow(t, a).value in AdultResults(t)
    ensures (forall v :: v in t.votes ==> v.badgeArtworkId != a.id) ==> ArtworkRow(t, a).value.totalScore == 0
  {
    AdultRowsExact(t, t.artworks);
    SortByPermutation(AdultRows(t, t.artworks), RowScore);
    assert ArtworkRow(t, a).value in multiset(AdultRows(t, t.artworks));
    if forall v :: v in t.votes ==> v.badgeArtworkId != a.id {
      ScoreNoVotes(t.votes, a.id);
    }
  }

  /** The adult query of app/admin.py as written names `JudgeVote` in the
      condition of its outer join and has no explicit FROM, so the join
      starts from `judge_vote` and yields the rows of `VotedResults`. One
      artwork with its entry and badge and no vote shows the difference: it
      is missing as written and listed with score 0 in `AdultResults`. */
  lemma UnvotedArtworkOmittedAsWritten()
    ensures var t := Tables([Badge(1, "b", "")], [ArtistSubmission(2, "a")], [], [BadgeArtwork(3, 2, 1, "f")], [], [], []);
      && VotedResults(t) == []
      && AdultResults(t) == [ResultRow("a", "b", 3, "f", 0)]
  {
    var t := Tables([Badge(1, "b", "")], [ArtistSubmission(2, "a")], [], [BadgeArtwork(3, 2, 1, "f")], [], [], []);
    var row := ResultRow("a", "b", 3, "f", 0);
    assert AdultRows(t, t.artworks) == [row];
    assert Filter([row], Voted(t.votes)) == [];
    SortByPermutation([row], RowScore);
    assert |AdultResults(t)| == 1 by {
      assert multiset(AdultResults(t)) == multiset{row};
    }
    assert AdultResults(t)[0] in multiset{row};
  }

  // Grouping votes by artwork.

  /** What the page lists for one vote. */
  datatype VoteEntry = VoteEntry(judgeName: string, rank: int)

  /** A vote row of the query: the grouping key and the entry. */
  datatype KeyedEntry = KeyedEntry(key: nat, entry: VoteEntry)

  /** The votes joined with their judge, keyed by artwork id
      (`judge_votes`) or, with `byArtwork` false, by submission id
      (`youth_judge_votes`). Votes whose judge is gone have no row. */
  function VoteRows(t: Tables, vs: seq<JudgeVote>, byArtwork: bool): (rows: seq<KeyedEntry>)
    ensures |rows| <= |vs|
  {
    if vs == [] then []
    else
      var v := vs[0];
      var rest := VoteRows(t, vs[1..], byArtwork);
      match FindJudge(t.judges, v.voter)
      case Some(j) => [KeyedEntry(if byArtwork then v.badgeArtworkId else v.submissionId, VoteEntry(j.name, v.rank))] + rest
      case None => rest
  }

  /** The condition "this vote's judge still exists" (the inner join with
      the judges). */
  function JudgeExists(t: Tables): JudgeVote -> bool {
    (v: JudgeVote) => FindJudge(t.judges, v.voter).Some?
  }

  /** The row of a vote whose judge exists: its artwork id (or submission
      id), its judge's name and its rank. */
  function VoteRow(t: Tables, v: JudgeVote, byArtwork: bool): KeyedEntry
    requires JudgeExists(t)(v)
  {
    KeyedEntry(if byArtwork then v.badgeArtworkId else v.submissionId,
               VoteEntry(FindJudge(t.judges, v.voter).value.name, v.rank))
  }

  /** Every vote whose judge exists gives exactly one row, in vote order;
      no other vote gives a row. */
  lemma {:induction false} VoteRowsExact(t: Tables, vs: seq<JudgeVote>, byArtwork: bool)
    ensures var kept, rows := Filter(vs, JudgeExists(t)), VoteRows(t, vs, byArtwork);
      && |rows| == |kept|
      && forall i :: 0 <= i < |kept| ==> rows[i] == VoteRow(t, kept[i], byArtwork)
  {
    if vs != [] {
      var p := JudgeExists(t);
      var keptRest, rest := Filter(vs[1..], p), VoteRows(t, vs[1..], byArtwork);
      VoteRowsExact(t, vs[1..], byArtwork);
      if p(vs[0]) {
        assert Filter(vs, p) == [vs[0]] + keptRest;
        assert VoteRows(t, vs, byArtwork) == [VoteRow(t, vs[0], byArtwork)] + rest;
      } else {
        assert Filter(vs, p) == keptRest;
        assert VoteRows(t, vs, byArtwork) == rest;
      }
    }
  }

  function HasKey(k: nat): KeyedEntry -> bool {
    (r: KeyedEntry) => r.key == k
  }

  function Entries(rows: seq<KeyedEntry>): (es: seq<VoteEntry>)
    ensures |es| == |rows|
    ensures forall i :: 0 <= i < |rows| ==> es[i] == rows[i].entry
  {
    seq(|rows|, i requires 0 <= i < |rows| => rows[i].entry)
  }

  function KeysOf(rows: seq<KeyedEntry>): set<nat> {
    set i | 0 <= i < |rows| :: rows[i].key
  }

  /** The grouping: each key that occurs maps to the entries with that key,
      in query order. */
  function Grouped(rows: seq<KeyedEntry>): map<nat, seq<VoteEntry>> {
    map k | k in KeysOf(rows) :: Entries(Filter(rows, HasKey(k)))
  }

  /** The grouping built one row at a time, as the loop of the results page
      builds it. */
  function GroupBy(rows: seq<KeyedEntry>): map<nat, seq<VoteEntry>> {
    if rows == [] then map[]
    else
      var g := GroupBy(rows[..|rows| - 1]);
      var r := rows[|rows| - 1];
      g[r.key := (if r.key in g then g[r.key] else []) + [r.entry]]
  }

  /** Building the groups row by row gives the grouping. */
  lemma {:induction false} GroupByGrouped(rows: seq<KeyedEntry>)
    ensures GroupBy(rows) == Grouped(rows)
  {
    if rows != [] {
      var init := rows[..|rows| - 1];
      GroupByGrouped(init);
      GroupedSnoc(init, rows[|rows| - 1]);
      assert init + [rows[|rows| - 1]] == rows;
    }
  }

  /** The dictionary-building loop of the results page. */
  method GroupVotes(rows: seq<KeyedEntry>) returns (m: map<nat, seq<VoteEntry>>)
    ensures m == Grouped(rows)
  {
    m := map[];
    var i := 0;
    while i < |rows|
      invariant 0 <= i <= |rows|
      invariant m == GroupBy(rows[..i])
    {
      var r := rows[i];
      assert rows[..i + 1][..i] == rows[..i];
      ghost var before := m;
      if r.key !in m {
        m := m[r.key := []];
      }
      m := m[r.key := m[r.key] + [r.entry]];
      assert m == before[r.key := (if r.key in before then before[r.key] else []) + [r.entry]];
      i := i + 1;
    }
    assert rows[..i] == rows;
    GroupByGrouped(rows);
  }

  /** Adding one row appends its entry to its key's list and leaves every
      other list alone. */
  lemma GroupedSnoc(rows: seq<KeyedEntry>, r: KeyedEntry)
    ensures Grouped(rows + [r]) ==
      Grouped(rows)[r.key := (if r.key in Grouped(rows) then Grouped(rows)[r.key] else []) + [r.entry]]
  {
    var g, g' := Grouped(rows), Grouped(rows + [r]);
    var h := g[r.key := (if r.key in g then g[r.key] else []) + [r.entry]];
    KeysSnoc(rows, r);
    assert g'.Keys == h.Keys;
    forall k | k in g'.Keys ensures g'[k] == h[k] {
      GroupSnoc(rows, r, k);
    }
  }

  lemma KeysSnoc(rows: seq<KeyedEntry>, r: KeyedEntry)
    ensures KeysOf(rows + [r]) == KeysOf(rows) + {r.key}
  {
    var s := rows + [r];
    forall k | k in KeysOf(s) ensures k in KeysOf(rows) + {r.key} {
      var i :| 0 <= i < |s| && s[i].key == k;
      if i < |rows| {
        assert rows[i].key == k;
      }
    }
    forall k | k in KeysOf(rows) ensures k in KeysOf(s) {
      var i :| 0 <= i < |rows| && rows[i].key == k;
      assert s[i].key == k;
    }
    assert s[|rows|].key == r.key;
  }

  /** One key's list after adding a row. */
  lemma GroupSnoc(rows: seq<KeyedEntry>, r: KeyedEntry, k: nat)
    ensures Entries(Filter(rows + [r], HasKey(k)))
         == Entries(Filter(rows, HasKey(k))) + (if r.key == k then [r.entry] else [])
    ensures k !in KeysOf(rows) ==> Filter(rows, HasKey(k)) == []
  {
    FilterAppend(rows, [r], HasKey(k));
    HeadFilter([r], HasKey(k));
    assert [r][1..] == [];
    var f := Filter(rows, HasKey(k));
    var e := Filter([r], HasKey(k));
    assert Entries(f + e) == Entries(f) + Entries(e);
    if k !in KeysOf(rows) {
      forall x | x in rows ensures !HasKey(k)(x) {
        var i :| 0 <= i < |rows| && rows[i] == x;
      }
      FilterNone(rows, HasKey(k));
    }
  }

  /** Every vote row is listed under its key; nothing else is listed. */
  lemma GroupedHoldsEveryRow(rows: seq<KeyedEntry>)
    ensures Grouped(rows).Keys == KeysOf(rows)
    ensures forall i :: 0 <= i < |rows| ==> rows[i].entry in Grouped(rows)[rows[i].key]
    ensures forall k :: k in Grouped(rows) ==> |Grouped(rows)[k]| == |Filter(rows, HasKey(k))|
  {
    forall i | 0 <= i < |rows| ensures rows[i].entry in Grouped(rows)[rows[i].key] {
      var k := rows[i].key;
      assert k in KeysOf(rows);
      FilterKeeps(rows, HasKey(k), rows[i]);
      var f := Filter(rows, HasKey(k));
      var j :| 0 <= j < |f| && f[j] == rows[i];
      assert Entries(f)[j] == rows[i].entry;
    }
  }

  // Judges' voting status.

  datatype JudgesStatus = JudgesStatus(voted: seq<string>, notVoted: seq<string>)

  function Names(js: seq<Judge>): (ns: seq<string>)
    ensures |ns| == |js|
    ensures forall i :: 0 <= i < |js| ==> ns[i] == js[i].name
  {
    seq(|js|, i requires 0 <= i < |js| => js[i].name)
  }

  /** The condition "this judge has cast a vote". */
  function HasVoted(votes: seq<JudgeVote>): Judge -> bool {
    (j: Judge) => exists i :: 0 <= i < |votes| && votes[i].voter == j.id
  }

  function NotAmong(names: seq<string>): string -> bool {
    (n: string) => n !in names
  }

  /** "voted": the distinct names of judges with a vote; "not_voted": every
      roster name not among them, in roster order. */
  function Status(judges: seq<Judge>, votes: seq<JudgeVote>): JudgesStatus {
    var voted := Distinct(Names(Filter(judges, HasVoted(votes))));
    JudgesStatus(voted, Filter(Names(judges), NotAmong(voted)))
  }

  /** The two lists are disjoint and together hold every judge's name;
      "not_voted" names only judges on the roster. */
  lemma StatusPartition(judges: seq<Judge>, votes: seq<JudgeVote>)
    ensures var st := Status(judges, votes);
      && (forall n :: n in st.voted ==> n !in st.notVoted)
      && (forall j :: j in judges ==> j.name in st.voted || j.name in st.notVoted)
      && (forall n :: n in st.notVoted ==> exists j :: j in judges && j.name == n)
  {
    var st := Status(judges, votes);
    forall j | j in judges ensures j.name in st.voted || j.name in st.notVoted {
      var i :| 0 <= i < |judges| && judges[i] == j;
      assert Names(judges)[i] == j.name;
      if j.name !in st.voted {
        FilterKeeps(Names(judges), NotAmong(st.voted), j.name);
      }
    }
    forall n | n in st.notVoted ensures exists j :: j in judges && j.name == n {
      var i :| 0 <= i < |Names(judges)| && Names(judges)[i] == n;
      assert judges[i] in judges;
    }
  }

  /** A name is in "voted" exactly when a judge of that name has voted, and
      it is listed once. */
  lemma StatusVoted(judges: seq<Judge>, votes: seq<JudgeVote>)
    ensures var st := Status(judges, votes);
      && (forall a, b :: 0 <= a < b < |st.voted| ==> st.voted[a] != st.voted[b])
      && (forall n :: n in st.voted <==> exists j :: j in judges && j.name == n && HasVoted(votes)(j))
  {
    var st := Status(judges, votes);
    var withVote := Filter(judges, HasVoted(votes));
    var names := Names(withVote);
    DistinctSpec(names);
    forall n ensures n in st.voted <==> exists j :: j in judges && j.name == n && HasVoted(votes)(j) {
      if n in st.voted {
        var k :| 0 <= k < |st.voted| && st.voted[k] == n;
        var i :| 0 <= i < |names| && names[i] == n;
        assert withVote[i] in judges;
      }
      if exists j :: j in judges && j.name == n && HasVoted(votes)(j) {
        var j :| j in judges && j.name == n && HasVoted(votes)(j);
        FilterKeeps(judges, HasVoted(votes), j);
        var i :| 0 <= i < |withVote| && withVote[i] == j;
        assert names[i] == n;
      }
    }
  }
}
