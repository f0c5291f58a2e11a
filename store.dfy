/** The database session the request handlers read and write: one mutable
    sequence per table. Only committed states are modelled; a handler that
    fails leaves every table as it found it. */
module Store {
  import opened Models

  class Database {
    var badges: seq<Badge>
    var submissions: seq<ArtistSubmission>
    var youthSubmissions: seq<YouthSubmission>
    var artworks: seq<BadgeArtwork>
    var judges: seq<Judge>
    var votes: seq<JudgeVote>
    var periods: seq<SubmissionPeriod>

    /** The tables as one value. */
    function Contents(): Tables
      reads this
    {
      Tables(badges, submissions, youthSubmissions, artworks, judges, votes, periods)
    }

    ghost predicate Valid()
      reads this
    {
      Integrity(Contents())
    }

    constructor (t: Tables)
      ensures Contents() == t
    {
      badges, submissions, youthSubmissions := t.badges, t.submissions, t.youthSubmissions;
      artworks, judges, votes, periods := t.artworks, t.judges, t.votes, t.periods;
    }

    /** Replace every table by its value in t (a commit of the changes a
        handler computed). */
    method Commit(t: Tables)
      modifies this
      ensures Contents() == t
    {
      badges, submissions, youthSubmissions := t.badges, t.submissions, t.youthSubmissions;
      artworks, judges, votes, periods := t.artworks, t.judges, t.votes, t.periods;
    }
  }
}
