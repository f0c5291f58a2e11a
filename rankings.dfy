/** The page script that keeps the ballot's hidden `rank` field in step with
    the list the judge drags into order (app/static/js/rankings.js): it
    writes each item's place label and the comma-joined ids of the items, a
    repeated id counting only once. The DOM is modelled by the items' ids and
    whether each has a place-label element. */
module Rankings {
  import opened Wrappers
  import opened Seqs
  import opened Text
  import Judging

  /** JavaScript's `%`: the remainder takes the sign of the dividend. */
  function JsRem(a: int, n: int): (r: int)
    requires n > 0
    ensures -n < r < n
    ensures a >= 0 ==> r == a % n
    ensures a < 0 ==> r <= 0 && (a - r) % n == 0
  {
    if a >= 0 then a % n
    else
      var q, m := (-a) / n, (-a) % n;
      NegMultipleRem(q, n);
      -m
  }

  /** Minus a multiple of n leaves no remainder. */
  lemma NegMultipleRem(q: nat, n: int)
    requires n > 0
    ensures (-(q * n)) % n == 0
  {
    var x := -(q * n);
    var k := -(q + x / n);
    assert x % n == k * n by {
      assert x == (x / n) * n + x % n;
      assert x % n == -(q * n) - (x / n) * n;
    }
  }

  /** `getRankSuffix`. */
  function JsRankSuffix(rank: int): (s: string)
    ensures s == "st" || s == "nd" || s == "rd" || s == "th"
  {
    if 11 <= JsRem(rank, 100) <= 13 then "th"
    else if JsRem(rank, 10) == 1 then "st"
    else if JsRem(rank, 10) == 2 then "nd"
    else if JsRem(rank, 10) == 3 then "rd"
    else "th"
  }

  /** For every rank the page can show the script and the server agree. */
  lemma SuffixesAgree(rank: int)
    requires rank >= 0
    ensures JsRankSuffix(rank) == Judging.RankSuffix(rank)
  {
  }

  /** They differ for negative ranks, where the two remainders differ:
      Python gives -9 the suffix of 91. */
  lemma SuffixesDifferBelowZero()
    ensures JsRankSuffix(-9) == "th" && Judging.RankSuffix(-9) == "st"
  {
    assert JsRem(-9, 100) == -9 && JsRem(-9, 10) == -9;
    assert -9 % 100 == 91 && -9 % 10 == 1;
  }

  /** A `.rank-item`: its `data-id` attribute, if any, and whether it holds
      a `.rank-position` element. */
  datatype RankItem = RankItem(dataId: Option<string>, hasRankPosition: bool)

  /** The id an item contributes: a missing or empty `data-id` is skipped. */
  function ItemId(item: RankItem): (r: Option<string>)
    ensures r.Some? <==> item.dataId.Some? && item.dataId.value != ""
    ensures r.Some? ==> r == item.dataId
  {
    if item.dataId.Some? && item.dataId.value != "" then item.dataId else None
  }

  /** The ids of the items that have one, in DOM order. */
  function PresentIds(items: seq<RankItem>): (ids: seq<string>)
    ensures |ids| <= |items|
    ensures forall k :: 0 <= k < |ids| ==> ids[k] != ""
  {
    if items == [] then []
    else
      var init := PresentIds(items[..|items| - 1]);
      match ItemId(items[|items| - 1])
      case Some(id) => init + [id]
      case None => init
  }

  /** The ids that go into the hidden field: the first occurrence of each. */
  function RankedIds(items: seq<RankItem>): seq<string> {
    Distinct(PresentIds(items))
  }

  /** Item i is labelled when it has an id not seen before it and a label
      element. */
  predicate Labelled(items: seq<RankItem>, i: nat)
    requires i < |items|
  {
    && ItemId(items[i]).Some?
    && ItemId(items[i]).value !in PresentIds(items[..i])
    && items[i].hasRankPosition
  }

  /** The label text of the item at 0-based DOM position i: its place is
      i + 1, counting the items skipped before it. */
  function PlaceLabel(i: nat): string {
    NatToString(i + 1) + JsRankSuffix(i + 1) + " Place"
  }

  /** What item i's label element ends up holding: its place label, or
      nothing written. */
  function LabelOf(items: seq<RankItem>, i: nat): Option<string>
    requires i < |items|
  {
    if Labelled(items, i) then Some(PlaceLabel(i)) else None
  }

  /** What the loop of `updateRankings` has built after the first n items:
      the ids seen, the ids to send and the label written per item. */
  datatype Scanned = Scanned(seen: set<string>, ranked: seq<string>, labels: seq<Option<string>>)

  function Scan(items: seq<RankItem>, n: nat): Scanned
    requires n <= |items|
  {
    if n == 0 then Scanned({}, [], [])
    else
      var s := Scan(items, n - 1);
      match ItemId(items[n - 1])
      case Some(id) =>
        if id in s.seen then Scanned(s.seen, s.ranked, s.labels + [None])
        else
          var text := if items[n - 1].hasRankPosition then Some(PlaceLabel(n - 1)) else None;
          Scanned(s.seen + {id}, s.ranked + [id], s.labels + [text])
      case None => Scanned(s.seen, s.ranked, s.labels + [None])
  }

  /** After n items the loop has seen exactly the ids among them, collected
      their first occurrences and labelled exactly the items `Labelled`
      describes. */
  lemma {:induction false} ScanMeaning(items: seq<RankItem>, n: nat)
    requires n <= |items|
    ensures var s := Scan(items, n);
      && s.seen == IdSet(PresentIds(items[..n]))
      && s.ranked == Distinct(PresentIds(items[..n]))
      && |s.labels| == n
      && forall k :: 0 <= k < n ==> s.labels[k] == LabelOf(items, k)
  {
    if n > 0 {
      ScanMeaning(items, n - 1);
      StepIds(items, n - 1);
      ScanLabel(items, n);
      LabelsStep(items, Scan(items, n - 1).labels, n - 1, LabelOf(items, n - 1));
    }
  }

  /** The label the loop writes for item n - 1 is the one `LabelOf`
      describes, once the ids seen before it are the ids of the items
      before it. */
  lemma ScanLabel(items: seq<RankItem>, n: nat)
    requires 0 < n <= |items|
    requires Scan(items, n - 1).seen == IdSet(PresentIds(items[..n - 1]))
    ensures Scan(items, n).labels == Scan(items, n - 1).labels + [LabelOf(items, n - 1)]
  {
    StepIds(items, n - 1);
    var s, s' := Scan(items, n - 1), Scan(items, n);
    match ItemId(items[n - 1]) {
      case None =>
        assert s' == Scanned(s.seen, s.ranked, s.labels + [None]);
      case Some(id) =>
        if id in s.seen {
          assert s' == Scanned(s.seen, s.ranked, s.labels + [None]);
        }
    }
  }

  /** `updateRankings`. Returns the value written to the hidden field and,
      per item, the label written into it (None where none is written). */
  method UpdateRankings(items: seq<RankItem>) returns (value: string, labels: seq<Option<string>>)
    ensures value == Join(RankedIds(items), ',')
    ensures |labels| == |items|
    ensures forall i :: 0 <= i < |items| ==> labels[i] == LabelOf(items, i)
  {
    if |items| == 0 {
      return "", [];
    }
    var seenIds: set<string> := {};
    var rankedIds: seq<string> := [];
    labels := [];
    var i := 0;
    while i < |items|
      invariant 0 <= i <= |items|
      invariant Scanned(seenIds, rankedIds, labels) == Scan(items, i)
    {
      var item := items[i];
      var text: Option<string> := None;
      if item.dataId.Some? && item.dataId.value != "" {
        var submissionId := item.dataId.value;
        if submissionId !in seenIds {
          seenIds := seenIds + {submissionId};
          if item.hasRankPosition {
            text := Some(NatToString(i + 1) + JsRankSuffix(i + 1) + " Place");
          }
          rankedIds := rankedIds + [submissionId];
        }
      }
      labels := labels + [text];
      i := i + 1;
    }
    ScanMeaning(items, i);
    assert items[..i] == items;
    value := Join(rankedIds, ',');
  }

  function IdSet(ids: seq<string>): set<string> {
    set x | x in ids
  }

  /** What one more item does to the ids seen, the ids sent and its own
      label. */
  lemma StepIds(items: seq<RankItem>, i: nat)
    requires i < |items|
    ensures var before := PresentIds(items[..i]);
      match ItemId(items[i])
      case None =>
        && PresentIds(items[..i + 1]) == before && !Labelled(items, i)
      case Some(id) =>
        && IdSet(PresentIds(items[..i + 1])) == IdSet(before) + {id}
        && Distinct(PresentIds(items[..i + 1])) == (if id in before then Distinct(before) else Distinct(before) + [id])
        && (Labelled(items, i) <==> id !in IdSet(before) && items[i].hasRankPosition)
  {
    PresentIdsSnoc(items, i);
    if ItemId(items[i]).Some? {
      DistinctSnoc(PresentIds(items[..i]), ItemId(items[i]).value);
    }
  }

  lemma LabelsStep(items: seq<RankItem>, labels: seq<Option<string>>, i: nat, text: Option<string>)
    requires i < |items| && |labels| == i
    requires forall k :: 0 <= k < i ==> labels[k] == LabelOf(items, k)
    requires text == LabelOf(items, i)
    ensures forall k :: 0 <= k < i + 1 ==> (labels + [text])[k] == LabelOf(items, k)
  {
  }

  /** One more item adds its id, if it has one, to the ids before it. */
  lemma PresentIdsSnoc(items: seq<RankItem>, i: nat)
    requires i < |items|
    ensures PresentIds(items[..i + 1]) ==
      PresentIds(items[..i]) + (if ItemId(items[i]).Some? then [ItemId(items[i]).value] else [])
  {
    assert items[..i + 1][..i] == items[..i];
  }

  /** `autoSaveRankings`: the form data posted, or nothing for an empty
      field. */
  function AutoSavePayload(value: string): (r: Option<string>)
    ensures r.None? <==> value == ""
    ensures r.Some? ==> r.value == value
  {
    if value == "" then None else Some(value)
  }

  // Properties of the serialised ranking.

  /** No id is sent twice, and every id of an item is sent. */
  lemma RankedIdsDistinct(items: seq<RankItem>)
    ensures var r := RankedIds(items);
      && (forall a, b :: 0 <= a < b < |r| ==> r[a] != r[b])
      && (forall i :: 0 <= i < |items| && ItemId(items[i]).Some? ==> ItemId(items[i]).value in r)
      && (forall k :: 0 <= k < |r| ==> r[k] in PresentIds(items))
  {
    DistinctSpec(PresentIds(items));
    forall i | 0 <= i < |items| && ItemId(items[i]).Some?
      ensures ItemId(items[i]).value in PresentIds(items)
    {
      PresentIdsHas(items, i);
    }
  }

  lemma {:induction false} PresentIdsHas(items: seq<RankItem>, i: nat)
    requires i < |items| && ItemId(items[i]).Some?
    ensures ItemId(items[i]).value in PresentIds(items)
  {
    var init := items[..|items| - 1];
    if i < |items| - 1 {
      assert init[i] == items[i];
      PresentIdsHas(init, i);
    }
  }

  /** The ids are sent in the order of their first occurrence in the list. */
  lemma RankedIdsInDomOrder(items: seq<RankItem>, a: nat, b: nat)
    requires a < b < |RankedIds(items)|
    ensures IndexOf(PresentIds(items), RankedIds(items)[a]) < IndexOf(PresentIds(items), RankedIds(items)[b])
  {
    DistinctOrder(PresentIds(items), a, b);
  }

  /** What the server reads back: when the items carry decimal ids, and at
      least one does, splitting the field on commas gives exactly the ids
      sent. An empty list leaves the field empty and nothing is auto-saved. */
  lemma ServerReadsRankedIds(items: seq<RankItem>)
    requires forall i :: 0 <= i < |items| && ItemId(items[i]).Some? ==> AllDigits(ItemId(items[i]).value)
    requires exists i :: 0 <= i < |items| && ItemId(items[i]).Some?
    ensures Split(Join(RankedIds(items), ','), ',') == RankedIds(items)
  {
    var r := RankedIds(items);
    RankedIdsDistinct(items);
    var i :| 0 <= i < |items| && ItemId(items[i]).Some?;
    assert |r| >= 1 by {
      assert ItemId(items[i]).value in r;
    }
    forall k | 0 <= k < |r| ensures ',' !in r[k] {
      var j := PresentIdsDigits(items, r[k]);
      assert AllDigits(r[k]);
    }
    SplitJoin(r, ',');
  }

  lemma {:induction false} PresentIdsDigits(items: seq<RankItem>, x: string) returns (i: nat)
    requires forall i :: 0 <= i < |items| && ItemId(items[i]).Some? ==> AllDigits(ItemId(items[i]).value)
    requires x in PresentIds(items)
    ensures i < |items| && ItemId(items[i]) == Some(x)
  {
    var init := items[..|items| - 1];
    if x in PresentIds(init) {
      i := PresentIdsDigits(init, x);
      assert init[i] == items[i];
    } else {
      i := |items| - 1;
    }
  }

  lemma EmptyListSendsNothing()
    ensures Join(RankedIds([]), ',') == ""
    ensures AutoSavePayload(Join(RankedIds([]), ',')) == None
  {
  }

  /** An item whose id an earlier item already has gets no label, though
      its position still counts toward the places after it. */
  lemma RepeatNotLabelled(items: seq<RankItem>, i: nat, j: nat)
    requires i < j < |items|
    requires ItemId(items[i]).Some? && ItemId(items[j]) == ItemId(items[i])
    ensures !Labelled(items, j)
  {
    assert items[..j][i] == items[i];
    PresentIdsHas(items[..j], i);
  }

  /** With items a, a, b the ids sent are a, b, so the server gives b rank
      2, while the page labels the b "3rd Place". */
  lemma DuplicateShiftsLabel(a: string, b: string)
    requires a != "" && b != "" && a != b
    ensures var items := [RankItem(Some(a), true), RankItem(Some(a), true), RankItem(Some(b), true)];
      && RankedIds(items) == [a, b]
      && !Labelled(items, 1)
      && Labelled(items, 2) && PlaceLabel(2) == "3rd Place"
  {
    var items := [RankItem(Some(a), true), RankItem(Some(a), true), RankItem(Some(b), true)];
    RepeatNotLabelled(items, 0, 1);
    assert PresentIds(items[..2]) == [a, a] by {
      assert items[..2][..1] == items[..1];
      assert items[..1][..0] == [];
    }
    assert items[..3] == items;
    PresentIdsSnoc(items, 2);
    assert PresentIds(items) == [a, a] + [b] == [a, a, b];
    DistinctRepeat(a, b);
    assert PlaceLabel(2) == "3rd Place" by {
      assert NatToString(3) == "3";
      assert JsRankSuffix(3) == "rd";
    }
  }
}
