/** A worked example: three rows, two of them sharing (Business Name, City,
    State), the third without a phone number; and what the summary, the
    State ranking and the search endpoint report for it. */
module Scenarios {
  import opened Wrappers
  import opened Text
  import opened Seqs
  import opened Schema
  import opened Summary
  import opened Ranking
  import opened Search

  function SampleTable(): seq<Record> {
    [Record(Some("Acme"), Some("Jo"), Some("Austin"), Some("TX"), Some("555-1")),
     Record(Some("Acme"), Some("Jo"), Some("Austin"), Some("TX"), Some("555-2")),
     Record(Some("Beta"), Some("Al"), Some("Reno"), Some("NV"), None)]
  }

  /** Three rows, one phone missing, the two Acme rows counted as potential
      duplicates. */
  lemma SampleSummary()
    ensures var s := Summarize(SampleTable());
            s.totalRecords == 3 && s.phonesMissing == 1 && s.potentialDuplicates == 2
  {
    var t := SampleTable();
    assert DupKeyOf(t[0]) == DupKeyOf(t[1]) && DupKeyOf(t[0]).0 != DupKeyOf(t[2]).0;
    SummaryOfPairAndSingle(t);
  }

  /** The shape of the example: rows 0 and 1 are twins, row 2 has no twin
      and is the only one without a phone number. */
  lemma SummaryOfPairAndSingle(t: seq<Record>)
    requires |t| == 3
    requires DupKeyOf(t[0]) == DupKeyOf(t[1]) && DupKeyOf(t[0]) != DupKeyOf(t[2])
    requires t[0].mobileNumber.Some? && t[1].mobileNumber.Some? && t[2].mobileNumber.None?
    ensures var s := Summarize(t);
            s.totalRecords == 3 && s.phonesMissing == 1 && s.potentialDuplicates == 2
  {
    PhoneRows(t);
    DuplicatesAreRowsWithTwin(t);
    var missing := set i | 0 <= i < |t| && t[i].mobileNumber.None?;
    assert forall i :: i in missing <==> i == 2;
    assert missing == {2};
    assert HasTwin(t, 0) && HasTwin(t, 1);
    var twins := set i | 0 <= i < |t| && HasTwin(t, i);
    assert forall i :: i in twins <==> i == 0 || i == 1;
    assert twins == {0, 1};
  }

  /** With limit 1, the State ranking is TX with its two rows. */
  lemma SampleTopState()
    ensures TopStates(SampleTable(), 1) == [Group("TX", 2)]
  {
    var t := SampleTable();
    TopOfPairAndSingle(t, "TX", "NV");
  }

  lemma TopOfPairAndSingle(t: seq<Record>, x: string, y: string)
    requires |t| == 3 && x != y
    requires t[0].state == Some(x) && t[1].state == Some(x) && t[2].state == Some(y)
    ensures TopStates(t, 1) == [Group(x, 2)]
  {
    var keys := States(t);
    PairAndSingleKeys(t, x, y);
    var r := TopStates(t, 1);
    assert |r| == 1;
    var k :| k in keys && r[0].key == Label(k) && r[0].count == multiset(keys)[k];
    assert k == Some(x);
  }

  lemma PairAndSingleKeys(t: seq<Record>, x: string, y: string)
    requires |t| == 3 && x != y
    requires t[0].state == Some(x) && t[1].state == Some(x) && t[2].state == Some(y)
    ensures forall k :: k in States(t) ==> k == Some(x) || k == Some(y)
    ensures Some(x) in States(t)
    ensures multiset(States(t))[Some(x)] == 2 && multiset(States(t))[Some(y)] == 1
    ensures |set k | k in States(t)| == 2
  {
    var keys := States(t);
    assert keys == [Some(x), Some(x), Some(y)];
    assert multiset(keys) == multiset{Some(x), Some(x), Some(y)};
    assert forall k :: k in keys <==> k in {Some(x), Some(y)};
    assert (set k | k in keys) == {Some(x), Some(y)};
    assert |{Some(x), Some(y)}| == 2;
  }

  /** No letter b in either case. */
  predicate NoB(s: string) {
    forall i :: 0 <= i < |s| ==> s[i] != 'b' && s[i] != 'B'
  }

  /** No text without a 'b' or 'B' contains "beta" once lower-cased. */
  lemma BetaAbsent(s: string)
    requires NoB(s)
    ensures !Contains(Lower(s), "beta")
  {
    var hay := Lower(s);
    forall i
      ensures !OccursAt(hay, "beta", i)
    {
      if 0 <= i && i + 4 <= |hay| {
        assert hay[i..i + 4][0] == hay[i] != 'b';
      }
    }
    ContainsIff(hay, "beta");
  }

  /** A row whose five cells are present and free of the letter b does not
      match "beta". */
  lemma RowWithoutBetaLetter(r: Record)
    requires r.businessName.Some? && NoB(r.businessName.value)
    requires r.ownerName.Some? && NoB(r.ownerName.value)
    requires r.city.Some? && NoB(r.city.value)
    requires r.state.Some? && NoB(r.state.value)
    requires r.mobileNumber.Some? && NoB(r.mobileNumber.value)
    ensures !RowMatches(r, "beta")
  {
    BetaAbsent(r.businessName.value);
    BetaAbsent(r.ownerName.value);
    BetaAbsent(r.city.value);
    BetaAbsent(r.state.value);
    BetaAbsent(r.mobileNumber.value);
  }

  lemma AcmeRowsDoNotMatch()
    ensures !RowMatches(SampleTable()[0], "beta") && !RowMatches(SampleTable()[1], "beta")
  {
    assert NoB("Acme") && NoB("Jo") && NoB("Austin") && NoB("TX");
    assert NoB("555-1") && NoB("555-2");
    RowWithoutBetaLetter(SampleTable()[0]);
    RowWithoutBetaLetter(SampleTable()[1]);
  }

  lemma BetaRowMatches()
    ensures RowMatches(SampleTable()[2], "beta")
  {
    var text := SearchText(Some("Beta"));
    assert text[0] == 'b' && text[1] == 'e' && text[2] == 't' && text[3] == 'a';
    assert text[..4] == "beta";
  }

  lemma BetaIsNormal()
    ensures NormalizeTerm("beta") == "beta"
  {
    StripKeepsStripped("beta");
    LowerKeepsLower("beta");
  }

  /** Searching "beta" finds the one Beta row, shown with an empty phone
      number. */
  lemma SampleSearch()
    ensures var resp := ApiTable(SampleTable(), "beta", 0, 10);
            && resp.recordsTotal == 3 && resp.recordsFiltered == 1
            && |resp.data| == 1 && resp.data[0].mobileNumber == ""
  {
    BetaIsNormal();
    AcmeRowsDoNotMatch();
    BetaRowMatches();
    SearchOneMatch(SampleTable(), "beta");
  }

  /** When only the last of three rows matches, the response reports one
      filtered row and shows it. */
  lemma SearchOneMatch(t: seq<Record>, term: string)
    requires |t| == 3 && term != "" && NormalizeTerm(term) == term
    requires !RowMatches(t[0], term) && !RowMatches(t[1], term) && RowMatches(t[2], term)
    ensures var resp := ApiTable(t, term, 0, 10);
            && resp.recordsTotal == 3 && resp.recordsFiltered == 1
            && |resp.data| == 1 && resp.data[0] == Render(t[2])
  {
    OneMatchFiltered(t, term);
    var resp := ApiTable(t, term, 0, 10);
    assert |resp.data| == 1;
    var i :| 0 <= i < |t| && resp.data[0] == Render(t[i]) && (term == "" || RowMatches(t[i], term));
  }

  lemma OneMatchFiltered(t: seq<Record>, term: string)
    requires |t| == 3 && term != ""
    requires !RowMatches(t[0], term) && !RowMatches(t[1], term) && RowMatches(t[2], term)
    ensures |Filtered(t, term)| == 1
  {
    var matching := MatchingRows(t, term);
    assert forall i :: i in matching <==> i == 2;
    assert matching == {2};
    FilteredIsMatchingRows(t, term);
  }

  /** A page starting past the end of the selection is empty, while the
      totals are still reported. */
  lemma SamplePageBeyondEnd()
    ensures var resp := ApiTable(SampleTable(), "", 100, 10);
            resp.recordsTotal == 3 && resp.recordsFiltered == 3 && resp.data == []
  {
    EmptyTermKeepsAll(SampleTable());
    assert NormalizeTerm("") == "";
  }
}
