/** The `/api/table` endpoint: the server side of a paged, searchable table.
    The search term is stripped and lower-cased; a row is kept when any of
    the five columns, turned into text and lower-cased, contains the term;
    the kept rows are sliced `[start, start + length)` and missing cells are
    rendered as empty strings. */
module Search {
  import opened Wrappers
  import opened Text
  import opened Seqs
  import opened Schema

  /** `search[value]` after `.strip().lower()`. */
  function NormalizeTerm(raw: string): (term: string)
    ensures Stripped(term) && NoUpper(term)
    ensures |term| <= |raw|
  {
    LowerKeepsStripped(Strip(raw));
    LowerIsLower(Strip(raw));
    Lower(Strip(raw))
  }

  /** Normalizing a normalized term changes nothing. */
  lemma NormalizeTermIdempotent(raw: string)
    ensures NormalizeTerm(NormalizeTerm(raw)) == NormalizeTerm(raw)
  {
    var term := NormalizeTerm(raw);
    StripKeepsStripped(term);
    LowerIsLower(Strip(raw));
  }

  /** A cell as the search sees it: `astype(str).str.lower()`, under which a
      missing cell reads "<na>" (pandas before 3.0). */
  function SearchText(o: Option<string>): string {
    Lower(o.GetOr(MISSING_TEXT))
  }

  /** The row mask: some column's search text contains the term. */
  predicate RowMatches(r: Record, term: string) {
    || Contains(SearchText(r.businessName), term)
    || Contains(SearchText(r.ownerName), term)
    || Contains(SearchText(r.city), term)
    || Contains(SearchText(r.state), term)
    || Contains(SearchText(r.mobileNumber), term)
  }

  function MatchesTerm(term: string): Record -> bool {
    r => RowMatches(r, term)
  }

  /** `df[mask]` when the term is non-empty, the whole table otherwise. */
  function Filtered(t: seq<Record>, term: string): (f: seq<Record>)
    ensures IsSubsequence(f, t)
    ensures |f| <= |t|
    ensures term != "" ==> AllMatch(f, term)
  {
    if term == "" then
      SubsequenceOfItself(t);
      t
    else
      Filter(t, MatchesTerm(term))
  }

  predicate AllMatch(s: seq<Record>, term: string) {
    forall i :: 0 <= i < |s| ==> RowMatches(s[i], term)
  }

  /** The indices of the rows that match `term`. */
  function MatchingRows(t: seq<Record>, term: string): set<int> {
    Positions(t, MatchesTerm(term))
  }

  /** With a non-empty term, the filtered rows are exactly the matching rows
      of the table in their original order: one per matching index, every
      matching row present, and no other order-preserving selection of
      matching rows has as many. */
  lemma FilteredIsMatchingRows(t: seq<Record>, term: string)
    requires term != ""
    ensures var f := Filtered(t, term);
            && |f| == |MatchingRows(t, term)|
            && (forall r :: r in t && RowMatches(r, term) ==> r in f)
            && (forall s ::
                  (IsSubsequence(s, t) && AllMatch(s, term) && |s| == |MatchingRows(t, term)|) ==> s == f)
  {
    var p := MatchesTerm(term);
    CountIsPositions(t, p);
    forall s | IsSubsequence(s, t) && AllMatch(s, term) && |s| == |MatchingRows(t, term)|
      ensures s == Filtered(t, term)
    {
      FilterUnique(s, t, p);
    }
  }

  /** `recordsFiltered`: every row for the empty term, the matching rows
      otherwise. */
  lemma FilteredCount(t: seq<Record>, term: string)
    ensures |Filtered(t, term)| == if term == "" then |t| else |MatchingRows(t, term)|
  {
    if term != "" {
      FilteredIsMatchingRows(t, term);
    }
  }

  /** Every text contains the empty term, so the `if search:` guard only
      saves work: filtering by the empty term keeps the whole table. */
  lemma EmptyTermKeepsAll(t: seq<Record>)
    ensures Filter(t, MatchesTerm("")) == t
    ensures Filtered(t, "") == t
  {
    var p := MatchesTerm("");
    forall r | r in t
      ensures p(r)
    {
      assert OccursAt(SearchText(r.businessName), "", 0);
      ContainsIff(SearchText(r.businessName), "");
    }
    CountAll(t, p);
    SubsequenceOfItself(t);
    FilterUnique(t, t, p);
  }

  /** Missing cells are searched as the text "<na>", so a row with any
      missing cell matches every term found in "<na>" ("na", "a", "<", ...). */
  lemma MissingCellMatches(r: Record, term: string)
    requires r.businessName == None || r.ownerName == None || r.city == None ||
             r.state == None || r.mobileNumber == None
    requires Contains("<na>", term)
    ensures RowMatches(r, term)
  {
    MissingSearchText();
  }

  lemma MissingSearchText()
    ensures SearchText(None) == "<na>"
  {
    var s := SearchText(None);
    assert |s| == 4 && s[0] == '<' && s[1] == 'n' && s[2] == 'a' && s[3] == '>';
  }

  /** For instance, "na" matches every row with a missing cell. */
  lemma NaMatchesMissing(r: Record)
    requires r.mobileNumber == None
    ensures RowMatches(r, "na")
  {
    assert OccursAt("<na>", "na", 1);
    ContainsIff("<na>", "na");
    MissingCellMatches(r, "na");
  }

  /** A row of the response's `data`: `fillna("")` turns missing cells
      into empty strings. */
  datatype PageRow = PageRow(businessName: string, ownerName: string, city: string,
                             state: string, mobileNumber: string)

  function RenderCell(o: Option<string>): string {
    o.GetOr("")
  }

  function Render(r: Record): PageRow {
    PageRow(RenderCell(r.businessName), RenderCell(r.ownerName), RenderCell(r.city),
            RenderCell(r.state), RenderCell(r.mobileNumber))
  }

  /** The client's reading of a rendered cell: empty means missing. */
  function ReadCell(s: string): Option<string> {
    if s == "" then None else Some(s)
  }

  function ReadRow(p: PageRow): Record {
    Record(ReadCell(p.businessName), ReadCell(p.ownerName), ReadCell(p.city),
           ReadCell(p.state), ReadCell(p.mobileNumber))
  }

  /** Rendering loses nothing on a clean record: no present cell is empty,
      so an empty string always stood for a missing cell. */
  lemma RenderRoundTrip(r: Record)
    requires IsCleanRecord(r)
    ensures ReadRow(Render(r)) == r
  {
  }

  /** `filtered.iloc[start:start + length]`, rendered: Python slicing clamps
      both ends to the table. */
  function Page(f: seq<Record>, start: nat, length: nat): (page: seq<PageRow>)
    ensures |page| == Max(0, Min(length, |f| - start))
    ensures forall k :: 0 <= k < |page| ==> page[k] == Render(f[start + k])
  {
    var lo := Min(start, |f|);
    var hi := Min(start + length, |f|);
    Map(f[lo..hi], Render)
  }

  /** The JSON body of `/api/table`. */
  datatype TableResponse = TableResponse(recordsTotal: nat, recordsFiltered: nat,
                                         data: seq<PageRow>)

  /** Every rendered row of `data` is the rendering of a table row that the
      term selects. */
  ghost predicate ShowsSelectedRows(data: seq<PageRow>, t: seq<Record>, term: string) {
    forall k :: 0 <= k < |data| ==>
      exists i :: 0 <= i < |t| && data[k] == Render(t[i]) && (term == "" || RowMatches(t[i], term))
  }

  /** `api_table`, with the query arguments as parameters: the total, the
      number of rows the normalised term selects (all of them for the empty
      term), and the selected rows `[start, start + length)`, rendered. */
  function ApiTable(t: seq<Record>, search: string, start: nat, length: nat): (resp: TableResponse)
    ensures resp.recordsTotal == |t|
    ensures resp.recordsFiltered <= resp.recordsTotal
    ensures resp.recordsFiltered ==
              if NormalizeTerm(search) == "" then |t| else |MatchingRows(t, NormalizeTerm(search))|
    ensures |resp.data| == Max(0, Min(length, resp.recordsFiltered - start))
    ensures resp.recordsFiltered == |Filtered(t, NormalizeTerm(search))|
    ensures forall k :: 0 <= k < |resp.data| ==>
              resp.data[k] == Render(Filtered(t, NormalizeTerm(search))[start + k])
    ensures ShowsSelectedRows(resp.data, t, NormalizeTerm(search))
  {
    var term := NormalizeTerm(search);
    var f := Filtered(t, term);
    PageShowsSelectedRows(t, term, start, length);
    FilteredCount(t, term);
    TableResponse(|t|, |f|, Page(f, start, length))
  }

  lemma PageShowsSelectedRows(t: seq<Record>, term: string, start: nat, length: nat)
    ensures ShowsSelectedRows(Page(Filtered(t, term), start, length), t, term)
  {
    var f := Filtered(t, term);
    var page := Page(f, start, length);
    forall k | 0 <= k < |page|
      ensures exists i :: 0 <= i < |t| && page[k] == Render(t[i]) && (term == "" || RowMatches(t[i], term))
    {
      var r := f[start + k];
      SubsequenceMembers(f, t);
      assert r in t;
      var i :| 0 <= i < |t| && t[i] == r;
    }
  }
}
