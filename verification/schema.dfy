/** The dataset's fixed five-column schema, the startup check that the
    header has every expected column, and `clean_df`, which turns the raw
    text of every cell into either a trimmed value or the missing marker. */
module Schema {
  import opened Wrappers
  import opened Text
  import opened Seqs

  /** `EXPECTED_COLS`, in the source's order. */
  const EXPECTED_COLS: seq<string> :=
    ["Business Name", "Owner Name", "City", "State", "Mobile Number"]

  /** The text pandas before 3.0 gives a missing cell when `astype(str)`
      turns it back into a string (`str(pd.NA)`); pandas 3.x's default
      string dtype keeps the cell missing instead. */
  const MISSING_TEXT: string := "<NA>"

  /** One row before cleaning: each cell is the text `astype(str)` yields
      for it (so an empty CSV cell, read as NaN, arrives as "nan"). */
  datatype RawRow = RawRow(businessName: string, ownerName: string, city: string,
                           state: string, mobileNumber: string)

  /** One row of the canonical table; `None` is the missing marker. */
  datatype Record = Record(businessName: Option<string>, ownerName: Option<string>,
                           city: Option<string>, state: Option<string>,
                           mobileNumber: Option<string>)

  /** Projections of the canonical table onto one column. */
  function States(t: seq<Record>): seq<Option<string>> {
    Map(t, (r: Record) => r.state)
  }

  function Cities(t: seq<Record>): seq<Option<string>> {
    Map(t, (r: Record) => r.city)
  }

  function Owners(t: seq<Record>): seq<Option<string>> {
    Map(t, (r: Record) => r.ownerName)
  }

  function Phones(t: seq<Record>): seq<Option<string>> {
    Map(t, (r: Record) => r.mobileNumber)
  }

  datatype SchemaError = MissingExpectedColumns(columns: seq<string>)

  /** The expected columns absent from `header`, in `EXPECTED_COLS` order:
      the list comprehension `missing`. */
  function MissingColumns(header: seq<string>): (missing: seq<string>)
    ensures forall c :: c in missing <==> c in EXPECTED_COLS && c !in header
    ensures IsSubsequence(missing, EXPECTED_COLS)
  {
    Filter(EXPECTED_COLS, c => c !in header)
  }

  /** The startup check: fails, naming the absent columns, exactly when
      some expected column is not in the header. */
  function CheckColumns(header: seq<string>): (result: Outcome<SchemaError>)
    ensures result.Fail? <==> exists c :: c in EXPECTED_COLS && c !in header
    ensures result.Fail? ==> result.error.columns == MissingColumns(header)
  {
    var missing := MissingColumns(header);
    if missing != [] then
      assert missing[0] in missing;
      Fail(MissingExpectedColumns(missing))
    else
      Pass
  }

  /** The text values that `replace` turns into the missing marker. */
  predicate IsNullToken(s: string) {
    s == "" || s == "nan" || s == "None"
  }

  /** What a present cell of the canonical table looks like. */
  predicate IsCleanValue(v: string) {
    v != [] && Stripped(v) && !IsNullToken(v)
  }

  predicate IsCleanCell(o: Option<string>) {
    o.Some? ==> IsCleanValue(o.value)
  }

  predicate IsCleanRecord(r: Record) {
    IsCleanCell(r.businessName) && IsCleanCell(r.ownerName) && IsCleanCell(r.city) &&
    IsCleanCell(r.state) && IsCleanCell(r.mobileNumber)
  }

  /** The invariant of the canonical table that every query reads. */
  predicate IsCleanTable(t: seq<Record>) {
    forall i :: 0 <= i < |t| ==> IsCleanRecord(t[i])
  }

  /** The whole-frame `replace({"": NA, "nan": NA, "None": NA})` on one cell. */
  function Replace(s: string): Option<string> {
    if IsNullToken(s) then None else Some(s)
  }

  /** One cell through `clean_df`: stripped, then a null token becomes missing. */
  function CleanCell(raw: string): (o: Option<string>)
    ensures IsCleanCell(o)
  {
    Replace(Strip(raw))
  }

  /** A cell becomes missing exactly when its stripped text is a null token;
      otherwise it keeps its stripped text, which is the raw text without the
      surrounding whitespace. */
  lemma CleanCellCases(raw: string)
    ensures CleanCell(raw).None? <==> IsNullToken(Strip(raw))
    ensures CleanCell(raw).Some? ==>
              var v := CleanCell(raw).value;
              exists k :: 0 <= k <= |raw| - |v| && raw[k..k + |v|] == v
                          && AllSpace(raw[..k]) && AllSpace(raw[k + |v|..])
  {
    StripRemovesSurroundingSpace(raw);
    if CleanCell(raw).Some? {
      assert CleanCell(raw).value == Strip(raw);
    }
  }

  function CleanRow(r: RawRow): (c: Record)
    ensures IsCleanRecord(c)
  {
    Record(CleanCell(r.businessName), CleanCell(r.ownerName), CleanCell(r.city),
           CleanCell(r.state), CleanCell(r.mobileNumber))
  }

  /** The raw text of column `c` (an index into `EXPECTED_COLS`) of a row. */
  function Cell(r: RawRow, c: nat): string
    requires c < 5
  {
    match c
    case 0 => r.businessName
    case 1 => r.ownerName
    case 2 => r.city
    case 3 => r.state
    case _ => r.mobileNumber
  }

  /** Column `c` of the frame, as text. */
  function RawColumn(d: seq<RawRow>, c: nat): (col: seq<string>)
    requires c < 5
    ensures |col| == |d|
    ensures forall i :: 0 <= i < |d| ==> col[i] == Cell(d[i], c)
  {
    if d == [] then [] else RawColumn(d[..|d| - 1], c) + [Cell(d[|d| - 1], c)]
  }

  /** `.str.strip()` on a whole column. */
  function StripAll(col: seq<string>): (r: seq<string>)
    ensures |r| == |col|
    ensures forall i :: 0 <= i < |col| ==> r[i] == Strip(col[i])
  {
    Map(col, Strip)
  }

  /** Replacing the null tokens of the five stripped columns, row by row,
      cleans each row, so the result is a clean table. */
  lemma ReplaceStrippedColumns(d: seq<RawRow>, out: seq<Record>)
    requires |out| == |d|
    requires forall i :: 0 <= i < |d| ==>
               out[i] == Record(Replace(StripAll(RawColumn(d, 0))[i]),
                                Replace(StripAll(RawColumn(d, 1))[i]),
                                Replace(StripAll(RawColumn(d, 2))[i]),
                                Replace(StripAll(RawColumn(d, 3))[i]),
                                Replace(StripAll(RawColumn(d, 4))[i]))
    ensures forall i :: 0 <= i < |d| ==> out[i] == CleanRow(d[i])
    ensures IsCleanTable(out)
  {
    ReplaceStrippedColumn(d, 0);
    ReplaceStrippedColumn(d, 1);
    ReplaceStrippedColumn(d, 2);
    ReplaceStrippedColumn(d, 3);
    ReplaceStrippedColumn(d, 4);
  }

  /** Stripping column `c` and replacing its null tokens cleans each of its cells. */
  lemma ReplaceStrippedColumn(d: seq<RawRow>, c: nat)
    requires c < 5
    ensures forall i :: 0 <= i < |d| ==>
              Replace(StripAll(RawColumn(d, c))[i]) == CleanCell(Cell(d[i], c))
  {
  }

  /** The whole-frame `replace` of the null tokens, applied to the five
      stripped columns, read back row by row. */
  method ReplaceNullTokens(name: seq<string>, owner: seq<string>, city: seq<string>,
                           state: seq<string>, mobile: seq<string>) returns (out: seq<Record>)
    requires |owner| == |city| == |state| == |mobile| == |name|
    ensures |out| == |name|
    ensures forall i :: 0 <= i < |name| ==>
              out[i] == Record(Replace(name[i]), Replace(owner[i]), Replace(city[i]),
                               Replace(state[i]), Replace(mobile[i]))
  {
    out := [];
    for i := 0 to |name|
      invariant |out| == i
      invariant forall k :: 0 <= k < i ==>
                  out[k] == Record(Replace(name[k]), Replace(owner[k]), Replace(city[k]),
                                   Replace(state[k]), Replace(mobile[k]))
    {
      out := out + [Record(Replace(name[i]), Replace(owner[i]), Replace(city[i]),
                           Replace(state[i]), Replace(mobile[i]))];
    }
  }

  /** The loop of `clean_df` over the expected columns: a copy of the
      frame's five columns, each stripped in turn. */
  method StripColumns(d: seq<RawRow>) returns (columns: seq<seq<string>>)
    ensures |columns| == 5
    ensures columns[0] == StripAll(RawColumn(d, 0)) && columns[1] == StripAll(RawColumn(d, 1))
    ensures columns[2] == StripAll(RawColumn(d, 2)) && columns[3] == StripAll(RawColumn(d, 3))
    ensures columns[4] == StripAll(RawColumn(d, 4))
  {
    columns := [RawColumn(d, 0), RawColumn(d, 1), RawColumn(d, 2), RawColumn(d, 3),
                RawColumn(d, 4)];
    for c := 0 to 5
      invariant |columns| == 5
      invariant forall c' {:trigger columns[c']} :: 0 <= c' < c ==>
                  columns[c'] == StripAll(RawColumn(d, c'))
      invariant forall c' {:trigger columns[c']} :: c <= c' < 5 ==>
                  columns[c'] == RawColumn(d, c')
    {
      columns := columns[c := StripAll(columns[c])];
    }
  }

  /** `clean_df`: takes a copy of the frame's five expected columns, strips
      them one after the other, then replaces the null tokens of the whole
      frame. Row count and order are kept, each row is cleaned on its own,
      and the result is a clean table. */
  method CleanDf(d: seq<RawRow>) returns (out: seq<Record>)
    ensures |out| == |d|
    ensures forall i :: 0 <= i < |d| ==> out[i] == CleanRow(d[i])
    ensures IsCleanTable(out)
  {
    var columns := StripColumns(d);
    out := ReplaceNullTokens(columns[0], columns[1], columns[2], columns[3], columns[4]);
    ReplaceStrippedColumns(d, out);
  }

  /** Re-cleaning a present cleaned value returns it unchanged. */
  lemma CleanPresentIdempotent(v: string)
    requires IsCleanValue(v)
    ensures CleanCell(v) == Some(v)
  {
    StripKeepsStripped(v);
  }

  /** Re-cleaning a cleaned cell through `astype(str)` (pandas before 3.0) is
      the identity on present values, but a missing cell comes back as the text "<NA>",
      which is not a null token: cleaning is not idempotent on missing cells. */
  lemma CleanTwice(raw: string)
    ensures var once := CleanCell(raw);
            CleanCell(once.GetOr(MISSING_TEXT)) == if once.Some? then once else Some(MISSING_TEXT)
  {
    var once := CleanCell(raw);
    if once.Some? {
      CleanPresentIdempotent(once.value);
    } else {
      MissingTextIsClean();
      CleanPresentIdempotent(MISSING_TEXT);
    }
  }

  /** The text of a missing cell is an ordinary clean value. */
  lemma MissingTextIsClean()
    ensures IsCleanValue(MISSING_TEXT)
  {
    assert !IsSpace(MISSING_TEXT[0]) && !IsSpace(MISSING_TEXT[3]);
  }
}
