/** The body of `api_summary`: seven counts over the canonical table. */
module Summary {
  import opened Wrappers
  import opened Seqs
  import opened Schema

  datatype Stats = Stats(totalRecords: nat, uniqueStates: nat, uniqueCities: nat,
                         uniqueOwners: nat, phonesPresent: nat, phonesMissing: nat,
                         potentialDuplicates: nat)

  /** The triple `duplicated` compares: (Business Name, City, State). */
  type DupKey = (Option<string>, Option<string>, Option<string>)

  function DupKeyOf(r: Record): DupKey {
    (r.businessName, r.city, r.state)
  }

  /** The distinct present values of a column; the missing marker is not a value. */
  function PresentValues(col: seq<Option<string>>): (vs: set<string>)
    ensures forall v :: v in vs <==> Some(v) in col
    ensures |vs| <= |col|
  {
    if col == [] then {}
    else
      var init, last := col[..|col| - 1], col[|col| - 1];
      assert col == init + [last];
      var vs' := PresentValues(init);
      if last.Some? then
        assert |vs' + {last.value}| <= |vs'| + 1 by {
          if last.value in vs' { assert vs' + {last.value} == vs'; }
        }
        vs' + {last.value}
      else
        vs'
  }

  /** `nunique(dropna=True)`. */
  function NUnique(col: seq<Option<string>>): nat {
    |PresentValues(col)|
  }

  predicate IsPresent(o: Option<string>) { o.Some? }

  predicate IsMissing(o: Option<string>) { o.None? }

  /** `duplicated(subset=[...], keep=False).sum()`: the rows whose key occurs
      at least twice, every member of such a group included. */
  function PotentialDuplicates(t: seq<Record>): nat {
    var keys := Map(t, DupKeyOf);
    Count(keys, Duplicated(keys))
  }

  /** The `keep=False` mask: a key is flagged when it occurs at least twice. */
  function Duplicated(keys: seq<DupKey>): DupKey -> bool {
    k => multiset(keys)[k] >= 2
  }

  /** The seven numbers `api_summary` reports. */
  function Summarize(t: seq<Record>): (s: Stats)
    ensures s.totalRecords == |t|
    ensures s.phonesPresent + s.phonesMissing == s.totalRecords
    ensures s.uniqueStates <= s.totalRecords && s.uniqueCities <= s.totalRecords
    ensures s.uniqueOwners <= s.totalRecords
    ensures s.potentialDuplicates <= s.totalRecords && s.potentialDuplicates != 1
  {
    CountComplement(Phones(t), IsPresent, IsMissing);
    DuplicatesNeverOne(t);
    Stats(|t|,
          NUnique(States(t)),
          NUnique(Cities(t)),
          NUnique(Owners(t)),
          Count(Phones(t), IsPresent),
          Count(Phones(t), IsMissing),
          PotentialDuplicates(t))
  }

  /** The counts in terms of the rows themselves: the distinct present
      States, Cities and Owners; the rows with and without a phone number;
      the rows that have a twin. */
  lemma SummaryCountsRows(t: seq<Record>)
    ensures var s := Summarize(t);
            && s.uniqueStates == |set r | r in t && r.state.Some? :: r.state.value|
            && s.uniqueCities == |set r | r in t && r.city.Some? :: r.city.value|
            && s.uniqueOwners == |set r | r in t && r.ownerName.Some? :: r.ownerName.value|
            && s.phonesPresent == |set i | 0 <= i < |t| && t[i].mobileNumber.Some?|
            && s.phonesMissing == |set i | 0 <= i < |t| && t[i].mobileNumber.None?|
            && s.potentialDuplicates == |set i | 0 <= i < |t| && HasTwin(t, i)|
  {
    DistinctStates(t);
    DistinctCities(t);
    DistinctOwners(t);
    PhoneRows(t);
    DuplicatesAreRowsWithTwin(t);
  }

  lemma DistinctStates(t: seq<Record>)
    ensures PresentValues(States(t)) == set r | r in t && r.state.Some? :: r.state.value
  {
    var states := set r | r in t && r.state.Some? :: r.state.value;
    forall v
      ensures v in PresentValues(States(t)) <==> v in states
    {
      if Some(v) in States(t) {
        var i :| 0 <= i < |t| && States(t)[i] == Some(v);
        assert t[i] in t && t[i].state == Some(v);
      }
      if v in states {
        var r :| r in t && r.state == Some(v);
        var i :| 0 <= i < |t| && t[i] == r;
        assert States(t)[i] == Some(v);
      }
    }
  }

  lemma DistinctCities(t: seq<Record>)
    ensures PresentValues(Cities(t)) == set r | r in t && r.city.Some? :: r.city.value
  {
    var cities := set r | r in t && r.city.Some? :: r.city.value;
    forall v
      ensures v in PresentValues(Cities(t)) <==> v in cities
    {
      if Some(v) in Cities(t) {
        var i :| 0 <= i < |t| && Cities(t)[i] == Some(v);
        assert t[i] in t && t[i].city == Some(v);
      }
      if v in cities {
        var r :| r in t && r.city == Some(v);
        var i :| 0 <= i < |t| && t[i] == r;
        assert Cities(t)[i] == Some(v);
      }
    }
  }

  lemma DistinctOwners(t: seq<Record>)
    ensures PresentValues(Owners(t)) == set r | r in t && r.ownerName.Some? :: r.ownerName.value
  {
    var owners := set r | r in t && r.ownerName.Some? :: r.ownerName.value;
    forall v
      ensures v in PresentValues(Owners(t)) <==> v in owners
    {
      if Some(v) in Owners(t) {
        var i :| 0 <= i < |t| && Owners(t)[i] == Some(v);
        assert t[i] in t && t[i].ownerName == Some(v);
      }
      if v in owners {
        var r :| r in t && r.ownerName == Some(v);
        var i :| 0 <= i < |t| && t[i] == r;
        assert Owners(t)[i] == Some(v);
      }
    }
  }

  lemma PhoneRows(t: seq<Record>)
    ensures Count(Phones(t), IsPresent) == |set i | 0 <= i < |t| && t[i].mobileNumber.Some?|
    ensures Count(Phones(t), IsMissing) == |set i | 0 <= i < |t| && t[i].mobileNumber.None?|
  {
    CountIsPositions(Phones(t), IsPresent);
    assert Positions(Phones(t), IsPresent) == set i | 0 <= i < |t| && t[i].mobileNumber.Some?;
    CountIsPositions(Phones(t), IsMissing);
    assert Positions(Phones(t), IsMissing) == set i | 0 <= i < |t| && t[i].mobileNumber.None?;
  }

  /** Counting distinct values with the missing marker included adds one
      exactly when some value is missing. */
  lemma {:induction false} UniqueWithMissing(col: seq<Option<string>>)
    ensures NUnique(col) + (if None in col then 1 else 0) == |set o | o in col|
  {
    if col != [] {
      var init, last := col[..|col| - 1], col[|col| - 1];
      assert col == init + [last];
      UniqueWithMissing(init);
      var vs', vs := PresentValues(init), PresentValues(col);
      var all', all := set o | o in init, set o | o in col;
      assert all == all' + {last};
      if last in init {
        assert all == all';
        assert vs == vs';
      } else if last.Some? {
        assert vs == vs' + {last.value} && last.value !in vs';
        assert |vs| == |vs'| + 1;
        assert |all| == |all'| + 1;
      } else {
        assert vs == vs';
        assert |all| == |all'| + 1;
      }
    }
  }

  /** Some other row has the same (Business Name, City, State) as row `i`,
      missing values comparing equal. */
  predicate HasTwin(t: seq<Record>, i: int)
    requires 0 <= i < |t|
  {
    exists j :: 0 <= j < |t| && j != i && DupKeyOf(t[j]) == DupKeyOf(t[i])
  }

  /** Row `i` is flagged by the `keep=False` mask exactly when it has a twin. */
  lemma FlaggedIffTwin(t: seq<Record>, i: int)
    requires 0 <= i < |t|
    ensures var keys := Map(t, DupKeyOf); Duplicated(keys)(keys[i]) <==> HasTwin(t, i)
  {
    TwinIff(Map(t, DupKeyOf), i);
  }

  /** The positions the `keep=False` mask flags are the rows with a twin. */
  lemma FlaggedRowsHaveTwins(t: seq<Record>)
    ensures var keys := Map(t, DupKeyOf);
            Positions(keys, Duplicated(keys)) == set i | 0 <= i < |t| && HasTwin(t, i)
  {
    var keys := Map(t, DupKeyOf);
    var flagged, twins := Positions(keys, Duplicated(keys)), set i | 0 <= i < |t| && HasTwin(t, i);
    forall i
      ensures i in flagged <==> i in twins
    {
      if 0 <= i < |t| {
        FlaggedIffTwin(t, i);
      }
    }
    assert flagged == twins;
  }

  /** The rows counted as potential duplicates are exactly the rows that
      have a twin. */
  lemma DuplicatesAreRowsWithTwin(t: seq<Record>)
    ensures PotentialDuplicates(t) == |set i | 0 <= i < |t| && HasTwin(t, i)|
  {
    var keys := Map(t, DupKeyOf);
    CountIsPositions(keys, Duplicated(keys));
    FlaggedRowsHaveTwins(t);
  }

  /** Every duplicated row has a partner that is also counted, so the count
      is never exactly one. */
  lemma DuplicatesNeverOne(t: seq<Record>)
    ensures PotentialDuplicates(t) != 1
  {
    var keys := Map(t, DupKeyOf);
    var p := Duplicated(keys);
    CountIsPositions(keys, p);
    var flagged := Positions(keys, p);
    if |flagged| == 1 {
      var i :| i in flagged;
      assert multiset(keys)[keys[i]] >= 2;
      CountAtLeastMultiplicity(keys, p, keys[i]);
    }
  }
}
