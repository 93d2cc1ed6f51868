/**
 * Locating the region-name column of the geometry table: a fixed priority
 * list of header names is searched in order and the first header present
 * among the table's columns wins; when none is present the run fails.
 */
module NameColumn {
  import opened Results

  /** The candidate headers, highest priority first. */
  const NameCandidates: seq<string> := ["name", "NAME_1", "NAME", "province"]

  /** The failure raised when no candidate header is present. */
  datatype LookupError = NameColumnNotFound

  /** The position of the first candidate that is in `present`, if any. */
  function FirstPresent<T>(candidates: seq<T>, present: set<T>): (r: Option<nat>)
    ensures r.Some? ==>
      && r.value < |candidates|
      && candidates[r.value] in present
      && forall j :: 0 <= j < r.value ==> candidates[j] !in present
    ensures r.None? <==> forall j :: 0 <= j < |candidates| ==> candidates[j] !in present
  {
    if |candidates| == 0 then None
    else if candidates[0] in present then Some(0)
    else match FirstPresent(candidates[1..], present)
      case None => None
      case Some(k) => Some(k + 1)
  }

  /** The header to rename to the region-name column, or the lookup failure. */
  function FindNameColumn(columns: set<string>): (r: Result<string, LookupError>)
    ensures r == Ok("name") <==> "name" in columns
    ensures r == Ok("NAME_1") <==> "name" !in columns && "NAME_1" in columns
    ensures r == Ok("NAME") <==> "name" !in columns && "NAME_1" !in columns && "NAME" in columns
    ensures r == Ok("province") <==>
      "name" !in columns && "NAME_1" !in columns && "NAME" !in columns && "province" in columns
    ensures r.Err? <==> forall c :: c in NameCandidates ==> c !in columns
  {
    CandidatesListed();
    match FirstPresent(NameCandidates, columns)
    case Some(k) => Ok(NameCandidates[k])
    case None => Err(NameColumnNotFound)
  }

  /** The four candidates, one by one; they are pairwise different. */
  lemma CandidatesListed()
    ensures |NameCandidates| == 4
    ensures NameCandidates[0] == "name" && NameCandidates[1] == "NAME_1"
    ensures NameCandidates[2] == "NAME" && NameCandidates[3] == "province"
    ensures forall i, j :: 0 <= i < j < 4 ==> NameCandidates[i] != NameCandidates[j]
  {
    assert "name"[0] != "NAME_1"[0] && "name"[0] != "NAME"[0];
    assert |"NAME_1"| != |"NAME"| && |"NAME_1"| != |"province"|;
    assert "NAME"[0] != "province"[0] && "name"[0] != "province"[1];
  }

  /** A found header is a present candidate, and every higher-priority candidate is absent. */
  lemma FoundColumnIsFirstPresent(columns: set<string>)
    requires FindNameColumn(columns).Ok?
    ensures var c := FindNameColumn(columns).value;
      && c in columns
      && exists k :: 0 <= k < |NameCandidates| && NameCandidates[k] == c
           && forall j :: 0 <= j < k ==> NameCandidates[j] !in columns
  {
    var k := FirstPresent(NameCandidates, columns).value;
    assert NameCandidates[k] == FindNameColumn(columns).value;
  }

  /** Columns outside the candidate list never affect the choice. */
  lemma IrrelevantColumnsIgnored(columns: set<string>, extra: set<string>)
    requires forall c :: c in extra ==> c !in NameCandidates
    ensures FindNameColumn(columns + extra) == FindNameColumn(columns)
  {
  }
}
