/**
 * The sample-names cell of the per-cluster statistics table: the first three
 * region names of a cluster joined with ", ", followed by "..." when the
 * cluster has more than three regions.
 */
module SampleLabel {

  /** How many names the label shows. */
  const SampleSize: nat := 3

  const Separator: string := ", "

  const Ellipsis: string := "..."

  /** `sep.join(parts)`. */
  function Join(parts: seq<string>, sep: string): string {
    if |parts| == 0 then ""
    else if |parts| == 1 then parts[0]
    else parts[0] + sep + Join(parts[1..], sep)
  }

  /** The total length of `parts`. */
  function TotalLength(parts: seq<string>): nat {
    if |parts| == 0 then 0 else |parts[0]| + TotalLength(parts[1..])
  }

  /** The label of a cluster whose region names are `names`, in table order. */
  function Label(names: seq<string>): string {
    var shown := if |names| <= SampleSize then names else names[..SampleSize];
    Join(shown, Separator) + (if |names| > SampleSize then Ellipsis else "")
  }

  // ---------------------------------------------------------------------------
  // Properties of the join
  // ---------------------------------------------------------------------------

  /** Joining two non-empty runs is joining each and putting the separator between. */
  lemma {:induction false} JoinAppend(a: seq<string>, b: seq<string>, sep: string)
    requires |a| > 0 && |b| > 0
    ensures Join(a + b, sep) == Join(a, sep) + sep + Join(b, sep)
  {
    if |a| == 1 {
      assert (a + b)[1..] == b;
    } else {
      assert (a + b)[1..] == a[1..] + b;
      JoinAppend(a[1..], b, sep);
    }
  }

  /** The joined string holds every part and one separator between neighbours. */
  lemma {:induction false} JoinLength(parts: seq<string>, sep: string)
    requires |parts| > 0
    ensures |Join(parts, sep)| == TotalLength(parts) + |sep| * (|parts| - 1)
  {
    if |parts| > 1 {
      JoinLength(parts[1..], sep);
    }
  }

  /** Each part sits in the joined string at the offset its predecessors and separators leave. */
  lemma {:induction false} JoinPart(parts: seq<string>, sep: string, k: nat)
    requires k < |parts|
    ensures var off := TotalLength(parts[..k]) + |sep| * k;
      off + |parts[k]| <= |Join(parts, sep)| && Join(parts, sep)[off..off + |parts[k]|] == parts[k]
  {
    if k == 0 {
      if |parts| > 1 {
        assert Join(parts, sep) == parts[0] + (sep + Join(parts[1..], sep));
      }
    } else {
      var rest := parts[1..];
      JoinPart(rest, sep, k - 1);
      var j := Join(rest, sep);
      var off' := TotalLength(rest[..k - 1]) + |sep| * (k - 1);
      var p := parts[0] + sep;
      var off := TotalLength(parts[..k]) + |sep| * k;
      assert parts[..k] == [parts[0]] + rest[..k - 1];
      assert off == |p| + off';
      assert Join(parts, sep) == p + j;
      assert (p + j)[off..off + |parts[k]|] == j[off'..off' + |parts[k]|] == rest[k - 1];
    }
  }

  // ---------------------------------------------------------------------------
  // Properties of the label
  // ---------------------------------------------------------------------------

  /**
   * The label of up to three names is their whole join. For more names the
   * label is the whole join with everything after the third name (the
   * separator and the join of the rest) replaced by "...".
   */
  lemma LabelTruncatesJoin(names: seq<string>)
    ensures |names| <= 3 ==> Label(names) == Join(names, ", ")
    ensures |names| > 3 ==>
      var text := Label(names);
      && |text| >= 3
      && text[|text| - 3..] == "..."
      && text[..|text| - 3] + ", " + Join(names[3..], ", ") == Join(names, ", ")
  {
    if |names| > 3 {
      var head, tail := names[..3], names[3..];
      assert names == head + tail;
      JoinAppend(head, tail, ", ");
      var text := Label(names);
      assert text == Join(head, Separator) + Ellipsis;
      assert text[..|text| - 3] == Join(head, ", ");
    } else {
      assert Label(names) == Join(names, Separator) + "";
    }
  }

  /** Names after the third never change the label, only whether there are more of them. */
  lemma LabelSeesFirstThree(a: seq<string>, b: seq<string>)
    requires |a| > 3 && |b| > 3 && a[..3] == b[..3]
    ensures Label(a) == Label(b)
  {
  }

  /** Each of the first three names appears in the label, at its place in the join. */
  lemma LabelShowsFirstNames(names: seq<string>, k: nat)
    requires k < |names| && k < 3
    ensures var off := TotalLength(names[..k]) + 2 * k;
      off + |names[k]| <= |Label(names)| && Label(names)[off..off + |names[k]|] == names[k]
  {
    var shown := if |names| <= 3 then names else names[..3];
    JoinPart(shown, ", ", k);
    assert shown[..k] == names[..k];
    assert Label(names) == Join(shown, ", ") + (if |names| > 3 then "..." else "");
  }

  /** The label's length: the shown names, their separators, and three dots when names are dropped. */
  lemma LabelLength(names: seq<string>)
    requires |names| > 0
    ensures var n := if |names| <= 3 then |names| else 3;
      |Label(names)| == TotalLength(names[..n]) + 2 * (n - 1) + (if |names| > 3 then 3 else 0)
  {
    var n := if |names| <= 3 then |names| else 3;
    assert names[..n] == (if |names| <= 3 then names else names[..3]);
    JoinLength(names[..n], ", ");
  }

  /** Two examples: a short cluster and a long one. */
  lemma LabelExamples()
    ensures Label(["ANKARA", "IZMIR"]) == "ANKARA, IZMIR"
    ensures Label(["ADANA", "BOLU", "KARS", "RIZE"]) == "ADANA, BOLU, KARS..."
  {
    var long := ["ADANA", "BOLU", "KARS", "RIZE"];
    assert long[..3] == ["ADANA", "BOLU", "KARS"];
    assert Join(["KARS"], ", ") == "KARS";
    assert Join(["BOLU", "KARS"], ", ") == "BOLU, KARS";
  }
}
