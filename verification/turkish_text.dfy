/**
 * The place-name normaliser `normalize_turkish_text`: a fixed table rewrites
 * the twelve Turkish-specific letters to ASCII letters, then the string is
 * upper-cased and stripped of surrounding whitespace.
 *
 * Upper-casing is modelled on ASCII only (`a`..`z` become `A`..`Z`, every other
 * character is left alone) and stripping removes the ASCII characters that
 * Python's `str.isspace` accepts.
 */
module TurkishText {

  /** One rewrite of the table: every occurrence of `.0` becomes `.1`. */
  type Pair = (char, char)

  /** The replacement table, in the dictionary's insertion order. */
  const Replacements: seq<Pair> := [
    ('İ', 'I'), ('ı', 'i'), ('Ş', 'S'), ('ş', 's'),
    ('Ğ', 'G'), ('ğ', 'g'), ('Ü', 'U'), ('ü', 'u'),
    ('Ö', 'O'), ('ö', 'o'), ('Ç', 'C'), ('ç', 'c')
  ]

  // ---------------------------------------------------------------------------
  // Character classes and table shapes
  // ---------------------------------------------------------------------------

  predicate IsAsciiLower(c: char) {
    'a' <= c <= 'z'
  }

  predicate IsAscii(c: char) {
    c as int < 128
  }

  /** The ASCII characters Python's `str.strip()` removes. */
  predicate IsSpace(c: char) {
    c == ' ' || ('\t' <= c <= '\r') || ('\U{1C}' <= c <= '\U{1F}')
  }

  /** Some rewrite of `table` has `c` as its source. */
  predicate IsKey(table: seq<Pair>, c: char) {
    exists p :: p in table && p.0 == c
  }

  /** No rewrite produces a character that another rewrite would consume. */
  predicate Composable(table: seq<Pair>) {
    forall p, q :: p in table && q in table ==> p.1 != q.0
  }

  /** Each source character has a single target. */
  predicate Functional(table: seq<Pair>) {
    forall p, q :: p in table && q in table && p.0 == q.0 ==> p.1 == q.1
  }

  /** What normalisation may leave in its output: no lower-case ASCII, no table source. */
  predicate Clean(c: char) {
    !IsAsciiLower(c) && !IsKey(Replacements, c)
  }

  // ---------------------------------------------------------------------------
  // The three steps, as the source performs them
  // ---------------------------------------------------------------------------

  /** `s.replace(from, to)` for a one-character needle. */
  function ReplaceChar(s: string, from: char, to: char): (r: string)
    ensures |r| == |s|
    ensures forall i :: 0 <= i < |s| && s[i] == from ==> r[i] == to
    ensures forall i :: 0 <= i < |s| && s[i] != from ==> r[i] == s[i]
    ensures from != to ==> from !in r
  {
    seq(|s|, i requires 0 <= i < |s| => if s[i] == from then to else s[i])
  }

  /** The loop over the table: each rewrite applied to the whole string in turn. */
  function ReplaceAll(s: string, table: seq<Pair>): (r: string)
    ensures |r| == |s|
    decreases |table|
  {
    if |table| == 0 then s
    else ReplaceAll(ReplaceChar(s, table[0].0, table[0].1), table[1..])
  }

  function UpperChar(c: char): char {
    if IsAsciiLower(c) then (c as int - 32) as char else c
  }

  /** `str.upper()`, restricted to ASCII letters. */
  function Upper(s: string): (r: string)
    ensures |r| == |s|
    ensures forall i :: 0 <= i < |r| ==> !IsAsciiLower(r[i])
    ensures forall i :: 0 <= i < |s| && IsAsciiLower(s[i]) ==> r[i] as int == s[i] as int - ('a' as int - 'A' as int)
    ensures forall i :: 0 <= i < |s| && !IsAsciiLower(s[i]) ==> r[i] == s[i]
  {
    seq(|s|, i requires 0 <= i < |s| => UpperChar(s[i]))
  }

  /** Drops leading whitespace. */
  function TrimStart(s: string): (r: string)
    ensures |r| <= |s| && r == s[|s| - |r|..]
    ensures AllSpace(s[..|s| - |r|])
    ensures r == [] || !IsSpace(r[0])
  {
    if |s| > 0 && IsSpace(s[0]) then
      var r := TrimStart(s[1..]);
      assert s[..|s| - |r|] == [s[0]] + s[1..][..|s| - 1 - |r|];
      r
    else s
  }

  /** Drops trailing whitespace. */
  function TrimEnd(s: string): (r: string)
    ensures |r| <= |s| && r == s[..|r|]
    ensures AllSpace(s[|r|..])
    ensures r == [] || !IsSpace(r[|r| - 1])
  {
    if |s| > 0 && IsSpace(s[|s| - 1]) then
      var r := TrimEnd(s[..|s| - 1]);
      assert s[|r|..] == s[..|s| - 1][|r|..] + [s[|s| - 1]];
      r
    else s
  }

  predicate AllSpace(s: string) {
    forall i :: 0 <= i < |s| ==> IsSpace(s[i])
  }

  /**
   * `r` is `s` with its leading and trailing whitespace removed: a slice of
   * `s` that is empty or starts and ends on non-whitespace, outside which
   * there is only whitespace.
   */
  ghost predicate IsStripOf(r: string, s: string) {
    && (r == [] || (!IsSpace(r[0]) && !IsSpace(r[|r| - 1])))
    && exists lo :: 0 <= lo <= |s| - |r| && IsStripAt(r, s, lo)
  }

  /** `r` sits in `s` at offset `lo` with only whitespace around it. */
  predicate IsStripAt(r: string, s: string, lo: nat)
    requires lo + |r| <= |s|
  {
    && s[lo..lo + |r|] == r
    && AllSpace(s[..lo])
    && AllSpace(s[lo + |r|..])
  }

  /** `str.strip()` with no argument. */
  function Strip(s: string): (r: string)
    ensures IsStripOf(r, s)
  {
    TrimBothIsStrip(s);
    TrimEnd(TrimStart(s))
  }

  lemma TrimBothIsStrip(s: string)
    ensures IsStripOf(TrimEnd(TrimStart(s)), s)
  {
    var t := TrimStart(s);
    var r := TrimEnd(t);
    var lo := |s| - |t|;
    assert t == s[lo..];
    assert s[lo..lo + |r|] == r;
    assert s[lo + |r|..] == t[|r|..];
    assert r != [] ==> r[0] == t[0];
    assert IsStripAt(r, s, lo);
  }

  /** `normalize_turkish_text`. */
  function Normalize(s: string): (r: string)
    ensures |r| <= |s|
    ensures IsStripOf(r, FoldAll(s))
    ensures forall i :: 0 <= i < |r| ==> Clean(r[i])
  {
    RewriteThenUpperIsFold(s);
    var t := Upper(ReplaceAll(s, Replacements));
    FoldAllIsClean(s);
    StripKeepsClean(t);
    Strip(t)
  }

  // ---------------------------------------------------------------------------
  // Reference readings: a table as a character map, and the Turkish letters
  // one by one
  // ---------------------------------------------------------------------------

  /** The target of the first rewrite whose source is `c`, or `c` itself. */
  function Lookup(table: seq<Pair>, c: char): (r: char)
    ensures !IsKey(table, c) ==> r == c
    ensures IsKey(table, c) ==> (c, r) in table
  {
    if |table| == 0 then c
    else if table[0].0 == c then table[0].1
    else Lookup(table[1..], c)
  }

  /** The ASCII letter each Turkish-specific letter stands for. */
  function Transliterate(c: char): char {
    match c
    case 'İ' => 'I'
    case 'ı' => 'i'
    case 'Ş' => 'S'
    case 'ş' => 's'
    case 'Ğ' => 'G'
    case 'ğ' => 'g'
    case 'Ü' => 'U'
    case 'ü' => 'u'
    case 'Ö' => 'O'
    case 'ö' => 'o'
    case 'Ç' => 'C'
    case 'ç' => 'c'
    case _ => c
  }

  /** What normalisation does to one character, ignoring the final strip. */
  function Fold(c: char): char {
    UpperChar(Transliterate(c))
  }

  /** Normalisation without the final strip, character by character. */
  function FoldAll(s: string): string {
    seq(|s|, i requires 0 <= i < |s| => Fold(s[i]))
  }

  // ---------------------------------------------------------------------------
  // Properties of the table
  // ---------------------------------------------------------------------------

  /** Every pair of the table is a letter and its transliteration. */
  lemma ReplacementsTransliterate()
    ensures forall p :: p in Replacements ==> p.1 == Transliterate(p.0)
  {
    var r := Replacements;
    assert r[0].1 == Transliterate(r[0].0);
    assert r[1].1 == Transliterate(r[1].0);
    assert r[2].1 == Transliterate(r[2].0);
    assert r[3].1 == Transliterate(r[3].0);
    assert r[4].1 == Transliterate(r[4].0);
    assert r[5].1 == Transliterate(r[5].0);
    assert r[6].1 == Transliterate(r[6].0);
    assert r[7].1 == Transliterate(r[7].0);
    assert r[8].1 == Transliterate(r[8].0);
    assert r[9].1 == Transliterate(r[9].0);
    assert r[10].1 == Transliterate(r[10].0);
    assert r[11].1 == Transliterate(r[11].0);
    forall p | p in r ensures p.1 == Transliterate(p.0) {
      var k :| 0 <= k < |r| && r[k] == p;
    }
  }

  lemma ReplacementsSourcesDistinct()
    ensures Functional(Replacements)
  {
    ReplacementsTransliterate();
  }

  /** The table rewrites non-ASCII letters to ASCII letters, one target each. */
  lemma ReplacementsWellFormed()
    ensures Composable(Replacements) && Functional(Replacements)
    ensures forall p :: p in Replacements ==> IsAscii(p.1) && !IsAscii(p.0)
  {
    assert forall p :: p in Replacements ==> IsAscii(p.1) && !IsAscii(p.0) by {}
    ReplacementsSourcesDistinct();
  }

  /** Read as a character map, the table is exactly `Transliterate`. */
  lemma TableIsTransliterate(c: char)
    ensures Lookup(Replacements, c) == Transliterate(c)
    ensures IsKey(Replacements, c) <==> Transliterate(c) != c
  {
    ReplacementsTransliterate();
    assert forall p :: p in Replacements ==> IsAscii(p.1) && !IsAscii(p.0) by {
      ReplacementsWellFormed();
    }
    if IsKey(Replacements, c) {
      assert (c, Lookup(Replacements, c)) in Replacements;
    } else {
      assert forall k :: 0 <= k < |Replacements| ==> Replacements[k].0 != c by {
        forall k | 0 <= k < |Replacements| ensures Replacements[k].0 != c {
          assert Replacements[k] in Replacements;
        }
      }
      assert Transliterate(c) == c;
    }
  }

  /**
   * When no target is also a source, the sequential loop rewrites every
   * character exactly once: position `i` ends up as the table's value for the
   * original character there.
   */
  lemma {:induction false} ReplaceAllIsLookup(s: string, table: seq<Pair>)
    requires Composable(table)
    ensures forall i :: 0 <= i < |s| ==> ReplaceAll(s, table)[i] == Lookup(table, s[i])
    decreases |table|
  {
    if |table| > 0 {
      var (k, v) := table[0];
      var rest := table[1..];
      var s' := ReplaceChar(s, k, v);
      assert Composable(rest) by {
        forall p, q | p in rest && q in rest ensures p.1 != q.0 {
          assert p in table && q in table;
        }
      }
      ReplaceAllIsLookup(s', rest);
      forall i | 0 <= i < |s|
        ensures ReplaceAll(s, table)[i] == Lookup(table, s[i])
      {
        if s[i] == k {
          assert !IsKey(rest, v) by {
            forall q | q in rest ensures q.0 != v {
              assert table[0] in table && q in table;
            }
          }
        }
      }
    }
  }

  /** Under a functional table, `Lookup` returns the one target of a source. */
  lemma LookupOfPair(table: seq<Pair>, c: char, v: char)
    requires Functional(table) && (c, v) in table
    ensures Lookup(table, c) == v
  {
  }

  /**
   * Applying the rewrites in any other order gives the same string: every
   * target is ASCII and no target is a source. Listing a pair twice changes
   * nothing either, so any sequence holding exactly the table's pairs will do.
   */
  lemma ReplacementOrderIrrelevant(s: string, reordered: seq<Pair>)
    requires forall p :: p in reordered <==> p in Replacements
    ensures ReplaceAll(s, reordered) == ReplaceAll(s, Replacements)
  {
    ReplacementsWellFormed();
    SameRewritesSameResult(s, Replacements, reordered);
  }

  /** Two tables holding the same composable, functional rewrites rewrite alike. */
  lemma SameRewritesSameResult(s: string, t1: seq<Pair>, t2: seq<Pair>)
    requires Composable(t1) && Functional(t1)
    requires forall p :: p in t1 <==> p in t2
    ensures ReplaceAll(s, t2) == ReplaceAll(s, t1)
  {
    assert Composable(t2) && Functional(t2);
    ReplaceAllIsLookup(s, t1);
    ReplaceAllIsLookup(s, t2);
    forall i | 0 <= i < |s|
      ensures Lookup(t2, s[i]) == Lookup(t1, s[i])
    {
      var c := s[i];
      if IsKey(t1, c) {
        LookupOfPair(t2, c, Lookup(t1, c));
      } else {
        assert !IsKey(t2, c);
      }
    }
  }

  // ---------------------------------------------------------------------------
  // Properties of the normaliser
  // ---------------------------------------------------------------------------

  /** The rewrite loop followed by upper-casing is `Fold` on every character. */
  lemma RewriteThenUpperIsFold(s: string)
    ensures Upper(ReplaceAll(s, Replacements)) == FoldAll(s)
  {
    ReplacementsWellFormed();
    forall c ensures Lookup(Replacements, c) == Transliterate(c) {
      TableIsTransliterate(c);
    }
    RewriteThenUpperIsFoldFor(s, Replacements);
  }

  lemma RewriteThenUpperIsFoldFor(s: string, table: seq<Pair>)
    requires Composable(table)
    requires forall c :: Lookup(table, c) == Transliterate(c)
    ensures Upper(ReplaceAll(s, table)) == FoldAll(s)
  {
    ReplaceAllIsLookup(s, table);
  }

  /** A normalised character is neither lower-case ASCII nor a table source. */
  lemma FoldIsClean(c: char)
    ensures Clean(Fold(c))
  {
    ReplacementsWellFormed();
    TableIsTransliterate(c);
    TableIsTransliterate(Fold(c));
  }

  lemma FoldAllIsClean(s: string)
    ensures forall i :: 0 <= i < |s| ==> Clean(FoldAll(s)[i])
  {
    forall i | 0 <= i < |s| ensures Clean(FoldAll(s)[i]) {
      FoldIsClean(s[i]);
    }
  }

  /** Stripping only removes characters. */
  lemma StripChars(t: string)
    ensures forall c :: c in Strip(t) ==> c in t
  {
    var u := TrimStart(t);
    var r := TrimEnd(u);
    assert Strip(t) == r;
    forall i | 0 <= i < |r| ensures r[i] in t {
      assert r[i] == u[i] == t[|t| - |u| + i];
    }
  }

  lemma StripKeepsClean(t: string)
    requires forall i :: 0 <= i < |t| ==> Clean(t[i])
    ensures forall i :: 0 <= i < |Strip(t)| ==> Clean(Strip(t)[i])
  {
    StripChars(t);
    var r := Strip(t);
    forall i | 0 <= i < |r| ensures Clean(r[i]) {
      assert r[i] in t;
    }
  }

  /** None of the twelve Turkish-specific letters survives normalisation. */
  lemma NoTableLetterSurvives(s: string, c: char)
    requires IsKey(Replacements, c)
    ensures c !in Normalize(s)
  {
  }

  /** Characters outside the table are only upper-cased, never otherwise changed. */
  lemma OtherCharactersOnlyUppercased(c: char)
    requires !IsKey(Replacements, c)
    ensures Fold(c) == UpperChar(c)
    ensures !IsAsciiLower(c) ==> Fold(c) == c
  {
    TableIsTransliterate(c);
  }

  /** A string with no table source is left alone by the rewrite loop. */
  lemma ReplaceAllFixesClean(s: string)
    requires forall i :: 0 <= i < |s| ==> !IsKey(Replacements, s[i])
    ensures ReplaceAll(s, Replacements) == s
  {
    ReplacementsWellFormed();
    ReplaceAllIsLookup(s, Replacements);
  }

  /** A string that neither starts nor ends with whitespace is its own strip. */
  lemma StripKeepsTrimmed(s: string)
    requires s == [] || (!IsSpace(s[0]) && !IsSpace(s[|s| - 1]))
    ensures Strip(s) == s
  {
    assert TrimStart(s) == s;
    assert TrimEnd(s) == s;
  }

  /** Normalising a normalised string changes nothing. */
  lemma NormalizeIdempotent(s: string)
    ensures Normalize(Normalize(s)) == Normalize(s)
  {
    var r := Normalize(s);
    ReplaceAllFixesClean(r);
    assert Upper(r) == r;
    StripKeepsTrimmed(r);
  }

  /** Normalisation is `Fold` on every character, then a strip. */
  lemma NormalizeIsStrippedFold(s: string)
    ensures Normalize(s) == Strip(FoldAll(s))
  {
    RewriteThenUpperIsFold(s);
  }

  /** A worked example: "İzmir Şehri" becomes "IZMIR SEHRI". */
  lemma IzmirExample()
    ensures Normalize("İzmir Şehri") == "IZMIR SEHRI"
  {
    NormalizeIsStrippedFold("İzmir Şehri");
    IzmirFolds();
    IzmirIsStripped();
  }

  lemma IzmirFolds()
    ensures FoldAll("İzmir Şehri") == "IZMIR SEHRI"
  {
  }

  lemma IzmirIsStripped()
    ensures Strip("IZMIR SEHRI") == "IZMIR SEHRI"
  {
    StripKeepsTrimmed("IZMIR SEHRI");
  }}
