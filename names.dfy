/** File-name normalisation (`normalize_name`) and the case folding that
    turns a normalised name into a comparison key. */
module Names {
  import opened Text

  /** `normalize_name`: the empty name stays empty, any other name is stripped. */
  function NormalizeName(name: string): (r: string)
    ensures name == "" ==> r == ""
    ensures IsStripped(r)
    ensures IsStripped(name) ==> r == name
    ensures r == "" <==> AllSpace(name)
  {
    StripStripped(name);
    StripEmptyIffBlank(name);
    if name == "" then "" else Strip(name)
  }

  /** Normalising twice is normalising once, so the re-normalisation of the
      already normalised name sets is a no-op. */
  lemma NormalizeIdempotent(name: string)
    ensures NormalizeName(NormalizeName(name)) == NormalizeName(name)
  {
  }

  /** The comparison key of a name: its normalised form, lower-cased unless
      the comparison is case-sensitive. */
  function FoldKey(caseSensitive: bool, name: string): (k: string)
    ensures IsStripped(k)
    ensures |k| == |NormalizeName(name)|
    ensures k == "" <==> AllSpace(name)
    ensures !caseSensitive ==> forall i :: 0 <= i < |k| ==> !('A' <= k[i] <= 'Z')
  {
    LowerStripped(NormalizeName(name));
    if caseSensitive then NormalizeName(name) else Lower(NormalizeName(name))
  }

  /** The folding applied to a grouping key, which is already normalised. */
  function Fold(caseSensitive: bool, key: string): (k: string)
    ensures |k| == |key|
    ensures caseSensitive ==> k == key
  {
    if caseSensitive then key else Lower(key)
  }

  /** For a name that is already normalised the two foldings agree. */
  lemma FoldOfNormalized(caseSensitive: bool, key: string)
    requires IsStripped(key)
    ensures FoldKey(caseSensitive, key) == Fold(caseSensitive, key)
  {
  }

  /** Two characters that are equal or are the upper- and lower-case forms
      of the same ASCII letter (which are 32 code points apart). */
  predicate CaseVariant(a: char, b: char) {
    || a == b
    || ('A' <= a <= 'Z' && b as int == a as int + 32)
    || ('A' <= b <= 'Z' && a as int == b as int + 32)
  }

  /** Two names that differ only in the case of their ASCII letters. */
  predicate SameUpToCase(a: string, b: string) {
    |a| == |b| && forall i :: 0 <= i < |a| ==> CaseVariant(a[i], b[i])
  }

  /** Lower-casing identifies two characters exactly when they are case variants. */
  lemma LowerCharSame(x: char, y: char)
    ensures LowerChar(x) == LowerChar(y) <==> CaseVariant(x, y)
  {
  }

  /** In case-insensitive mode two names get the same key exactly when their
      normalised forms differ only in letter case. */
  lemma {:induction false} CaseInsensitiveCollapse(a: string, b: string)
    ensures FoldKey(false, a) == FoldKey(false, b) <==> SameUpToCase(NormalizeName(a), NormalizeName(b))
  {
    var na, nb := NormalizeName(a), NormalizeName(b);
    if |na| == |nb| {
      forall i | 0 <= i < |na|
        ensures Lower(na)[i] == Lower(nb)[i] <==> CaseVariant(na[i], nb[i])
      {
        LowerCharSame(na[i], nb[i]);
      }
      if SameUpToCase(na, nb) {
        assert Lower(na) == Lower(nb);
      }
    }
  }

  /** `{normalize_name(n).lower() for n in names}` (or without `.lower()`). */
  function FoldNames(caseSensitive: bool, names: set<string>): set<string>
  {
    set n | n in names :: FoldKey(caseSensitive, n)
  }

  /** Adding a name adds its key. */
  lemma FoldNamesAdd(caseSensitive: bool, names: set<string>, n: string)
    ensures FoldNames(caseSensitive, names + {n}) == FoldNames(caseSensitive, names) + {FoldKey(caseSensitive, n)}
  {
  }

  lemma SubsetCard(a: set<string>, b: set<string>)
    requires a <= b
    ensures |a| <= |b|
  {
    assert b == a + (b - a);
  }

  /** Folding never creates keys: there are at most as many keys as names. */
  lemma {:induction false} FoldNamesCard(caseSensitive: bool, names: set<string>)
    ensures |FoldNames(caseSensitive, names)| <= |names|
    decreases |names|
  {
    if names != {} {
      var n :| n in names;
      var rest := names - {n};
      FoldNamesCard(caseSensitive, rest);
      var all, part, k := FoldNames(caseSensitive, names), FoldNames(caseSensitive, rest), FoldKey(caseSensitive, n);
      forall x | x in all ensures x in part + {k} {
        var m :| m in names && FoldKey(caseSensitive, m) == x;
        if m != n {
          assert m in rest;
        }
      }
      SubsetCard(all, part + {k});
    }
  }

  /** In case-sensitive mode the key set of already normalised names is the
      name set itself. */
  lemma FoldNamesCaseSensitive(names: set<string>)
    requires forall n :: n in names ==> IsStripped(n)
    ensures FoldNames(true, names) == names
  {
  }
}
