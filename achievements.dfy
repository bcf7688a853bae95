/**
 * The achievement catalog: a map from the count at which an achievement
 * unlocks to its title and description, and the rule every catalog entry
 * must follow (non-blank title and text after JavaScript's `trim`).
 */
module Achievements {
  import opened Wrappers

  /** One achievement: a short title and the text shown when it unlocks. */
  datatype Record = Record(title: string, text: string)

  /** Threshold count to achievement. JavaScript object keys that are integers. */
  type Catalog = map<int, Record>

  /** `achievementsList[n]`: the record for threshold `n`, if there is one. */
  function Lookup(catalog: Catalog, n: int): (r: Option<Record>)
    ensures r.Some? <==> n in catalog
    ensures r.Some? ==> r.value == catalog[n]
  {
    if n in catalog then Some(catalog[n]) else None
  }

  /** The characters `String.prototype.trim` strips: WhiteSpace and LineTerminator. */
  predicate IsTrimmable(c: char)
  {
    || c == '\t' || c == '\n' || c == '\U{000B}' || c == '\U{000C}' || c == '\r'
    || c == ' ' || c == '\U{00A0}' || c == '\U{1680}'
    || ('\U{2000}' <= c <= '\U{200A}')
    || c == '\U{2028}' || c == '\U{2029}' || c == '\U{202F}' || c == '\U{205F}'
    || c == '\U{3000}' || c == '\U{FEFF}'
  }

  /** `s` without its leading trimmable characters. */
  function TrimStart(s: string): (r: string)
    ensures |r| <= |s| && r == s[|s| - |r|..]
    ensures forall i :: 0 <= i < |s| - |r| ==> IsTrimmable(s[i])
    ensures r == [] || !IsTrimmable(r[0])
  {
    if s != [] && IsTrimmable(s[0]) then TrimStart(s[1..]) else s
  }

  /** `s` without its trailing trimmable characters. */
  function TrimEnd(s: string): (r: string)
    ensures |r| <= |s| && r == s[..|r|]
    ensures forall i :: |r| <= i < |s| ==> IsTrimmable(s[i])
    ensures r == [] || !IsTrimmable(r[|r| - 1])
  {
    if s != [] && IsTrimmable(s[|s| - 1]) then TrimEnd(s[..|s| - 1]) else s
  }

  /** Trimming the end of the suffix `s[a..]` leaves a slice `s[a..b]`, and `s[b..]` is all whitespace. */
  lemma TrimEndOfSuffix(s: string, a: nat)
    requires a <= |s|
    ensures var b := a + |TrimEnd(s[a..])|;
      && b <= |s| && TrimEnd(s[a..]) == s[a..b]
      && forall i :: b <= i < |s| ==> IsTrimmable(s[i])
  {
    var t := s[a..];
    var r := TrimEnd(t);
    var b := a + |r|;
    assert r == t[..|r|] == s[a..b];
    forall i | b <= i < |s|
      ensures IsTrimmable(s[i])
    {
      assert |r| <= i - a < |t| && s[i] == t[i - a];
    }
  }

  /** `TrimEnd(TrimStart(s))` is the slice of `s` between its leading and trailing whitespace. */
  lemma TrimIsSlice(s: string)
    ensures var a := |s| - |TrimStart(s)|;
      var b := a + |TrimEnd(TrimStart(s))|;
      && 0 <= a <= b <= |s| && TrimEnd(TrimStart(s)) == s[a..b]
      && (forall i :: 0 <= i < a ==> IsTrimmable(s[i]))
      && (forall i :: b <= i < |s| ==> IsTrimmable(s[i]))
  {
    var a := |s| - |TrimStart(s)|;
    assert TrimStart(s) == s[a..];
    TrimEndOfSuffix(s, a);
  }

  /** `TrimEnd(TrimStart(s))` neither starts nor ends with a trimmable character. */
  lemma TrimEdges(s: string)
    ensures var r := TrimEnd(TrimStart(s));
      r == [] || (!IsTrimmable(r[0]) && !IsTrimmable(r[|r| - 1]))
  {
    var t := TrimStart(s);
    var r := TrimEnd(t);
    if r != [] {
      assert r[0] == t[0];
    }
  }

  /**
   * JavaScript's `s.trim()`: the slice `s[a..b]` left once the trimmable
   * characters before `a` and from `b` on are removed.
   */
  function Trim(s: string): (r: string)
    ensures exists a, b :: && 0 <= a <= b <= |s| && r == s[a..b]
                           && (forall i :: 0 <= i < a ==> IsTrimmable(s[i]))
                           && (forall i :: b <= i < |s| ==> IsTrimmable(s[i]))
    ensures forall i :: 0 <= i < |s| && !IsTrimmable(s[i]) ==> r != []
    ensures r == [] || (!IsTrimmable(r[0]) && !IsTrimmable(r[|r| - 1]))
  {
    TrimIsSlice(s);
    TrimEdges(s);
    TrimEnd(TrimStart(s))
  }

  /** `s.trim().length > 0`. */
  predicate NonBlank(s: string)
  {
    |Trim(s)| > 0
  }

  /** A string is blank exactly when every character in it is trimmable. */
  lemma NonBlankIff(s: string)
    ensures NonBlank(s) <==> exists i :: 0 <= i < |s| && !IsTrimmable(s[i])
  {
  }

  /**
   * The shape the catalog test accepts: at least one entry, and every entry
   * with a non-blank title and a non-blank text. Keys are integers by type,
   * so "every key is a number" holds of every value of `Catalog`.
   */
  predicate WellFormed(catalog: Catalog)
  {
    && |catalog| > 0
    && forall k :: k in catalog ==> NonBlank(catalog[k].title) && NonBlank(catalog[k].text)
  }

  /** A string whose first character is visible is not blank. */
  lemma VisibleFirstIsNonBlank(s: string)
    requires s != [] && !IsTrimmable(s[0])
    ensures NonBlank(s)
  {
    NonBlankIff(s);
  }

  /** The valid catalog of the catalog test: two entries with visible titles and texts. */
  lemma GoodCatalogPasses()
    ensures WellFormed(map[1 := Record("Test", "Test text"), 10 := Record("Ten", "Ten text")])
  {
    VisibleFirstIsNonBlank("Test");
    VisibleFirstIsNonBlank("Test text");
    VisibleFirstIsNonBlank("Ten");
    VisibleFirstIsNonBlank("Ten text");
    assert map[1 := Record("Test", "Test text"), 10 := Record("Ten", "Ten text")].Keys == {1, 10};
  }

  /** Spaces and a tab trim to nothing. */
  lemma SpacesAndTabAreBlank()
    ensures !NonBlank(" \t ")
  {
    var blank := " \t ";
    NonBlankIff(blank);
    assert forall i :: 0 <= i < |blank| ==> IsTrimmable(blank[i]);
  }

  /**
   * The catalog test's verdicts on three catalogs: two well-titled entries
   * pass; an entry whose title is only spaces and a tab fails; so does the
   * empty catalog.
   */
  lemma WellFormedExamples()
    ensures WellFormed(map[1 := Record("Test", "Test text"), 10 := Record("Ten", "Ten text")])
    ensures !WellFormed(map[1 := Record(" \t ", "Test text")])
    ensures !WellFormed(map[])
  {
    GoodCatalogPasses();
    SpacesAndTabAreBlank();
    var bad := map[1 := Record(" \t ", "Test text")];
    assert 1 in bad && bad[1].title == " \t ";
  }
}
