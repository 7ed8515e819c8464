/**
 * The visible part of the catalog (src/App.tsx:136-148): two filters in a
 * row, the first on a case-insensitive name substring, the second on an
 * exact type name; an empty criterion lets every record through.
 */
module CatalogFilter {
  import opened Seqs
  import opened Records
  import opened TypeOptions

  /** The filter state: the text typed in the name box and the selected type ("" for "All types"). */
  datatype Criteria = Criteria(name: string, typeName: string)

  /** `toLowerCase` on one character, restricted to ASCII letters. */
  function LowerChar(c: char): (l: char)
    ensures !('A' <= l <= 'Z')
    ensures 'A' <= c <= 'Z' ==> l as int - 'a' as int == c as int - 'A' as int
    ensures !('A' <= c <= 'Z') ==> l == c
  {
    if 'A' <= c <= 'Z' then (c as int + 32) as char else c
  }

  /** `toLowerCase` on a string, character by character. */
  function Lower(s: string): (r: string)
    ensures |r| == |s|
    ensures forall i :: 0 <= i < |r| ==> !('A' <= r[i] <= 'Z')
    ensures forall i :: 0 <= i < |s| && 'A' <= s[i] <= 'Z' ==>
      r[i] as int == s[i] as int + ('a' as int - 'A' as int)
    ensures forall i :: 0 <= i < |s| && !('A' <= s[i] <= 'Z') ==> r[i] == s[i]
  {
    seq(|s|, i requires 0 <= i < |s| => LowerChar(s[i]))
  }

  /** Folding case twice changes nothing more. */
  lemma LowerIdempotent(s: string)
    ensures Lower(Lower(s)) == Lower(s)
  {
  }

  /** `needle` occurs in `hay` starting at position `i`. */
  predicate OccursAt(hay: string, needle: string, i: int) {
    0 <= i <= |hay| - |needle| && hay[i..i + |needle|] == needle
  }

  /** `hay.includes(needle)`: `needle` occurs in `hay` at some position. */
  function Includes(hay: string, needle: string): (b: bool)
    ensures b <==> exists i :: OccursAt(hay, needle, i)
    decreases |hay|
  {
    if |needle| > |hay| then false
    else if hay[..|needle|] == needle then
      assert OccursAt(hay, needle, 0);
      true
    else
      assert !OccursAt(hay, needle, 0);
      assert forall i :: 1 <= i ==> (OccursAt(hay, needle, i) <==> OccursAt(hay[1..], needle, i - 1));
      assert forall j :: 0 <= j ==> (OccursAt(hay[1..], needle, j) <==> OccursAt(hay, needle, j + 1));
      Includes(hay[1..], needle)
  }

  /** The first filter: no name typed, or the folded name contains the folded text. */
  predicate MatchesName(p: Pokemon, name: string) {
    name == "" || Includes(Lower(p.name), Lower(name))
  }

  /** The second filter: no type selected, or some type of the record is exactly the selected one. */
  predicate MatchesType(p: Pokemon, typeName: string) {
    typeName == "" || typeName in p.types
  }

  predicate Matches(p: Pokemon, c: Criteria) {
    MatchesName(p, c.name) && MatchesType(p, c.typeName)
  }

  /** The catalog as shown: filtered by name, then by type. */
  function Visible(catalog: seq<Pokemon>, c: Criteria): seq<Pokemon> {
    Filter(Filter(catalog, p => MatchesName(p, c.name)), p => MatchesType(p, c.typeName))
  }

  /** The two chained filters are one filter by both conditions. */
  lemma {:induction false} VisibleIsOneFilter(catalog: seq<Pokemon>, c: Criteria)
    ensures Visible(catalog, c) == Filter(catalog, p => Matches(p, c))
  {
    if catalog != [] {
      VisibleIsOneFilter(catalog[1..], c);
      var head := if MatchesName(catalog[0], c.name) then [catalog[0]] else [];
      FilterAppend(head, Filter(catalog[1..], p => MatchesName(p, c.name)), p => MatchesType(p, c.typeName));
    }
  }

  /**
   * The visible records are an order-preserving subsequence of the catalog,
   * holding exactly the occurrences that pass both tests.
   */
  lemma VisibleIsFilteredSubsequence(catalog: seq<Pokemon>, c: Criteria)
    ensures IsSubsequence(Visible(catalog, c), catalog)
    ensures forall p :: p in Visible(catalog, c) <==> p in catalog && Matches(p, c)
    ensures forall p ::
      multiset(Visible(catalog, c))[p] == (if Matches(p, c) then multiset(catalog)[p] else 0)
  {
    VisibleIsOneFilter(catalog, c);
    FilterIsSubsequence(catalog, p => Matches(p, c));
    forall p ensures multiset(Visible(catalog, c))[p] ==
      (if Matches(p, c) then multiset(catalog)[p] else 0)
    {
      FilterMultiplicity(catalog, p => Matches(p, c), p);
    }
  }

  /** A kept record with a name typed contains that text, case folded, at some position. */
  lemma VisibleNameOccurs(catalog: seq<Pokemon>, c: Criteria, k: nat)
    requires k < |Visible(catalog, c)| && c.name != ""
    ensures exists i :: OccursAt(Lower(Visible(catalog, c)[k].name), Lower(c.name), i)
  {
    var p := Visible(catalog, c)[k];
    VisibleIsFilteredSubsequence(catalog, c);
    assert p in Visible(catalog, c);
  }

  /** With no name typed and "All types" selected the whole catalog is shown, in order. */
  lemma {:induction false} VisibleUnfiltered(catalog: seq<Pokemon>)
    ensures Visible(catalog, Criteria("", "")) == catalog
  {
    VisibleIsOneFilter(catalog, Criteria("", ""));
    FilterKeepsAll(catalog, p => Matches(p, Criteria("", "")));
  }

  /** Selecting a type that no catalog record has shows nothing. */
  lemma VisibleUnknownType(catalog: seq<Pokemon>, c: Criteria)
    requires c.typeName != "" && c.typeName !in TypeNames(catalog)
    ensures Visible(catalog, c) == []
  {
    VisibleIsOneFilter(catalog, c);
    forall p | p in catalog ensures !Matches(p, c) {
      var i :| 0 <= i < |catalog| && catalog[i] == p;
    }
    FilterKeepsNone(catalog, p => Matches(p, c));
  }

  /** Typing the text in another case selects the same records. */
  lemma NameMatchIgnoresCase(p: Pokemon, name: string)
    ensures MatchesName(p, Lower(name)) == MatchesName(p, name)
  {
    LowerIdempotent(name);
  }
}
