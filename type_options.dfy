/**
 * The options of the type drop-down (src/App.tsx:127-134): every type
 * name of every catalog record, flattened, then deduplicated by a
 * `reduce` that pushes a name onto its accumulator only when the
 * accumulator does not include it yet.
 */
module TypeOptions {
  import opened Seqs
  import opened Records

  /** `catalog.flatMap(p => p.types.map(t => t.type.name))`: all type names, record by record. */
  function TypeNames(catalog: seq<Pokemon>): (names: seq<string>)
    ensures forall t :: t in names <==> exists i :: 0 <= i < |catalog| && t in catalog[i].types
  {
    if catalog == [] then []
    else
      assert forall i :: 0 < i < |catalog| ==> catalog[i] == catalog[1..][i - 1];
      catalog[0].types + TypeNames(catalog[1..])
  }

  /**
   * What the accumulator of the reduce holds after it has seen `s`:
   * each name is pushed at its first occurrence and skipped afterwards.
   */
  function Dedup(s: seq<string>): (r: seq<string>)
    ensures NoDuplicates(r)
    ensures forall x :: x in r <==> x in s
  {
    if s == [] then []
    else
      var d := Dedup(s[..|s| - 1]);
      var last := s[|s| - 1];
      assert s == s[..|s| - 1] + [last];
      if last in d then d else d + [last]
  }

  /** Appending to a sequence does not move the first occurrence of anything already in it. */
  lemma FirstIndexSnoc(p: seq<string>, x: string, y: string)
    requires y in p
    ensures FirstIndex(p + [x], y) == FirstIndex(p, y)
  {
    var k := FirstIndex(p, y);
    assert (p + [x])[k] == y;
  }

  /** The deduplicated names appear in the order in which they are first seen. */
  lemma {:induction false} DedupKeepsFirstSeenOrder(s: seq<string>)
    ensures forall i, j :: 0 <= i < j < |Dedup(s)| ==>
      FirstIndex(s, Dedup(s)[i]) < FirstIndex(s, Dedup(s)[j])
  {
    if s != [] {
      var p, x := s[..|s| - 1], s[|s| - 1];
      assert s == p + [x];
      DedupKeepsFirstSeenOrder(p);
      var d := Dedup(p);
      forall y | y in d ensures FirstIndex(s, y) == FirstIndex(p, y) {
        FirstIndexSnoc(p, x, y);
      }
      if x !in d {
        assert Dedup(s) == d + [x];
        assert FirstIndex(s, x) == |p|;
      }
    }
  }

  /** The names of `s` in first-seen order, without repetition. */
  ghost predicate FirstSeenOrdered(s: seq<string>, r: seq<string>) {
    && NoDuplicates(r)
    && (forall x :: x in r <==> x in s)
    && (forall i, j :: 0 <= i < j < |r| ==> FirstIndex(s, r[i]) < FirstIndex(s, r[j]))
  }

  /**
   * The three properties above pin the result down: a duplicate-free list
   * with exactly the names of `s`, ordered by first occurrence in `s`, is
   * `Dedup(s)`.
   */
  lemma {:induction false} DedupIsUnique(s: seq<string>, r: seq<string>)
    requires FirstSeenOrdered(s, r)
    ensures r == Dedup(s)
  {
    if s == [] {
      if r != [] {
        HeadIsMember(r);
        assert false;
      }
    } else {
      var p, x := s[..|s| - 1], s[|s| - 1];
      assert s == p + [x];
      forall y | y in p ensures FirstIndex(s, y) == FirstIndex(p, y) {
        FirstIndexSnoc(p, x, y);
      }
      if x in p {
        assert FirstSeenOrdered(p, r);
        DedupIsUnique(p, r);
      } else {
        var r' := NewLastDropped(s, r);
        DedupIsUnique(p, r');
      }
    }
  }

  lemma HeadIsMember(r: seq<string>)
    requires r != []
    ensures r[0] in r
  {
  }

  /** When the last name of `s` is new, it is the last entry of any first-seen-ordered `r`. */
  lemma NewLastIsLast(s: seq<string>, r: seq<string>) returns (m: nat)
    requires FirstSeenOrdered(s, r)
    requires s != [] && s[|s| - 1] !in s[..|s| - 1]
    ensures m == |r| - 1 && r[m] == s[|s| - 1]
  {
    var x := s[|s| - 1];
    assert FirstIndex(s, x) == |s| - 1;
    assert x in r;
    m :| 0 <= m < |r| && r[m] == x;
    var last := |r| - 1;
    assert FirstIndex(s, r[last]) < |s|;
  }

  /** When the last name of `s` is new, `r` without it is first-seen-ordered for the rest of `s`. */
  lemma NewLastDropped(s: seq<string>, r: seq<string>) returns (r': seq<string>)
    requires FirstSeenOrdered(s, r)
    requires s != [] && s[|s| - 1] !in s[..|s| - 1]
    ensures r == r' + [s[|s| - 1]]
    ensures FirstSeenOrdered(s[..|s| - 1], r')
  {
    var p, x := s[..|s| - 1], s[|s| - 1];
    var m := NewLastIsLast(s, r);
    r' := r[..m];
    assert r == r' + [x];
    DroppedMembers(p, x, r, r');
    forall y | y in p ensures FirstIndex(s, y) == FirstIndex(p, y) {
      assert s == p + [x];
      FirstIndexSnoc(p, x, y);
    }
    forall i, j | 0 <= i < j < |r'| ensures FirstIndex(p, r'[i]) < FirstIndex(p, r'[j]) {
      assert r'[i] == r[i] && r'[j] == r[j];
    }
  }

  lemma DroppedMembers(p: seq<string>, x: string, r: seq<string>, r': seq<string>)
    requires NoDuplicates(r) && r == r' + [x] && x !in p
    requires forall y :: y in r <==> y in p + [x]
    ensures NoDuplicates(r')
    ensures forall y :: y in r' <==> y in p
  {
    forall y ensures y in r' <==> y in p {
      if y in r' {
        var k :| 0 <= k < |r'| && r'[k] == y;
        assert r[k] == y && r[|r'|] == x;
      }
      if y in p {
        assert y in r && y != x;
      }
    }
    forall i, j | 0 <= i < j < |r'| ensures r'[i] != r'[j] {
      assert r'[i] == r[i] && r'[j] == r[j];
    }
  }

  /**
   * The reduce itself: the accumulator starts empty and, for each
   * flattened name, is extended by `push` unless it already `includes` it.
   */
  method DeriveTypeOptions(catalog: seq<Pokemon>) returns (options: seq<string>)
    ensures options == Dedup(TypeNames(catalog))
    ensures FirstSeenOrdered(TypeNames(catalog), options)
    ensures forall t :: t in options <==> exists i :: 0 <= i < |catalog| && t in catalog[i].types
  {
    var names := TypeNames(catalog);
    options := [];
    for k := 0 to |names|
      invariant options == Dedup(names[..k])
    {
      assert names[..k + 1][..k] == names[..k];
      if names[k] !in options {
        options := options + [names[k]];
      }
    }
    assert names[..|names|] == names;
    DedupKeepsFirstSeenOrder(names);
  }
}
