/**
 * The captured list (src/App.tsx:96-103, 156-200): records the user has
 * captured, keyed by `id`, mirrored to browser storage under the key
 * "savedpokemons" every time an update builds a new list.
 */
module CaptureStore {
  import opened Seqs
  import opened Records

  /**
   * The list the capture updater returns (src/App.tsx:165-173): the same
   * list when the id is already captured, otherwise the record appended.
   */
  function CaptureInto(list: seq<Pokemon>, p: Pokemon): (r: seq<Pokemon>)
    ensures AnyWithId(r, p.id)
    ensures AnyWithId(list, p.id) ==> r == list
    ensures !AnyWithId(list, p.id) ==> |r| == |list| + 1 && r[..|list|] == list && r[|list|] == p
    ensures UniqueIds(list) ==> UniqueIds(r)
  {
    if AnyWithId(list, p.id) then list
    else
      assert UniqueIds(list) ==> UniqueIds(list + [p]) by {
        if UniqueIds(list) {
          forall i, j | 0 <= i < j < |list| + 1 ensures (list + [p])[i].id != (list + [p])[j].id {
            assert (list + [p])[i] == list[i];
          }
        }
      }
      assert AnyWithId(list + [p], p.id) by {
        assert (list + [p])[|list|] == p;
      }
      list + [p]
  }

  /** The list the release updater returns (src/App.tsx:191-193): every record but those with `id`. */
  function Released(list: seq<Pokemon>, id: int): (r: seq<Pokemon>)
    ensures !AnyWithId(r, id)
    ensures forall q :: q in r <==> q in list && q.id != id
  {
    Filter(list, (c: Pokemon) => c.id != id)
  }

  /** Release keeps the other records in their original relative order, each as often as before. */
  lemma ReleaseKeepsOthersInOrder(list: seq<Pokemon>, id: int)
    ensures IsSubsequence(Released(list, id), list)
    ensures forall q :: multiset(Released(list, id))[q] == (if q.id != id then multiset(list)[q] else 0)
  {
    FilterIsSubsequence(list, (c: Pokemon) => c.id != id);
    forall q ensures multiset(Released(list, id))[q] == (if q.id != id then multiset(list)[q] else 0) {
      FilterMultiplicity(list, (c: Pokemon) => c.id != id, q);
    }
  }

  /** Releasing an id that is not captured leaves the list as it was. */
  lemma ReleaseAbsentIsNoOp(list: seq<Pokemon>, id: int)
    requires !AnyWithId(list, id)
    ensures Released(list, id) == list
  {
    FilterKeepsAll(list, (c: Pokemon) => c.id != id);
  }

  /** Dropping records never creates an id clash. */
  lemma {:induction false} FilterKeepsIdsUnique(list: seq<Pokemon>, keep: Pokemon -> bool)
    requires UniqueIds(list)
    ensures UniqueIds(Filter(list, keep))
  {
    if list != [] {
      assert list == [list[0]] + list[1..];
      UniqueIdsCons(list[0], list[1..]);
      FilterKeepsIdsUnique(list[1..], keep);
      var rest := Filter(list[1..], keep);
      if keep(list[0]) {
        forall k | 0 <= k < |rest| ensures rest[k].id != list[0].id {
          assert rest[k] in list[1..];
        }
        UniqueIdsCons(list[0], rest);
      }
    }
  }

  /** Release keeps the captured ids distinct. */
  lemma ReleaseKeepsIdsUnique(list: seq<Pokemon>, id: int)
    requires UniqueIds(list)
    ensures UniqueIds(Released(list, id))
  {
    FilterKeepsIdsUnique(list, (c: Pokemon) => c.id != id);
  }

  /** Capturing the same record twice is the same as capturing it once. */
  lemma CaptureIdempotent(list: seq<Pokemon>, p: Pokemon)
    ensures CaptureInto(CaptureInto(list, p), p) == CaptureInto(list, p)
  {
  }

  /** Releasing a record just captured under a fresh id gives back the list before the capture. */
  lemma ReleaseUndoesCapture(list: seq<Pokemon>, p: Pokemon)
    requires !AnyWithId(list, p.id)
    ensures Released(CaptureInto(list, p), p.id) == list
  {
    FilterAppend(list, [p], (c: Pokemon) => c.id != p.id);
    ReleaseAbsentIsNoOp(list, p.id);
    assert list + [p] == CaptureInto(list, p);
  }

  /** A user action on the captured list. */
  datatype Action = Capture(pokemon: Pokemon) | Release(id: int)

  function Step(list: seq<Pokemon>, a: Action): seq<Pokemon> {
    match a
    case Capture(p) => CaptureInto(list, p)
    case Release(id) => Released(list, id)
  }

  /** The captured list after the actions, applied one at a time. */
  function Replay(list: seq<Pokemon>, actions: seq<Action>): seq<Pokemon>
    decreases |actions|
  {
    if actions == [] then list else Replay(Step(list, actions[0]), actions[1..])
  }

  /** Starting from distinct ids, no sequence of captures and releases produces two records with one id. */
  lemma {:induction false} ReplayKeepsIdsUnique(list: seq<Pokemon>, actions: seq<Action>)
    requires UniqueIds(list)
    ensures UniqueIds(Replay(list, actions))
    decreases |actions|
  {
    if actions != [] {
      match actions[0] {
        case Capture(p) =>
        case Release(id) => ReleaseKeepsIdsUnique(list, id);
      }
      ReplayKeepsIdsUnique(Step(list, actions[0]), actions[1..]);
    }
  }

  /** From the empty list, as the store starts, the ids stay distinct. */
  lemma ReplayFromEmptyKeepsIdsUnique(actions: seq<Action>)
    ensures UniqueIds(Replay([], actions))
  {
    ReplayKeepsIdsUnique([], actions);
  }

  /** After an action the "captured" indicator holds for a captured id and fails for a released one. */
  lemma IndicatorAfterStep(list: seq<Pokemon>, a: Action)
    ensures a.Capture? ==> AnyWithId(Step(list, a), a.pokemon.id)
    ensures a.Release? ==> !AnyWithId(Step(list, a), a.id)
  {
  }

  /**
   * The captured list as state. `persisted` stands for the value stored
   * under "savedpokemons"; `writes` counts the storage writes, so that a
   * capture that changes nothing is seen to write nothing.
   */
  class Store {
    var captured: seq<Pokemon>
    var persisted: seq<Pokemon>
    ghost var writes: nat

    /** Ids are distinct and storage holds the in-memory list. */
    ghost predicate Valid()
      reads this
    {
      UniqueIds(captured) && persisted == captured
    }

    /** Nothing stored yet: the list starts empty (src/App.tsx:98-99). */
    constructor ()
      ensures Valid()
      ensures captured == [] && persisted == [] && writes == 0
    {
      captured := [];
      persisted := [];
      writes := 0;
    }

    /** The capture button's updater (src/App.tsx:164-175). */
    method Capture(p: Pokemon)
      requires Valid()
      modifies this
      ensures Valid()
      ensures captured == CaptureInto(old(captured), p)
      ensures AnyWithId(captured, p.id)
      ensures old(AnyWithId(captured, p.id)) ==> unchanged(this)
      ensures !old(AnyWithId(captured, p.id)) ==>
        captured == old(captured) + [p] && persisted == captured && writes == old(writes) + 1
    {
      if AnyWithId(captured, p.id) {
        return;
      }
      var added := captured + [p];
      persisted := added;
      writes := writes + 1;
      captured := added;
    }

    /** The release button's updater (src/App.tsx:189-200): filters, then always writes. */
    method Release(id: int)
      requires Valid()
      modifies this
      ensures Valid()
      ensures captured == Released(old(captured), id)
      ensures !AnyWithId(captured, id)
      ensures IsSubsequence(captured, old(captured))
      ensures forall q :: q in captured <==> q in old(captured) && q.id != id
      ensures !old(AnyWithId(captured, id)) ==> captured == old(captured)
      ensures persisted == captured && writes == old(writes) + 1
    {
      ReleaseKeepsIdsUnique(captured, id);
      ReleaseKeepsOthersInOrder(captured, id);
      if !AnyWithId(captured, id) {
        ReleaseAbsentIsNoOp(captured, id);
      }
      var updated := Released(captured, id);
      persisted := updated;
      writes := writes + 1;
      captured := updated;
    }
  }
}
