/**
 * The creature record the viewer works with, as validated by
 * `PokemonSchema` (src/App.tsx:5-18), and the id-based notions that the
 * captured list relies on.
 */
module Records {

  /**
   * A validated record. `image` is the schema's `sprites.front_default`;
   * `types` holds the names found under `types[].type.name`, in order.
   */
  datatype Pokemon = Pokemon(id: int, name: string, image: string, types: seq<string>)

  /**
   * `list.some(c => c.id === id)`: whether some record in `list` carries `id`.
   * This is the "captured" test of a card and the guard of a capture.
   */
  function AnyWithId(list: seq<Pokemon>, id: int): (b: bool)
    ensures b <==> exists k :: 0 <= k < |list| && list[k].id == id
  {
    if list == [] then false
    else list[0].id == id || AnyWithId(list[1..], id)
  }

  /** No two records of `list` share an id. */
  predicate UniqueIds(list: seq<Pokemon>) {
    forall i, j :: 0 <= i < j < |list| ==> list[i].id != list[j].id
  }

  /** A list with a record in front has unique ids exactly when the tail does and lacks that id. */
  lemma UniqueIdsCons(p: Pokemon, list: seq<Pokemon>)
    ensures UniqueIds([p] + list) <==> UniqueIds(list) && !AnyWithId(list, p.id)
  {
    var l := [p] + list;
    if UniqueIds(l) {
      forall i, j | 0 <= i < j < |list| ensures list[i].id != list[j].id {
        assert l[i + 1] == list[i] && l[j + 1] == list[j];
      }
      forall k | 0 <= k < |list| ensures list[k].id != p.id {
        assert l[0] == p && l[k + 1] == list[k];
      }
    }
    if UniqueIds(list) && !AnyWithId(list, p.id) {
      forall i, j | 0 <= i < j < |l| ensures l[i].id != l[j].id {
        assert l[j] == list[j - 1];
        if i > 0 {
          assert l[i] == list[i - 1];
        } else {
          assert l[0] == p;
          assert list[j - 1].id != p.id;
        }
      }
    }
  }
}
