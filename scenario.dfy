/**
 * A worked example over a two-record catalog: filtering by type, deriving
 * the type options, capturing a record and releasing it again.
 */
module Scenario {
  import opened Records
  import opened TypeOptions
  import opened CatalogFilter
  import opened CaptureStore

  const Bulbasaur := Pokemon(1, "bulbasaur", "bulbasaur.png", ["grass", "poison"])
  const Charmander := Pokemon(2, "charmander", "charmander.png", ["fire"])

  /** Selecting "fire" shows only the fire record. */
  lemma FireSelectsCharmander()
    ensures Visible([Bulbasaur, Charmander], Criteria("", "fire")) == [Charmander]
  {
    VisibleIsOneFilter([Bulbasaur, Charmander], Criteria("", "fire"));
    assert [Bulbasaur, Charmander][1..] == [Charmander];
  }

  /** The drop-down offers the fire type of the second record. */
  method FireIsOffered() {
    var options := DeriveTypeOptions([Bulbasaur, Charmander]);
    assert "fire" in options by {
      assert "fire" in [Bulbasaur, Charmander][1].types;
    }
  }

  /** The store as a caller sees it: capture shows the indicator, release clears it. */
  method CaptureThenRelease() {
    var store := new Store();
    store.Capture(Bulbasaur);
    assert store.captured == [Bulbasaur];
    assert AnyWithId(store.captured, 1);

    store.Capture(Bulbasaur);
    assert store.captured == [Bulbasaur] && store.writes == 1;

    store.Release(1);
    assert store.captured == [] && store.persisted == [];
    assert !AnyWithId(store.captured, 1);
    assert store.writes == 2;
  }
}
