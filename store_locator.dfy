/** The part of `get_list_of_stores` (stores.py:32-81) that acts on the store
    finder's decoded answer: keep the candidates within the radius and reshape them. */
module StoreLocator {
  import opened Wrappers
  import Seqs

  /** One entry of the store finder's `stores` array. Every key is read with `.get`,
      so each may be absent; `distanceinMI` is a JSON number, compared only. */
  datatype Candidate = Candidate(
    id: Option<string>,
    name: Option<string>,
    city: Option<string>,
    stateCode: Option<string>,
    distanceInMiles: Option<real>,
    storePickupEnabled: Option<bool>)

  /** A store as the checker records it. */
  datatype Store = Store(
    id: Option<string>,
    name: Option<string>,
    city: Option<string>,
    state: Option<string>,
    distance: real,
    pickup: Option<bool>)

  /** The record kept for one candidate: none when it has no distance or is farther
      than the radius, otherwise its fields under the checker's names. */
  function Admit(radius: int, c: Candidate): Option<Store> {
    match c.distanceInMiles
    case None => None
    case Some(distance) =>
      if distance > radius as real then None
      else Some(Store(c.id, c.name, c.city, c.stateCode, distance, c.storePickupEnabled))
  }

  function AdmitWithin(radius: int): Candidate -> Option<Store> {
    c => Admit(radius, c)
  }

  /** The stores the lookup reports for the given candidates, in the finder's order. */
  function SelectStores(candidates: seq<Candidate>, radius: int): seq<Store> {
    Seqs.FilterMap(candidates, AdmitWithin(radius))
  }

  /** The filter loop of stores.py:62-81. */
  method GetListOfStores(candidates: seq<Candidate>, radius: int) returns (stores: seq<Store>)
    ensures stores == SelectStores(candidates, radius)
    ensures |stores| <= |candidates|
    ensures forall k :: 0 <= k < |stores| ==> stores[k].distance <= radius as real
  {
    stores := [];
    for i := 0 to |candidates|
      invariant stores == SelectStores(candidates[..i], radius)
    {
      Seqs.FilterMapSnoc(candidates[..i], candidates[i], AdmitWithin(radius));
      assert candidates[..i + 1] == candidates[..i] + [candidates[i]];
      var store := candidates[i];
      var distance := store.distanceInMiles;
      if distance.None? || distance.value > radius as real {
        continue;
      }
      var storeData := Store(store.id, store.name, store.city, store.stateCode,
                             distance.value, store.storePickupEnabled);
      stores := stores + [storeData];
    }
    assert candidates[..|candidates|] == candidates;
    StoresWithinRadius(candidates, radius);
  }

  /** Every reported store lies within the radius. */
  lemma {:induction false} StoresWithinRadius(candidates: seq<Candidate>, radius: int)
    ensures forall k :: 0 <= k < |SelectStores(candidates, radius)| ==>
      SelectStores(candidates, radius)[k].distance <= radius as real
  {
    var f := AdmitWithin(radius);
    Seqs.FilterMapAt(candidates, f);
  }

  /** The stores are exactly the candidates that have a distance not above the radius,
      in their original order, each copying `ID`, `name`, `city`, `stateCode`,
      `distanceinMI` and `storePickupEnabled` from its candidate. */
  lemma {:induction false} StoresExactly(candidates: seq<Candidate>, radius: int)
    ensures var stores, kept := SelectStores(candidates, radius), Seqs.KeptIndices(candidates, AdmitWithin(radius));
      && |stores| == |kept|
      && (forall k, l :: 0 <= k < l < |kept| ==> kept[k] < kept[l])
      && (forall i :: 0 <= i < |candidates| ==>
            (i in kept <==> candidates[i].distanceInMiles.Some? && candidates[i].distanceInMiles.value <= radius as real))
      && (forall k :: 0 <= k < |kept| ==>
            var c := candidates[kept[k]];
            c.distanceInMiles == Some(stores[k].distance)
            && stores[k] == Store(c.id, c.name, c.city, c.stateCode, stores[k].distance, c.storePickupEnabled))
  {
    var f := AdmitWithin(radius);
    Seqs.FilterMapAt(candidates, f);
    Seqs.KeptIndicesExact(candidates, f);
  }
}
