/** The Bird collection as the handler queries it: a random bird that stands
    in for identification, and a random bird of one rarity tier for the next
    specific goal. The collection is a sequence; each random draw is an
    explicit `pick`, reduced modulo the size of the population it draws from. */
module Catalog {
  import opened Records

  /** The birds of one rarity tier, in collection order. */
  function BirdsAtRarity(catalog: seq<Bird>, rarity: int): (pool: seq<Bird>)
    ensures forall b :: b in pool <==> b in catalog && b.rarity == rarity
    ensures |pool| <= |catalog|
  {
    if catalog == [] then []
    else
      (if catalog[0].rarity == rarity then [catalog[0]] else [])
      + BirdsAtRarity(catalog[1..], rarity)
  }

  /** One bird drawn from a tier; `None` when the tier is empty. */
  function SampleByRarity(catalog: seq<Bird>, rarity: int, pick: nat): (r: Option<Bird>)
    ensures r.None? <==> forall b :: b in catalog ==> b.rarity != rarity
    ensures r.Some? ==> r.value in catalog && r.value.rarity == rarity
  {
    var pool := BirdsAtRarity(catalog, rarity);
    if |pool| == 0 then None
    else
      var b := pool[pick % |pool|];
      assert b in pool;
      Some(b)
  }

  /** Every bird of the tier is a possible outcome of the sample. */
  lemma SampleReachesEveryBird(catalog: seq<Bird>, rarity: int, b: Bird)
    requires b in catalog && b.rarity == rarity
    ensures exists pick: nat :: SampleByRarity(catalog, rarity, pick) == Some(b)
  {
    var pool := BirdsAtRarity(catalog, rarity);
    var i :| 0 <= i < |pool| && pool[i] == b;
    assert i % |pool| == i;
    assert SampleByRarity(catalog, rarity, i) == Some(b);
  }

  /** The stand-in identifier: the bird at a random offset in the whole
      collection; `None` when the collection is empty. */
  function Identify(catalog: seq<Bird>, pick: nat): (r: Option<BirdId>)
    ensures r.None? <==> catalog == []
    ensures r.Some? ==> exists b :: b in catalog && b.id == r.value
  {
    if catalog == [] then None
    else
      var b := catalog[pick % |catalog|];
      assert b in catalog;
      Some(b.id)
  }

  /** Every bird of a non-empty collection can be the one identified. */
  lemma IdentifyReachesEveryBird(catalog: seq<Bird>, b: Bird)
    requires b in catalog
    ensures exists pick: nat :: Identify(catalog, pick) == Some(b.id)
  {
    var i :| 0 <= i < |catalog| && catalog[i] == b;
    assert i % |catalog| == i;
    assert Identify(catalog, i) == Some(b.id);
  }
}
