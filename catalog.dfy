/** The fixed, ordered catalog of marathon events. */
module Catalog {

  /** One event. `distance` is in kilometres, as an exact value. */
  datatype Marathon = Marathon(id: nat, date: string, name: string, location: string, distance: real)

  const Marathons: seq<Marathon> := [
    Marathon(1, "2024-04-16", "서울국제마라톤", "서울", 42.195),
    Marathon(2, "2024-05-21", "경주국제마라톤", "경주", 42.195),
    Marathon(3, "2024-09-10", "인천국제마라톤", "인천", 42.195),
    Marathon(4, "2024-10-15", "춘천마라톤", "춘천", 42.195),
    Marathon(5, "2024-11-05", "제주국제마라톤", "제주", 21.0975),
    Marathon(6, "2024-11-19", "광주마라톤", "광주", 10.0)
  ]

  /** No event occurs twice. */
  predicate Distinct(events: seq<Marathon>)
  {
    forall i, j | 0 <= i < j < |events| :: events[i] != events[j]
  }

  /** Identifiers are unique, so the catalog has no repeated event. */
  lemma CatalogIdsUnique()
    ensures |Marathons| == 6
    ensures forall i | 0 <= i < 6 :: Marathons[i].id == i + 1 && Marathons[i].distance > 0.0
    ensures Distinct(Marathons)
  {
  }
}
