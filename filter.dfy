/** `filter_marathons`: one pass over the catalog keeping, in catalog order,
    the events that pass the search, month and distance tests. */
module Filter {
  import opened Wrappers
  import opened Text
  import opened Dates
  import opened Catalog

  /** The ValueError the tests can raise, by the text that did not parse:
      an event date (`strptime`), the month (`int`) or the distance (`float`). */
  datatype FilterError =
    | UnparsableDate(date: string)
    | UnparsableMonth(month: string)
    | UnparsableDistance(distance: string)

  /** The lowered search term occurs in the lowered name or location. */
  predicate SearchHit(e: Marathon, searchTerm: string)
  {
    Contains(Lower(e.name), Lower(searchTerm)) || Contains(Lower(e.location), Lower(searchTerm))
  }

  /** No month was chosen, or the month of the event date is `int(month)`. */
  predicate MonthHit(e: Marathon, month: string)
  {
    month == "" || (DateMonth(e.date).Some? && DateMonth(e.date) == ParseInt(month))
  }

  /** No distance was chosen, or `float(distance)` is the event's distance. */
  predicate DistanceHit(e: Marathon, distance: string)
  {
    distance == "" || ParseDecimal(distance) == Some(e.distance)
  }

  /** The selection rule, stated declaratively: all three tests hold. */
  predicate Matches(e: Marathon, searchTerm: string, month: string, distance: string)
  {
    SearchHit(e, searchTerm) && MonthHit(e, month) && DistanceHit(e, distance)
  }

  /** The condition of the `if` in the loop, evaluated as Python does: left
      to right, and each `or`/`and` stops as soon as the outcome is known, so
      a parse is attempted only once every earlier test has passed. */
  function Keep(e: Marathon, searchTerm: string, month: string, distance: string): (r: Result<bool, FilterError>)
    ensures r == Ok(true) <==> Matches(e, searchTerm, month, distance)
  {
    if !SearchHit(e, searchTerm) then Ok(false)
    else if month != "" && ParseIsoDate(e.date).None? then Err(UnparsableDate(e.date))
    else if month != "" && ParseInt(month).None? then Err(UnparsableMonth(month))
    else if month != "" && DateMonth(e.date) != ParseInt(month) then Ok(false)
    else if distance != "" && ParseDecimal(distance).None? then Err(UnparsableDistance(distance))
    else Ok(distance == "" || ParseDecimal(distance) == Some(e.distance))
  }

  /** The test raises exactly when the search test passes and then a
      parse that is reached fails: the event date or the month, or, once the
      month test has passed, the distance. */
  lemma KeepRaises(e: Marathon, searchTerm: string, month: string, distance: string)
    ensures Keep(e, searchTerm, month, distance).Err? <==>
      (SearchHit(e, searchTerm) &&
       ((month != "" && (DateMonth(e.date).None? || ParseInt(month).None?)) ||
        (MonthHit(e, month) && distance != "" && ParseDecimal(distance).None?)))
  {
  }

  /** `a` is `b` with some elements removed and the rest kept in order. */
  predicate IsSubsequence(a: seq<Marathon>, b: seq<Marathon>)
    decreases |b|
  {
    if a == [] then true
    else if b == [] then false
    else (a[|a| - 1] == b[|b| - 1] && IsSubsequence(a[..|a| - 1], b[..|b| - 1]))
         || IsSubsequence(a, b[..|b| - 1])
  }

  /** What `filter_marathons` returns on `catalog`, or the error it raises:
      the first event whose test raises decides the error. */
  function Select(catalog: seq<Marathon>, searchTerm: string, month: string, distance: string)
    : (r: Result<seq<Marathon>, FilterError>)
    decreases |catalog|
  {
    if catalog == [] then Ok([])
    else
      var init, last := catalog[..|catalog| - 1], catalog[|catalog| - 1];
      match Select(init, searchTerm, month, distance)
      case Err(e) => Err(e)
      case Ok(kept) =>
        match Keep(last, searchTerm, month, distance)
        case Err(e) => Err(e)
        case Ok(keep) =>
          Ok(if keep then kept + [last] else kept)
  }

  /** The selection is an order-preserving subsequence of the catalog. */
  lemma {:induction false} SelectIsSubsequence(catalog: seq<Marathon>, searchTerm: string, month: string, distance: string)
    requires Select(catalog, searchTerm, month, distance).Ok?
    ensures IsSubsequence(Select(catalog, searchTerm, month, distance).value, catalog)
    decreases |catalog|
  {
    if catalog != [] {
      var init, last := catalog[..|catalog| - 1], catalog[|catalog| - 1];
      SelectIsSubsequence(init, searchTerm, month, distance);
      var kept := Select(init, searchTerm, month, distance).value;
      if Keep(last, searchTerm, month, distance) == Ok(true) {
        var r := kept + [last];
        assert r[..|r| - 1] == kept;
      }
    }
  }

  lemma {:induction false} SubsequenceLength(a: seq<Marathon>, b: seq<Marathon>)
    requires IsSubsequence(a, b)
    ensures |a| <= |b|
    decreases |b|
  {
    if a != [] {
      if a[|a| - 1] == b[|b| - 1] && IsSubsequence(a[..|a| - 1], b[..|b| - 1]) {
        SubsequenceLength(a[..|a| - 1], b[..|b| - 1]);
      } else {
        SubsequenceLength(a, b[..|b| - 1]);
      }
    }
  }

  lemma {:induction false} SubsequenceMembers(a: seq<Marathon>, b: seq<Marathon>)
    requires IsSubsequence(a, b)
    ensures forall x | x in a :: x in b
    decreases |b|
  {
    if a != [] {
      if a[|a| - 1] == b[|b| - 1] && IsSubsequence(a[..|a| - 1], b[..|b| - 1]) {
        SubsequenceMembers(a[..|a| - 1], b[..|b| - 1]);
        assert a == a[..|a| - 1] + [a[|a| - 1]];
        assert b == b[..|b| - 1] + [b[|b| - 1]];
      } else {
        SubsequenceMembers(a, b[..|b| - 1]);
        assert b == b[..|b| - 1] + [b[|b| - 1]];
      }
    }
  }

  /** A subsequence of a sequence without repetitions has none either. */
  lemma {:induction false} SubsequenceDistinct(a: seq<Marathon>, b: seq<Marathon>)
    requires IsSubsequence(a, b) && Distinct(b)
    ensures Distinct(a)
    decreases |b|
  {
    if a != [] {
      var a', b' := a[..|a| - 1], b[..|b| - 1];
      assert Distinct(b');
      if a[|a| - 1] == b[|b| - 1] && IsSubsequence(a', b') {
        SubsequenceDistinct(a', b');
        SubsequenceMembers(a', b');
        assert b[|b| - 1] !in b';
        assert a[|a| - 1] !in a';
      } else {
        SubsequenceDistinct(a, b');
      }
    }
  }

  /** An event is selected exactly when it is in the catalog and passes all
      three tests. */
  lemma {:induction false} SelectMembers(catalog: seq<Marathon>, searchTerm: string, month: string, distance: string)
    requires Select(catalog, searchTerm, month, distance).Ok?
    ensures forall e :: e in Select(catalog, searchTerm, month, distance).value <==>
      e in catalog && Matches(e, searchTerm, month, distance)
    decreases |catalog|
  {
    if catalog != [] {
      var init, last := catalog[..|catalog| - 1], catalog[|catalog| - 1];
      SelectMembers(init, searchTerm, month, distance);
      assert catalog == init + [last];
      var kept := Select(init, searchTerm, month, distance).value;
      assert Select(catalog, searchTerm, month, distance).value ==
        if Keep(last, searchTerm, month, distance).value then kept + [last] else kept;
    }
  }

  /** The selection fails exactly when some event's test raises, and then
      with the error of the first such event. */
  lemma {:induction false} SelectFails(catalog: seq<Marathon>, searchTerm: string, month: string, distance: string)
    ensures Select(catalog, searchTerm, month, distance).Err? <==>
      exists i | 0 <= i < |catalog| :: Keep(catalog[i], searchTerm, month, distance).Err?
    ensures Select(catalog, searchTerm, month, distance).Err? ==>
      exists i | 0 <= i < |catalog| ::
        Keep(catalog[i], searchTerm, month, distance) == Err(Select(catalog, searchTerm, month, distance).error) &&
        forall j | 0 <= j < i :: Keep(catalog[j], searchTerm, month, distance).Ok?
    decreases |catalog|
  {
    if catalog != [] {
      var init := catalog[..|catalog| - 1];
      SelectFails(init, searchTerm, month, distance);
      assert forall i | 0 <= i < |init| :: init[i] == catalog[i];
    }
  }

  /** Once a prefix of the catalog raises, so does the whole catalog, with
      the same error: the exception leaves the loop. */
  lemma {:induction false} SelectErrorPersists(catalog: seq<Marathon>, k: nat, searchTerm: string, month: string, distance: string)
    requires k <= |catalog| && Select(catalog[..k], searchTerm, month, distance).Err?
    ensures Select(catalog, searchTerm, month, distance) == Select(catalog[..k], searchTerm, month, distance)
    decreases |catalog| - k
  {
    if k < |catalog| {
      assert catalog[..k + 1][..k] == catalog[..k];
      SelectErrorPersists(catalog, k + 1, searchTerm, month, distance);
    } else {
      assert catalog[..k] == catalog;
    }
  }

  /** One more event at the end of the input: the definition of Select,
      restated for `init + [last]`. */
  lemma SelectSnoc(init: seq<Marathon>, last: Marathon, searchTerm: string, month: string, distance: string)
    ensures Select(init + [last], searchTerm, month, distance) ==
      match Select(init, searchTerm, month, distance)
      case Err(e) => Err(e)
      case Ok(kept) =>
        match Keep(last, searchTerm, month, distance)
        case Err(e) => Err(e)
        case Ok(keep) => Ok(if keep then kept + [last] else kept)
  {
    var c := init + [last];
    assert c[..|c| - 1] == init;
  }

  /** The scan distributes over concatenation: when the first part raises
      nothing, the result is the first part's selection followed by the
      second part's. */
  lemma {:induction false} SelectAppend(c1: seq<Marathon>, c2: seq<Marathon>, searchTerm: string, month: string, distance: string)
    requires Select(c1, searchTerm, month, distance).Ok?
    ensures Select(c1 + c2, searchTerm, month, distance) ==
      match Select(c2, searchTerm, month, distance)
      case Err(e) => Err(e)
      case Ok(kept) => Ok(Select(c1, searchTerm, month, distance).value + kept)
    decreases |c2|
  {
    if c2 == [] {
      assert c1 + c2 == c1;
      assert Select(c1, searchTerm, month, distance).value + [] == Select(c1, searchTerm, month, distance).value;
    } else {
      var init, last := c2[..|c2| - 1], c2[|c2| - 1];
      SelectAppend(c1, init, searchTerm, month, distance);
      SelectSnoc(c1 + init, last, searchTerm, month, distance);
      SelectSnoc(init, last, searchTerm, month, distance);
      assert c1 + c2 == (c1 + init) + [last] && c2 == init + [last];
      var s1 := Select(c1, searchTerm, month, distance).value;
      match Select(init, searchTerm, month, distance)
      case Err(e) =>
      case Ok(kept) =>
        assert s1 + kept + [last] == s1 + (kept + [last]);
    }
  }

  /** When every event passes, the selection is the whole input. */
  lemma SelectAllMatching(catalog: seq<Marathon>, searchTerm: string, month: string, distance: string)
    requires forall i | 0 <= i < |catalog| :: Keep(catalog[i], searchTerm, month, distance) == Ok(true)
    ensures Select(catalog, searchTerm, month, distance) == Ok(catalog)
  {
    SelectSuffix(catalog, 0, searchTerm, month, distance);
    assert catalog[0..] == catalog;
  }

  /** When every event fails a test without raising, nothing is selected. */
  lemma {:induction false} SelectNoneMatching(catalog: seq<Marathon>, searchTerm: string, month: string, distance: string)
    requires forall i | 0 <= i < |catalog| :: Keep(catalog[i], searchTerm, month, distance) == Ok(false)
    ensures Select(catalog, searchTerm, month, distance) == Ok([])
    decreases |catalog|
  {
    if catalog != [] {
      SelectNoneMatching(catalog[..|catalog| - 1], searchTerm, month, distance);
    }
  }

  /** When the events before position `k` all fail and the rest all pass,
      the selection is the tail from `k`. */
  lemma {:induction false} SelectSuffix(catalog: seq<Marathon>, k: nat, searchTerm: string, month: string, distance: string)
    requires k <= |catalog|
    requires forall i | 0 <= i < k :: Keep(catalog[i], searchTerm, month, distance) == Ok(false)
    requires forall i | k <= i < |catalog| :: Keep(catalog[i], searchTerm, month, distance) == Ok(true)
    ensures Select(catalog, searchTerm, month, distance) == Ok(catalog[k..])
    decreases |catalog|
  {
    if k == |catalog| {
      SelectNoneMatching(catalog, searchTerm, month, distance);
    } else {
      var init := catalog[..|catalog| - 1];
      assert forall i | 0 <= i < |init| :: init[i] == catalog[i];
      SelectSuffix(init, k, searchTerm, month, distance);
      assert catalog[k..] == init[k..] + [catalog[|catalog| - 1]];
    }
  }

  /** When the events before position `k` all pass and the rest all fail,
      the selection is the prefix up to `k`. */
  lemma {:induction false} SelectPrefix(catalog: seq<Marathon>, k: nat, searchTerm: string, month: string, distance: string)
    requires k <= |catalog|
    requires forall i | 0 <= i < k :: Keep(catalog[i], searchTerm, month, distance) == Ok(true)
    requires forall i | k <= i < |catalog| :: Keep(catalog[i], searchTerm, month, distance) == Ok(false)
    ensures Select(catalog, searchTerm, month, distance) == Ok(catalog[..k])
    decreases |catalog|
  {
    if k == |catalog| {
      SelectAllMatching(catalog, searchTerm, month, distance);
      assert catalog[..k] == catalog;
    } else {
      var init := catalog[..|catalog| - 1];
      assert forall i | 0 <= i < |init| :: init[i] == catalog[i];
      SelectPrefix(init, k, searchTerm, month, distance);
      assert init[..k] == catalog[..k];
    }
  }

  /** With an empty search term and no month or distance chosen, the whole
      catalog is returned in its order. */
  lemma {:induction false} SelectEverything(catalog: seq<Marathon>)
    ensures Select(catalog, "", "", "") == Ok(catalog)
    decreases |catalog|
  {
    if catalog != [] {
      var init := catalog[..|catalog| - 1];
      SelectEverything(init);
      var last := catalog[|catalog| - 1];
      ContainsEmpty(Lower(last.name));
      assert Lower("") == "";
      assert catalog == init + [last];
    }
  }

  /** A non-empty month that `int` rejects is an error, not "no filter",
      as soon as one event passes the search test; if none does, the month
      is never parsed and the result is empty. */
  lemma UnparsableMonthRaises(catalog: seq<Marathon>, searchTerm: string, month: string, distance: string)
    requires month != "" && ParseInt(month).None?
    ensures Select(catalog, searchTerm, month, distance).Ok? <==>
      forall i | 0 <= i < |catalog| :: !SearchHit(catalog[i], searchTerm)
    ensures Select(catalog, searchTerm, month, distance).Ok? ==>
      Select(catalog, searchTerm, month, distance).value == []
  {
    forall i | 0 <= i < |catalog| ensures Keep(catalog[i], searchTerm, month, distance).Err? <==> SearchHit(catalog[i], searchTerm) {
      KeepRaises(catalog[i], searchTerm, month, distance);
    }
    SelectFails(catalog, searchTerm, month, distance);
    var r := Select(catalog, searchTerm, month, distance);
    if r.Ok? {
      SelectMembers(catalog, searchTerm, month, distance);
    }
  }

  /** A non-empty distance that `float` rejects is likewise an error once an
      event passes the other two tests. */
  lemma UnparsableDistanceRaises(catalog: seq<Marathon>, searchTerm: string, month: string, distance: string)
    requires distance != "" && ParseDecimal(distance).None?
    ensures Select(catalog, searchTerm, month, distance).Ok? <==>
      forall i | 0 <= i < |catalog| :: !SearchHit(catalog[i], searchTerm) ||
        (month != "" && DateMonth(catalog[i].date).Some? && ParseInt(month).Some? && !MonthHit(catalog[i], month))
    ensures Select(catalog, searchTerm, month, distance).Ok? ==>
      Select(catalog, searchTerm, month, distance).value == []
  {
    forall i | 0 <= i < |catalog|
      ensures Keep(catalog[i], searchTerm, month, distance).Err? <==>
        !(!SearchHit(catalog[i], searchTerm) ||
          (month != "" && DateMonth(catalog[i].date).Some? && ParseInt(month).Some? && !MonthHit(catalog[i], month)))
    {
      KeepRaises(catalog[i], searchTerm, month, distance);
    }
    SelectFails(catalog, searchTerm, month, distance);
    var r := Select(catalog, searchTerm, month, distance);
    if r.Ok? {
      SelectMembers(catalog, searchTerm, month, distance);
    }
  }

  /** `filter_marathons(search_term, month, distance)` over the catalog. */
  method FilterMarathons(searchTerm: string, month: string, distance: string)
    returns (r: Result<seq<Marathon>, FilterError>)
    ensures r == Select(Marathons, searchTerm, month, distance)
    ensures r.Ok? ==> IsSubsequence(r.value, Marathons) && |r.value| <= |Marathons| && Distinct(r.value)
  {
    var filtered := [];
    var i := 0;
    while i < |Marathons|
      invariant 0 <= i <= |Marathons|
      invariant Select(Marathons[..i], searchTerm, month, distance) == Ok(filtered)
    {
      var marathon := Marathons[i];
      assert Marathons[..i + 1][..i] == Marathons[..i];
      var keep := Keep(marathon, searchTerm, month, distance);
      if keep.Err? {
        SelectErrorPersists(Marathons, i + 1, searchTerm, month, distance);
        return Err(keep.error);
      }
      if keep.value {
        filtered := filtered + [marathon];
      }
      i := i + 1;
    }
    assert Marathons[..i] == Marathons;
    r := Ok(filtered);
    SelectIsSubsequence(Marathons, searchTerm, month, distance);
    SubsequenceLength(filtered, Marathons);
    CatalogIdsUnique();
    SubsequenceDistinct(filtered, Marathons);
  }
}
