/**
 * `extract_cross_cities_v5`: the distinct cities a route passes through,
 * read from every step's `cities` list in order.
 */
module CrossCities {
  import opened RouteData
  import opened Dedup

  /** All city entries of all steps, step by step. */
  function AllCities(steps: seq<Step>): (all: seq<CityEntry>)
    ensures forall k, c :: 0 <= k < |steps| && c in steps[k].cities ==> c in all
    ensures forall c :: c in all ==> exists k :: 0 <= k < |steps| && c in steps[k].cities
  {
    if |steps| == 0 then [] else AllCities(steps[..|steps| - 1]) + steps[|steps| - 1].cities
  }

  function Adcode(c: CityEntry): string { c.adcode }

  /** Entries without an adcode are skipped. */
  predicate HasAdcode(c: CityEntry) { c.adcode != "" }

  /** The reported name: the entry's city, or its adcode when the city is empty. */
  function DisplayName(c: CityEntry): (name: string)
    ensures name == "" <==> c.city == "" && c.adcode == ""
    ensures c.city != "" ==> name == c.city
    ensures c.city == "" ==> name == c.adcode
  {
    if c.city != "" then c.city else c.adcode
  }

  function ToCrossCity(c: CityEntry): CrossCity
  {
    CrossCity(c.adcode, DisplayName(c))
  }

  function ToCrossCities(cs: seq<CityEntry>): (out: seq<CrossCity>)
    ensures |out| == |cs|
    ensures forall k :: 0 <= k < |cs| ==> out[k] == ToCrossCity(cs[k])
  {
    if |cs| == 0 then [] else [ToCrossCity(cs[0])] + ToCrossCities(cs[1..])
  }

  /** The cross cities of a list of entries: first occurrence of each non-empty adcode, in order. */
  function Extract(cs: seq<CityEntry>): (out: seq<CrossCity>)
    ensures |out| <= |cs|
    ensures DistinctAdcodes(out)
    ensures forall k :: 0 <= k < |out| ==> out[k].adcode != ""
  {
    var kept := KeepFirst(cs, Adcode, HasAdcode);
    KeepFirstDistinct(cs, Adcode, HasAdcode);
    ToCrossCities(kept)
  }

  function CityAdcodes(out: seq<CrossCity>): set<string>
  {
    set k | 0 <= k < |out| :: out[k].adcode
  }

  /** The index of the first entry of cs with adcode a, or |cs| when there is none. */
  function FirstSeen(cs: seq<CityEntry>, a: string): nat
  {
    FirstIndex(cs, Adcode, HasAdcode, a)
  }

  /**
   * The loop of the source: for each step, for each entry, skip it when its
   * adcode is empty or already in `seen`, otherwise record the adcode and
   * append the city.
   */
  method ExtractCrossCities(steps: seq<Step>) returns (out: seq<CrossCity>)
    ensures out == Extract(AllCities(steps))
  {
    out := [];
    var seen: set<string> := {};
    ghost var kept: seq<CityEntry> := [];
    for i := 0 to |steps|
      invariant kept == KeepFirst(AllCities(steps[..i]), Adcode, HasAdcode)
      invariant out == ToCrossCities(kept)
      invariant seen == Keys(kept, Adcode)
    {
      AllCitiesPrefix(steps, i);
      kept, seen, out := AddStepCities(steps[i].cities, AllCities(steps[..i]), kept, seen, out);
    }
    assert steps[..|steps|] == steps;
  }

  /** The inner loop of the source: the entries of one step, after the entries `done` of the steps before it. */
  method AddStepCities(cities: seq<CityEntry>, ghost done: seq<CityEntry>, ghost kept0: seq<CityEntry>,
                       seen0: set<string>, out0: seq<CrossCity>)
    returns (ghost kept: seq<CityEntry>, seen: set<string>, out: seq<CrossCity>)
    requires kept0 == KeepFirst(done, Adcode, HasAdcode)
    requires out0 == ToCrossCities(kept0) && seen0 == Keys(kept0, Adcode)
    ensures kept == KeepFirst(done + cities, Adcode, HasAdcode)
    ensures out == ToCrossCities(kept) && seen == Keys(kept, Adcode)
    ensures out == Extract(done + cities)
    ensures seen == AdmittedKeys(done + cities, Adcode, HasAdcode)
  {
    kept, seen, out := kept0, seen0, out0;
    assert done + cities[..0] == done;
    for j := 0 to |cities|
      invariant kept == KeepFirst(done + cities[..j], Adcode, HasAdcode)
      invariant out == ToCrossCities(kept)
      invariant seen == Keys(kept, Adcode)
    {
      var c := cities[j];
      ExtractNext(done, cities, j, kept);
      if c.adcode != "" && c.adcode !in seen {
        kept := kept + [c];
        seen := seen + {c.adcode};
        out := out + [CrossCity(c.adcode, DisplayName(c))];
      }
    }
    assert cities[..|cities|] == cities;
    ExtractState(done + cities, kept, seen, out);
  }

  /** The loop state for the entries `all` is the extraction of `all` and the set of its non-empty adcodes. */
  lemma ExtractState(all: seq<CityEntry>, kept: seq<CityEntry>, seen: set<string>, out: seq<CrossCity>)
    requires kept == KeepFirst(all, Adcode, HasAdcode)
    requires out == ToCrossCities(kept) && seen == Keys(kept, Adcode)
    ensures out == Extract(all) && seen == AdmittedKeys(all, Adcode, HasAdcode)
  {
    KeepFirstKeys(all, Adcode, HasAdcode);
  }

  /** The entries of the first i + 1 steps are those of the first i followed by step i's. */
  lemma {:induction false} AllCitiesPrefix(steps: seq<Step>, i: nat)
    requires i < |steps|
    ensures AllCities(steps[..i + 1]) == AllCities(steps[..i]) + steps[i].cities
  {
    assert steps[..i + 1][..i] == steps[..i];
  }

  /** One entry of the inner loop: skipped, or appended with its adcode recorded as seen. */
  lemma {:induction false} ExtractStep(prefix: seq<CityEntry>, c: CityEntry, kept: seq<CityEntry>)
    requires kept == KeepFirst(prefix, Adcode, HasAdcode)
    ensures c.adcode == "" || c.adcode in Keys(kept, Adcode) ==> KeepFirst(prefix + [c], Adcode, HasAdcode) == kept
    ensures c.adcode != "" && c.adcode !in Keys(kept, Adcode) ==>
      KeepFirst(prefix + [c], Adcode, HasAdcode) == kept + [c] &&
      Keys(kept + [c], Adcode) == Keys(kept, Adcode) + {c.adcode} &&
      ToCrossCities(kept + [c]) == ToCrossCities(kept) + [CrossCity(c.adcode, DisplayName(c))]
  {
    KeepFirstStep(prefix, c);
    if c.adcode != "" && c.adcode !in Keys(kept, Adcode) {
      KeysAppend(kept, c);
      ToCrossCitiesAppend(kept, c);
    }
  }

  /** ExtractStep for entry j of one step's entries, stated on the prefix the inner loop has seen. */
  lemma ExtractNext(done: seq<CityEntry>, cities: seq<CityEntry>, j: nat, kept: seq<CityEntry>)
    requires j < |cities| && kept == KeepFirst(done + cities[..j], Adcode, HasAdcode)
    ensures var c := cities[j];
      if c.adcode == "" || c.adcode in Keys(kept, Adcode) then
        KeepFirst(done + cities[..j + 1], Adcode, HasAdcode) == kept
      else
        KeepFirst(done + cities[..j + 1], Adcode, HasAdcode) == kept + [c] &&
        Keys(kept + [c], Adcode) == Keys(kept, Adcode) + {c.adcode} &&
        ToCrossCities(kept + [c]) == ToCrossCities(kept) + [CrossCity(c.adcode, DisplayName(c))]
  {
    assert done + cities[..j + 1] == (done + cities[..j]) + [cities[j]];
    ExtractStep(done + cities[..j], cities[j], kept);
  }

  lemma {:induction false} KeepFirstStep(prefix: seq<CityEntry>, c: CityEntry)
    ensures var kept := KeepFirst(prefix, Adcode, HasAdcode);
      KeepFirst(prefix + [c], Adcode, HasAdcode) ==
        if c.adcode == "" || c.adcode in Keys(kept, Adcode) then kept else kept + [c]
  {
    assert (prefix + [c])[..|prefix|] == prefix;
  }

  lemma {:induction false} ToCrossCitiesAppend(cs: seq<CityEntry>, c: CityEntry)
    ensures ToCrossCities(cs + [c]) == ToCrossCities(cs) + [ToCrossCity(c)]
  {
  }

  lemma {:induction false} KeysAppend(kept: seq<CityEntry>, c: CityEntry)
    ensures Keys(kept + [c], Adcode) == Keys(kept, Adcode) + {c.adcode}
  {
    var ys := kept + [c];
    assert ys[|kept|] == c;
    forall a | a in Keys(ys, Adcode) ensures a in Keys(kept, Adcode) + {c.adcode} {
      var k :| 0 <= k < |ys| && Adcode(ys[k]) == a;
      if k < |kept| {
        assert ys[k] == kept[k];
      }
    }
    forall a | a in Keys(kept, Adcode) ensures a in Keys(ys, Adcode) {
      var k :| 0 <= k < |kept| && Adcode(kept[k]) == a;
      assert ys[k] == kept[k];
    }
  }

  /** No two cities of out share an adcode. */
  ghost predicate DistinctAdcodes(out: seq<CrossCity>)
  {
    forall a, b :: 0 <= a < b < |out| ==> out[a].adcode != out[b].adcode
  }

  /** The cross cities' adcodes are exactly the non-empty adcodes of the entries. */
  lemma {:induction false} ExtractAdcodes(cs: seq<CityEntry>)
    ensures CityAdcodes(Extract(cs)) == set k | 0 <= k < |cs| && cs[k].adcode != "" :: cs[k].adcode
  {
    var kept := KeepFirst(cs, Adcode, HasAdcode);
    KeepFirstKeys(cs, Adcode, HasAdcode);
    assert CityAdcodes(Extract(cs)) == Keys(kept, Adcode) by {
      forall a | a in Keys(kept, Adcode) ensures a in CityAdcodes(Extract(cs)) {
        var k :| 0 <= k < |kept| && Adcode(kept[k]) == a;
        assert Extract(cs)[k].adcode == a;
      }
    }
    assert AdmittedKeys(cs, Adcode, HasAdcode) ==
           set k | 0 <= k < |cs| && cs[k].adcode != "" :: cs[k].adcode;
  }

  /** Every non-empty adcode of the entries is reported by exactly one cross city. */
  lemma {:induction false} ExtractExactlyOnce(cs: seq<CityEntry>, a: string)
    requires a != "" && exists i :: 0 <= i < |cs| && cs[i].adcode == a
    ensures exists k :: 0 <= k < |Extract(cs)| && Extract(cs)[k].adcode == a
    ensures forall k, k' ::
      (0 <= k < |Extract(cs)| && 0 <= k' < |Extract(cs)| &&
       Extract(cs)[k].adcode == a && Extract(cs)[k'].adcode == a) ==> k == k'
  {
    var i :| 0 <= i < |cs| && cs[i].adcode == a;
    ExtractAdcodes(cs);
    assert a in set k | 0 <= k < |cs| && cs[k].adcode != "" :: cs[k].adcode;
    assert a in CityAdcodes(Extract(cs));
  }

  /**
   * Each cross city is built from the first entry with its adcode: the name
   * is that entry's city, or the adcode when the city is empty; and cross
   * cities come in the order in which their adcodes are first seen.
   */
  lemma {:induction false} ExtractFirstSeen(cs: seq<CityEntry>)
    ensures var out := Extract(cs);
      forall k :: 0 <= k < |out| ==>
        FirstSeen(cs, out[k].adcode) < |cs| &&
        out[k].name == DisplayName(cs[FirstSeen(cs, out[k].adcode)])
    ensures var out := Extract(cs);
      forall a, b :: 0 <= a < b < |out| ==> FirstSeen(cs, out[a].adcode) < FirstSeen(cs, out[b].adcode)
  {
    var kept := KeepFirst(cs, Adcode, HasAdcode);
    KeepFirstOccurrences(cs, Adcode, HasAdcode);
    assert FromFirstOccurrences(cs, kept, Adcode, HasAdcode);
    assert InFirstSeenOrder(cs, kept, Adcode, HasAdcode);
  }

  /** Entries [A, B, A, C] (by adcode) give the cross cities A, B, C. */
  lemma {:induction false} ExtractExample(a: CityEntry, b: CityEntry, c: CityEntry)
    requires a.adcode != "" && b.adcode != "" && c.adcode != ""
    requires a.adcode != b.adcode && a.adcode != c.adcode && b.adcode != c.adcode
    ensures Extract([a, b, a, c]) == [ToCrossCity(a), ToCrossCity(b), ToCrossCity(c)]
  {
    var xs := [a, b, a, c];
    assert xs[..1][..0] == [];
    assert KeepFirst(xs[..1][..0], Adcode, HasAdcode) == [];
    assert Keys([], Adcode) == {};
    var k1 := KeepFirst(xs[..1], Adcode, HasAdcode);
    assert k1 == [a];
    assert Keys(k1, Adcode) == {a.adcode};
    var k2 := KeepFirst(xs[..2], Adcode, HasAdcode);
    assert xs[..2][..1] == xs[..1];
    assert k2 == [a, b];
    assert Keys(k2, Adcode) == {a.adcode, b.adcode} by { assert k2[0] == a && k2[1] == b; }
    var k3 := KeepFirst(xs[..3], Adcode, HasAdcode);
    assert xs[..3][..2] == xs[..2];
    assert k3 == [a, b];
    assert xs[..3] == xs[..|xs| - 1];
    assert KeepFirst(xs, Adcode, HasAdcode) == [a, b, c];
  }
}
