/** How the variants of a flag divide the users, and the loops that look variants and conditions up. */
module FlagRollout {
  import opened Wrappers
  import opened FeatureFlags

  ghost predicate Percentages(variants: seq<Variant>) {
    forall i :: 0 <= i < |variants| ==> variants[i].percentage >= 0.0
  }

  lemma {:induction false} SharesGrow(variants: seq<Variant>, i: nat, j: nat)
    requires Percentages(variants) && i <= j <= |variants|
    ensures Share(variants, i) <= Share(variants, j)
    decreases j - i
  {
    if i < j {
      SharesGrow(variants, i, j - 1);
    }
  }

  /** No point falls to two variants. */
  lemma SlotsDisjoint(variants: seq<Variant>, i: nat, j: nat, x: real)
    requires Percentages(variants) && i < |variants| && j < |variants|
    requires InSlot(variants, i, x) && InSlot(variants, j, x)
    ensures i == j
  {
    if i < j {
      SharesGrow(variants, i + 1, j);
    } else if j < i {
      SharesGrow(variants, j + 1, i);
    }
  }

  /** The points that fall to some variant are exactly those below the total share. */
  lemma {:induction false} SlotsCover(variants: seq<Variant>, n: nat, x: real)
    requires Percentages(variants) && n <= |variants| && x >= 0.0
    ensures x < Share(variants, n) / 100.0 <==> exists i | 0 <= i < n :: InSlot(variants, i, x)
  {
    if n == 0 {
    } else {
      SlotsCover(variants, n - 1, x);
      SharesGrow(variants, n - 1, n);
      if x < Share(variants, n) / 100.0 && !(x < Share(variants, n - 1) / 100.0) {
        assert InSlot(variants, n - 1, x);
      }
    }
  }

  // ----- counting hash values -----

  function Ceiling(x: real): int {
    -((-x).Floor)
  }

  lemma CeilingsApart(x: real, y: real)
    ensures -1.0 < (Ceiling(y) - Ceiling(x)) as real - (y - x) < 1.0
  {
  }

  lemma {:induction false} IntervalSize(s: set<int>, lo: int, hi: int)
    requires lo <= hi && forall h :: h in s <==> lo <= h < hi
    ensures |s| == hi - lo
    decreases hi - lo
  {
    if lo < hi {
      IntervalSize(s - {hi - 1}, lo, hi - 1);
    } else {
      assert forall h :: h !in s;
      assert |s| == 0;
    }
  }

  /** The hash values of the users that fall to the i-th variant. */
  ghost function SlotHashes(variants: seq<Variant>, i: nat): set<int>
    requires i < |variants|
  {
    set h: int | 0 <= h <= LONG_SCALE && InSlot(variants, i, UnitHash(h))
  }

  lemma ScaledBound(bound: real, h: Hash)
    ensures bound <= UnitHash(h) <==> Ceiling(bound * LONG_SCALE as real) <= h
  {
    var n, x := LONG_SCALE as real, UnitHash(h);
    assert x * n == h as real;
    assert bound <= x <==> bound * n <= x * n;
  }

  lemma SlotIsInterval(variants: seq<Variant>, i: nat, h: int)
    requires Percentages(variants) && i < |variants| && Share(variants, |variants|) <= 100.0
    ensures var n := LONG_SCALE as real;
            h in SlotHashes(variants, i) <==>
            Ceiling(Share(variants, i) / 100.0 * n) <= h < Ceiling(Share(variants, i + 1) / 100.0 * n)
  {
    SharesGrow(variants, 0, i);
    SharesGrow(variants, i + 1, |variants|);
    if 0 <= h <= LONG_SCALE {
      ScaledBound(Share(variants, i) / 100.0, h);
      ScaledBound(Share(variants, i + 1) / 100.0, h);
    }
  }

  /** A variant of p percent gets p percent of the hash values, to within one. */
  lemma VariantGetsItsShare(variants: seq<Variant>, i: nat)
    requires Percentages(variants) && i < |variants| && Share(variants, |variants|) <= 100.0
    ensures var expected := variants[i].percentage / 100.0 * LONG_SCALE as real;
            -1.0 < |SlotHashes(variants, i)| as real - expected < 1.0
  {
    var n := LONG_SCALE as real;
    var x, y := Share(variants, i) / 100.0 * n, Share(variants, i + 1) / 100.0 * n;
    assert y - x == variants[i].percentage / 100.0 * n;
    forall h
      ensures h in SlotHashes(variants, i) <==> Ceiling(x) <= h < Ceiling(y)
    {
      SlotIsInterval(variants, i, h);
    }
    IntervalSize(SlotHashes(variants, i), Ceiling(x), Ceiling(y));
    CeilingsApart(x, y);
  }

  /** Percentages that sum to 100 leave exactly one hash value without a variant: the largest. */
  lemma OneHashHasNoVariant(variants: seq<Variant>, h: Hash)
    requires Percentages(variants) && Share(variants, |variants|) == 100.0
    ensures SlotFrom(variants, 0, UnitHash(h)).None? <==> h == LONG_SCALE
  {
    SlotsCover(variants, |variants|, UnitHash(h));
    assert UnitHash(h) < 1.0 <==> h < LONG_SCALE by {
      assert UnitHash(h) * LONG_SCALE as real == h as real;
    }
  }

  // ----- the loops -----

  datatype Row = Row(valueMin: real, valueMax: real, key: string)

  function RowAt(variants: seq<Variant>, i: nat): Row
    requires i < |variants|
  {
    Row(Share(variants, i) / 100.0, Share(variants, i + 1) / 100.0, variants[i].key)
  }

  /** One row after the other, each beginning where the one before it ends. */
  method VariantLookupTable(variants: seq<Variant>) returns (table: seq<Row>)
    ensures |table| == |variants| && forall i | 0 <= i < |table| :: table[i] == RowAt(variants, i)
  {
    table := [];
    var valueMin := 0.0;
    for n := 0 to |variants|
      invariant |table| == n && valueMin == Share(variants, n) / 100.0
      invariant forall i | 0 <= i < n :: table[i] == RowAt(variants, i)
    {
      var valueMax := valueMin + variants[n].percentage / 100.0;
      assert valueMax == Share(variants, n + 1) / 100.0;
      table := table + [Row(valueMin, valueMax, variants[n].key)];
      valueMin := valueMax;
    }
  }

  method GetMatchingVariant(lib: Library, flag: Flag, distinctId: string) returns (key: Option<string>)
    ensures var slot := SlotFrom(flag.variants, 0, HashOf(lib, flag.key, distinctId, "variant"));
            key == if slot.Some? then Some(flag.variants[slot.value].key) else None
  {
    var x := HashOf(lib, flag.key, distinctId, "variant");
    var table := VariantLookupTable(flag.variants);
    for i := 0 to |table|
      invariant SlotFrom(flag.variants, 0, x) == SlotFrom(flag.variants, i, x)
    {
      if table[i].valueMin <= x < table[i].valueMax {
        return Some(table[i].key);
      }
    }
    return None;
  }

  method MatchFeatureFlagProperties(lib: Library, flag: Flag, distinctId: string, props: Properties)
    returns (verdict: Verdict)
    ensures verdict == EvaluateFlag(lib, flag, distinctId, props)
  {
    var isInconclusive := false;
    ghost var all, on := MatchConditions(lib, flag, distinctId, props), OnAnswer(lib, flag, distinctId);
    assert all[0..] == all;
    for i := 0 to |flag.conditions|
      invariant var rest := VerdictOf(all[i..], on);
                VerdictOf(all, on) == if isInconclusive && rest == Decided(Off) then Undecided else rest
    {
      var m := MatchCondition(lib, flag.key, distinctId, flag.conditions[i], props);
      assert all[i..][0] == m && all[i..][1..] == all[i + 1..];
      if m.Matches? {
        var variant := GetMatchingVariant(lib, flag, distinctId);
        return Decided(if variant.Some? && variant.value != "" then InVariant(variant.value) else On);
      }
      if m.Raises? {
        return Raised;
      }
      if m.Inconclusive? {
        isInconclusive := true;
      }
    }
    return if isInconclusive then Undecided else Decided(Off);
  }
}
