/** What filters, conditions and answers mean to whoever defines a flag. */
module FlagMeaning {
  import opened Wrappers
  import opened FeatureFlags
  import opened FlagRollout

  // ----- ordering -----

  /** s is the bigger text because of what is at k: the end of the other one, or a bigger character. */
  predicate TextBiggerAt(s: string, t: string, k: nat) {
    k < |s| && k <= |t| && s[..k] == t[..k] && (k == |t| || s[k] > t[k])
  }

  predicate TextBigger(s: string, t: string) {
    exists k | 0 <= k < |s| :: TextBiggerAt(s, t, k)
  }

  /** The bigger of two numbers, two booleans or two texts. */
  predicate Bigger(a: Value, b: Value) {
    match (a, b)
    case (Int(i), Int(j)) => i > j
    case (Float(x), Float(y)) => x > y
    case (Bool(p), Bool(q)) => p && !q
    case (Text(s), Text(t)) => TextBigger(s, t)
    case _ => false
  }

  predicate BothOrdered(a: Value, b: Value) {
    (a.Int? && b.Int?) || (a.Float? && b.Float?) || (a.Bool? && b.Bool?) || (a.Text? && b.Text?)
  }

  function Kind(v: Value): nat {
    match v
    case Null => 0
    case Bool(_) => 1
    case Int(_) => 2
    case Float(_) => 3
    case Text(_) => 4
    case Items(_) => 5
  }

  lemma BiggerFurtherOn(s: string, t: string, k: nat)
    requires s != [] && t != [] && s[0] == t[0]
    ensures TextBiggerAt(s[1..], t[1..], k) <==> TextBiggerAt(s, t, k + 1)
  {
    if k < |s| - 1 && k < |t| {
      assert s[..k + 1] == [s[0]] + s[1..][..k] && t[..k + 1] == [t[0]] + t[1..][..k];
      assert s[..k + 1][1..] == s[1..][..k] && t[..k + 1][1..] == t[1..][..k];
    }
  }

  lemma {:induction false} TextLessExactly(t: string, s: string)
    ensures TextLess(t, s) <==> TextBigger(s, t)
  {
    if s == [] {
    } else if t == [] || t[0] < s[0] {
      assert TextBiggerAt(s, t, 0);
    } else if t[0] > s[0] {
      assert forall k | 0 < k < |s| && k <= |t| :: s[..k][0] != t[..k][0];
    } else {
      TextLessExactly(t[1..], s[1..]);
      if TextBigger(s[1..], t[1..]) {
        var k :| 0 <= k < |s[1..]| && TextBiggerAt(s[1..], t[1..], k);
        BiggerFurtherOn(s, t, k);
      }
      if TextBigger(s, t) {
        var k :| 0 <= k < |s| && TextBiggerAt(s, t, k);
        BiggerFurtherOn(s, t, k - 1);
      }
    }
  }

  /** Each ordering operator points from the property to the filter's value: "gt" matches if the property is
      the bigger one. */
  lemma OperatorsPoint(lib: Library, f: Filter, props: Properties)
    requires f.key in props && BothOrdered(props[f.key], f.value)
    ensures var given := props[f.key];
            && (MatchWith(lib, f, Gt, props).Matches? <==> Bigger(given, f.value))
            && (MatchWith(lib, f, Lt, props).Matches? <==> Bigger(f.value, given))
            && (MatchWith(lib, f, Gte, props).Matches? <==> !Bigger(f.value, given))
            && (MatchWith(lib, f, Lte, props).Matches? <==> !Bigger(given, f.value))
  {
    if f.value.Text? {
      TextLessExactly(f.value.s, props[f.key].s);
      TextLessExactly(props[f.key].s, f.value.s);
    }
  }

  /** Values of different types are not ordered, whatever the operator. */
  lemma TypesDoNotMix(lib: Library, f: Filter, props: Properties)
    requires f.key in props && IsOrdering(f.operator) && Kind(props[f.key]) != Kind(f.value)
    ensures MatchFilter(lib, f, props) == Fails
  {
  }

  /** Lists are compared where they first differ, and a list that ends before that is the smaller one. */
  lemma {:induction false} ListsCompareAtFirstDifference(a: seq<Value>, b: seq<Value>, k: nat)
    requires k <= |a| && k <= |b| && forall i | 0 <= i < k :: Equal(a[i], b[i])
    requires k == |a| || k == |b| || !Equal(a[k], b[k])
    ensures Less(Items(a), Items(b)) ==
            if k == |b| then Some(false) else if k == |a| then Some(true) else Less(a[k], b[k])
  {
    if k == 0 {
    } else {
      assert Equal(a[0], b[0]);
      ListsCompareAtFirstDifference(a[1..], b[1..], k - 1);
      assert Less(Items(a[1..]), Items(b[1..])) == ItemsLess(a[1..], b[1..]);
    }
  }

  // ----- the other operators -----

  /** part occurs in whole, at i. */
  predicate OccursAt(whole: string, part: string, i: nat) {
    i + |part| <= |whole| && whole[i..i + |part|] == part
  }

  predicate Occurs(whole: string, part: string) {
    exists i | 0 <= i <= |whole| :: OccursAt(whole, part, i)
  }

  lemma OccursFurtherOn(whole: string, part: string, i: nat)
    requires whole != []
    ensures OccursAt(whole[1..], part, i) <==> OccursAt(whole, part, i + 1)
  {
    if i + |part| <= |whole| - 1 {
      assert whole[1..][i..i + |part|] == whole[i + 1..i + 1 + |part|];
    }
  }

  lemma {:induction false} ContainsTextExactly(whole: string, part: string)
    ensures ContainsText(whole, part) <==> Occurs(whole, part)
  {
    assert part <= whole <==> OccursAt(whole, part, 0);
    if whole == [] {
    } else {
      ContainsTextExactly(whole[1..], part);
      if Occurs(whole[1..], part) {
        var i :| 0 <= i <= |whole[1..]| && OccursAt(whole[1..], part, i);
        OccursFurtherOn(whole, part, i);
      }
      if Occurs(whole, part) {
        var i :| 0 <= i <= |whole| && OccursAt(whole, part, i);
        if i > 0 {
          OccursFurtherOn(whole, part, i - 1);
        }
      }
    }
  }

  /** Nothing is known of a property that is not given, nor of one that should not be there; one that is given
      is set; and an operator that nobody knows fails. */
  lemma KnownAndUnknown(lib: Library, f: Filter, props: Properties)
    ensures f.key !in props ==> MatchFilter(lib, f, props) == Inconclusive
    ensures MatchWith(lib, f, IsNotSet, props) == Inconclusive
    ensures f.key in props ==> MatchWith(lib, f, IsSet, props) == Matches
    ensures f.key in props ==> MatchWith(lib, f, Operator.Unknown, props) == Fails
  {
  }

  /** "exact" with a text is that text, and with a list it is one of the items; numbers and booleans are equal
      by value, whatever their type. */
  lemma ExactMeaning(lib: Library, f: Filter, props: Properties)
    requires f.key in props
    ensures var exact, given := MatchWith(lib, f, Exact, props).Matches?, props[f.key];
            && (f.value.Text? ==> (exact <==> given == f.value))
            && (f.value.Items? && given.Text? ==> (exact <==> given in f.value.items))
            && (f.value.Null? ==> (exact <==> given.Null?))
            && (f.value.Int? && given.Int? ==> (exact <==> given.i == f.value.i))
            && (f.value.Float? && given.Int? ==> (exact <==> given.i as real == f.value.r))
            && (f.value.Float? && given.Float? ==> (exact <==> given.r == f.value.r))
            && (f.value.Bool? && given.Bool? ==> (exact <==> given.b == f.value.b))
            && (f.value.Bool? && given.Int? ==> (exact <==> given.i == if f.value.b then 1 else 0))
  {
  }

  /** "icontains" looks for the filter's text in the property's, both in lower case; "regex" searches the
      property's text for the filter's expression. */
  lemma TextOperatorsMeaning(lib: Library, f: Filter, props: Properties)
    requires f.key in props
    ensures var whole, part := lib.lower(lib.str(props[f.key])), lib.lower(lib.str(f.value));
            MatchWith(lib, f, IContains, props).Matches? <==> Occurs(whole, part)
    ensures var pattern, text := lib.str(f.value), lib.str(props[f.key]);
            MatchWith(lib, f, Regex, props).Matches? <==> lib.isValidRegex(pattern) && lib.searches(pattern, text)
  {
    ContainsTextExactly(lib.lower(lib.str(props[f.key])), lib.lower(lib.str(f.value)));
  }

  // ----- conditions -----

  /** All filters match, or the first that does not decides. */
  lemma {:induction false} FirstOtherDecides(lib: Library, filters: seq<Filter>, props: Properties, k: nat)
    requires k <= |filters| && forall i | 0 <= i < k :: MatchFilter(lib, filters[i], props).Matches?
    requires k < |filters| ==> !MatchFilter(lib, filters[k], props).Matches?
    ensures MatchAll(lib, filters, props) == if k == |filters| then Matches else MatchFilter(lib, filters[k], props)
  {
    if k == 0 {
    } else {
      assert MatchFilter(lib, filters[0], props).Matches?;
      FirstOtherDecides(lib, filters[1..], props, k - 1);
    }
  }

  /** The first fifteen hexadecimal digits of the digest of this text decide on the rollout. */
  function RolloutText(key: string, distinctId: string): string {
    key + "." + distinctId
  }

  /** And those of this one on the variant. */
  function VariantText(key: string, distinctId: string): string {
    key + "." + distinctId + "variant"
  }

  /** The hash is at most p percent of the largest one. */
  predicate InRollout(lib: Library, key: string, distinctId: string, p: real) {
    lib.digest(RolloutText(key, distinctId)) as real * 100.0 <= p * 1152921504606846975.0
  }

  lemma InRolloutExactly(lib: Library, key: string, distinctId: string, p: real)
    ensures HashOf(lib, key, distinctId, "") <= p / 100.0 <==> InRollout(lib, key, distinctId, p)
  {
    assert key + "." + distinctId + "" == RolloutText(key, distinctId);
    var h := lib.digest(RolloutText(key, distinctId)) as real;
    assert UnitHash(lib.digest(RolloutText(key, distinctId))) * 1152921504606846975.0 == h;
  }

  /** A condition is what its filters are, except that it fails for who is matched and not in the rollout. */
  lemma ConditionMeaning(lib: Library, key: string, distinctId: string, c: Condition, props: Properties)
    ensures var filtered := MatchAll(lib, c.filters, props);
            MatchCondition(lib, key, distinctId, c, props) ==
            if filtered.Matches? && c.rollout.Some? && !InRollout(lib, key, distinctId, c.rollout.value)
            then Fails else filtered
  {
    if c.rollout.Some? {
      InRolloutExactly(lib, key, distinctId, c.rollout.value);
    }
  }

  ghost function RolloutHashes(p: real): set<int> {
    set h: int | 0 <= h <= 1152921504606846975 && UnitHash(h) <= p / 100.0
  }

  /** A rollout of p percent admits p percent of the hash values, and at most one more. */
  lemma RolloutAdmitsItsShare(p: real)
    requires 0.0 <= p <= 100.0
    ensures var expected := p / 100.0 * 1152921504606846975.0;
            expected < |RolloutHashes(p)| as real <= expected + 1.0
  {
    var n := 1152921504606846975.0;
    var x := p / 100.0 * n;
    assert x <= n by { assert p / 100.0 <= 1.0; }
    forall h
      ensures h in RolloutHashes(p) <==> 0 <= h < x.Floor + 1
    {
      if 0 <= h <= 1152921504606846975 {
        assert UnitHash(h) * n == h as real;
        assert UnitHash(h) <= p / 100.0 <==> UnitHash(h) * n <= x;
      }
    }
    IntervalSize(RolloutHashes(p), 0, x.Floor + 1);
  }

  // ----- answers -----

  /** Where no condition raises: a match makes the flag on, in whatever variant; without one it is undecided if
      any condition is, and otherwise off. */
  lemma FlagMeans(lib: Library, flag: Flag, distinctId: string, props: Properties)
    requires !SomeCondition(lib, flag, distinctId, props, Raises)
    ensures EvaluateFlag(lib, flag, distinctId, props) ==
            if SomeCondition(lib, flag, distinctId, props, Matches) then Decided(OnAnswer(lib, flag, distinctId))
            else if SomeCondition(lib, flag, distinctId, props, Inconclusive) then Undecided
            else Decided(Off)
  {
    ConditionMatches(lib, flag, distinctId, props, Raises);
    ConditionMatches(lib, flag, distinctId, props, Matches);
    ConditionMatches(lib, flag, distinctId, props, Inconclusive);
    VerdictMeaning(MatchConditions(lib, flag, distinctId, props), OnAnswer(lib, flag, distinctId));
  }

  /** The percentages of the variants before the i-th, and those up to it, enclose the user's hash. */
  predicate FallsTo(lib: Library, flag: Flag, distinctId: string, i: nat)
    requires i < |flag.variants|
  {
    var h := lib.digest(VariantText(flag.key, distinctId)) as real * 100.0;
    Share(flag.variants, i) * 1152921504606846975.0 <= h < Share(flag.variants, i + 1) * 1152921504606846975.0
  }

  lemma FallsToExactly(lib: Library, flag: Flag, distinctId: string, i: nat)
    requires i < |flag.variants|
    ensures InSlot(flag.variants, i, HashOf(lib, flag.key, distinctId, "variant")) <==>
            FallsTo(lib, flag, distinctId, i)
  {
    var n, x := 1152921504606846975.0, HashOf(lib, flag.key, distinctId, "variant");
    var low, high := Share(flag.variants, i), Share(flag.variants, i + 1);
    assert x * n == lib.digest(VariantText(flag.key, distinctId)) as real;
    assert low / 100.0 <= x <==> low * n <= x * n * 100.0;
    assert x < high / 100.0 <==> x * n * 100.0 < high * n;
  }

  /** Who is matched gets the variant that the hash falls to, if that has a name, and plain "on" if it falls to
      none. */
  lemma MatchedUserGetsVariant(lib: Library, flag: Flag, distinctId: string, props: Properties, i: nat)
    requires Percentages(flag.variants) && i <= |flag.variants|
    requires if i < |flag.variants| then FallsTo(lib, flag, distinctId, i)
             else forall j | 0 <= j < |flag.variants| :: !FallsTo(lib, flag, distinctId, j)
    requires var v := EvaluateFlag(lib, flag, distinctId, props); v.Decided? && v.answer != Off
    ensures EvaluateFlag(lib, flag, distinctId, props).answer ==
            if i < |flag.variants| && flag.variants[i].key != "" then InVariant(flag.variants[i].key) else On
  {
    var x := HashOf(lib, flag.key, distinctId, "variant");
    var slot := SlotFrom(flag.variants, 0, x);
    VerdictIsOn(MatchConditions(lib, flag, distinctId, props), OnAnswer(lib, flag, distinctId));
    if slot.Some? {
      FallsToExactly(lib, flag, distinctId, slot.value);
    }
    if i < |flag.variants| {
      FallsToExactly(lib, flag, distinctId, i);
      SlotsDisjoint(flag.variants, i, slot.value, x);
    }
  }
}
