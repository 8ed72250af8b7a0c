/** Local evaluation of feature flags: property filters, conditions, rollouts and variants. */
module FeatureFlags {
  import opened Wrappers

  /** A JSON value, with Python's distinction between whole and fractional numbers. */
  datatype Value = Null | Bool(b: bool) | Int(i: int) | Float(r: real) | Text(s: string) | Items(items: seq<Value>)

  type Properties = map<string, Value>

  /** The largest value of fifteen hexadecimal digits. */
  const LONG_SCALE := 0xFFFFFFFFFFFFFFF

  type Hash = n: int | 0 <= n <= LONG_SCALE

  /** What the language's libraries decide: the leading digits of a SHA-1 digest, text conversion, lower
      case, and regular expressions. */
  datatype Library = Library(
    digest: string -> Hash,
    str: Value -> string,
    lower: string -> string,
    isValidRegex: string -> bool,
    searches: (string, string) -> bool)

  datatype Operator =
    | Exact | IsNot | IsSet | IsNotSet | IContains | NotIContains | Regex | NotRegex
    | Gt | Gte | Lt | Lte | Unknown

  datatype Filter = Filter(key: string, operator: Operator, value: Value)

  /** percentages of the users who match the filters; None: all of them. */
  datatype Condition = Condition(filters: seq<Filter>, rollout: Option<real>)

  datatype Variant = Variant(key: string, percentage: real)

  datatype Flag = Flag(key: string, conditions: seq<Condition>, variants: seq<Variant>)

  /** How matching a filter or a condition ends. Inconclusive is the error that callers expect; Raises
      is any other. */
  datatype Match = Matches | Fails | Inconclusive | Raises

  datatype Answer = InVariant(key: string) | On | Off

  datatype Verdict = Decided(answer: Answer) | Undecided | Raised

  // ----- comparing values -----

  function Number(v: Value): Option<real> {
    match v
    case Bool(b) => Some(if b then 1.0 else 0.0)
    case Int(i) => Some(i as real)
    case Float(r) => Some(r)
    case _ => None
  }

  predicate Equal(a: Value, b: Value)
    decreases a
  {
    if Number(a).Some? || Number(b).Some? then Number(a) == Number(b)
    else if a.Items? && b.Items? then
      |a.items| == |b.items| && forall i | 0 <= i < |a.items| :: Equal(a.items[i], b.items[i])
    else a == b
  }

  predicate TextLess(a: string, b: string) {
    b != [] && (a == [] || a[0] < b[0] || (a[0] == b[0] && TextLess(a[1..], b[1..])))
  }

  /** a < b; None where the language raises a type error. */
  function Less(a: Value, b: Value): Option<bool>
    decreases a, 1
  {
    if Number(a).Some? && Number(b).Some? then Some(Number(a).value < Number(b).value)
    else if a.Text? && b.Text? then Some(TextLess(a.s, b.s))
    else if a.Items? && b.Items? then ItemsLess(a.items, b.items)
    else None
  }

  function ItemsLess(a: seq<Value>, b: seq<Value>): Option<bool>
    decreases a, 0
  {
    if b == [] then Some(false)
    else if a == [] then Some(true)
    else if Equal(a[0], b[0]) then ItemsLess(a[1..], b[1..])
    else Less(a[0], b[0])
  }

  predicate SameType(a: Value, b: Value) {
    match a
    case Null => b.Null?
    case Bool(_) => b.Bool?
    case Int(_) => b.Int?
    case Float(_) => b.Float?
    case Text(_) => b.Text?
    case Items(_) => b.Items?
  }

  predicate ContainsText(whole: string, part: string) {
    part <= whole || (whole != [] && ContainsText(whole[1..], part))
  }

  function Truth(b: bool): Match {
    if b then Matches else Fails
  }

  /** Values of different types do not compare; the others may still raise. */
  function Ordered(sameType: bool, less: Option<bool>, wanted: bool): Match {
    if !sameType then Fails else if less.None? then Raises else Truth(less.value == wanted)
  }

  /** One of the items of a list; of anything else, the value itself. */
  predicate IsOneOf(v: Value, given: Value) {
    if v.Items? then exists i | 0 <= i < |v.items| :: Equal(given, v.items[i]) else Equal(v, given)
  }

  // ----- filters and conditions -----

  function MatchFilter(lib: Library, f: Filter, props: Properties): Match {
    if f.key !in props || f.operator.IsNotSet? then Inconclusive else
    var v, given := f.value, props[f.key];
    match f.operator
    case Exact => Truth(IsOneOf(v, given))
    case IsNot => Truth(!IsOneOf(v, given))
    case IsSet => Matches
    case IContains => Truth(ContainsText(lib.lower(lib.str(given)), lib.lower(lib.str(v))))
    case NotIContains => Truth(!ContainsText(lib.lower(lib.str(given)), lib.lower(lib.str(v))))
    case Regex => Truth(lib.isValidRegex(lib.str(v)) && lib.searches(lib.str(v), lib.str(given)))
    case NotRegex => Truth(lib.isValidRegex(lib.str(v)) && !lib.searches(lib.str(v), lib.str(given)))
    case Gt => Ordered(SameType(given, v), Less(v, given), true)
    case Gte => Ordered(SameType(given, v), Less(given, v), false)
    case Lt => Ordered(SameType(given, v), Less(given, v), true)
    case Lte => Ordered(SameType(given, v), Less(v, given), false)
    case _ => Fails
  }

  /** All filters in turn; the first that does not match decides. */
  function MatchAll(lib: Library, filters: seq<Filter>, props: Properties): Match {
    if filters == [] then Matches else
    var first := MatchFilter(lib, filters[0], props);
    if first.Matches? then MatchAll(lib, filters[1..], props) else first
  }

  function UnitHash(h: Hash): real {
    h as real / LONG_SCALE as real
  }

  function HashOf(lib: Library, key: string, distinctId: string, salt: string): real {
    UnitHash(lib.digest(key + "." + distinctId + salt))
  }

  function MatchCondition(lib: Library, key: string, distinctId: string, c: Condition, props: Properties): Match {
    var filtered := MatchAll(lib, c.filters, props);
    if c.filters != [] && !filtered.Matches? then filtered
    else if c.filters != [] && c.rollout.None? then Matches
    else if c.rollout.Some? && HashOf(lib, key, distinctId, "") > c.rollout.value / 100.0 then Fails
    else Matches
  }

  function MatchConditions(lib: Library, flag: Flag, distinctId: string, props: Properties): seq<Match> {
    seq(|flag.conditions|, i requires 0 <= i < |flag.conditions| =>
      MatchCondition(lib, flag.key, distinctId, flag.conditions[i], props))
  }

  // ----- variants -----

  /** The percentages of the first n variants, together. */
  function Share(variants: seq<Variant>, n: nat): real
    requires n <= |variants|
  {
    if n == 0 then 0.0 else Share(variants, n - 1) + variants[n - 1].percentage
  }

  /** x falls to the i-th variant. */
  predicate InSlot(variants: seq<Variant>, i: nat, x: real)
    requires i < |variants|
  {
    Share(variants, i) / 100.0 <= x < Share(variants, i + 1) / 100.0
  }

  /** The first variant, from the i-th on, that x falls to. */
  function SlotFrom(variants: seq<Variant>, i: nat, x: real): (slot: Option<nat>)
    requires i <= |variants|
    ensures slot.Some? ==> i <= slot.value < |variants| && InSlot(variants, slot.value, x)
    ensures slot.None? ==> forall j | i <= j < |variants| :: !InSlot(variants, j, x)
    decreases |variants| - i
  {
    if i == |variants| then None else if InSlot(variants, i, x) then Some(i) else SlotFrom(variants, i + 1, x)
  }

  /** The answer for a user whom some condition matches: a variant, unless none covers the user or its
      key is empty. */
  function OnAnswer(lib: Library, flag: Flag, distinctId: string): Answer {
    var slot := SlotFrom(flag.variants, 0, HashOf(lib, flag.key, distinctId, "variant"));
    if slot.Some? && flag.variants[slot.value].key != "" then InVariant(flag.variants[slot.value].key) else On
  }

  // ----- what the operators mean to one another -----

  lemma {:induction false} TextIsOrdered(a: string, b: string)
    ensures a == b ==> !TextLess(a, b) && !TextLess(b, a)
    ensures a != b ==> (TextLess(a, b) <==> !TextLess(b, a))
  {
    if a != [] && b != [] && a[0] == b[0] {
      TextIsOrdered(a[1..], b[1..]);
      assert a == [a[0]] + a[1..] && b == [b[0]] + b[1..];
    }
  }

  function MatchWith(lib: Library, f: Filter, operator: Operator, props: Properties): Match {
    MatchFilter(lib, f.(operator := operator), props)
  }

  /** A number or a text is less, equal or greater than another, and the four ordering operators agree
      with "exact" on which; between values of different types none of the four matches. */
  lemma OrderingOperatorsAgree(lib: Library, f: Filter, props: Properties)
    requires f.key in props && (Number(f.value).Some? || f.value.Text?)
    ensures var gt, lt := MatchWith(lib, f, Gt, props), MatchWith(lib, f, Lt, props);
            var gte, lte := MatchWith(lib, f, Gte, props), MatchWith(lib, f, Lte, props);
            var exact := MatchWith(lib, f, Exact, props);
            && (gte.Matches? <==> gt.Matches? || (lte.Matches? && exact.Matches?))
            && (lte.Matches? <==> lt.Matches? || (gte.Matches? && exact.Matches?))
            && !(gt.Matches? && lt.Matches?) && !(exact.Matches? && (gt.Matches? || lt.Matches?))
            && (if SameType(props[f.key], f.value) then exact.Matches? || gt.Matches? || lt.Matches?
                else !gte.Matches? && !lte.Matches?)
  {
    if f.value.Text? && props[f.key].Text? {
      TextIsOrdered(f.value.s, props[f.key].s);
    }
  }

  /** Each operator and its negation: exactly one matches where the property is known. An invalid
      regular expression is the exception, and matches with neither. */
  lemma NegationsComplement(lib: Library, f: Filter, props: Properties)
    requires f.key in props
    ensures MatchWith(lib, f, Exact, props).Matches? <==> !MatchWith(lib, f, IsNot, props).Matches?
    ensures MatchWith(lib, f, IContains, props).Matches? <==> !MatchWith(lib, f, NotIContains, props).Matches?
    ensures lib.isValidRegex(lib.str(f.value)) ==>
              (MatchWith(lib, f, Regex, props).Matches? <==> !MatchWith(lib, f, NotRegex, props).Matches?)
    ensures !lib.isValidRegex(lib.str(f.value)) ==>
              MatchWith(lib, f, Regex, props).Fails? && MatchWith(lib, f, NotRegex, props).Fails?
  {
  }

  // ----- verdicts -----

  function VerdictOf(matches: seq<Match>, on: Answer): Verdict {
    if matches == [] then Decided(Off) else
    match matches[0]
    case Matches => Decided(on)
    case Raises => Raised
    case Fails => VerdictOf(matches[1..], on)
    case Inconclusive =>
      var rest := VerdictOf(matches[1..], on);
      if rest == Decided(Off) then Undecided else rest
  }

  function EvaluateFlag(lib: Library, flag: Flag, distinctId: string, props: Properties): Verdict {
    VerdictOf(MatchConditions(lib, flag, distinctId, props), OnAnswer(lib, flag, distinctId))
  }

  /** Where nothing raises: a match anywhere is an answer, and without one everything must have failed. */
  lemma {:induction false} VerdictMeaning(matches: seq<Match>, on: Answer)
    requires Raises !in matches && on != Off
    ensures VerdictOf(matches, on) ==
            if Matches in matches then Decided(on) else if Inconclusive in matches then Undecided else Decided(Off)
  {
    if matches == [] {
    } else {
      assert matches == [matches[0]] + matches[1..];
      VerdictMeaning(matches[1..], on);
    }
  }

  /** An error counts only where nothing matches before it. */
  lemma {:induction false} VerdictWithoutMatch(matches: seq<Match>, on: Answer)
    requires Matches !in matches && Raises in matches && on != Off
    ensures VerdictOf(matches, on).Raised?
  {
    assert matches == [matches[0]] + matches[1..];
    if matches[0].Raises? {
    } else {
      VerdictWithoutMatch(matches[1..], on);
    }
  }

  ghost predicate SomeCondition(lib: Library, flag: Flag, distinctId: string, props: Properties, m: Match) {
    exists c :: c in flag.conditions && MatchCondition(lib, flag.key, distinctId, c, props) == m
  }

  lemma ConditionMatches(lib: Library, flag: Flag, distinctId: string, props: Properties, m: Match)
    ensures m in MatchConditions(lib, flag, distinctId, props) <==> SomeCondition(lib, flag, distinctId, props, m)
  {
    var matches := MatchConditions(lib, flag, distinctId, props);
    if SomeCondition(lib, flag, distinctId, props, m) {
      var i :| 0 <= i < |flag.conditions| && MatchCondition(lib, flag.key, distinctId, flag.conditions[i], props) == m;
      assert matches[i] == m;
    }
  }

  function Reordered(flag: Flag, conditions: seq<Condition>): Flag {
    flag.(conditions := conditions)
  }

  /** Reordering the conditions of a flag changes no verdict, unless one of them raises and another
      matches. */
  lemma ConditionOrderIsIrrelevant(
      lib: Library, flag: Flag, conditions: seq<Condition>, distinctId: string, props: Properties)
    requires multiset(conditions) == multiset(flag.conditions)
    requires || !SomeCondition(lib, flag, distinctId, props, Matches)
             || !SomeCondition(lib, flag, distinctId, props, Raises)
    ensures EvaluateFlag(lib, Reordered(flag, conditions), distinctId, props) ==
            EvaluateFlag(lib, flag, distinctId, props)
  {
    var other := Reordered(flag, conditions);
    var a, b := MatchConditions(lib, flag, distinctId, props), MatchConditions(lib, other, distinctId, props);
    var on := OnAnswer(lib, flag, distinctId);
    assert forall c :: c in flag.conditions <==> c in multiset(flag.conditions);
    assert forall c :: c in conditions <==> c in multiset(conditions);
    forall m
      ensures m in a <==> m in b
    {
      ConditionMatches(lib, flag, distinctId, props, m);
      ConditionMatches(lib, other, distinctId, props, m);
    }
    ConditionMatches(lib, flag, distinctId, props, Matches);
    ConditionMatches(lib, flag, distinctId, props, Raises);
    if Raises in a {
      VerdictWithoutMatch(a, on);
      VerdictWithoutMatch(b, on);
    } else {
      VerdictMeaning(a, on);
      VerdictMeaning(b, on);
    }
  }

  /** The conditions with the i-th moved to the front. */
  function MovedUp(conditions: seq<Condition>, i: nat): seq<Condition>
    requires i < |conditions|
  {
    [conditions[i]] + conditions[..i] + conditions[i + 1..]
  }

  lemma FirstConditionDecides(lib: Library, flag: Flag, distinctId: string, props: Properties, m: Match)
    returns (conditions: seq<Condition>)
    requires SomeCondition(lib, flag, distinctId, props, m) && (m.Matches? || m.Raises?)
    ensures multiset(conditions) == multiset(flag.conditions)
    ensures EvaluateFlag(lib, Reordered(flag, conditions), distinctId, props) ==
            if m.Matches? then Decided(OnAnswer(lib, flag, distinctId)) else Raised
  {
    var i :| 0 <= i < |flag.conditions| && MatchCondition(lib, flag.key, distinctId, flag.conditions[i], props) == m;
    conditions := MovedUp(flag.conditions, i);
    assert flag.conditions == flag.conditions[..i] + [flag.conditions[i]] + flag.conditions[i + 1..];
    assert MatchConditions(lib, Reordered(flag, conditions), distinctId, props)[0] == m;
  }

  ghost predicate OrderIsIrrelevant(lib: Library, flag: Flag, distinctId: string, props: Properties) {
    forall conditions | multiset(conditions) == multiset(flag.conditions) ::
      EvaluateFlag(lib, Reordered(flag, conditions), distinctId, props) == EvaluateFlag(lib, flag, distinctId, props)
  }

  /** And then it does matter. */
  lemma ConditionOrderExactly(lib: Library, flag: Flag, distinctId: string, props: Properties)
    ensures OrderIsIrrelevant(lib, flag, distinctId, props) <==>
            || !SomeCondition(lib, flag, distinctId, props, Matches)
            || !SomeCondition(lib, flag, distinctId, props, Raises)
  {
    if SomeCondition(lib, flag, distinctId, props, Matches) && SomeCondition(lib, flag, distinctId, props, Raises) {
      var first := FirstConditionDecides(lib, flag, distinctId, props, Matches);
      var other := FirstConditionDecides(lib, flag, distinctId, props, Raises);
      assert EvaluateFlag(lib, Reordered(flag, first), distinctId, props) !=
             EvaluateFlag(lib, Reordered(flag, other), distinctId, props);
    } else {
      forall conditions | multiset(conditions) == multiset(flag.conditions)
        ensures EvaluateFlag(lib, Reordered(flag, conditions), distinctId, props) ==
                EvaluateFlag(lib, flag, distinctId, props)
      {
        ConditionOrderIsIrrelevant(lib, flag, conditions, distinctId, props);
      }
    }
  }

  // ----- more information -----

  ghost predicate Extends(fewer: Properties, more: Properties) {
    forall k :: k in fewer ==> k in more && more[k] == fewer[k]
  }

  lemma {:induction false} MatchAllStable(lib: Library, filters: seq<Filter>, fewer: Properties, more: Properties)
    requires Extends(fewer, more) && !MatchAll(lib, filters, fewer).Inconclusive?
    ensures MatchAll(lib, filters, more) == MatchAll(lib, filters, fewer)
  {
    if filters == [] {
    } else {
      assert MatchFilter(lib, filters[0], more) == MatchFilter(lib, filters[0], fewer);
      if MatchFilter(lib, filters[0], fewer).Matches? {
        MatchAllStable(lib, filters[1..], fewer, more);
      }
    }
  }

  lemma ConditionStable(
      lib: Library, key: string, distinctId: string, c: Condition, fewer: Properties, more: Properties)
    requires Extends(fewer, more) && !MatchCondition(lib, key, distinctId, c, fewer).Inconclusive?
    ensures MatchCondition(lib, key, distinctId, c, more) == MatchCondition(lib, key, distinctId, c, fewer)
  {
    if !MatchAll(lib, c.filters, fewer).Inconclusive? {
      MatchAllStable(lib, c.filters, fewer, more);
    }
  }

  /** b settles what a left open, and changes nothing else. */
  ghost predicate Settles(a: seq<Match>, b: seq<Match>) {
    |a| == |b| && forall i | 0 <= i < |a| :: !a[i].Inconclusive? ==> b[i] == a[i]
  }

  lemma {:induction false} SettlingKeepsVerdict(a: seq<Match>, b: seq<Match>, on: Answer)
    requires Settles(a, b) && on != Off && VerdictOf(a, on).Decided?
    ensures VerdictOf(b, on) == VerdictOf(a, on) || (VerdictOf(b, on).Raised? && VerdictOf(a, on) == Decided(on))
  {
    VerdictIsOn(a, on);
    if a != [] && !a[0].Matches? {
      VerdictIsOn(a[1..], on);
      SettlingKeepsVerdict(a[1..], b[1..], on);
    }
  }

  // ----- when evaluation raises -----

  predicate IsOrdering(o: Operator) {
    o.Gt? || o.Gte? || o.Lt? || o.Lte?
  }

  lemma {:induction false} EqualIsSymmetric(a: Value, b: Value)
    ensures Equal(a, b) == Equal(b, a)
    decreases a
  {
    if a.Items? && b.Items? && |a.items| == |b.items| {
      forall i | 0 <= i < |a.items|
        ensures Equal(a.items[i], b.items[i]) == Equal(b.items[i], a.items[i])
      {
        EqualIsSymmetric(a.items[i], b.items[i]);
      }
    }
  }

  lemma {:induction false} LessRaisesBothWays(a: Value, b: Value)
    ensures Less(a, b).None? <==> Less(b, a).None?
    decreases a, 1
  {
    if a.Items? && b.Items? {
      ItemsLessRaisesBothWays(a.items, b.items);
    }
  }

  lemma {:induction false} ItemsLessRaisesBothWays(a: seq<Value>, b: seq<Value>)
    ensures ItemsLess(a, b).None? <==> ItemsLess(b, a).None?
    decreases a, 0
  {
    if a == [] || b == [] {
    } else {
      EqualIsSymmetric(a[0], b[0]);
      LessRaisesBothWays(a[0], b[0]);
      ItemsLessRaisesBothWays(a[1..], b[1..]);
    }
  }

  /** An ordering filter meets a value of its own type that the language cannot order. */
  predicate Incomparable(f: Filter, props: Properties) {
    && f.key in props && IsOrdering(f.operator) && SameType(props[f.key], f.value)
    && Less(f.value, props[f.key]).None?
  }

  lemma FilterRaisesExactly(lib: Library, f: Filter, props: Properties)
    ensures MatchFilter(lib, f, props).Raises? <==> Incomparable(f, props)
  {
    if f.key in props {
      LessRaisesBothWays(f.value, props[f.key]);
    }
  }

  /** Such a filter comes after filters that all match. */
  predicate MeetsIncomparable(lib: Library, filters: seq<Filter>, props: Properties) {
    exists h | 0 <= h < |filters| ::
      Incomparable(filters[h], props) && forall i | 0 <= i < h :: MatchFilter(lib, filters[i], props).Matches?
  }

  lemma {:induction false} MatchAllRaisesExactly(lib: Library, filters: seq<Filter>, props: Properties)
    ensures MatchAll(lib, filters, props).Raises? <==> MeetsIncomparable(lib, filters, props)
  {
    if filters == [] {
    } else {
      var rest := filters[1..];
      FilterRaisesExactly(lib, filters[0], props);
      MatchAllRaisesExactly(lib, rest, props);
      if MatchFilter(lib, filters[0], props).Matches? && MeetsIncomparable(lib, rest, props) {
        var h :| 0 <= h < |rest| && Incomparable(rest[h], props)
                 && forall i | 0 <= i < h :: MatchFilter(lib, rest[i], props).Matches?;
        forall i | 0 <= i < h + 1
          ensures MatchFilter(lib, filters[i], props).Matches?
        {
          assert i > 0 ==> filters[i] == rest[i - 1];
        }
        assert Incomparable(filters[h + 1], props);
      }
      if MeetsIncomparable(lib, filters, props) {
        var h :| 0 <= h < |filters| && Incomparable(filters[h], props)
                 && forall i | 0 <= i < h :: MatchFilter(lib, filters[i], props).Matches?;
        if h > 0 {
          assert Incomparable(rest[h - 1], props);
          assert forall i | 0 <= i < h - 1 :: rest[i] == filters[i + 1];
        }
      }
    }
  }

  /** A condition raises, and none before it matches. */
  predicate RaisesFirst(matches: seq<Match>) {
    exists j | 0 <= j < |matches| :: matches[j].Raises? && forall i | 0 <= i < j :: !matches[i].Matches?
  }

  lemma {:induction false} VerdictRaisesExactly(matches: seq<Match>, on: Answer)
    ensures VerdictOf(matches, on).Raised? <==> RaisesFirst(matches)
  {
    if matches == [] {
    } else {
      var rest := matches[1..];
      VerdictRaisesExactly(rest, on);
      if !matches[0].Matches? && RaisesFirst(rest) {
        var j :| 0 <= j < |rest| && rest[j].Raises? && forall i | 0 <= i < j :: !rest[i].Matches?;
        forall i | 0 <= i < j + 1
          ensures !matches[i].Matches?
        {
          assert i > 0 ==> matches[i] == rest[i - 1];
        }
        assert matches[j + 1].Raises?;
      }
      if RaisesFirst(matches) {
        var j :| 0 <= j < |matches| && matches[j].Raises? && forall i | 0 <= i < j :: !matches[i].Matches?;
        if j > 0 {
          assert rest[j - 1].Raises?;
          assert forall i | 0 <= i < j - 1 :: rest[i] == matches[i + 1];
        }
      }
    }
  }

  /** Before any condition that matches, the evaluation comes upon a filter and a value that do not
      compare. */
  predicate Clashes(lib: Library, flag: Flag, distinctId: string, props: Properties) {
    exists j | 0 <= j < |flag.conditions| ::
      && MeetsIncomparable(lib, flag.conditions[j].filters, props)
      && forall i | 0 <= i < j :: !MatchCondition(lib, flag.key, distinctId, flag.conditions[i], props).Matches?
  }

  lemma EvaluationRaisesExactly(lib: Library, flag: Flag, distinctId: string, props: Properties)
    ensures EvaluateFlag(lib, flag, distinctId, props).Raised? <==> Clashes(lib, flag, distinctId, props)
  {
    var matches := MatchConditions(lib, flag, distinctId, props);
    forall j | 0 <= j < |matches|
      ensures matches[j].Raises? <==> MeetsIncomparable(lib, flag.conditions[j].filters, props)
    {
      MatchAllRaisesExactly(lib, flag.conditions[j].filters, props);
    }
    VerdictRaisesExactly(matches, OnAnswer(lib, flag, distinctId));
  }

  /** A definite answer stays the answer when more properties become known, if and only if none of them
      clashes with an ordering filter; and "off" always stays. */
  lemma AnswerStable(lib: Library, flag: Flag, distinctId: string, fewer: Properties, more: Properties)
    requires Extends(fewer, more)
    requires EvaluateFlag(lib, flag, distinctId, fewer).Decided?
    ensures EvaluateFlag(lib, flag, distinctId, more) == EvaluateFlag(lib, flag, distinctId, fewer)
            <==> !Clashes(lib, flag, distinctId, more)
    ensures EvaluateFlag(lib, flag, distinctId, fewer) == Decided(Off) ==>
            EvaluateFlag(lib, flag, distinctId, more) == Decided(Off)
  {
    var a, b := MatchConditions(lib, flag, distinctId, fewer), MatchConditions(lib, flag, distinctId, more);
    forall i | 0 <= i < |a| && !a[i].Inconclusive?
      ensures b[i] == a[i]
    {
      ConditionStable(lib, flag.key, distinctId, flag.conditions[i], fewer, more);
    }
    SettlingKeepsVerdict(a, b, OnAnswer(lib, flag, distinctId));
    EvaluationRaisesExactly(lib, flag, distinctId, more);
  }

  /** A value that compares with every value of its type. */
  predicate AlwaysCompares(v: Value) {
    Number(v).Some? || v.Text? || v == Items([])
  }

  /** A value of the type of v that v is not comparable with. */
  function Incompatible(v: Value): Value
    requires !AlwaysCompares(v)
  {
    if v.Null? then Null else Items([if v.items[0].Null? then Int(0) else Null])
  }

  /** Those are the booleans, the numbers, the texts and the empty list, and no others. */
  lemma AlwaysComparesExactly(v: Value)
    ensures AlwaysCompares(v) <==> forall given | SameType(given, v) :: Less(v, given).Some?
  {
    if !AlwaysCompares(v) {
      var given := Incompatible(v);
      if v.Items? {
        assert !Equal(v.items[0], given.items[0]) && Less(v.items[0], given.items[0]).None?;
        assert ItemsLess(v.items, given.items).None?;
      }
      assert SameType(given, v) && Less(v, given).None?;
    }
  }

  predicate OrdersSafely(flag: Flag) {
    forall c, f | c in flag.conditions && f in c.filters :: IsOrdering(f.operator) ==> AlwaysCompares(f.value)
  }

  /** For flags whose ordering filters compare with such values only, a definite answer is final. */
  lemma AnswerFinal(lib: Library, flag: Flag, distinctId: string, fewer: Properties, more: Properties)
    requires OrdersSafely(flag) && Extends(fewer, more)
    requires EvaluateFlag(lib, flag, distinctId, fewer).Decided?
    ensures EvaluateFlag(lib, flag, distinctId, more) == EvaluateFlag(lib, flag, distinctId, fewer)
  {
    if Clashes(lib, flag, distinctId, more) {
      var j :| 0 <= j < |flag.conditions| && MeetsIncomparable(lib, flag.conditions[j].filters, more);
      var filters := flag.conditions[j].filters;
      var h :| 0 <= h < |filters| && Incomparable(filters[h], more);
      assert flag.conditions[j] in flag.conditions && filters[h] in filters;
      AlwaysComparesExactly(filters[h].value);
      assert false;
    }
    AnswerStable(lib, flag, distinctId, fewer, more);
  }

  /** For others it is not: one more property, and a matched user gets an error. */
  lemma MoreInformationMayRaise(lib: Library)
    ensures var flag := Flag("f", [Condition([Filter("age", Gt, Null)], None), Condition([], None)], []);
            && EvaluateFlag(lib, flag, "u", map[]) == Decided(On)
            && EvaluateFlag(lib, flag, "u", map["age" := Null]) == Raised
  {
    var flag := Flag("f", [Condition([Filter("age", Gt, Null)], None), Condition([], None)], []);
    var few, more := MatchConditions(lib, flag, "u", map[]), MatchConditions(lib, flag, "u", map["age" := Null]);
    assert [Filter("age", Gt, Null)][0] == Filter("age", Gt, Null);
    assert few == [Inconclusive, Matches] && more == [Raises, Matches];
    assert few[1..] == [Matches];
    assert VerdictOf([Matches], On) == Decided(On);
    assert OnAnswer(lib, flag, "u") == On;
  }

  /** A condition that raises and one that matches: their order decides between an error and an answer. */
  lemma OrderMayMatter(lib: Library)
    ensures var raising, matching := Condition([Filter("age", Gt, Null)], None), Condition([], None);
            var props: Properties := map["age" := Null];
            && EvaluateFlag(lib, Flag("f", [raising, matching], []), "u", props) == Raised
            && EvaluateFlag(lib, Flag("f", [matching, raising], []), "u", props) == Decided(On)
  {
    var raising, matching := Condition([Filter("age", Gt, Null)], None), Condition([], None);
    var props: Properties := map["age" := Null];
    var one, other := Flag("f", [raising, matching], []), Flag("f", [matching, raising], []);
    assert raising.filters[0] == Filter("age", Gt, Null);
    assert MatchConditions(lib, one, "u", props)[0] == Raises;
    assert MatchConditions(lib, other, "u", props)[0] == Matches;
    assert OnAnswer(lib, other, "u") == On;
  }

  // ----- higher rollouts -----

  predicate NoLower(a: Option<real>, b: Option<real>) {
    b.None? || (a.Some? && a.value <= b.value)
  }

  lemma {:induction false} MatchInsteadOfFailure(a: seq<Match>, j: nat, on: Answer)
    requires j < |a| && a[j].Fails? && on != Off && VerdictOf(a, on) == Decided(on)
    ensures VerdictOf(a[j := Matches], on) == Decided(on)
  {
    if j == 0 {
    } else {
      assert a[j := Matches][1..] == a[1..][j - 1 := Matches];
      if !a[0].Matches? {
        MatchInsteadOfFailure(a[1..], j - 1, on);
      }
    }
  }

  /** Raising the rollout of any condition loses no matched user and moves none to another variant. */
  lemma HigherRolloutKeepsAnswer(
      lib: Library, flag: Flag, distinctId: string, props: Properties, j: nat, rollout: Option<real>)
    requires j < |flag.conditions| && NoLower(flag.conditions[j].rollout, rollout)
    requires var v := EvaluateFlag(lib, flag, distinctId, props); v.Decided? && v.answer != Off
    ensures var raised := flag.(conditions := flag.conditions[j := flag.conditions[j].(rollout := rollout)]);
            EvaluateFlag(lib, raised, distinctId, props) == EvaluateFlag(lib, flag, distinctId, props)
  {
    var raised := flag.(conditions := flag.conditions[j := flag.conditions[j].(rollout := rollout)]);
    var a, b := MatchConditions(lib, flag, distinctId, props), MatchConditions(lib, raised, distinctId, props);
    assert b == a[j := b[j]];
    if b[j] == a[j] {
      assert b == a;
    } else {
      assert a[j].Fails? && b[j].Matches? by {
        var h := HashOf(lib, flag.key, distinctId, "");
        if flag.conditions[j].rollout.Some? && rollout.Some? {
          assert flag.conditions[j].rollout.value / 100.0 <= rollout.value / 100.0;
        }
      }
      VerdictIsOn(a, OnAnswer(lib, flag, distinctId));
      MatchInsteadOfFailure(a, j, OnAnswer(lib, flag, distinctId));
    }
  }

  lemma {:induction false} VerdictIsOn(matches: seq<Match>, on: Answer)
    ensures var v := VerdictOf(matches, on); v.Decided? ==> v.answer == on || v.answer == Off
  {
    if matches == [] {
    } else {
      VerdictIsOn(matches[1..], on);
    }
  }
}
