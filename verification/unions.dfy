/** The union algebra (`Ts.union` with `pushUnique`): one level of
    flattening, removal of structural duplicates keeping the first, then
    absorption into the universal type, and of literal constants into
    `string`; a lone survivor is returned unwrapped.
 */
module Unions {
  import opened TypeIR

  /** A member as the flattening loop sees it: a union contributes its own
      members, anything else itself. */
  function Expand(t: Type): seq<Type>
  {
    if t.Union? then t.members else [t]
  }

  /** One level of union flattening, in input order. */
  function Flatten(ts: seq<Type>): (r: seq<Type>)
  {
    if |ts| == 0 then [] else Flatten(ts[..|ts| - 1]) + Expand(ts[|ts| - 1])
  }

  /** Some member of `acc` is structurally equal to `v`. */
  predicate Covered(acc: seq<Type>, v: Type)
  {
    exists k :: 0 <= k < |acc| && TypeEqual(acc[k], v)
  }

  /** `pushUnique`: append `v` unless a structurally equal member is
      already there. */
  function PushUnique(acc: seq<Type>, v: Type): seq<Type>
  {
    if Covered(acc, v) then acc else acc + [v]
  }

  /** `pushUnique` either keeps the list or appends `v`, and afterwards
      `v` is covered. */
  lemma PushUniqueProperties(acc: seq<Type>, v: Type)
    ensures PushUnique(acc, v) == acc || PushUnique(acc, v) == acc + [v]
    ensures PushUnique(acc, v) == acc <==> Covered(acc, v)
    ensures Covered(PushUnique(acc, v), v)
  {
    if !Covered(acc, v) {
      var r := acc + [v];
      assert r[|acc|] == v;
      TypeEqualIsEquivalence(v, v, v);
      assert TypeEqual(r[|acc|], v);
    }
  }

  /** `pushUnique` adds nothing structurally equal to a member already there. */
  lemma PushUniqueKeepsDistinct(acc: seq<Type>, v: Type)
    requires forall i, j :: 0 <= i < j < |acc| ==> !TypeEqual(acc[i], acc[j])
    ensures forall i, j :: 0 <= i < j < |PushUnique(acc, v)| ==> !TypeEqual(PushUnique(acc, v)[i], PushUnique(acc, v)[j])
  {
    if !Covered(acc, v) {
      var r := acc + [v];
      forall i, j | 0 <= i < j < |r| ensures !TypeEqual(r[i], r[j]) {
        if j == |acc| {
          assert r[i] == acc[i];
        }
      }
    }
  }

  lemma CoveredGrows(acc: seq<Type>, r: seq<Type>, x: Type)
    requires acc <= r
    requires Covered(acc, x)
    ensures Covered(r, x)
  {
    var m :| 0 <= m < |acc| && TypeEqual(acc[m], x);
    assert r[m] == acc[m];
  }

  /** `pushUnique` applied to every element in turn, starting empty. */
  function Dedup(xs: seq<Type>): seq<Type>
  {
    if |xs| == 0 then [] else PushUnique(Dedup(xs[..|xs| - 1]), xs[|xs| - 1])
  }

  /** Deduplication leaves no two structurally equal members. */
  lemma {:induction false} DedupDistinct(xs: seq<Type>)
    ensures forall i, j :: 0 <= i < j < |Dedup(xs)| ==> !TypeEqual(Dedup(xs)[i], Dedup(xs)[j])
  {
    if |xs| > 0 {
      DedupDistinct(xs[..|xs| - 1]);
      PushUniqueKeepsDistinct(Dedup(xs[..|xs| - 1]), xs[|xs| - 1]);
    }
  }

  /** Every member of a deduplicated list comes from the input. */
  lemma {:induction false} DedupFromInput(xs: seq<Type>)
    ensures |Dedup(xs)| <= |xs|
    ensures forall i :: 0 <= i < |Dedup(xs)| ==> Dedup(xs)[i] in xs
  {
    if |xs| > 0 {
      var front := xs[..|xs| - 1];
      DedupFromInput(front);
      PushUniqueProperties(Dedup(front), xs[|xs| - 1]);
      assert xs == front + [xs[|xs| - 1]];
      forall i | 0 <= i < |Dedup(xs)| ensures Dedup(xs)[i] in xs {
        if i < |Dedup(front)| {
          assert Dedup(xs)[i] == Dedup(front)[i];
          assert Dedup(front)[i] in front;
        }
      }
    }
  }

  /** Every input element has a structurally equal member in the result. */
  lemma {:induction false} DedupCovers(xs: seq<Type>)
    ensures forall k :: 0 <= k < |xs| ==> Covered(Dedup(xs), xs[k])
  {
    if |xs| > 0 {
      var front := xs[..|xs| - 1];
      var acc := Dedup(front);
      DedupCovers(front);
      PushUniqueProperties(acc, xs[|xs| - 1]);
      forall k | 0 <= k < |xs| ensures Covered(Dedup(xs), xs[k]) {
        if k < |xs| - 1 {
          assert front[k] == xs[k];
          CoveredGrows(acc, Dedup(xs), front[k]);
        }
      }
    }
  }

  /** Element `k` is the first of its structural-equality class. */
  predicate FirstOfClass(xs: seq<Type>, k: int)
    requires 0 <= k < |xs|
  {
    forall j :: 0 <= j < k ==> !TypeEqual(xs[j], xs[k])
  }

  /** The elements that are the first of their class, in input order. */
  function FirstOccurrences(xs: seq<Type>): seq<Type>
  {
    if |xs| == 0 then []
    else FirstOccurrences(xs[..|xs| - 1]) + (if FirstOfClass(xs, |xs| - 1) then [xs[|xs| - 1]] else [])
  }

  /** Something is covered by the deduplicated list exactly when it is
      structurally equal to some input element. */
  lemma DedupCoveredIff(xs: seq<Type>, v: Type)
    ensures Covered(Dedup(xs), v) <==> exists j :: 0 <= j < |xs| && TypeEqual(xs[j], v)
  {
    if Covered(Dedup(xs), v) {
      CoveredByDedupOnlyInput(xs, v);
    }
    if exists j :: 0 <= j < |xs| && TypeEqual(xs[j], v) {
      var j :| 0 <= j < |xs| && TypeEqual(xs[j], v);
      InputCoveredByDedup(xs, v, j);
    }
  }

  lemma CoveredByDedupOnlyInput(xs: seq<Type>, v: Type)
    requires Covered(Dedup(xs), v)
    ensures exists j :: 0 <= j < |xs| && TypeEqual(xs[j], v)
  {
    var acc := Dedup(xs);
    DedupFromInput(xs);
    var m :| 0 <= m < |acc| && TypeEqual(acc[m], v);
    assert acc[m] in xs;
    var j :| 0 <= j < |xs| && xs[j] == acc[m];
    assert TypeEqual(xs[j], v);
  }

  lemma InputCoveredByDedup(xs: seq<Type>, v: Type, j: int)
    requires 0 <= j < |xs| && TypeEqual(xs[j], v)
    ensures Covered(Dedup(xs), v)
  {
    var acc := Dedup(xs);
    DedupCovers(xs);
    assert Covered(acc, xs[j]);
    var m :| 0 <= m < |acc| && TypeEqual(acc[m], xs[j]);
    TypeEqualIsEquivalence(acc[m], xs[j], v);
  }

  /** Deduplication keeps exactly the first element of every class of
      structurally equal elements, in input order. */
  lemma {:induction false} DedupKeepsFirstOccurrences(xs: seq<Type>)
    ensures Dedup(xs) == FirstOccurrences(xs)
  {
    if |xs| > 0 {
      var n := |xs|;
      var front := xs[..n - 1];
      var v := xs[n - 1];
      DedupKeepsFirstOccurrences(front);
      DedupCoveredIff(front, v);
      assert Covered(Dedup(front), v) <==> !FirstOfClass(xs, n - 1) by {
        assert forall j :: 0 <= j < n - 1 ==> front[j] == xs[j];
      }
    }
  }

  /** The members that are not literal constants, in order. */
  function NonConsts(ts: seq<Type>): (r: seq<Type>)
    ensures forall i :: 0 <= i < |r| ==> !r[i].Const? && r[i] in ts
    ensures forall k :: 0 <= k < |ts| && !ts[k].Const? ==> ts[k] in r
    ensures (forall k :: 0 <= k < |ts| ==> !ts[k].Const?) ==> r == ts
  {
    if |ts| == 0 then []
    else
      var rest := NonConsts(ts[..|ts| - 1]);
      var last := ts[|ts| - 1];
      assert ts == ts[..|ts| - 1] + [last];
      if last.Const? then rest else rest + [last]
  }

  /** The members a union keeps once the universal constant is known not to
      be among them: flattened, deduplicated, and without constants when
      `string` is among them. */
  function Survivors(ts: seq<Type>): seq<Type>
  {
    var members := Dedup(Flatten(ts));
    if StringType in members then NonConsts(members) else members
  }

  /** The universal constant is a flattened member, and no member before it
      is a reference of the same name: then it survives deduplication, and
      `Ts.union` finds it by identity. */
  predicate Absorbs(d: Dialect, xs: seq<Type>)
  {
    exists k :: 0 <= k < |xs| && xs[k] == AnyType(d) && FirstOfClass(xs, k)
  }

  /** `Ts.union`. The result is the universal type exactly when the
      universal constant is the first flattened member of its name;
      otherwise it is the lone survivor, or a union of all survivors. */
  function UnionOf(d: Dialect, ts: seq<Type>): (r: Type)
    ensures r == AnyType(d) <==> Absorbs(d, Flatten(ts))
    ensures !Absorbs(d, Flatten(ts)) ==>
      if |Survivors(ts)| == 1 then r == Survivors(ts)[0] else r == Union(Survivors(ts))
  {
    var members := Dedup(Flatten(ts));
    UniversalInDedup(d, Flatten(ts));
    DedupFromInput(Flatten(ts));
    if AnyType(d) in members then AnyType(d)
    else
      var kept := if StringType in members then NonConsts(members) else members;
      if |kept| == 1 then kept[0] else Union(kept)
  }

  /** A name the universal type goes by in either generation. */
  predicate UniversalName(n: string)
  {
    n == AnyName(Library) || n == AnyName(Script)
  }

  /** A named reference that no universal constant is structurally equal
      to survives deduplication exactly when it occurs. */
  lemma RefInDedup(xs: seq<Type>, t: Type)
    requires t.Ref? && !UniversalName(t.name)
    ensures t in Dedup(xs) <==> t in xs
  {
    DedupFromInput(xs);
    DedupCovers(xs);
    if t in xs {
      var k :| 0 <= k < |xs| && xs[k] == t;
      assert Covered(Dedup(xs), xs[k]);
      var m :| 0 <= m < |Dedup(xs)| && TypeEqual(Dedup(xs)[m], t);
      EqualToPlainRef(Dedup(xs)[m], t);
    }
  }

  /** Only the reference itself is structurally equal to a named reference
      that no universal constant is equal to. */
  lemma EqualToPlainRef(x: Type, t: Type)
    requires t.Ref? && !UniversalName(t.name) && TypeEqual(x, t)
    ensures x == t
  {
    match x
    case Ref(_) =>
    case Universal(d) =>
  }

  /** Without the universal constant among the members, nothing absorbs. */
  lemma NoUniversalNoAbsorb(d: Dialect, xs: seq<Type>)
    requires AnyType(d) !in xs
    ensures !Absorbs(d, xs)
  {
  }

  /** An element is kept by the first-occurrence filter exactly when one of
      its occurrences is the first of its class. */
  lemma {:induction false} InFirstOccurrences(xs: seq<Type>, t: Type)
    ensures t in FirstOccurrences(xs) <==> exists k :: 0 <= k < |xs| && xs[k] == t && FirstOfClass(xs, k)
  {
    if |xs| > 0 {
      var n := |xs|;
      var front := xs[..n - 1];
      InFirstOccurrences(front, t);
      forall k | 0 <= k < n - 1 ensures front[k] == xs[k] && (FirstOfClass(front, k) <==> FirstOfClass(xs, k)) {
        assert forall j :: 0 <= j < k ==> front[j] == xs[j];
      }
      if exists k :: 0 <= k < n && xs[k] == t && FirstOfClass(xs, k) {
        var k :| 0 <= k < n && xs[k] == t && FirstOfClass(xs, k);
        if k < n - 1 {
          assert front[k] == t && FirstOfClass(front, k);
        }
      }
    }
  }

  /** The universal constant survives deduplication exactly when it is the
      first flattened member of its name. */
  lemma UniversalInDedup(d: Dialect, xs: seq<Type>)
    ensures AnyType(d) in Dedup(xs) <==> Absorbs(d, xs)
  {
    DedupKeepsFirstOccurrences(xs);
    InFirstOccurrences(xs, AnyType(d));
  }

  /** A union that starts with the universal constant is the universal
      type. */
  lemma LeadingUniversalAbsorbs(d: Dialect, ts: seq<Type>)
    requires |ts| >= 1 && ts[0] == AnyType(d)
    ensures UnionOf(d, ts) == AnyType(d)
  {
    FlattenStartsWith(ts);
    var xs := Flatten(ts);
    assert FirstOfClass(xs, 0);
    assert Absorbs(d, xs);
  }

  /** A list that starts with a non-union type flattens to a list that
      starts with it. */
  lemma {:induction false} FlattenStartsWith(ts: seq<Type>)
    requires |ts| >= 1 && !ts[0].Union?
    ensures |Flatten(ts)| >= 1 && Flatten(ts)[0] == ts[0]
  {
    var front := ts[..|ts| - 1];
    if |ts| == 1 {
      assert front == [];
    } else {
      assert front[0] == ts[0];
      FlattenStartsWith(front);
    }
  }

  /** The universal type's name is not `string`. */
  lemma AnyNameNotString(d: Dialect)
    ensures Ref(AnyName(d)) != StringType
  {
    match d
    case Library => assert |LibraryAnyName| == 17;
    case Script => assert |ScriptAnyName| == 3;
  }

  /** The identity test makes `Ts.union` depend on order: a fresh reference
      named like the universal type met first hides the constant, which
      deduplication then drops, while the constant met first absorbs
      everything. */
  lemma UniversalOrderMatters(d: Dialect)
    ensures UnionOf(d, [Ref(AnyName(d)), AnyType(d)]) == Ref(AnyName(d))
    ensures UnionOf(d, [AnyType(d), Ref(AnyName(d))]) == AnyType(d)
  {
    var named := Ref(AnyName(d));
    FlattenOfNonUnions([named, AnyType(d)]);
    NamedFirstHidesUniversal(d);
    LeadingUniversalAbsorbs(d, [AnyType(d), named]);
  }

  /** A reference named like the universal type, met first, leaves the
      constant no survivor of its own. */
  lemma NamedFirstHidesUniversal(d: Dialect)
    ensures !Absorbs(d, [Ref(AnyName(d)), AnyType(d)])
    ensures Dedup([Ref(AnyName(d)), AnyType(d)]) == [Ref(AnyName(d))]
    ensures StringType !in [Ref(AnyName(d))]
  {
    var named := Ref(AnyName(d));
    var ts := [named, AnyType(d)];
    assert TypeEqual(ts[0], ts[1]);
    assert !FirstOfClass(ts, 1);
    DedupPair(named, AnyType(d));
    AnyNameNotString(d);
  }

  /** Survivors are members of the flattened input. */
  lemma SurvivorsFromInput(ts: seq<Type>)
    ensures forall i :: 0 <= i < |Survivors(ts)| ==> Survivors(ts)[i] in Flatten(ts)
  {
    var xs := Flatten(ts);
    var members := Dedup(xs);
    DedupFromInput(xs);
    var s := Survivors(ts);
    forall i | 0 <= i < |s| ensures s[i] in xs {
      assert s[i] in members;
      var m :| 0 <= m < |members| && members[m] == s[i];
      assert members[m] in xs;
    }
  }

  /** No two survivors are structurally equal. */
  lemma SurvivorsDistinct(ts: seq<Type>)
    ensures forall i, j :: 0 <= i < j < |Survivors(ts)| ==> !TypeEqual(Survivors(ts)[i], Survivors(ts)[j])
  {
    var members := Dedup(Flatten(ts));
    DedupDistinct(Flatten(ts));
    var s := Survivors(ts);
    if StringType in members {
      forall i, j | 0 <= i < j < |s| ensures !TypeEqual(s[i], s[j]) {
        NonConstsKeepsDistinct(members, i, j);
      }
    }
  }

  /** Once `string` is a flattened member, no constant survives. */
  lemma SurvivorsWithoutConstants(ts: seq<Type>)
    requires StringType in Flatten(ts)
    ensures forall i :: 0 <= i < |Survivors(ts)| ==> !Survivors(ts)[i].Const?
  {
    RefInDedup(Flatten(ts), StringType);
  }

  /** Every flattened member is represented by a structurally equal
      survivor, except constants that `string` absorbed. */
  lemma SurvivorsCover(ts: seq<Type>)
    ensures forall k :: 0 <= k < |Flatten(ts)| && !(StringType in Flatten(ts) && Flatten(ts)[k].Const?) ==>
      Covered(Survivors(ts), Flatten(ts)[k])
  {
    var xs := Flatten(ts);
    RefInDedup(xs, StringType);
    DedupCovers(xs);
    forall k | 0 <= k < |xs| && !(StringType in xs && xs[k].Const?) ensures Covered(Survivors(ts), xs[k]) {
      SurvivorCovers(xs, Dedup(xs), xs[k]);
    }
  }

  /** A member covered by the deduplicated list is covered by what is
      left once `string` drops the constants, unless it is a constant
      itself. */
  lemma SurvivorCovers(xs: seq<Type>, members: seq<Type>, v: Type)
    requires members == Dedup(xs) && Covered(members, v)
    requires StringType in members ==> !v.Const?
    ensures Covered(if StringType in members then NonConsts(members) else members, v)
  {
    if StringType in members {
      var s := NonConsts(members);
      var m :| 0 <= m < |members| && TypeEqual(members[m], v);
      ConstsEqualOnlyConsts(members[m], v);
      assert members[m] in s;
      var q :| 0 <= q < |s| && s[q] == members[m];
    }
  }

  /** A constant is structurally equal to constants only. */
  lemma ConstsEqualOnlyConsts(a: Type, b: Type)
    requires TypeEqual(a, b)
    ensures a.Const? <==> b.Const?
  {
  }

  /** Filtering keeps members apart that were apart. */
  lemma {:induction false} NonConstsKeepsDistinct(ms: seq<Type>, i: int, j: int)
    requires forall a, b :: 0 <= a < b < |ms| ==> !TypeEqual(ms[a], ms[b])
    requires 0 <= i < j < |NonConsts(ms)|
    ensures !TypeEqual(NonConsts(ms)[i], NonConsts(ms)[j])
  {
    var n := |ms|;
    var front := ms[..n - 1];
    var rest := NonConsts(front);
    assert forall a :: 0 <= a < n - 1 ==> front[a] == ms[a];
    if j < |rest| {
      NonConstsKeepsDistinct(front, i, j);
    } else {
      assert NonConsts(ms)[j] == ms[n - 1];
      assert NonConsts(ms)[i] == rest[i];
      assert rest[i] in front;
      var a :| 0 <= a < n - 1 && front[a] == rest[i];
    }
  }

  /** Inputs whose flattened members are not themselves unions. Every union
      the generator builds has that shape, since it only ever nests results
      of `UnionOf`. */
  predicate FlatInput(ts: seq<Type>)
  {
    forall k :: 0 <= k < |Flatten(ts)| ==> !Flatten(ts)[k].Union?
  }

  lemma DedupOfDistinct(xs: seq<Type>)
    requires forall i, j :: 0 <= i < j < |xs| ==> !TypeEqual(xs[i], xs[j])
    ensures Dedup(xs) == xs
  {
    DedupKeepsFirstOccurrences(xs);
    FirstOccurrencesOfDistinct(xs);
  }

  lemma {:induction false} FirstOccurrencesOfDistinct(xs: seq<Type>)
    requires forall i, j :: 0 <= i < j < |xs| ==> !TypeEqual(xs[i], xs[j])
    ensures FirstOccurrences(xs) == xs
  {
    if |xs| > 0 {
      FirstOccurrencesOfDistinct(xs[..|xs| - 1]);
      assert FirstOfClass(xs, |xs| - 1);
      assert xs == xs[..|xs| - 1] + [xs[|xs| - 1]];
    }
  }

  /** Forming a union of a union result changes nothing, provided the
      input's flattened members are not unions themselves. */
  lemma UnionIdempotent(d: Dialect, ts: seq<Type>)
    requires FlatInput(ts)
    ensures UnionOf(d, [UnionOf(d, ts)]) == UnionOf(d, ts)
  {
    var r := UnionOf(d, ts);
    if Absorbs(d, Flatten(ts)) {
      LeadingUniversalAbsorbs(d, [r]);
    } else {
      var s := Survivors(ts);
      SurvivorFacts(d, ts);
      if |s| == 1 {
        SingleSurvivor(r);
      } else {
        UnionOfUnionAgain(d, s);
      }
    }
  }

  /** What the survivors of a union that nothing absorbs are like. */
  lemma SurvivorFacts(d: Dialect, ts: seq<Type>)
    requires FlatInput(ts) && !Absorbs(d, Flatten(ts))
    ensures var s := Survivors(ts);
      (forall i :: 0 <= i < |s| ==> !s[i].Union? && s[i] != AnyType(d)) &&
      (forall i, j :: 0 <= i < j < |s| ==> !TypeEqual(s[i], s[j])) &&
      (StringType in s ==> forall i :: 0 <= i < |s| ==> !s[i].Const?)
  {
    var xs := Flatten(ts);
    var s := Survivors(ts);
    SurvivorsFromInput(ts);
    SurvivorsDistinct(ts);
    UniversalInDedup(d, xs);
    DedupFromInput(xs);
    if StringType in s {
      assert StringType in xs;
      SurvivorsWithoutConstants(ts);
    }
  }

  /** A union of distinct plain members, none absorbing, unions to itself. */
  lemma UnionOfUnionAgain(d: Dialect, s: seq<Type>)
    requires |s| != 1
    requires forall i :: 0 <= i < |s| ==> !s[i].Union? && s[i] != AnyType(d)
    requires forall i, j :: 0 <= i < j < |s| ==> !TypeEqual(s[i], s[j])
    requires StringType in s ==> forall i :: 0 <= i < |s| ==> !s[i].Const?
    ensures UnionOf(d, [Union(s)]) == Union(s)
  {
    assert Flatten([Union(s)]) == s by { assert [Union(s)][..0] == []; }
    NoUniversalNoAbsorb(d, s);
    DedupOfDistinct(s);
    if StringType in s {
      NonConstsOfConstFree(s);
    }
  }

  /** A single non-union type is its own union. */
  lemma SingleSurvivor(r: Type)
    requires !r.Union?
    ensures Survivors([r]) == [r]
  {
    assert Flatten([r]) == [r] by { assert [r][..0] == []; }
    DedupOfDistinct([r]);
    if StringType == r {
      NonConstsOfConstFree([r]);
    }
  }

  lemma NonConstsOfConstFree(ts: seq<Type>)
    requires forall k :: 0 <= k < |ts| ==> !ts[k].Const?
    ensures NonConsts(ts) == ts
  {
  }

  /** The flatness condition is needed: a union nested two levels deep is
      flattened one level per call, so a second call still changes it. */
  lemma UnionNotIdempotentOnNestedInput(d: Dialect)
    ensures var ts := [Union([Union([NumberType, NumberType])])];
      UnionOf(d, [UnionOf(d, ts)]) != UnionOf(d, ts)
  {
    var inner := Union([NumberType, NumberType]);
    var ts := [Union([inner])];
    assert Flatten(ts) == [inner] by { assert ts[..0] == []; }
    assert Dedup([inner]) == [inner] by { DedupOfDistinct([inner]); }
    assert Survivors(ts) == [inner];
    NoUniversalNoAbsorb(d, [inner]);
    assert UnionOf(d, ts) == inner;
    assert Flatten([inner]) == [NumberType, NumberType] by { assert [inner][..0] == []; }
    var two := [NumberType, NumberType];
    assert two[..1] == [NumberType];
    assert Dedup([NumberType]) == [NumberType] by { DedupOfDistinct([NumberType]); }
    assert Covered([NumberType], NumberType) by { assert TypeEqual(NumberType, NumberType); }
    assert Dedup(two) == [NumberType];
    assert Survivors([inner]) == [NumberType];
    NoUniversalNoAbsorb(d, two);
  }

  /** Flattening leaves a list without unions as it is. */
  lemma {:induction false} FlattenOfNonUnions(ts: seq<Type>)
    requires forall k :: 0 <= k < |ts| ==> !ts[k].Union?
    ensures Flatten(ts) == ts
  {
    if |ts| > 0 {
      FlattenOfNonUnions(ts[..|ts| - 1]);
      assert ts == ts[..|ts| - 1] + [ts[|ts| - 1]];
    }
  }

  /** Deduplicating two types keeps the second only when it differs. */
  lemma DedupPair(a: Type, b: Type)
    ensures Dedup([a, b]) == if TypeEqual(a, b) then [a] else [a, b]
  {
    assert Dedup([a]) == [a] by {
      assert [a][..0] == [];
    }
    assert Dedup([a, b]) == PushUnique([a], b) by {
      assert [a, b][..1] == [a];
    }
    CoveredSingle(a, b);
  }

  /** One type covers exactly the types structurally equal to it. */
  lemma CoveredSingle(a: Type, b: Type)
    ensures Covered([a], b) <==> TypeEqual(a, b)
  {
    if Covered([a], b) {
      var k :| 0 <= k < 1 && TypeEqual([a][k], b);
    }
    if TypeEqual(a, b) {
      assert TypeEqual([a][0], b);
    }
  }

  /** The union of two types that are neither unions nor the universal
      constant is decided by their deduplication alone. */
  /** Pairwise distinct plain members without the string type form a union
      of exactly themselves. */
  lemma UnionOfDistinct(d: Dialect, ms: seq<Type>)
    requires |ms| >= 2 && StringType !in ms
    requires forall k :: 0 <= k < |ms| ==> !ms[k].Union? && ms[k] != AnyType(d)
    requires forall i, j :: 0 <= i < j < |ms| ==> !TypeEqual(ms[i], ms[j])
    ensures UnionOf(d, ms) == Union(ms)
  {
    FlattenOfNonUnions(ms);
    NoUniversalNoAbsorb(d, ms);
    DedupOfDistinct(ms);
    assert Survivors(ms) == ms;
  }

  lemma UnionOfPair(d: Dialect, a: Type, b: Type)
    requires !a.Union? && !b.Union? && a != AnyType(d) && b != AnyType(d)
    ensures Flatten([a, b]) == [a, b] && !Absorbs(d, [a, b])
    ensures UnionOf(d, [a, b]) == var s := Survivors([a, b]); if |s| == 1 then s[0] else Union(s)
  {
    FlattenOfNonUnions([a, b]);
    NoUniversalNoAbsorb(d, [a, b]);
  }

  /** A string absorbs literal constants of every kind. */
  lemma StringAbsorbsConstants(d: Dialect, c: Literal)
    ensures UnionOf(d, [StringType, Const(c)]) == StringType
  {
    var ts := [StringType, Const(c)];
    UnionOfPair(d, StringType, Const(c));
    DedupPair(StringType, Const(c));
    assert NonConsts(ts) == [StringType] by {
      assert ts[..1] == [StringType];
      assert [StringType][..0] == [];
    }
  }

  /** `number` absorbs nothing: a numeric constant stays beside it. */
  lemma NumberKeepsConstants(d: Dialect, n: int)
    ensures UnionOf(d, [NumberType, Const(IntLit(n))]) == Union([NumberType, Const(IntLit(n))])
  {
    UnionOfPair(d, NumberType, Const(IntLit(n)));
    DedupPair(NumberType, Const(IntLit(n)));
  }

  /** Two generic references always collapse into the first, whatever
      their ids and arguments. */
  lemma GenericRefsCollapse(d: Dialect, id1: string, args1: seq<Type>, id2: string, args2: seq<Type>)
    ensures UnionOf(d, [GenericRef(id1, args1), GenericRef(id2, args2)]) == GenericRef(id1, args1)
  {
    var g := GenericRef(id1, args1);
    UnionOfPair(d, g, GenericRef(id2, args2));
    DedupPair(g, GenericRef(id2, args2));
    assert Survivors([g, GenericRef(id2, args2)]) == [g];
  }

  /** A single type that is not a union is its own union. */
  lemma UnionOfOne(d: Dialect, t: Type)
    requires !t.Union?
    ensures UnionOf(d, [t]) == t
  {
    assert Flatten([t]) == [t] by { assert [t][..0] == []; }
    SingleSurvivor(t);
  }

  /** Flattening distributes over concatenation. */
  lemma {:induction false} FlattenAppend(a: seq<Type>, b: seq<Type>)
    ensures Flatten(a + b) == Flatten(a) + Flatten(b)
  {
    if |b| > 0 {
      var n := |b|;
      assert (a + b)[..|a + b| - 1] == a + b[..n - 1];
      assert (a + b)[|a + b| - 1] == b[n - 1];
      FlattenAppend(a, b[..n - 1]);
    } else {
      assert a + b == a;
    }
  }

  /** A member that is not a union survives flattening. */
  lemma {:induction false} NonUnionInFlatten(ts: seq<Type>, k: int)
    requires 0 <= k < |ts| && !ts[k].Union?
    ensures ts[k] in Flatten(ts)
  {
    var n := |ts|;
    if k == n - 1 {
      assert Flatten(ts) == Flatten(ts[..n - 1]) + [ts[k]];
    } else {
      assert ts[..n - 1][k] == ts[k];
      NonUnionInFlatten(ts[..n - 1], k);
    }
  }

  /** A named reference among the flattened members is never lost: unless
      the universal type absorbs everything, the union is that reference or
      has it as a member. */
  lemma UnionKeepsRef(d: Dialect, ts: seq<Type>, t: Type)
    requires t.Ref? && !UniversalName(t.name) && t in Flatten(ts)
    ensures UnionOf(d, ts) == AnyType(d) || UnionOf(d, ts) == t ||
      (UnionOf(d, ts).Union? && t in UnionOf(d, ts).members)
  {
    if !Absorbs(d, Flatten(ts)) {
      RefSurvives(ts, t);
    }
  }

  /** A named reference among the flattened members survives. */
  lemma RefSurvives(ts: seq<Type>, t: Type)
    requires t.Ref? && !UniversalName(t.name) && t in Flatten(ts)
    ensures t in Survivors(ts)
  {
    var xs := Flatten(ts);
    var s := Survivors(ts);
    var k :| 0 <= k < |xs| && xs[k] == t;
    assert Covered(s, xs[k]) by {
      SurvivorsCover(ts);
    }
    var m :| 0 <= m < |s| && TypeEqual(s[m], t);
    EqualToPlainRef(s[m], t);
  }
}
