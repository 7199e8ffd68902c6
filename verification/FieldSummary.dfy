/**
 The census accumulator's summary of one field: kinds, an enumeration of its values while they are
 few, and a few samples, kept in constant space and saved and restored along the way.
 */
module FieldSummary {
  import opened Sql

  datatype Kind = KString | KInt | KFloat | KBool | KTimestamp | KDuration | KUuid | KGeo | KEmpty

  predicate Categorical(k: Kind) {
    k == KString || k == KInt || k == KBool
  }

  const MAX_SAMPLES := 5

  /** `types` and `values` are created lazily, so they can be absent. */
  datatype Field = Field(
    kind: string,
    occurrences: nat,
    firstSeen: int,
    lastSeen: int,
    types: Option<map<Kind, nat>>,
    distinct: nat,
    truncated: bool,
    values: Option<map<string, nat>>,
    samples: seq<string>)

  function NewField(kind: string, now: int): Field {
    Field(kind, 0, now, now, None, 0, false, None, [])
  }

  /** How values are classified and how many are enumerated before giving up. */
  datatype Rules = Rules(classify: string -> Kind, maxEnum: nat)

  function OrEmpty<K, V>(m: Option<map<K, V>>): map<K, V> {
    if m.Some? then m.value else map[]
  }

  function CountOf<K>(m: map<K, nat>, k: K): nat {
    if k in m then m[k] else 0
  }

  function Bump<K>(m: map<K, nat>, k: K): map<K, nat> {
    m[k := CountOf(m, k) + 1]
  }

  // ---------- the operations ----------

  function SampleAdded(samples: seq<string>, value: string): seq<string> {
    if |samples| >= MAX_SAMPLES || value in samples then samples else samples + [value]
  }

  /** `addSample`: a linear search before appending. */
  method AddSample(samples: seq<string>, value: string) returns (r: seq<string>)
    ensures r == SampleAdded(samples, value)
  {
    if |samples| >= MAX_SAMPLES {
      return samples;
    }
    for i := 0 to |samples|
      invariant value !in samples[..i]
    {
      if samples[i] == value {
        return samples;
      }
    }
    r := samples + [value];
  }

  /** The enumeration part of `addValue`. */
  function Enumerated(f: Field, value: string, rules: Rules): Field {
    if !Categorical(rules.classify(value)) || f.truncated then f
    else
      var values := OrEmpty(f.values);
      if CountOf(values, value) > 0 || |values| < rules.maxEnum then
        var more := Bump(values, value);
        f.(values := Some(more), distinct := |more|)
      else
        f.(truncated := true, distinct := |values|, values := None)
  }

  /** `addValue` */
  function Added(f: Field, value: string, rules: Rules): Field {
    Enumerated(
      f.(types := Some(Bump(OrEmpty(f.types), rules.classify(value))), samples := SampleAdded(f.samples, value)),
      value, rules)
  }

  /** `addValue` as the source runs it. */
  method AddValue(f: Field, value: string, rules: Rules) returns (r: Field)
    ensures r == Added(f, value, rules)
  {
    r := f;
    var types := if r.types.None? then map[] else r.types.value;
    var k := rules.classify(value);
    types := Bump(types, k);
    var samples := AddSample(r.samples, value);
    r := r.(types := Some(types), samples := samples);
    if !Categorical(k) {
      return;
    }
    if r.truncated {
      return;
    }
    var values := if r.values.None? then map[] else r.values.value;
    if CountOf(values, value) > 0 {
      values := values[value := values[value] + 1];
    } else if |values| < rules.maxEnum {
      values := values[value := 1];
    } else {
      r := r.(truncated := true, distinct := |values|, values := None);
      return;
    }
    r := r.(values := Some(values), distinct := |values|);
  }

  function AddedAll(f: Field, vs: seq<string>, rules: Rules): Field {
    if vs == [] then f else Added(AddedAll(f, vs[..|vs| - 1], rules), vs[|vs| - 1], rules)
  }

  lemma {:induction false} AddedAllConcat(f: Field, a: seq<string>, b: seq<string>, rules: Rules)
    ensures AddedAll(f, a + b, rules) == AddedAll(AddedAll(f, a, rules), b, rules)
  {
    if b == [] {
      assert a + b == a;
    } else {
      assert (a + b)[..|a + b| - 1] == a + b[..|b| - 1];
      AddedAllConcat(f, a, b[..|b| - 1], rules);
    }
  }

  // ---------- the exact reference ----------

  function Count(vs: seq<string>, v: string): nat {
    if vs == [] then 0 else Count(vs[..|vs| - 1], v) + if vs[|vs| - 1] == v then 1 else 0
  }

  function KindCount(vs: seq<string>, k: Kind, classify: string -> Kind): nat {
    if vs == [] then 0 else KindCount(vs[..|vs| - 1], k, classify) + if classify(vs[|vs| - 1]) == k then 1 else 0
  }

  function CategoricalValues(vs: seq<string>, classify: string -> Kind): set<string> {
    set i | 0 <= i < |vs| && classify(vs[i]) in {KString, KInt, KBool} :: vs[i]
  }

  /** Distinct values in order of first appearance. */
  function Firsts(vs: seq<string>): seq<string> {
    if vs == [] then []
    else
      var before, v := Firsts(vs[..|vs| - 1]), vs[|vs| - 1];
      if v in vs[..|vs| - 1] then before else before + [v]
  }

  lemma CategoricalValuesSnoc(vs: seq<string>, classify: string -> Kind)
    requires vs != []
    ensures var n := |vs| - 1;
      CategoricalValues(vs, classify) ==
        CategoricalValues(vs[..n], classify) + if Categorical(classify(vs[n])) then {vs[n]} else {}
  {
    var n := |vs| - 1;
    assert vs == vs[..n] + [vs[n]];
    forall v ensures v in CategoricalValues(vs, classify) <==>
      v in CategoricalValues(vs[..n], classify) || (Categorical(classify(vs[n])) && v == vs[n])
    {
      if v in CategoricalValues(vs, classify) {
        var i :| 0 <= i < |vs| && classify(vs[i]) in {KString, KInt, KBool} && v == vs[i];
        assert i < n ==> vs[..n][i] == v;
      }
      if v in CategoricalValues(vs[..n], classify) {
        var i :| 0 <= i < n && classify(vs[..n][i]) in {KString, KInt, KBool} && v == vs[..n][i];
        assert vs[i] == v;
      }
    }
  }

  /** The enumeration is the exact histogram of these values. */
  ghost predicate IsHistogram(values: map<string, nat>, vs: seq<string>, classify: string -> Kind) {
    && values.Keys == CategoricalValues(vs, classify)
    && forall v :: v in values ==> values[v] == Count(vs, v) && values[v] > 0
  }

  /** Truncated exactly when there are too many distinct values, exact otherwise. */
  ghost predicate EnumerationIsExact(f: Field, vs: seq<string>, rules: Rules) {
    var distinct := CategoricalValues(vs, rules.classify);
    && (f.truncated <==> |distinct| > rules.maxEnum)
    && (f.truncated ==> f.values.None? && f.distinct == rules.maxEnum)
    && (!f.truncated ==> IsHistogram(OrEmpty(f.values), vs, rules.classify) && f.distinct == |distinct|)
    && (f.values.Some? ==> f.values.value != map[])
  }

  lemma {:induction false} CountIsZeroIffAbsent(vs: seq<string>, v: string)
    ensures Count(vs, v) > 0 <==> v in vs
  {
    if vs != [] {
      CountIsZeroIffAbsent(vs[..|vs| - 1], v);
      assert vs == vs[..|vs| - 1] + [vs[|vs| - 1]];
    }
  }

  lemma BumpedHistogram(values: map<string, nat>, vs: seq<string>, classify: string -> Kind)
    requires vs != [] && Categorical(classify(vs[|vs| - 1]))
    requires IsHistogram(values, vs[..|vs| - 1], classify)
    ensures IsHistogram(Bump(values, vs[|vs| - 1]), vs, classify)
    ensures CountOf(values, vs[|vs| - 1]) > 0 <==> vs[|vs| - 1] in CategoricalValues(vs[..|vs| - 1], classify)
  {
    var n := |vs| - 1;
    CategoricalValuesSnoc(vs, classify);
    CountIsZeroIffAbsent(vs[..n], vs[n]);
    if vs[n] in vs[..n] {
      var i :| 0 <= i < n && vs[..n][i] == vs[n];
      assert vs[n] in CategoricalValues(vs[..n], classify);
    }
  }

  lemma OtherKindsKeepHistogram(values: map<string, nat>, vs: seq<string>, classify: string -> Kind)
    requires vs != [] && !Categorical(classify(vs[|vs| - 1]))
    requires IsHistogram(values, vs[..|vs| - 1], classify)
    ensures IsHistogram(values, vs, classify)
  {
    var n := |vs| - 1;
    CategoricalValuesSnoc(vs, classify);
    forall u | u in values ensures u != vs[n] {
      var i :| 0 <= i < n && classify(vs[..n][i]) in {KString, KInt, KBool} && u == vs[..n][i];
    }
  }

  /** One more categorical value while the enumeration is still open. */
  lemma OpenEnumerationStaysExact(f: Field, vs: seq<string>, rules: Rules)
    requires vs != [] && EnumerationIsExact(f, vs[..|vs| - 1], rules) && !f.truncated
    requires Categorical(rules.classify(vs[|vs| - 1]))
    ensures EnumerationIsExact(Enumerated(f, vs[|vs| - 1], rules), vs, rules)
  {
    var n := |vs| - 1;
    var v, values, distinct := vs[n], OrEmpty(f.values), CategoricalValues(vs[..n], rules.classify);
    BumpedHistogram(values, vs, rules.classify);
    CategoricalValuesSnoc(vs, rules.classify);
    assert |values| == |values.Keys| == |distinct|;
    assert Bump(values, v).Keys == CategoricalValues(vs, rules.classify);
    assert v in Bump(values, v);
    if v in distinct {
      assert distinct + {v} == distinct;
    } else {
      assert |distinct + {v}| == |distinct| + 1;
    }
  }

  lemma EnumerationStaysExact(f: Field, vs: seq<string>, rules: Rules)
    requires vs != [] && EnumerationIsExact(f, vs[..|vs| - 1], rules)
    ensures EnumerationIsExact(Enumerated(f, vs[|vs| - 1], rules), vs, rules)
  {
    CategoricalValuesSnoc(vs, rules.classify);
    if !Categorical(rules.classify(vs[|vs| - 1])) {
      if !f.truncated {
        OtherKindsKeepHistogram(OrEmpty(f.values), vs, rules.classify);
      }
    } else if f.truncated {
      TooManyStaysTooMany(vs, rules);
    } else {
      OpenEnumerationStaysExact(f, vs, rules);
    }
  }

  lemma TooManyStaysTooMany(vs: seq<string>, rules: Rules)
    requires vs != [] && |CategoricalValues(vs[..|vs| - 1], rules.classify)| > rules.maxEnum
    ensures |CategoricalValues(vs, rules.classify)| > rules.maxEnum
  {
    var distinct, v := CategoricalValues(vs[..|vs| - 1], rules.classify), vs[|vs| - 1];
    CategoricalValuesSnoc(vs, rules.classify);
    if v !in distinct {
      assert |distinct + {v}| == |distinct| + 1;
    } else {
      assert distinct + {v} == distinct;
    }
  }

  /** What the samples should be. */
  function Take5(vs: seq<string>): seq<string> {
    if |vs| <= 5 then vs else vs[..5]
  }

  lemma {:induction false} FirstsMembers(vs: seq<string>)
    ensures forall v :: v in Firsts(vs) <==> v in vs
  {
    if vs != [] {
      FirstsMembers(vs[..|vs| - 1]);
      assert vs == vs[..|vs| - 1] + [vs[|vs| - 1]];
    }
  }

  /**
   After any stream of values: the kinds are counted exactly, the enumeration is exact or, exactly when
   there are more distinct categorical values than allowed, given up, and the samples are the first
   five distinct values.
   */
  lemma {:induction false} SummaryIsExact(kind: string, now: int, vs: seq<string>, rules: Rules)
    ensures var f := AddedAll(NewField(kind, now), vs, rules);
      && EnumerationIsExact(f, vs, rules)
      && f.samples == Take5(Firsts(vs))
      && (forall k :: CountOf(OrEmpty(f.types), k) == KindCount(vs, k, rules.classify))
      && (f.types.Some? ==> f.types.value != map[])
  {
    if vs != [] {
      var n := |vs| - 1;
      var before := AddedAll(NewField(kind, now), vs[..n], rules);
      SummaryIsExact(kind, now, vs[..n], rules);
      var widened := before.(types := Some(Bump(OrEmpty(before.types), rules.classify(vs[n]))),
                             samples := SampleAdded(before.samples, vs[n]));
      assert EnumerationIsExact(widened, vs[..n], rules);
      EnumerationStaysExact(widened, vs, rules);
      FirstsMembers(vs[..n]);
    }
  }
}
