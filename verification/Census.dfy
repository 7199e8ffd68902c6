/**
 The census accumulator: XML tokens become touches and values of paths, each path keeps its own
 field summary, and the whole model survives being saved and loaded.
 */
module Census {
  import opened Sql
  import opened Text
  import opened FieldSummary

  datatype Attr = Attr(space: string, local: string, value: string)

  datatype Token = Start(name: string, attrs: seq<Attr>) | Chars(text: string) | End | Other

  /** What a document asks of the model, path by path. */
  datatype Event = Touch(path: string, kind: string, at: int) | Value(path: string, value: string)

  // ---------- paths ----------

  /** `strings.Join(stack, "/")` */
  function Join(stack: seq<string>): string {
    if stack == [] then ""
    else if |stack| == 1 then stack[0]
    else Join(stack[..|stack| - 1]) + "/" + stack[|stack| - 1]
  }

  function AttributePath(path: string, name: string): string {
    path + "/@" + name
  }

  /** Element and attribute names cannot contain these (section 2.3 of XML 1.0). */
  predicate IsXmlName(name: string) {
    '/' !in name && '@' !in name
  }

  ghost predicate Segments(stack: seq<string>) {
    stack != [] && forall i :: 0 <= i < |stack| ==> '/' !in stack[i]
  }

  lemma {:induction false} SlashMeansMoreSegments(stack: seq<string>)
    requires Segments(stack)
    ensures '/' in Join(stack) <==> |stack| > 1
  {
    if |stack| > 1 {
      var n := |stack| - 1;
      assert Join(stack)[|Join(stack[..n])|] == '/';
    }
  }

  /** A suffix without slashes that follows a slash is the last segment. */
  lemma LastSegmentIsUnique(a: string, x: string, b: string, y: string)
    requires '/' !in x && '/' !in y && a + "/" + x == b + "/" + y
    ensures a == b && x == y
  {
    var s := a + "/" + x;
    assert s[|a|] == '/' && s[|b|] == '/';
    assert |a| == |b| by {
      assert forall k :: |a| < k < |s| ==> s[k] == x[k - |a| - 1];
      assert forall k :: |b| < k < |s| ==> s[k] == y[k - |b| - 1];
    }
    assert a == s[..|a|] && b == s[..|b|];
    assert x == s[|a| + 1..] && y == s[|b| + 1..];
  }

  /** Distinct stacks never share a path. */
  lemma {:induction false} JoinIsInjective(a: seq<string>, b: seq<string>)
    requires Segments(a) && Segments(b) && Join(a) == Join(b)
    ensures a == b
  {
    SlashMeansMoreSegments(a);
    SlashMeansMoreSegments(b);
    if |a| > 1 {
      var n, m := |a| - 1, |b| - 1;
      LastSegmentIsUnique(Join(a[..n]), a[n], Join(b[..m]), b[m]);
      JoinIsInjective(a[..n], b[..m]);
      assert a == a[..n] + [a[n]] && b == b[..m] + [b[m]];
    }
  }

  /** An attribute path is the path of one more segment, which no element name can be. */
  lemma AttributePathIsJoin(stack: seq<string>, name: string)
    requires Segments(stack)
    ensures AttributePath(Join(stack), name) == Join(stack + ["@" + name])
  {
    var all := stack + ["@" + name];
    assert all[..|all| - 1] == stack;
    assert Join(stack) + "/" + ("@" + name) == Join(stack) + "/@" + name;
  }

  /** Elements and attributes of different places never share a field. */
  lemma PathsNeverCollide(a: seq<string>, x: Option<string>, b: seq<string>, y: Option<string>)
    requires a != [] && forall i :: 0 <= i < |a| ==> IsXmlName(a[i])
    requires b != [] && forall i :: 0 <= i < |b| ==> IsXmlName(b[i])
    requires x.Some? ==> IsXmlName(x.value)
    requires y.Some? ==> IsXmlName(y.value)
    requires PathOf(a, x) == PathOf(b, y)
    ensures a == b && x == y
  {
    var sa, sb := if x.None? then a else a + ["@" + x.value], if y.None? then b else b + ["@" + y.value];
    if x.Some? { AttributePathIsJoin(a, x.value); }
    if y.Some? { AttributePathIsJoin(b, y.value); }
    assert Segments(sa) && Segments(sb);
    JoinIsInjective(sa, sb);
    var n := |sa| - 1;
    assert x.Some? ==> sa[n][0] == '@' && sa[n][1..] == x.value && sa[..n] == a;
    assert y.Some? ==> sb[n][0] == '@' && sb[n][1..] == y.value && sb[..n] == b;
    assert x.None? ==> '@' !in sa[n];
    assert y.None? ==> '@' !in sb[n];
  }

  /** The path of an element, or of one of its attributes. */
  function PathOf(stack: seq<string>, attribute: Option<string>): string {
    if attribute.None? then Join(stack) else AttributePath(Join(stack), attribute.value)
  }

  // ---------- what a document says ----------

  predicate IsNamespace(a: Attr) {
    a.local == "xmlns" || a.space == "xmlns"
  }

  function AttrEvents(path: string, attrs: seq<Attr>, now: int): seq<Event> {
    if attrs == [] then []
    else
      var before, a := AttrEvents(path, attrs[..|attrs| - 1], now), attrs[|attrs| - 1];
      if IsNamespace(a) then before
      else
        var at := AttributePath(path, a.local);
        before + [Touch(at, "attribute", now), Value(at, a.value)]
  }

  function NextStack(stack: seq<string>, t: Token): seq<string> {
    match t
    case Start(name, _) => stack + [name]
    case End => if stack == [] then [] else stack[..|stack| - 1]
    case _ => stack
  }

  function TokenEvents(stack: seq<string>, t: Token, now: int): seq<Event> {
    match t
    case Start(name, attrs) =>
      var path := Join(stack + [name]);
      [Touch(path, "element", now)] + AttrEvents(path, attrs, now)
    case Chars(text) =>
      if TrimSpace(text) == "" || stack == [] then [] else [Value(Join(stack), TrimSpace(text))]
    case _ => []
  }

  function StackAfter(tokens: seq<Token>): seq<string> {
    if tokens == [] then [] else NextStack(StackAfter(tokens[..|tokens| - 1]), tokens[|tokens| - 1])
  }

  function EventsOf(tokens: seq<Token>, now: int): seq<Event> {
    if tokens == [] then []
    else
      var before, t := tokens[..|tokens| - 1], tokens[|tokens| - 1];
      EventsOf(before, now) + TokenEvents(StackAfter(before), t, now)
  }

  // ---------- the model ----------

  type Fields = map<string, Field>

  function Lookup(fields: Fields, path: string): Option<Field> {
    if path in fields then Some(fields[path]) else None
  }

  function Touched(f: Option<Field>, kind: string, at: int): Field {
    var g := if f.Some? then f.value else NewField(kind, at);
    g.(occurrences := g.occurrences + 1, lastSeen := at)
  }

  /** Values of a path that was never touched go nowhere. */
  function Apply(fields: Fields, e: Event, rules: Rules): Fields {
    match e
    case Touch(path, kind, at) => fields[path := Touched(Lookup(fields, path), kind, at)]
    case Value(path, value) => if path in fields then fields[path := Added(fields[path], value, rules)] else fields
  }

  function ApplyAll(fields: Fields, es: seq<Event>, rules: Rules): Fields {
    if es == [] then fields else Apply(ApplyAll(fields, es[..|es| - 1], rules), es[|es| - 1], rules)
  }

  lemma {:induction false} ApplyAllConcat(fields: Fields, a: seq<Event>, b: seq<Event>, rules: Rules)
    ensures ApplyAll(fields, a + b, rules) == ApplyAll(ApplyAll(fields, a, rules), b, rules)
  {
    if b == [] {
      assert a + b == a;
    } else {
      assert (a + b)[..|a + b| - 1] == a + b[..|b| - 1];
      ApplyAllConcat(fields, a, b[..|b| - 1], rules);
    }
  }

  class Accumulator {
    const rules: Rules
    var fields: Fields

    constructor (rules: Rules)
      ensures this.rules == rules && fields == map[]
    {
      this.rules, this.fields := rules, map[];
    }

    method TouchPath(path: string, kind: string, now: int)
      modifies this
      ensures fields == Apply(old(fields), Touch(path, kind, now), rules)
    {
      var f := if path in fields then fields[path] else NewField(kind, now);
      f := f.(occurrences := f.occurrences + 1, lastSeen := now);
      fields := fields[path := f];
    }

    method AddPathValue(path: string, value: string)
      modifies this
      ensures fields == Apply(old(fields), Value(path, value), rules)
    {
      if path in fields {
        var f := AddValue(fields[path], value, rules);
        fields := fields[path := f];
      }
    }

    method ObserveAttributes(path: string, attrs: seq<Attr>, now: int)
      modifies this
      ensures fields == ApplyAll(old(fields), AttrEvents(path, attrs, now), rules)
    {
      for i := 0 to |attrs|
        invariant fields == ApplyAll(old(fields), AttrEvents(path, attrs[..i], now), rules)
      {
        assert attrs[..i + 1][..i] == attrs[..i];
        if IsNamespace(attrs[i]) {
          continue;
        }
        ghost var es := AttrEvents(path, attrs[..i], now);
        var at := AttributePath(path, attrs[i].local);
        ApplyTwo(old(fields), es, Touch(at, "attribute", now), Value(at, attrs[i].value), rules);
        TouchPath(at, "attribute", now);
        AddPathValue(at, attrs[i].value);
      }
      assert attrs[..|attrs|] == attrs;
    }

    /**
     `Observe`: fold one document into the model. On malformed input the tokens read before the
     error have been folded in and the error is reported.
     */
    method Observe(tokens: seq<Token>, malformed: bool, now: int) returns (ok: bool)
      modifies this
      ensures fields == ApplyAll(old(fields), EventsOf(tokens, now), rules)
      ensures ok == !malformed
    {
      var stack: seq<string> := [];
      for i := 0 to |tokens|
        invariant stack == StackAfter(tokens[..i])
        invariant fields == ApplyAll(old(fields), EventsOf(tokens[..i], now), rules)
      {
        assert tokens[..i + 1][..i] == tokens[..i];
        ApplyAllConcat(old(fields), EventsOf(tokens[..i], now), TokenEvents(stack, tokens[i], now), rules);
        ObserveToken(stack, tokens[i], now);
        stack := NextStack(stack, tokens[i]);
      }
      assert tokens[..|tokens|] == tokens;
      ok := !malformed;
    }

    method ObserveToken(stack: seq<string>, t: Token, now: int)
      modifies this
      ensures fields == ApplyAll(old(fields), TokenEvents(stack, t, now), rules)
    {
      match t
      case Start(name, attrs) =>
        var path := Join(stack + [name]);
        ApplyOne(old(fields), Touch(path, "element", now), rules);
        ApplyAllConcat(old(fields), [Touch(path, "element", now)], AttrEvents(path, attrs, now), rules);
        TouchPath(path, "element", now);
        ObserveAttributes(path, attrs, now);
      case Chars(text) =>
        var trimmed := TrimSpace(text);
        if trimmed != "" && stack != [] {
          ApplyOne(old(fields), Value(Join(stack), trimmed), rules);
          AddPathValue(Join(stack), trimmed);
        }
      case _ =>
    }
  }

  lemma ApplyOne(fields: Fields, e: Event, rules: Rules)
    ensures ApplyAll(fields, [e], rules) == Apply(fields, e, rules)
  {
    assert [e][..0] == [];
  }

  lemma ApplyTwo(fields: Fields, es: seq<Event>, d: Event, e: Event, rules: Rules)
    ensures ApplyAll(fields, es + [d, e], rules) == Apply(Apply(ApplyAll(fields, es, rules), d, rules), e, rules)
  {
    assert es + [d, e] == (es + [d]) + [e];
    ApplyGrows(fields, es + [d], e, rules);
    ApplyGrows(fields, es, d, rules);
  }

  lemma ApplyGrows(fields: Fields, es: seq<Event>, e: Event, rules: Rules)
    ensures ApplyAll(fields, es + [e], rules) == Apply(ApplyAll(fields, es, rules), e, rules)
  {
    assert (es + [e])[..|es|] == es;
  }

  // ---------- each path on its own ----------

  function TouchCount(es: seq<Event>, path: string): nat {
    if es == [] then 0
    else TouchCount(es[..|es| - 1], path) + if es[|es| - 1].Touch? && es[|es| - 1].path == path then 1 else 0
  }

  /** The values recorded for a path, in order. */
  function ValuesAt(es: seq<Event>, path: string): seq<string> {
    if es == [] then []
    else
      var before, e := es[..|es| - 1], es[|es| - 1];
      if e.Value? && e.path == path && TouchCount(before, path) > 0
      then ValuesAt(before, path) + [e.value]
      else ValuesAt(before, path)
  }

  /** A field without its two running totals. */
  function Summary(f: Field): Field {
    f.(occurrences := 0, lastSeen := 0)
  }

  /** A path's field is the summary of that path's values and nothing else. */
  lemma {:induction false} FieldsAreIndependent(es: seq<Event>, path: string, rules: Rules)
    ensures path in ApplyAll(map[], es, rules) <==> TouchCount(es, path) > 0
    ensures TouchCount(es, path) == 0 ==> ValuesAt(es, path) == []
    ensures path in ApplyAll(map[], es, rules) ==>
      var f := ApplyAll(map[], es, rules)[path];
      && f.occurrences == TouchCount(es, path)
      && Summary(f) == Summary(AddedAll(NewField(f.kind, f.firstSeen), ValuesAt(es, path), rules))
  {
    if es != [] {
      var n := |es| - 1;
      FieldsAreIndependent(es[..n], path, rules);
      if es[n].Value? && es[n].path == path && TouchCount(es[..n], path) > 0 {
        var f, vs := ApplyAll(map[], es[..n], rules)[path], ValuesAt(es[..n], path);
        assert (vs + [es[n].value])[..|vs|] == vs;
        SummaryCommutes(f, AddedAll(NewField(f.kind, f.firstSeen), vs, rules), es[n].value, rules);
      }
    }
  }

  /** The first touch of a path. */
  function FirstTouch(es: seq<Event>, path: string): Option<Event> {
    if es == [] then None
    else
      var before, e := FirstTouch(es[..|es| - 1], path), es[|es| - 1];
      if before.None? && e.Touch? && e.path == path then Some(e) else before
  }

  /** The last touch of a path. */
  function LastTouch(es: seq<Event>, path: string): Option<Event> {
    if es == [] then None
    else if es[|es| - 1].Touch? && es[|es| - 1].path == path then Some(es[|es| - 1])
    else LastTouch(es[..|es| - 1], path)
  }

  /** A field keeps the kind and time of its first touch and the time of its last. */
  lemma {:induction false} FieldRemembersTouches(es: seq<Event>, path: string, rules: Rules)
    ensures path in ApplyAll(map[], es, rules) <==> FirstTouch(es, path).Some?
    ensures FirstTouch(es, path).Some? <==> LastTouch(es, path).Some?
    ensures FirstTouch(es, path).Some? ==> FirstTouch(es, path).value.Touch? && LastTouch(es, path).value.Touch?
    ensures path in ApplyAll(map[], es, rules) ==>
      var f, first, last := ApplyAll(map[], es, rules)[path], FirstTouch(es, path).value, LastTouch(es, path).value;
      f.kind == first.kind && f.firstSeen == first.at && f.lastSeen == last.at
  {
    if es != [] {
      FieldRemembersTouches(es[..|es| - 1], path, rules);
    }
  }

  lemma SummaryCommutes(f: Field, g: Field, value: string, rules: Rules)
    requires Summary(f) == Summary(g)
    ensures Summary(Added(f, value, rules)) == Summary(Added(g, value, rules))
    ensures Added(f, value, rules).kind == f.kind && Added(f, value, rules).firstSeen == f.firstSeen
    ensures Added(f, value, rules).occurrences == f.occurrences
  {
  }

  /**
   After any documents, every field is an exact bounded summary of what was seen at its path:
   occurrences, kinds, histogram or truncation, and the first five distinct samples.
   */
  lemma EveryFieldIsExact(es: seq<Event>, path: string, rules: Rules)
    requires path in ApplyAll(map[], es, rules)
    ensures var f, vs := ApplyAll(map[], es, rules)[path], ValuesAt(es, path);
      && f.occurrences == TouchCount(es, path)
      && EnumerationIsExact(f, vs, rules)
      && f.samples == Take5(Firsts(vs))
      && (forall k :: CountOf(OrEmpty(f.types), k) == KindCount(vs, k, rules.classify))
      && IsNormal(f)
  {
    FieldsAreIndependent(es, path, rules);
    var f := ApplyAll(map[], es, rules)[path];
    SummaryIsExact(f.kind, f.firstSeen, ValuesAt(es, path), rules);
  }

  // ---------- save and load ----------

  /** A field as JSON, where empty members are omitted. */
  datatype JsonField = JsonField(
    kind: string,
    occurrences: nat,
    firstSeen: int,
    lastSeen: int,
    types: Option<map<Kind, nat>>,
    distinct: Option<nat>,
    truncated: Option<bool>,
    values: Option<map<string, nat>>,
    samples: Option<seq<string>>)

  function OmitEmpty<K, V>(m: Option<map<K, V>>): Option<map<K, V>> {
    if m.Some? && |m.value| == 0 then None else m
  }

  function SaveField(f: Field): JsonField {
    JsonField(f.kind, f.occurrences, f.firstSeen, f.lastSeen, OmitEmpty(f.types),
              if f.distinct == 0 then None else Some(f.distinct),
              if f.truncated then Some(true) else None,
              OmitEmpty(f.values),
              if f.samples == [] then None else Some(f.samples))
  }

  /** Missing members take their zero value. */
  function LoadField(j: JsonField): Field {
    Field(j.kind, j.occurrences, j.firstSeen, j.lastSeen, j.types,
          if j.distinct.Some? then j.distinct.value else 0,
          j.truncated.Some? && j.truncated.value,
          j.values,
          if j.samples.Some? then j.samples.value else [])
  }

  function Save(fields: Fields): map<string, JsonField> {
    map p | p in fields :: SaveField(fields[p])
  }

  function Load(saved: map<string, JsonField>): Fields {
    map p | p in saved :: LoadField(saved[p])
  }

  /** The maps are absent rather than empty. */
  predicate IsNormal(f: Field) {
    f.types != Some(map[]) && f.values != Some(map[])
  }

  lemma RoundTrip(f: Field)
    ensures LoadField(SaveField(f)) == f <==> IsNormal(f)
  {
    assert f.types.Some? && |f.types.value| == 0 ==> f.types.value == map[];
    assert f.values.Some? && |f.values.value| == 0 ==> f.values.value == map[];
  }

  /** Stopping, saving, and continuing from the loaded snapshot is the same as never having stopped. */
  lemma RestartChangesNothing(before: seq<Event>, after: seq<Event>, rules: Rules)
    ensures ApplyAll(Load(Save(ApplyAll(map[], before, rules))), after, rules) == ApplyAll(map[], before + after, rules)
  {
    var fields := ApplyAll(map[], before, rules);
    forall p | p in fields ensures Load(Save(fields))[p] == fields[p] {
      EveryFieldIsExact(before, p, rules);
      RoundTrip(fields[p]);
    }
    assert Load(Save(fields)) == fields;
    ApplyAllConcat(map[], before, after, rules);
  }
}
