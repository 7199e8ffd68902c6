/**
 The census seen from the documents: a place is an element, given by its stack of names, or one of
 its attributes, and every place has a field of its own that says exactly what was read there.
 */
module CensusPlaces {
  import opened Sql
  import opened Text
  import opened Sequences
  import opened FieldSummary
  import opened Census

  datatype Place = Place(stack: seq<string>, attribute: Option<string>)

  datatype Document = Document(tokens: seq<Token>, at: int)

  ghost predicate ProperStack(stack: seq<string>) {
    forall i :: 0 <= i < |stack| ==> IsXmlName(stack[i])
  }

  ghost predicate ProperPlace(p: Place) {
    p.stack != [] && ProperStack(p.stack) && (p.attribute.Some? ==> IsXmlName(p.attribute.value))
  }

  ghost predicate ProperToken(t: Token) {
    t.Start? ==> IsXmlName(t.name) && forall i :: 0 <= i < |t.attrs| ==> IsXmlName(t.attrs[i].local)
  }

  ghost predicate ProperTokens(tokens: seq<Token>) {
    forall i :: 0 <= i < |tokens| ==> ProperToken(tokens[i])
  }

  function PathAt(p: Place): string {
    PathOf(p.stack, p.attribute)
  }

  // ---------- what the documents say about a place ----------

  /** The values of the attributes of this name, namespace declarations aside. */
  function AttrValues(attrs: seq<Attr>, name: string): seq<string> {
    if attrs == [] then []
    else
      var before, a := AttrValues(attrs[..|attrs| - 1], name), attrs[|attrs| - 1];
      if a.space != "xmlns" && a.local != "xmlns" && a.local == name then before + [a.value] else before
  }

  /** How often a token, read under `stack`, makes the place occur. */
  function Occurs(stack: seq<string>, t: Token, p: Place): nat {
    if !t.Start? || stack + [t.name] != p.stack then 0
    else if p.attribute.None? then 1
    else |AttrValues(t.attrs, p.attribute.value)|
  }

  /** The values a token, read under `stack`, gives the place. */
  function Gives(stack: seq<string>, t: Token, p: Place): seq<string> {
    match t
    case Start(name, attrs) =>
      if stack + [name] == p.stack && p.attribute.Some? then AttrValues(attrs, p.attribute.value) else []
    case Chars(text) =>
      if stack == p.stack && p.attribute.None? && TrimSpace(text) != "" then [TrimSpace(text)] else []
    case _ => []
  }

  function OccurrencesIn(tokens: seq<Token>, p: Place): nat {
    if tokens == [] then 0
    else
      var before := tokens[..|tokens| - 1];
      OccurrencesIn(before, p) + Occurs(StackAfter(before), tokens[|tokens| - 1], p)
  }

  function ReadIn(tokens: seq<Token>, p: Place): seq<string> {
    if tokens == [] then []
    else
      var before := tokens[..|tokens| - 1];
      ReadIn(before, p) + Gives(StackAfter(before), tokens[|tokens| - 1], p)
  }

  function Occurrences(docs: seq<Document>, p: Place): nat {
    if docs == [] then 0 else Occurrences(docs[..|docs| - 1], p) + OccurrencesIn(docs[|docs| - 1].tokens, p)
  }

  function Read(docs: seq<Document>, p: Place): seq<string> {
    if docs == [] then [] else Read(docs[..|docs| - 1], p) + ReadIn(docs[|docs| - 1].tokens, p)
  }

  /** The events of documents observed one after the other. */
  function EventsOfAll(docs: seq<Document>): seq<Event> {
    if docs == [] then []
    else EventsOfAll(docs[..|docs| - 1]) + EventsOf(docs[|docs| - 1].tokens, docs[|docs| - 1].at)
  }

  // ---------- events of one path ----------

  lemma OneMoreEvent(es: seq<Event>, e: Event, path: string)
    ensures TouchCount(es + [e], path) == TouchCount(es, path) + if e.Touch? && e.path == path then 1 else 0
    ensures ValuesAt(es + [e], path)
         == ValuesAt(es, path) + if e.Value? && e.path == path && TouchCount(es, path) > 0 then [e.value] else []
  {
    assert (es + [e])[..|es|] == es;
  }

  lemma TouchedThenValued(es: seq<Event>, path: string, kind: string, at: int, value: string)
    ensures TouchCount(es + [Touch(path, kind, at), Value(path, value)], path) == TouchCount(es, path) + 1
    ensures ValuesAt(es + [Touch(path, kind, at), Value(path, value)], path) == ValuesAt(es, path) + [value]
  {
    var touched := es + [Touch(path, kind, at)];
    assert es + [Touch(path, kind, at), Value(path, value)] == touched + [Value(path, value)];
    OneMoreEvent(es, Touch(path, kind, at), path);
    OneMoreEvent(touched, Value(path, value), path);
  }

  lemma {:induction false} OtherPathsAddNothing(es: seq<Event>, more: seq<Event>, path: string)
    requires forall i :: 0 <= i < |more| ==> more[i].path != path
    ensures TouchCount(es + more, path) == TouchCount(es, path)
    ensures ValuesAt(es + more, path) == ValuesAt(es, path)
  {
    if more == [] {
      assert es + more == es;
    } else {
      var front, e := more[..|more| - 1], more[|more| - 1];
      assert es + more == (es + front) + [e];
      OtherPathsAddNothing(es, front, path);
      OneMoreEvent(es + front, e, path);
    }
  }

  /** From `es` to `all` the path is touched `k` times and given these values. */
  ghost predicate Says(es: seq<Event>, all: seq<Event>, path: string, k: nat, vs: seq<string>) {
    TouchCount(all, path) == TouchCount(es, path) + k && ValuesAt(all, path) == ValuesAt(es, path) + vs
  }

  lemma SaysInTurn(a: seq<Event>, b: seq<Event>, c: seq<Event>, path: string,
                   k: nat, vs: seq<string>, k': nat, vs': seq<string>)
    requires Says(a, b, path, k, vs) && Says(b, c, path, k', vs')
    ensures Says(a, c, path, k + k', vs + vs')
  {
    assert ValuesAt(a, path) + (vs + vs') == (ValuesAt(a, path) + vs) + vs';
  }

  lemma SaysNothing(es: seq<Event>, path: string)
    ensures Says(es, es + [], path, 0, [])
  {
    assert es + [] == es && ValuesAt(es, path) + [] == ValuesAt(es, path);
  }

  // ---------- attributes ----------

  /** What one attribute on a tag at `stack` says about the place. */
  function AttrSays(stack: seq<string>, a: Attr, p: Place): seq<string> {
    if stack == p.stack && p.attribute == Some(a.local) && !IsNamespace(a) then [a.value] else []
  }

  function AttrPair(path: string, a: Attr, now: int): seq<Event> {
    if IsNamespace(a) then []
    else [Touch(AttributePath(path, a.local), "attribute", now), Value(AttributePath(path, a.local), a.value)]
  }

  lemma OneAttributeSays(es: seq<Event>, stack: seq<string>, a: Attr, now: int, p: Place)
    requires stack != [] && ProperStack(stack) && ProperPlace(p) && IsXmlName(a.local)
    ensures Says(es, es + AttrPair(Join(stack), a, now), PathAt(p), |AttrSays(stack, a, p)|, AttrSays(stack, a, p))
  {
    var at := AttributePath(Join(stack), a.local);
    if IsNamespace(a) {
      SaysNothing(es, PathAt(p));
    } else if stack == p.stack && p.attribute == Some(a.local) {
      TouchedThenValued(es, at, "attribute", now, a.value);
    } else {
      if at == PathAt(p) {
        PathsNeverCollide(stack, Some(a.local), p.stack, p.attribute);
      }
      OtherPathsAddNothing(es, AttrPair(Join(stack), a, now), PathAt(p));
    }
  }

  /** What the attributes of a tag at `stack` say about the place. */
  function AttrsSay(stack: seq<string>, attrs: seq<Attr>, p: Place): seq<string> {
    if stack == p.stack && p.attribute.Some? then AttrValues(attrs, p.attribute.value) else []
  }

  lemma AttrsGrow(path: string, stack: seq<string>, front: seq<Attr>, a: Attr, now: int, p: Place)
    ensures AttrEvents(path, front + [a], now) == AttrEvents(path, front, now) + AttrPair(path, a, now)
    ensures AttrsSay(stack, front + [a], p) == AttrsSay(stack, front, p) + AttrSays(stack, a, p)
  {
    assert (front + [a])[..|front|] == front;
  }

  /** The attributes of one start tag: those of the place's name touch and fill it, the others do not. */
  lemma {:induction false} AttributesSay(es: seq<Event>, stack: seq<string>, attrs: seq<Attr>, now: int, p: Place)
    requires stack != [] && ProperStack(stack) && ProperPlace(p)
    requires forall i :: 0 <= i < |attrs| ==> IsXmlName(attrs[i].local)
    ensures Says(es, es + AttrEvents(Join(stack), attrs, now), PathAt(p),
                 |AttrsSay(stack, attrs, p)|, AttrsSay(stack, attrs, p))
    decreases |attrs|
  {
    var path := Join(stack);
    if attrs == [] {
      SaysNothing(es, PathAt(p));
    } else {
      var front, a := attrs[..|attrs| - 1], attrs[|attrs| - 1];
      assert attrs == front + [a];
      AttributesSay(es, stack, front, now, p);
      var before := es + AttrEvents(path, front, now);
      OneAttributeSays(before, stack, a, now, p);
      AttrsGrow(path, stack, front, a, now, p);
      Reassociate(es, AttrEvents(path, front, now), AttrPair(path, a, now));
      SaysInTurn(es, before, before + AttrPair(path, a, now), PathAt(p),
                 |AttrsSay(stack, front, p)|, AttrsSay(stack, front, p),
                 |AttrSays(stack, a, p)|, AttrSays(stack, a, p));
    }
  }

  // ---------- one token ----------

  lemma ElementTouched(es: seq<Event>, stack: seq<string>, now: int, p: Place)
    requires stack != [] && ProperStack(stack) && ProperPlace(p)
    ensures Says(es, es + [Touch(Join(stack), "element", now)], PathAt(p),
                 if stack == p.stack && p.attribute.None? then 1 else 0, [])
  {
    OneMoreEvent(es, Touch(Join(stack), "element", now), PathAt(p));
    if Join(stack) == PathAt(p) {
      PathsNeverCollide(stack, None, p.stack, p.attribute);
    }
  }

  lemma StartSays(es: seq<Event>, stack: seq<string>, t: Token, now: int, p: Place)
    requires ProperStack(stack) && ProperPlace(p) && ProperToken(t) && t.Start?
    ensures Says(es, es + TokenEvents(stack, t, now), PathAt(p), Occurs(stack, t, p), Gives(stack, t, p))
  {
    var inner := stack + [t.name];
    var touched := es + [Touch(Join(inner), "element", now)];
    ElementTouched(es, inner, now, p);
    AttributesSay(touched, inner, t.attrs, now, p);
    Reassociate(es, [Touch(Join(inner), "element", now)], AttrEvents(Join(inner), t.attrs, now));
    SaysInTurn(es, touched, touched + AttrEvents(Join(inner), t.attrs, now), PathAt(p),
               if inner == p.stack && p.attribute.None? then 1 else 0, [],
               |AttrsSay(inner, t.attrs, p)|, AttrsSay(inner, t.attrs, p));
    assert [] + AttrsSay(inner, t.attrs, p) == Gives(stack, t, p);
  }

  lemma TokenSays(es: seq<Event>, stack: seq<string>, t: Token, now: int, p: Place)
    requires ProperStack(stack) && ProperPlace(p) && ProperToken(t)
    requires stack == p.stack && p.attribute.None? ==> TouchCount(es, PathAt(p)) > 0
    ensures Says(es, es + TokenEvents(stack, t, now), PathAt(p), Occurs(stack, t, p), Gives(stack, t, p))
  {
    if t.Start? {
      StartSays(es, stack, t, now, p);
    } else if t.Chars? && TrimSpace(t.text) != "" && stack != [] {
      OneMoreEvent(es, Value(Join(stack), TrimSpace(t.text)), PathAt(p));
      if Join(stack) == PathAt(p) {
        PathsNeverCollide(stack, None, p.stack, p.attribute);
      }
    } else {
      SaysNothing(es, PathAt(p));
    }
  }

  // ---------- one document ----------

  lemma {:induction false} StackIsProper(tokens: seq<Token>)
    requires ProperTokens(tokens)
    ensures ProperStack(StackAfter(tokens))
  {
    if tokens != [] {
      StackIsProper(tokens[..|tokens| - 1]);
    }
  }

  /** Whatever is open has been started: the stack and every prefix of it. */
  lemma {:induction false} OpenMeansStarted(tokens: seq<Token>, stack: seq<string>)
    requires stack != [] && stack <= StackAfter(tokens)
    ensures OccurrencesIn(tokens, Place(stack, None)) > 0
  {
    if tokens != [] {
      var before, t := tokens[..|tokens| - 1], tokens[|tokens| - 1];
      if stack <= StackAfter(before) {
        OpenMeansStarted(before, stack);
      } else {
        assert t.Start? && stack == StackAfter(before) + [t.name];
      }
    }
  }

  lemma DocumentGrows(before: seq<Token>, t: Token, now: int, p: Place)
    ensures EventsOf(before + [t], now) == EventsOf(before, now) + TokenEvents(StackAfter(before), t, now)
    ensures OccurrencesIn(before + [t], p) == OccurrencesIn(before, p) + Occurs(StackAfter(before), t, p)
    ensures ReadIn(before + [t], p) == ReadIn(before, p) + Gives(StackAfter(before), t, p)
  {
    assert (before + [t])[..|before|] == before;
  }

  lemma {:induction false} DocumentSays(es: seq<Event>, tokens: seq<Token>, now: int, p: Place)
    requires ProperTokens(tokens) && ProperPlace(p)
    ensures Says(es, es + EventsOf(tokens, now), PathAt(p), OccurrencesIn(tokens, p), ReadIn(tokens, p))
    decreases |tokens|
  {
    if tokens == [] {
      SaysNothing(es, PathAt(p));
    } else {
      var before, t := tokens[..|tokens| - 1], tokens[|tokens| - 1];
      assert tokens == before + [t];
      DocumentSays(es, before, now, p);
      StackIsProper(before);
      TokenInTurn(es, before, t, now, p);
    }
  }

  lemma TokenInTurn(es: seq<Event>, before: seq<Token>, t: Token, now: int, p: Place)
    requires ProperStack(StackAfter(before)) && ProperToken(t) && ProperPlace(p)
    requires Says(es, es + EventsOf(before, now), PathAt(p), OccurrencesIn(before, p), ReadIn(before, p))
    ensures Says(es, es + EventsOf(before + [t], now), PathAt(p),
                 OccurrencesIn(before + [t], p), ReadIn(before + [t], p))
  {
    var stack, mid := StackAfter(before), es + EventsOf(before, now);
    if stack == p.stack && p.attribute.None? {
      OpenMeansStarted(before, p.stack);
      assert p == Place(p.stack, None);
    }
    TokenSays(mid, stack, t, now, p);
    DocumentGrows(before, t, now, p);
    Reassociate(es, EventsOf(before, now), TokenEvents(stack, t, now));
    SaysInTurn(es, mid, mid + TokenEvents(stack, t, now), PathAt(p),
               OccurrencesIn(before, p), ReadIn(before, p), Occurs(stack, t, p), Gives(stack, t, p));
  }

  // ---------- all documents ----------

  lemma {:induction false} DocumentsSay(docs: seq<Document>, p: Place)
    requires ProperPlace(p) && forall i :: 0 <= i < |docs| ==> ProperTokens(docs[i].tokens)
    ensures TouchCount(EventsOfAll(docs), PathAt(p)) == Occurrences(docs, p)
    ensures ValuesAt(EventsOfAll(docs), PathAt(p)) == Read(docs, p)
  {
    if docs != [] {
      var n := |docs| - 1;
      DocumentsSay(docs[..n], p);
      DocumentSays(EventsOfAll(docs[..n]), docs[n].tokens, docs[n].at, p);
    }
  }

  /**
   After any documents with XML names: a place has a field exactly if it occurred, the field counts
   its start tags (or the attributes of its name on them), and summarises exactly the character data
   read directly under it (or those attributes' values), nothing from any other place.
   */
  lemma EveryPlaceIsExact(docs: seq<Document>, p: Place, rules: Rules)
    requires ProperPlace(p) && forall i :: 0 <= i < |docs| ==> ProperTokens(docs[i].tokens)
    ensures PathAt(p) in ApplyAll(map[], EventsOfAll(docs), rules) <==> Occurrences(docs, p) > 0
    ensures Occurrences(docs, p) > 0 ==>
      var f, vs := ApplyAll(map[], EventsOfAll(docs), rules)[PathAt(p)], Read(docs, p);
      && f.occurrences == Occurrences(docs, p)
      && EnumerationIsExact(f, vs, rules)
      && f.samples == Take5(Firsts(vs))
      && (forall k :: CountOf(OrEmpty(f.types), k) == KindCount(vs, k, rules.classify))
  {
    DocumentsSay(docs, p);
    FieldsAreIndependent(EventsOfAll(docs), PathAt(p), rules);
    if Occurrences(docs, p) > 0 {
      EveryFieldIsExact(EventsOfAll(docs), PathAt(p), rules);
    }
  }
}
