/**
 The migration runner: any number of instances, one advisory lock, forward-only migrations each
 applied in one transaction with the row that records it.
 */
module Migrate {
  import opened Sql
  import opened Sequences

  datatype Migration = Migration(version: int, name: string)

  // ---------- the order of the files ----------

  function VersionOf(m: Migration): int {
    m.version
  }

  function InsertByVersion(ms: seq<Migration>, m: Migration): seq<Migration> {
    InsertBy(ms, m, VersionOf)
  }

  /** `load` sorts what it found by version. */
  function SortByVersion(files: seq<Migration>): seq<Migration> {
    SortBy(files, VersionOf)
  }

  ghost predicate DistinctVersions(files: seq<Migration>) {
    forall i, j :: 0 <= i < j < |files| ==> files[i].version != files[j].version
  }

  ghost predicate PositiveVersions(files: seq<Migration>) {
    forall i :: 0 <= i < |files| ==> files[i].version > 0
  }

  ghost predicate Ascending(ms: seq<Migration>) {
    forall i, j :: 0 <= i < j < |ms| ==> ms[i].version < ms[j].version
  }

  lemma {:induction false} InsertKeepsAscending(ms: seq<Migration>, m: Migration)
    requires Ascending(ms) && forall x :: x in ms ==> x.version != m.version
    ensures Ascending(InsertByVersion(ms, m))
  {
    if ms != [] && ms[|ms| - 1].version > m.version {
      var front, last := ms[..|ms| - 1], ms[|ms| - 1];
      InsertKeepsAscending(front, m);
      var r := InsertByVersion(front, m);
      forall i | 0 <= i < |r| ensures r[i].version < last.version {
        assert r[i] in multiset(r);
      }
    }
  }

  lemma {:induction false} SortIsAscending(files: seq<Migration>)
    requires DistinctVersions(files)
    ensures Ascending(SortByVersion(files))
  {
    if files != [] {
      var n := |files| - 1;
      SortIsAscending(files[..n]);
      var before := SortByVersion(files[..n]);
      forall x | x in before ensures x.version != files[n].version {
        assert x in multiset(before);
      }
      InsertKeepsAscending(before, files[n]);
    }
  }

  lemma SortKeepsPositive(files: seq<Migration>)
    requires PositiveVersions(files)
    ensures PositiveVersions(SortByVersion(files))
  {
    var r := SortByVersion(files);
    forall i | 0 <= i < |r| ensures r[i].version > 0 {
      assert r[i] in multiset(r);
    }
  }

  // ---------- instances ----------

  /** An instance is outside, holds the lock, or has read the current version and is at some file. */
  datatype Phase = Outside | Locked | Applying(current: int, at: nat)

  /** `applied` is the order in which versions were recorded. */
  datatype State = State(applied: seq<int>, lock: Option<nat>, phases: seq<Phase>)

  datatype Step =
    | Acquire(i: nat)
    | ReadVersion(i: nat)
    | Skip(i: nat)
    | ApplyNext(i: nat)
    | Finish(i: nat)
    | Fail(i: nat) // the statement fails, the connection drops or the process dies

  function MaxVersion(applied: seq<int>): int {
    if applied == [] then 0
    else
      var before, v := MaxVersion(applied[..|applied| - 1]), applied[|applied| - 1];
      if v > before then v else before
  }

  predicate Enabled(ms: seq<Migration>, s: State, step: Step) {
    step.i < |s.phases| &&
    var phase := s.phases[step.i];
    match step
    case Acquire(i) => phase == Outside && s.lock.None?
    case ReadVersion(i) => phase == Locked
    case Skip(i) => phase.Applying? && phase.at < |ms| && ms[phase.at].version <= phase.current
    case ApplyNext(i) =>
      // the version is the primary key: recording it twice fails
      && phase.Applying? && phase.at < |ms| && ms[phase.at].version > phase.current
      && ms[phase.at].version !in s.applied
    case Finish(i) => phase.Applying? && phase.at == |ms|
    case Fail(i) => phase != Outside
  }

  function Next(ms: seq<Migration>, s: State, step: Step): State
    requires Enabled(ms, s, step)
  {
    var i, phase := step.i, s.phases[step.i];
    match step
    case Acquire(_) => s.(lock := Some(i), phases := s.phases[i := Locked])
    case ReadVersion(_) => s.(phases := s.phases[i := Applying(MaxVersion(s.applied), 0)])
    case Skip(_) => s.(phases := s.phases[i := phase.(at := phase.at + 1)])
    case ApplyNext(_) =>
      s.(applied := s.applied + [ms[phase.at].version], phases := s.phases[i := phase.(at := phase.at + 1)])
    case Finish(_) => s.(lock := None, phases := s.phases[i := Outside])
    case Fail(_) => s.(lock := None, phases := s.phases[i := Outside])
  }

  function Init(instances: nat): State {
    State([], None, seq(instances, _ => Outside))
  }

  function After(ms: seq<Migration>, s: State, steps: seq<Step>): Option<State> {
    if steps == [] then Some(s)
    else
      var before := After(ms, s, steps[..|steps| - 1]);
      if before.Some? && Enabled(ms, before.value, steps[|steps| - 1])
      then Some(Next(ms, before.value, steps[|steps| - 1]))
      else None
  }

  /** The versions of the first `k` migrations. */
  function Versions(ms: seq<Migration>, k: nat): seq<int>
    requires k <= |ms|
  {
    seq(k, i requires 0 <= i < k => ms[i].version)
  }

  ghost predicate IsPrefix(ms: seq<Migration>, applied: seq<int>) {
    |applied| <= |ms| && applied == Versions(ms, |applied|)
  }

  lemma {:induction false} MaxOfPrefix(ms: seq<Migration>, k: nat)
    requires Ascending(ms) && PositiveVersions(ms) && k <= |ms|
    ensures MaxVersion(Versions(ms, k)) == if k == 0 then 0 else ms[k - 1].version
  {
    if k > 0 {
      assert Versions(ms, k)[..k - 1] == Versions(ms, k - 1);
      MaxOfPrefix(ms, k - 1);
    }
  }

  /** The instance read its version when `k` migrations were recorded, and has got to `phase.at` since. */
  ghost predicate StartedAt(ms: seq<Migration>, applied: seq<int>, phase: Phase, k: nat) {
    && phase.Applying? && k <= |applied| <= |ms| && phase.at <= |ms|
    && phase.current == (if k == 0 then 0 else ms[k - 1].version)
    && |applied| == (if phase.at <= k then k else phase.at)
  }

  ghost predicate KnowsItsPlace(ms: seq<Migration>, applied: seq<int>, phase: Phase) {
    phase.Applying? ==> exists k: nat :: StartedAt(ms, applied, phase, k)
  }

  ghost predicate Invariant(ms: seq<Migration>, s: State) {
    && IsPrefix(ms, s.applied)
    && (forall i :: 0 <= i < |s.phases| && s.phases[i] != Outside ==> s.lock == Some(i))
    && (s.lock.Some? ==> s.lock.value < |s.phases| && s.phases[s.lock.value] != Outside)
    && (forall i :: 0 <= i < |s.phases| ==> KnowsItsPlace(ms, s.applied, s.phases[i]))
  }

  lemma StepKeepsInvariant(ms: seq<Migration>, s: State, step: Step)
    requires Ascending(ms) && PositiveVersions(ms) && Invariant(ms, s) && Enabled(ms, s, step)
    ensures Invariant(ms, Next(ms, s, step))
  {
    var t, i, phase := Next(ms, s, step), step.i, s.phases[step.i];
    match step
    case ReadVersion(_) =>
      MaxOfPrefix(ms, |s.applied|);
      assert StartedAt(ms, t.applied, t.phases[i], |s.applied|);
    case Skip(_) =>
      var k: nat :| StartedAt(ms, s.applied, phase, k);
      assert StartedAt(ms, t.applied, t.phases[i], k);
    case ApplyNext(_) =>
      var k: nat :| StartedAt(ms, s.applied, phase, k);
      assert phase.at >= k;
      assert t.applied == Versions(ms, phase.at + 1);
      assert StartedAt(ms, t.applied, t.phases[i], k);
    case _ =>
  }

  /**
   Whatever instances start, race, fail and restart, over files with distinct positive versions the
   recorded versions are at every moment the first so-many of the sorted list, each recorded once and
   in ascending order, and no two instances are ever at work together.
   */
  lemma {:induction false} EveryRunAppliesAPrefix(files: seq<Migration>, instances: nat, steps: seq<Step>, s: State)
    requires DistinctVersions(files) && PositiveVersions(files)
    requires After(SortByVersion(files), Init(instances), steps) == Some(s)
    ensures IsPrefix(SortByVersion(files), s.applied)
    ensures forall i, j :: 0 <= i < |s.phases| && 0 <= j < |s.phases| ==>
      s.phases[i] != Outside && s.phases[j] != Outside ==> i == j
    ensures forall i, j :: 0 <= i < j < |s.applied| ==> s.applied[i] < s.applied[j]
    ensures s.lock.None? <==> forall i :: 0 <= i < |s.phases| ==> s.phases[i] == Outside
  {
    SortIsAscending(files);
    SortKeepsPositive(files);
    RunsKeepInvariant(SortByVersion(files), instances, steps, s);
  }

  lemma {:induction false} RunsKeepInvariant(ms: seq<Migration>, instances: nat, steps: seq<Step>, s: State)
    requires Ascending(ms) && PositiveVersions(ms)
    requires After(ms, Init(instances), steps) == Some(s)
    ensures Invariant(ms, s)
  {
    if steps != [] {
      var n := |steps| - 1;
      var mid := After(ms, Init(instances), steps[..n]).value;
      RunsKeepInvariant(ms, instances, steps[..n], mid);
      StepKeepsInvariant(ms, mid, steps[n]);
    }
  }

  lemma AfterOne(ms: seq<Migration>, s: State, steps: seq<Step>, step: Step, t: State)
    requires After(ms, s, steps) == Some(t) && Enabled(ms, t, step)
    ensures After(ms, s, steps + [step]) == Some(Next(ms, t, step))
  {
    assert (steps + [step])[..|steps|] == steps;
  }

  /** An instance under the lock can go through the rest of the files. */
  lemma {:induction false} WorkThrough(ms: seq<Migration>, s0: State, steps: seq<Step>, s: State, i: nat)
    returns (all: seq<Step>, t: State)
    requires Ascending(ms) && PositiveVersions(ms) && Invariant(ms, s) && After(ms, s0, steps) == Some(s)
    requires i < |s.phases| && s.phases[i].Applying? && s.phases[i].at <= |ms|
    ensures After(ms, s0, all) == Some(t) && Invariant(ms, t)
    ensures i < |t.phases| && t.phases[i].Applying? && t.phases[i].at == |ms|
    decreases |ms| - s.phases[i].at
  {
    var phase := s.phases[i];
    if phase.at == |ms| {
      all, t := steps, s;
    } else {
      var step := if ms[phase.at].version <= phase.current then Skip(i) else ApplyNext(i);
      NextFileIsNew(ms, s, i);
      AfterOne(ms, s0, steps, step, s);
      StepKeepsInvariant(ms, s, step);
      all, t := WorkThrough(ms, s0, steps + [step], Next(ms, s, step), i);
    }
  }

  lemma NextFileIsNew(ms: seq<Migration>, s: State, i: nat)
    requires Ascending(ms) && PositiveVersions(ms) && Invariant(ms, s)
    requires i < |s.phases| && s.phases[i].Applying? && s.phases[i].at < |ms|
    ensures ms[s.phases[i].at].version > s.phases[i].current ==> ms[s.phases[i].at].version !in s.applied
  {
    assert KnowsItsPlace(ms, s.applied, s.phases[i]);
    var k: nat :| StartedAt(ms, s.applied, s.phases[i], k);
  }

  /** Whenever the lock is free, an instance that starts can bring the schema up to date and free it again. */
  lemma AnInstanceCanBringItUpToDate(files: seq<Migration>, instances: nat, steps: seq<Step>, s: State, i: nat)
    returns (all: seq<Step>, t: State)
    requires DistinctVersions(files) && PositiveVersions(files) && i < |s.phases|
    requires After(SortByVersion(files), Init(instances), steps) == Some(s) && s.lock.None?
    ensures After(SortByVersion(files), Init(instances), all) == Some(t)
    ensures t.applied == Versions(SortByVersion(files), |SortByVersion(files)|) && t.lock.None?
  {
    var ms, s0 := SortByVersion(files), Init(instances);
    SortIsAscending(files);
    SortKeepsPositive(files);
    RunsKeepInvariant(ms, instances, steps, s);
    AfterOne(ms, s0, steps, Acquire(i), s);
    var s1 := Next(ms, s, Acquire(i));
    StepKeepsInvariant(ms, s, Acquire(i));
    AfterOne(ms, s0, steps + [Acquire(i)], ReadVersion(i), s1);
    var s2 := Next(ms, s1, ReadVersion(i));
    StepKeepsInvariant(ms, s1, ReadVersion(i));
    var worked, s3 := WorkThrough(ms, s0, steps + [Acquire(i)] + [ReadVersion(i)], s2, i);
    AfterOne(ms, s0, worked, Finish(i), s3);
    assert KnowsItsPlace(ms, s3.applied, s3.phases[i]);
    all, t := worked + [Finish(i)], Next(ms, s3, Finish(i));
  }

  /** An instance that reaches the end has brought the schema up to date. */
  lemma FinishingMeansUpToDate(files: seq<Migration>, instances: nat, steps: seq<Step>, s: State, i: nat)
    requires DistinctVersions(files) && PositiveVersions(files)
    requires After(SortByVersion(files), Init(instances), steps) == Some(s)
    requires Enabled(SortByVersion(files), s, Finish(i))
    ensures s.applied == Versions(SortByVersion(files), |SortByVersion(files)|)
  {
    SortIsAscending(files);
    SortKeepsPositive(files);
    RunsKeepInvariant(SortByVersion(files), instances, steps, s);
    assert KnowsItsPlace(SortByVersion(files), s.applied, s.phases[i]);
  }

  /**
   One instance's loop under the lock: everything above the recorded maximum is applied in order,
   until something fails (`failsAt` counts the migrations that get through before it does).
   */
  method Run(ms: seq<Migration>, recorded: seq<int>, failsAt: nat) returns (after: seq<int>, ok: bool)
    requires Ascending(ms) && PositiveVersions(ms) && IsPrefix(ms, recorded)
    ensures IsPrefix(ms, after) && recorded <= after
    ensures ok ==> |after| == |ms|
    ensures !ok ==> |after| == |recorded| + failsAt
  {
    var current := MaxVersion(recorded);
    MaxOfPrefix(ms, |recorded|);
    after := recorded;
    var applied := 0;
    for i := 0 to |ms|
      invariant IsPrefix(ms, after) && recorded <= after
      invariant |after| == (if i <= |recorded| then |recorded| else i) == |recorded| + applied
    {
      if ms[i].version <= current {
        continue;
      }
      if applied == failsAt {
        return after, false;
      }
      after := after + [ms[i].version];
      applied := applied + 1;
    }
    ok := true;
  }

  // ---------- the recorded name ----------

  function DoubleQuotes(s: string): string {
    if s == [] then []
    else if s[0] == '\'' then "''" + DoubleQuotes(s[1..])
    else [s[0]] + DoubleQuotes(s[1..])
  }

  /** `quoteLiteral` */
  function QuoteLiteral(s: string): string {
    "'" + DoubleQuotes(s) + "'"
  }

  /** The body of a standard string constant after its opening quote: its value and the text after it. */
  function ReadBody(text: string): Option<(string, string)> {
    if text == [] then None
    else if text[0] != '\'' then
      var r := ReadBody(text[1..]);
      if r.None? then None else Some(([text[0]] + r.value.0, r.value.1))
    else if |text| >= 2 && text[1] == '\'' then
      var r := ReadBody(text[2..]);
      if r.None? then None else Some(("'" + r.value.0, r.value.1))
    else Some(("", text[1..]))
  }

  function ReadLiteral(text: string): Option<(string, string)> {
    if text == [] || text[0] != '\'' then None else ReadBody(text[1..])
  }

  lemma ReadsQuotePair(tail: string, value: string, rest: string)
    requires ReadBody(tail) == Some((value, rest))
    ensures ReadBody("''" + tail) == Some(("'" + value, rest))
  {
    assert ("''" + tail)[2..] == tail;
  }

  lemma ReadsPlain(c: char, tail: string, value: string, rest: string)
    requires c != '\'' && ReadBody(tail) == Some((value, rest))
    ensures ReadBody([c] + tail) == Some(([c] + value, rest))
  {
    assert ([c] + tail)[1..] == tail;
  }

  lemma {:induction false} BodyReadsBack(s: string, rest: string)
    requires rest == [] || rest[0] != '\''
    ensures ReadBody(DoubleQuotes(s) + ("'" + rest)) == Some((s, rest))
  {
    var end := "'" + rest;
    if s == [] {
      assert DoubleQuotes(s) + end == end && end[1..] == rest;
    } else {
      var tail := DoubleQuotes(s[1..]) + end;
      BodyReadsBack(s[1..], rest);
      assert s == [s[0]] + s[1..];
      if s[0] == '\'' {
        ReadsQuotePair(tail, s[1..], rest);
        Reassociate("''", DoubleQuotes(s[1..]), end);
      } else {
        ReadsPlain(s[0], tail, s[1..], rest);
        Reassociate([s[0]], DoubleQuotes(s[1..]), end);
      }
    }
  }

  /** Whatever the name, the server reads the quoted form back as the name, and stops where the quote ends. */
  lemma QuotedNameReadsBack(name: string, rest: string)
    requires rest == [] || rest[0] != '\''
    ensures ReadLiteral(QuoteLiteral(name) + rest) == Some((name, rest))
  {
    var text := QuoteLiteral(name) + rest;
    assert text == "'" + (DoubleQuotes(name) + ("'" + rest));
    assert text[1..] == DoubleQuotes(name) + ("'" + rest);
    BodyReadsBack(name, rest);
  }
}
