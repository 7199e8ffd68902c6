/**
 A LADD block list: the identifiers of a list file and the lookup against them.
 */
module LaddList {
  import opened Text

  function UpperChar(c: char): char {
    if 'a' <= c <= 'z' then c - 'a' + 'A' else c
  }

  function Upper(s: string): (r: string)
    ensures |r| == |s|
  {
    seq(|s|, i requires 0 <= i < |s| => UpperChar(s[i]))
  }

  /** Case and surrounding space do not distinguish identifiers. */
  function Normalize(s: string): string {
    Upper(TrimSpace(s))
  }

  /** The same character, or the two cases of one letter. */
  predicate SameLetter(c: char, d: char) {
    || c == d
    || ('a' <= c <= 'z' && d as int == c as int - 32)
    || ('a' <= d <= 'z' && c as int == d as int - 32)
  }

  ghost predicate SameText(a: string, b: string) {
    |a| == |b| && forall i :: 0 <= i < |a| ==> SameLetter(a[i], b[i])
  }

  /** A line and an identifier are the same up to case and surrounding space. */
  ghost predicate Matches(line: string, id: string) {
    SameText(TrimSpace(line), TrimSpace(id))
  }

  lemma UpperIffSameLetter(c: char, d: char)
    ensures UpperChar(c) == UpperChar(d) <==> SameLetter(c, d)
  {
  }

  lemma UpperIffSameText(a: string, b: string)
    ensures Upper(a) == Upper(b) <==> SameText(a, b)
  {
    forall i | 0 <= i < |a| && i < |b| ensures Upper(a)[i] == Upper(b)[i] <==> SameLetter(a[i], b[i]) {
      UpperIffSameLetter(a[i], b[i]);
    }
    if Upper(a) == Upper(b) {
      assert |a| == |b|;
    }
  }

  /** The normal forms are equal exactly for what matches. */
  lemma NormalizeIffMatches(line: string, id: string)
    ensures Normalize(line) == Normalize(id) <==> Matches(line, id)
  {
    UpperIffSameText(TrimSpace(line), TrimSpace(id));
  }

  /** A line that names an identifier: not blank and not a comment. */
  predicate Listed(line: string) {
    var t := TrimSpace(line);
    t != "" && t[0] != '#'
  }

  /** The normalised identifiers of a file. */
  function Entries(lines: seq<string>): set<string> {
    set i | 0 <= i < |lines| && Listed(lines[i]) :: Normalize(lines[i])
  }

  predicate Has(entries: set<string>, id: string) {
    var k := Normalize(id);
    k != "" && k in entries
  }

  predicate Blocks(entries: set<string>, callSign: string, registration: string) {
    Has(entries, callSign) || Has(entries, registration)
  }

  /** A loaded file: its lines and its publication date, an instant with 0 for the zero time. */
  datatype Snapshot = Snapshot(lines: seq<string>, date: int)

  const NOTHING_LOADED := Snapshot([], 0)

  /** The gate outside dev mode: a list is loaded, has entries and is not too old. */
  predicate Ready(snap: Snapshot, maxAge: int, now: int) {
    && snap.date != 0
    && Entries(snap.lines) != {}
    && !(maxAge > 0 && now - snap.date > maxAge)
  }

  /** The identifiers of a file in order: trimmed lines, blanks and comments dropped. */
  function ListedIds(lines: seq<string>): (ids: seq<string>)
    ensures |ids| == CountListed(lines)
  {
    if lines == [] then []
    else
      var before, line := ListedIds(lines[..|lines| - 1]), lines[|lines| - 1];
      if Listed(line) then before + [TrimSpace(line)] else before
  }

  /** The scan of `loadFile`. */
  method CollectIds(lines: seq<string>) returns (ids: seq<string>)
    ensures ids == ListedIds(lines)
  {
    ids := [];
    for i := 0 to |lines|
      invariant ids == ListedIds(lines[..i])
    {
      assert lines[..i + 1][..i] == lines[..i];
      var line := TrimSpace(lines[i]);
      if line == "" || line[0] == '#' {
        continue;
      }
      ids := ids + [line];
    }
    assert lines[..|lines|] == lines;
  }

  function CountListed(lines: seq<string>): nat {
    if lines == [] then 0
    else CountListed(lines[..|lines| - 1]) + if Listed(lines[|lines| - 1]) then 1 else 0
  }

  lemma CountGrows(lines: seq<string>, i: nat)
    requires i < |lines|
    ensures CountListed(lines[..i + 1]) == CountListed(lines[..i]) + if Listed(lines[i]) then 1 else 0
  {
    assert lines[..i + 1][..i] == lines[..i];
  }

  /** `NewSet`: a map keyed by the normalised identifiers, blanks left out. */
  method NewSet(ids: seq<string>) returns (entries: set<string>)
    ensures entries == Keys(ids)
  {
    entries := {};
    for i := 0 to |ids|
      invariant entries == Keys(ids[..i])
    {
      KeysGrow(ids, i);
      var k := Normalize(ids[i]);
      if k != "" {
        entries := entries + {k};
      }
    }
    assert ids[..|ids|] == ids;
  }

  function Keys(ids: seq<string>): set<string> {
    set i | 0 <= i < |ids| && Normalize(ids[i]) != "" :: Normalize(ids[i])
  }

  lemma KeysGrow(ids: seq<string>, n: nat)
    requires n < |ids|
    ensures Keys(ids[..n + 1]) == Keys(ids[..n]) + if Normalize(ids[n]) != "" then {Normalize(ids[n])} else {}
  {
    assert ids[..n + 1] == ids[..n] + [ids[n]];
    KeysOfOneMore(ids[..n], ids[n]);
  }

  lemma KeysOfOneMore(a: seq<string>, id: string)
    ensures Keys(a + [id]) == Keys(a) + if Normalize(id) != "" then {Normalize(id)} else {}
  {
    var b := a + [id];
    forall e ensures e in Keys(b) <==> e in Keys(a) || (e == Normalize(id) && e != "") {
      if e in Keys(a) {
        var i :| 0 <= i < |a| && Normalize(a[i]) != "" && e == Normalize(a[i]);
        assert b[i] == a[i];
      }
      if e in Keys(b) {
        var i :| 0 <= i < |b| && Normalize(b[i]) != "" && e == Normalize(b[i]);
        assert i < |a| ==> a[i] == b[i];
      }
      assert b[|a|] == id;
    }
  }

  lemma EntriesOfOneMore(a: seq<string>, line: string)
    ensures Entries(a + [line]) == Entries(a) + if Listed(line) then {Normalize(line)} else {}
  {
    var b := a + [line];
    forall e ensures e in Entries(b) <==> e in Entries(a) || (e == Normalize(line) && Listed(line)) {
      if e in Entries(a) {
        var i :| 0 <= i < |a| && Listed(a[i]) && e == Normalize(a[i]);
        assert b[i] == a[i];
      }
      if e in Entries(b) {
        var i :| 0 <= i < |b| && Listed(b[i]) && e == Normalize(b[i]);
        assert i < |a| ==> a[i] == b[i];
      }
      assert b[|a|] == line;
    }
  }

  lemma NormalizeOfTrimmed(line: string)
    ensures Normalize(TrimSpace(line)) == Normalize(line)
    ensures Listed(line) ==> Normalize(line) != ""
  {
  }

  /** The set built from the collected identifiers holds exactly the listed lines, normalised. */
  lemma {:induction false} KeysAreEntries(lines: seq<string>)
    ensures Keys(ListedIds(lines)) == Entries(lines)
  {
    if lines != [] {
      var before, line := lines[..|lines| - 1], lines[|lines| - 1];
      assert lines == before + [line];
      KeysAreEntries(before);
      EntriesOfOneMore(before, line);
      NormalizeOfTrimmed(line);
      KeysOfOneMore(ListedIds(before), TrimSpace(line));
    }
  }

  /** Loading a file is collecting its lines and building the set: exactly the listed identifiers. */
  method LoadLines(lines: seq<string>) returns (entries: set<string>)
    ensures entries == Entries(lines)
  {
    var ids := CollectIds(lines);
    entries := NewSet(ids);
    KeysAreEntries(lines);
  }

  /** A flight passes exactly when no listed line is one of its identifiers. */
  lemma PassesIffNoListedLineMatches(lines: seq<string>, callSign: string, registration: string)
    ensures !Blocks(Entries(lines), callSign, registration) <==>
      forall i :: 0 <= i < |lines| && Listed(lines[i]) ==>
        Normalize(lines[i]) != Normalize(callSign) && Normalize(lines[i]) != Normalize(registration)
  {
    forall i | 0 <= i < |lines| && Listed(lines[i]) ensures Normalize(lines[i]) in Entries(lines) {
    }
  }

  /** Some listed line is one of the flight's two identifiers. */
  ghost predicate OnList(lines: seq<string>, callSign: string, registration: string) {
    exists k :: 0 <= k < |lines| && Listed(lines[k]) && (Matches(lines[k], callSign) || Matches(lines[k], registration))
  }

  lemma BlocksIffOnList(lines: seq<string>, callSign: string, registration: string)
    ensures Blocks(Entries(lines), callSign, registration) <==> OnList(lines, callSign, registration)
  {
    PassesIffNoListedLineMatches(lines, callSign, registration);
    forall k | 0 <= k < |lines|
      ensures Normalize(lines[k]) == Normalize(callSign) <==> Matches(lines[k], callSign)
      ensures Normalize(lines[k]) == Normalize(registration) <==> Matches(lines[k], registration)
    {
      NormalizeIffMatches(lines[k], callSign);
      NormalizeIffMatches(lines[k], registration);
    }
  }

  // ---------- readiness ----------

  ghost predicate SomeListed(lines: seq<string>) {
    exists k :: 0 <= k < |lines| && Listed(lines[k])
  }

  /** What readiness asks: a list was loaded, names something, and is not older than allowed. */
  lemma ReadyMeans(snap: Snapshot, maxAge: int, now: int)
    ensures Ready(snap, maxAge, now)
       <==> snap.date != 0 && SomeListed(snap.lines) && (maxAge > 0 ==> now <= snap.date + maxAge)
  {
    EntriesEmptyIffCountZero(snap.lines);
    CountIsZeroIffNoneListed(snap.lines);
  }

  /** A list that is ready stays so exactly until it is too old, and for good if no age is set. */
  lemma ReadyUntilTooOld(snap: Snapshot, maxAge: int, now: int, later: int)
    requires Ready(snap, maxAge, now)
    ensures Ready(snap, maxAge, later) <==> maxAge <= 0 || later <= snap.date + maxAge
  {
  }

  ghost predicate NoneListed(lines: seq<string>) {
    forall i :: 0 <= i < |lines| ==> !Listed(lines[i])
  }

  lemma {:induction false} CountIsZeroIffNoneListed(lines: seq<string>)
    ensures CountListed(lines) == 0 <==> NoneListed(lines)
  {
    if lines != [] {
      var n := |lines| - 1;
      CountIsZeroIffNoneListed(lines[..n]);
      assert lines == lines[..n] + [lines[n]];
      assert NoneListed(lines) <==> NoneListed(lines[..n]) && !Listed(lines[n]) by {
        assert forall i :: 0 <= i < n ==> lines[..n][i] == lines[i];
      }
    }
  }

  /** The set built from a file is empty exactly when the entry count of the file is zero. */
  lemma EntriesEmptyIffCountZero(lines: seq<string>)
    ensures Entries(lines) == {} <==> CountListed(lines) == 0
  {
    CountIsZeroIffNoneListed(lines);
    if i :| 0 <= i < |lines| && Listed(lines[i]) {
      assert Normalize(lines[i]) in Entries(lines);
    }
  }
}
