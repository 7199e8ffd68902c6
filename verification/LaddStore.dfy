/**
 The installed block list: what is read from the active directory, when a newer list replaces the
 installed one, and the upload check that decides what may get there.
 */
module LaddStore {
  import opened Sql
  import opened Text
  import opened LaddNames
  import opened LaddList
  import opened LaddFiles

  // ---------- reading a file ----------

  /** A line of this many bytes or more does not fit the line scanner's buffer. */
  const MAX_LINE := 65536

  /** The bytes a character takes in UTF-8. */
  function Width(c: char): nat {
    if c < '\U{80}' then 1 else if c < '\U{800}' then 2 else if c < '\U{10000}' then 3 else 4
  }

  function Bytes(line: string): nat {
    if line == [] then 0 else Bytes(line[..|line| - 1]) + Width(line[|line| - 1])
  }

  datatype Scanned = Scanned(lines: seq<string>, tooLong: bool)

  function LineEnd(content: string): (i: nat)
    ensures i <= |content|
    ensures forall k :: 0 <= k < i ==> content[k] != '\n'
    ensures i < |content| ==> content[i] == '\n'
  {
    if content == [] || content[0] == '\n' then 0 else 1 + LineEnd(content[1..])
  }

  function DropCr(line: string): string {
    if line != [] && line[|line| - 1] == '\r' then line[..|line| - 1] else line
  }

  /** The line scanner: lines without their end, up to the first one that is too long. */
  function Scan(content: string): Scanned
    decreases |content|
  {
    if content == [] then Scanned([], false)
    else
      var i := LineEnd(content);
      if Bytes(content[..i]) >= MAX_LINE then Scanned([], true)
      else
        var rest := Scan(if i < |content| then content[i + 1..] else []);
        Scanned([DropCr(content[..i])] + rest.lines, rest.tooLong)
  }

  lemma LineEndOf(line: string, rest: string)
    requires '\n' !in line
    ensures LineEnd(line + ("\n" + rest)) == |line|
  {
    var text := line + ("\n" + rest);
    var i := LineEnd(text);
    assert text[|line|] == '\n';
    assert forall k :: 0 <= k < |line| ==> text[k] == line[k];
  }

  /** The scanner reads line by line, up to a line of 65536 bytes or more. */
  lemma ScanReadsLine(line: string, rest: string)
    requires '\n' !in line
    ensures Bytes(line) >= 65536 ==> Scan(line + ("\n" + rest)) == Scanned([], true)
    ensures Bytes(line) < 65536 ==>
      Scan(line + ("\n" + rest)) == Scanned([DropCr(line)] + Scan(rest).lines, Scan(rest).tooLong)
  {
    var text := line + ("\n" + rest);
    LineEndOf(line, rest);
    assert text[..|line|] == line && text[|line| + 1..] == rest;
  }

  /** A carriage return before the line end is not part of the line. */
  lemma ScanDropsReturn(line: string, rest: string)
    requires '\n' !in line && Bytes(line + "\r") < 65536
    ensures Scan((line + "\r") + ("\n" + rest)) == Scanned([line] + Scan(rest).lines, Scan(rest).tooLong)
  {
    ScanReadsLine(line + "\r", rest);
    assert (line + "\r")[..|line|] == line;
  }

  /** Lines, each with its end. */
  function Written(lines: seq<string>): string {
    if lines == [] then [] else lines[0] + ("\n" + Written(lines[1..]))
  }

  lemma WrittenFirst(lines: seq<string>)
    requires lines != []
    ensures Written(lines) == lines[0] + ("\n" + Written(lines[1..]))
  {
  }

  /** Scanning undoes writing, for lines that fit and have no line end of their own. */
  lemma {:induction false} ScanUndoesWriting(lines: seq<string>)
    requires forall k :: 0 <= k < |lines| ==> Fits(lines[k])
    ensures Scan(Written(lines)) == Scanned(lines, false)
  {
    if lines != [] {
      var line, more := lines[0], lines[1..];
      ScanUndoesWriting(more);
      WrittenFirst(lines);
      ScanPrepends(line, Written(more), more);
      assert [line] + more == lines;
    }
  }

  ghost predicate Fits(line: string) {
    '\n' !in line && '\r' !in line && Bytes(line) < 65536
  }

  lemma ScanPrepends(line: string, rest: string, lines: seq<string>)
    requires Fits(line) && Scan(rest) == Scanned(lines, false)
    ensures Scan(line + ("\n" + rest)) == Scanned([line] + lines, false)
  {
    ScanReadsLine(line, rest);
    assert DropCr(line) == line;
  }

  function Power2(n: nat): nat {
    if n == 0 then 1 else 2 * Power2(n - 1)
  }

  /** The code points below which `n` bytes are enough: seven bits in one byte, `5 n + 1` in more. */
  function Capacity(n: nat): nat {
    if n == 0 then 0 else if n == 1 then Power2(7) else Power2(5 * n + 1)
  }

  lemma Capacities()
    ensures Capacity(1) == 128 && Capacity(2) == 2048 && Capacity(3) == 65536 && Capacity(4) == 2097152
  {
    assert Power2(4) == 16;
    assert Power2(8) == 16 * Power2(4);
    assert Power2(12) == 16 * Power2(8);
    assert Power2(16) == 16 * Power2(12);
    assert Power2(20) == 16 * Power2(16);
  }

  /** A character takes the fewest bytes that can hold it (section 3 of RFC 3629). */
  lemma WidthIsLeast(c: char)
    ensures 1 <= Width(c) <= 4 && Capacity(Width(c) - 1) <= c as int < Capacity(Width(c))
  {
    Capacities();
  }

  /** A character takes one to four bytes, and one exactly if it is ASCII. */
  lemma {:induction false} BytesOfLine(line: string)
    ensures |line| <= Bytes(line) <= 4 * |line|
    ensures Bytes(line) == |line| <==> forall i :: 0 <= i < |line| ==> line[i] < '\U{80}'
  {
    if line != [] {
      BytesOfLine(line[..|line| - 1]);
    }
  }

  /** What loading a file yields: its date and the lines of its contents, read to the end. */
  ghost predicate IsLoadOf(snap: Snapshot, name: string, content: string) {
    ListDate(name) == Some(snap.date) && !Scan(content).tooLong && snap.lines == Scan(content).lines
  }

  datatype ListFile = ListFile(name: string, content: string)

  /** The file is a dated list that can be read to the end. */
  predicate Loads(f: ListFile) {
    ListDate(f.name).Some? && !Scan(f.content).tooLong
  }

  /** What a file that loads puts in effect: its lines and its own date. */
  function LoadOf(f: ListFile): (snap: Snapshot)
    requires Loads(f)
    ensures IsLoadOf(snap, f.name, f.content) && snap.date > 0
  {
    Snapshot(Scan(f.content).lines, ListDate(f.name).value)
  }

  /** Lines and date come from one file. */
  ghost predicate IsFileLoad(snap: Snapshot) {
    exists f: ListFile :: Loads(f) && snap == LoadOf(f)
  }

  /** The snapshot is a load of some newest list of the active directory. */
  ghost predicate IsLatest(snap: Snapshot, files: Files, contents: nat -> string) {
    exists p :: IsNewestLoad(snap, files, contents, p)
  }

  ghost predicate IsNewestLoad(snap: Snapshot, files: Files, contents: nat -> string, p: Path) {
    p in files && p.dir == Active && IsNewestOf(files, Active, p.name) && IsLoadOf(snap, p.name, contents(files[p]))
  }

  lemma LatestIsFileLoad(snap: Snapshot, files: Files, contents: nat -> string)
    requires IsLatest(snap, files, contents)
    ensures IsFileLoad(snap)
  {
    var p :| IsNewestLoad(snap, files, contents, p);
    var f := ListFile(p.name, contents(files[p]));
    assert Loads(f) && snap == LoadOf(f);
  }

  /** No active list is newer than `date`, or a newest one cannot be read to the end. */
  ghost predicate NothingNewer(files: Files, contents: nat -> string, date: int) {
    || (forall p :: p in DatedIn(files, Active) ==> ListDate(p.name).value <= date)
    || (exists p :: IsUnreadableNewest(files, contents, p))
  }

  ghost predicate IsUnreadableNewest(files: Files, contents: nat -> string, p: Path) {
    p in DatedIn(files, Active) && IsNewestOf(files, Active, p.name) && Scan(contents(files[p])).tooLong
  }

  /** `LoadLatest`: the newest dated list, unless there is none or it cannot be read to the end. */
  method LoadLatest(dirs: LaddDirs, contents: nat -> string) returns (loaded: Option<Snapshot>)
    ensures loaded.Some? ==> IsLatest(loaded.value, dirs.files, contents)
    ensures loaded.None? && DatedIn(dirs.files, Active) != {} ==>
      exists p :: IsUnreadableNewest(dirs.files, contents, p)
  {
    var name, date := dirs.NewestDated(Active);
    if name == "" {
      return None;
    }
    var path := Path(Active, name);
    var scanned := Scan(contents(dirs.files[path]));
    assert IsNewestOf(dirs.files, Active, name);
    if scanned.tooLong {
      assert IsUnreadableNewest(dirs.files, contents, path);
      return None;
    }
    loaded := Some(Snapshot(scanned.lines, date));
    assert IsNewestLoad(loaded.value, dirs.files, contents, path);
  }

  lemma NotReplaced(files: Files, contents: nat -> string, loaded: Option<Snapshot>, date: int)
    requires loaded.Some? ==> IsLatest(loaded.value, files, contents) && loaded.value.date <= date
    requires loaded.None? && DatedIn(files, Active) != {} ==> exists p :: IsUnreadableNewest(files, contents, p)
    ensures NothingNewer(files, contents, date)
  {
    if loaded.Some? {
      var q :| IsNewestLoad(loaded.value, files, contents, q);
    }
  }

  class Store {
    const maxAge: int
    const dev: bool
    var current: Snapshot

    constructor (maxAge: int, dev: bool)
      ensures this.maxAge == maxAge && this.dev == dev && current == NOTHING_LOADED
    {
      this.maxAge, this.dev, this.current := maxAge, dev, NOTHING_LOADED;
    }

    method Swap(snap: Snapshot)
      modifies this
      ensures current == snap
    {
      current := snap;
    }

    /**
     `Reload`: promote, load, and install only what is strictly newer. The installed date never goes
     back, what is installed is one file's lines with that same file's date, and the directories lose
     nothing whatever happens.
     */
    method Reload(dirs: LaddDirs, contents: nat -> string, succeeds: Path -> bool) returns (swapped: bool)
      requires OneNameEach(dirs.files) && dirs.NoDatedSubdirs()
      modifies this, dirs
      ensures current.date >= old(current.date)
      ensures swapped <==> current.date > old(current.date)
      ensures swapped ==> IsLatest(current, dirs.files, contents) && IsFileLoad(current)
      ensures !swapped ==> current == old(current)
      ensures !swapped ==> NothingNewer(dirs.files, contents, current.date)
      ensures OneNameEach(dirs.files) && dirs.files.Values == old(dirs.files.Values)
      ensures AtLeastAsNew(old(dirs.files), dirs.files)
    {
      ghost var start, from := dirs.files, |dirs.states|;
      assert dirs.states[from..] == [];
      var _, _ := dirs.Promote(succeeds, start, from);
      TrackedIsAtLeastAsNew(start, dirs.states[from..]);
      var loaded := LoadLatest(dirs, contents);
      if loaded.None? || loaded.value.date <= current.date {
        NotReplaced(dirs.files, contents, loaded, current.date);
        return false;
      }
      LatestIsFileLoad(loaded.value, dirs.files, contents);
      Swap(loaded.value);
      swapped := true;
    }

    /** The gate checked before every batch. */
    method CheckReady(now: int) returns (ready: bool)
      ensures ready <==> dev || Ready(current, maxAge, now)
      ensures !dev && ready ==>
        current.date != 0 && SomeListed(current.lines) && (maxAge > 0 ==> now <= current.date + maxAge)
      ensures current.date != 0 && SomeListed(current.lines) && (maxAge > 0 ==> now <= current.date + maxAge) ==> ready
    {
      ReadyMeans(current, maxAge, now);
      if dev {
        return true;
      }
      var entries := LoadLines(current.lines);
      if current.date == 0 || |entries| == 0 {
        return false;
      }
      ready := !(maxAge > 0 && now - current.date > maxAge);
    }
  }

  // ---------- the upload check ----------

  /** The part after the last slash or backslash. */
  function BaseName(name: string): (r: string)
    ensures '/' !in r && '\\' !in r
    ensures |r| <= |name| && r == name[|name| - |r|..]
    ensures |r| < |name| ==> name[|name| - |r| - 1] == '/' || name[|name| - |r| - 1] == '\\'
  {
    if name == [] then []
    else
      var c, front := name[|name| - 1], BaseName(name[..|name| - 1]);
      if c == '/' || c == '\\' then [] else front + [c]
  }

  datatype Verdict = Rejected | Accepted(name: string, date: int, entries: nat)

  method CountEntries(content: string) returns (n: nat)
    ensures n == CountListed(Scan(content).lines)
  {
    var lines := Scan(content).lines;
    n := 0;
    for i := 0 to |lines|
      invariant n == CountListed(lines[..i])
    {
      CountGrows(lines, i);
      var line := TrimSpace(lines[i]);
      if line == "" || line[0] == '#' {
        continue;
      }
      n := n + 1;
    }
    assert lines[..|lines|] == lines;
  }

  /** The conditions of an accepted upload. */
  ghost predicate Acceptable(name: string, content: string, maxAge: int, now: int) {
    && HasPrefix(name, PREFIX)
    && PublishDate(name).Some?
    && PublishDate(name).value <= now
    && !(maxAge > 0 && now - PublishDate(name).value > maxAge)
    && CountListed(Scan(content).lines) != 0
  }

  method Check(filename: string, content: string, maxAge: int, now: int) returns (v: Verdict)
    ensures v.Accepted? <==> Acceptable(BaseName(filename), content, maxAge, now)
    ensures v.Accepted? ==>
      && v.name == BaseName(filename) && PublishDate(v.name) == Some(v.date)
      && v.entries == CountListed(Scan(content).lines)
  {
    var name := BaseName(filename);
    if !HasPrefix(name, PREFIX) {
      return Rejected;
    }
    var date := PublishDate(name);
    if date.None? {
      return Rejected;
    }
    if date.value > now {
      return Rejected;
    }
    if maxAge > 0 && now - date.value > maxAge {
      return Rejected;
    }
    var entries := CountEntries(content);
    if entries == 0 {
      return Rejected;
    }
    v := Accepted(name, date.value, entries);
  }

  /** A directory that holds just this file, and its contents. */
  function Alone(name: string): Files {
    map[Path(Active, name) := 0]
  }

  function Always(content: string): nat -> string {
    (_: nat) => content
  }

  /** What is loaded from there is the file, and it is loaded if it can be. */
  lemma LoadedAlone(name: string, content: string, snap: Snapshot)
    ensures IsLatest(snap, Alone(name), Always(content)) <==> IsLoadOf(snap, name, content)
  {
    var files, p := Alone(name), Path(Active, name);
    if IsLatest(snap, files, Always(content)) {
      var q :| IsNewestLoad(snap, files, Always(content), q);
      assert q == p;
    }
    if IsLoadOf(snap, name, content) {
      assert IsNewestLoad(snap, files, Always(content), p);
    }
  }

  /**
   An accepted upload, alone in the active directory, makes a starting filter ready at the same clock
   and maximum age exactly when its date is after the zero time and no line overflows the scanner.
   Whatever the filter loads from there carries the date the check saw and has an entry.
   */
  lemma AcceptedUploadIsReadyIff(name: string, content: string, maxAge: int, now: int)
    requires Acceptable(name, content, maxAge, now)
    ensures (exists snap :: IsLatest(snap, Alone(name), Always(content)) && Ready(snap, maxAge, now))
       <==> PublishDate(name).value > 0 && !Scan(content).tooLong
    ensures forall snap :: IsLatest(snap, Alone(name), Always(content)) ==>
      Some(snap.date) == PublishDate(name) && Entries(snap.lines) != {}
  {
    EntriesEmptyIffCountZero(Scan(content).lines);
    forall snap ensures IsLatest(snap, Alone(name), Always(content)) <==> IsLoadOf(snap, name, content) {
      LoadedAlone(name, content, snap);
    }
    var date, scanned := PublishDate(name).value, Scan(content);
    if date > 0 && !scanned.tooLong {
      var snap := Snapshot(scanned.lines, date);
      assert IsLatest(snap, Alone(name), Always(content)) && Ready(snap, maxAge, now);
    }
  }
}
