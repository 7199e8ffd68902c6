/**
 The three directories of the LADD list lifecycle as a file system: a directory entry maps a path
 to a file, a rename moves an entry and would overwrite an existing one.
 */
module LaddFiles {
  import opened Sql
  import opened Text
  import opened LaddNames

  datatype Dir = Staging | Active | Archived

  datatype Path = Path(dir: Dir, name: string)

  /** Files are numbered; the number stands for the contents, which no operation here touches. */
  type Files = map<Path, nat>

  /** No file appears under two names. */
  ghost predicate OneNameEach(files: Files) {
    forall p, q :: p in files && q in files && p != q ==> files[p] != files[q]
  }

  predicate IsDated(p: Path, dir: Dir) {
    p.dir == dir && ListDate(p.name).Some?
  }

  /** Some dated list in the active directory is at least as new as `date`. */
  ghost predicate ActiveAtLeast(files: Files, date: int) {
    exists p :: p in files && IsDated(p, Active) && ListDate(p.name).value >= date
  }

  /** Whatever was in effect in `before` is matched or beaten in `after`. */
  ghost predicate AtLeastAsNew(before: Files, after: Files) {
    forall p :: p in before && IsDated(p, Active) ==> ActiveAtLeast(after, ListDate(p.name).value)
  }

  lemma NewnessIsTransitive(a: Files, b: Files, c: Files)
    requires AtLeastAsNew(a, b) && AtLeastAsNew(b, c)
    ensures AtLeastAsNew(a, c)
  {
    forall p | p in a && IsDated(p, Active) ensures ActiveAtLeast(c, ListDate(p.name).value) {
      var q :| q in b && IsDated(q, Active) && ListDate(q.name).value >= ListDate(p.name).value;
      var r :| r in c && IsDated(r, Active) && ListDate(r.name).value >= ListDate(q.name).value;
    }
  }

  /** Through a sequence of states the newest active date never goes down. */
  ghost predicate NeverOlder(start: Files, states: seq<Files>) {
    && (forall i :: 0 <= i < |states| ==> AtLeastAsNew(start, states[i]))
    && (forall i, j :: 0 <= i < j < |states| ==> AtLeastAsNew(states[i], states[j]))
  }

  lemma NeverOlderSnoc(start: Files, states: seq<Files>, next: Files)
    requires NeverOlder(start, states) && AtLeastAsNew(Current(start, states), next)
    ensures NeverOlder(start, states + [next])
  {
    if states != [] {
      NewnessIsTransitive(start, Current(start, states), next);
    }
    forall i | 0 <= i < |states| ensures AtLeastAsNew(states[i], next) {
      if i < |states| - 1 {
        NewnessIsTransitive(states[i], Current(start, states), next);
      }
    }
  }

  /** The entries after the last rename so far. */
  ghost function Current(start: Files, states: seq<Files>): Files {
    if states == [] then start else states[|states| - 1]
  }

  function DatedIn(files: Files, dir: Dir): set<Path> {
    set p | p in files.Keys && IsDated(p, dir)
  }

  /** Archiving in the active directory spares `keep`, which must be its newest list. */
  ghost predicate IsNewestOf(files: Files, dir: Dir, keep: string) {
    dir == Active ==>
      && Path(Active, keep) in DatedIn(files, Active)
      && forall p :: p in DatedIn(files, Active) ==> ListDate(p.name).value <= ListDate(keep).value
  }

  ghost predicate KeepsOutside(before: Files, after: Files, dir: Dir) {
    forall p :: p in before && p.dir != dir ==> p in after && after[p] == before[p]
  }

  ghost predicate OnlyArchiveGrows(before: Files, after: Files) {
    forall p :: p in after && p.dir != Archived ==> p in before && after[p] == before[p]
  }

  predicate Spared(p: Path, keep: string, succeeds: Path -> bool) {
    p.name == keep || !HasPrefix(p.name, PREFIX) || !succeeds(p)
  }

  /** The entries visited so far are gone unless spared; the others are still there. */
  ghost predicate SweptSoFar(files: Files, entries: set<Path>, left: set<Path>, keep: string, succeeds: Path -> bool) {
    && (forall p :: p in left ==> p in files)
    && (forall p :: p in entries && p !in left ==> (p in files <==> Spared(p, keep, succeeds)))
  }

  /** One more entry has been visited. */
  lemma SweepStep(start: Files, before: Files, after: Files, entries: set<Path>, left: set<Path>,
                  p: Path, target: Path, keep: string, succeeds: Path -> bool)
    requires p in left && left <= entries && p in before && p.dir != Archived
    requires target.dir == Archived && target !in before
    requires p.name != keep && HasPrefix(p.name, PREFIX)
    requires after == if succeeds(p) then (before - {p})[target := before[p]] else before
    requires forall q :: q in entries ==> q.dir == p.dir
    requires SweptSoFar(before, entries, left, keep, succeeds)
    requires KeepsOutside(start, before, p.dir) && OnlyArchiveGrows(start, before)
    ensures SweptSoFar(after, entries, left - {p}, keep, succeeds)
    ensures KeepsOutside(start, after, p.dir) && OnlyArchiveGrows(start, after)
  {
    if succeeds(p) {
      forall q | q in start && q.dir != p.dir ensures q in after && after[q] == start[q] {
        assert q in before && q != target;
      }
    }
  }

  lemma NewestSurvives(before: Files, after: Files, dir: Dir, keep: string)
    requires IsNewestOf(before, dir, keep) && OnlyArchiveGrows(before, after)
    requires dir == Active ==> Path(Active, keep) in after
    ensures IsNewestOf(after, dir, keep)
  {
    forall p | dir == Active && p in DatedIn(after, Active) ensures ListDate(p.name).value <= ListDate(keep).value {
      assert p in DatedIn(before, Active);
    }
  }

  /** Archiving anything but the newest active list keeps the active directory as new as it was. */
  lemma ArchivingKeepsNewest(files: Files, src: Path, target: Path, keep: string)
    requires src in files && target.dir == Archived && src.name != keep && IsNewestOf(files, src.dir, keep)
    ensures AtLeastAsNew(files, (files - {src})[target := files[src]])
  {
    var after := (files - {src})[target := files[src]];
    forall p | p in files && IsDated(p, Active) ensures ActiveAtLeast(after, ListDate(p.name).value) {
      var witness' := if p == src then Path(Active, keep) else p;
      assert p in DatedIn(files, Active);
      assert witness' in after && IsDated(witness', Active);
    }
  }

  /** A promotion of something newer than everything active. */
  lemma PromotionIsNewer(files: Files, src: Path, dest: Path)
    requires src in files && src.dir == Staging && dest.dir == Active && dest !in files
    requires IsDated(dest, Active)
    requires forall p :: p in DatedIn(files, Active) ==> ListDate(p.name).value < ListDate(dest.name).value
    ensures var after := (files - {src})[dest := files[src]];
      AtLeastAsNew(files, after) && IsNewestOf(after, Active, dest.name)
  {
    var after := (files - {src})[dest := files[src]];
    forall p | p in files && IsDated(p, Active) ensures ActiveAtLeast(after, ListDate(p.name).value) {
      assert p in after;
    }
    forall p | p in DatedIn(after, Active) ensures ListDate(p.name).value <= ListDate(dest.name).value {
      assert p != dest ==> p in DatedIn(files, Active);
    }
  }

  /** Of a directory's files exactly the spared ones are still there. */
  ghost predicate Swept(before: Files, after: Files, dir: Dir, keep: string, succeeds: Path -> bool) {
    forall p :: p in before && p.dir == dir ==> (p in after <==> Spared(p, keep, succeeds))
  }

  /** The list is newer than every active one. */
  ghost predicate IsNewer(files: Files, name: string) {
    ListDate(name).Some? && forall p :: p in DatedIn(files, Active) ==> ListDate(p.name).value < ListDate(name).value
  }

  /** Some staged list is newer than everything active. */
  ghost predicate HasNewer(files: Files) {
    exists p :: p in DatedIn(files, Staging) && IsNewer(files, p.name)
  }

  /**
   The staged list, newest of its kind and newer than everything active, is now the newest active list.
   Of the other LADD files of both directories exactly those whose move failed are still there.
   */
  ghost predicate Promoted(before: Files, after: Files, name: string, succeeds: Path -> bool) {
    var src, dest := Path(Staging, name), Path(Active, name);
    && src in before && dest in after && after[dest] == before[src]
    && IsNewer(before, name) && IsNewestOf(after, Active, name)
    && (forall p :: p in DatedIn(before, Staging) ==> ListDate(p.name).value <= ListDate(name).value)
    && Swept(before, after, Active, name, succeeds)
    && (forall p :: p in before && p.dir == Staging && p != src ==> (p in after <==> Spared(p, "", succeeds)))
  }

  lemma PromotionIsComplete(before: Files, moved: Files, after: Files, name: string, succeeds: Path -> bool)
    requires Path(Staging, name) in before && Path(Active, name) !in before && IsNewer(before, name)
    requires forall p :: p in DatedIn(before, Staging) ==> ListDate(p.name).value <= ListDate(name).value
    requires moved == (before - {Path(Staging, name)})[Path(Active, name) := before[Path(Staging, name)]]
    requires Swept(moved, after, Active, name, succeeds) && Swept(moved, after, Staging, "", succeeds)
    requires IsNewestOf(after, Active, name) && after[Path(Active, name)] == moved[Path(Active, name)]
    ensures Promoted(before, after, name, succeeds)
  {
    forall p | p in before && p.dir == Active ensures p in after <==> Spared(p, name, succeeds) {
      assert p in moved;
    }
    forall p | p in before && p.dir == Staging && p != Path(Staging, name)
      ensures p in after <==> Spared(p, "", succeeds)
    {
      assert p in moved;
    }
  }

  lemma StagingShrinks(before: Files, after: Files, gone: Path)
    requires forall p :: p in after && p.dir == Staging ==> p in before
    ensures DatedIn(after, Staging) <= DatedIn(before, Staging)
    ensures gone in DatedIn(before, Staging) && gone !in after ==> DatedIn(after, Staging) < DatedIn(before, Staging)
  {
  }

  lemma ProperlySmallerSubset<T>(a: set<T>, b: set<T>)
    requires a < b
    ensures |a| < |b|
  {
    var x :| x in b && x !in a;
    SmallerSubset(a, b - {x});
  }

  lemma TrackedIsAtLeastAsNew(start: Files, states: seq<Files>)
    requires NeverOlder(start, states)
    ensures AtLeastAsNew(start, Current(start, states))
  {
  }

  class LaddDirs {
    var files: Files
    const subdirs: set<Path> // names taken by directories
    ghost var states: seq<Files> // the directory entries after every rename

    constructor (files: Files, subdirs: set<Path>)
      ensures this.files == files && this.subdirs == subdirs && states == []
    {
      this.files, this.subdirs, this.states := files, subdirs, [];
    }

    /** `moveInto` on the rename path: into a free name of the target directory, or not at all. */
    method MoveInto(dest: Dir, src: Path, succeeds: bool) returns (ok: bool, target: Path)
      requires src in files && OneNameEach(files)
      modifies this
      ensures ok == succeeds && target.dir == dest
      ensures !ok ==> files == old(files) && states == old(states)
      ensures ok ==> files == (old(files) - {src})[target := old(files)[src]] && states == old(states) + [files]
      ensures target !in old(files) && target !in subdirs
      ensures Path(dest, src.name) !in old(files) && Path(dest, src.name) !in subdirs ==> target == Path(dest, src.name)
      ensures OneNameEach(files) && files.Values == old(files).Values
    {
      var taken := set p | p in files.Keys + subdirs && p.dir == dest :: p.name;
      var name, _ := UniqueName(taken, src.name);
      target := Path(dest, name);
      ghost var before := files;
      assert src.name !in taken ==> target == Path(dest, src.name);
      ok := succeeds;
      if succeeds {
        files := (files - {src})[target := files[src]];
        states := states + [files];
        RenameKeepsFiles(before, src, target);
      }
    }

    /** `newestDated`: a list of the greatest date, or no name if there is none. */
    method NewestDated(dir: Dir) returns (name: string, date: int)
      ensures name == "" ==> date == 0 && DatedIn(files, dir) == {}
      ensures name != "" ==> Path(dir, name) in DatedIn(files, dir) && ListDate(name) == Some(date)
      ensures forall p :: p in DatedIn(files, dir) ==> ListDate(p.name).value <= date
      ensures forall p :: name != "" && p in DatedIn(files, dir) ==> NoLaterDate(name, p.name)
    {
      name, date := "", 0;
      var left := files.Keys;
      while left != {}
        invariant left <= files.Keys
        invariant name == "" ==> date == 0
        invariant name != "" ==> Path(dir, name) in DatedIn(files, dir) && ListDate(name) == Some(date)
        invariant forall p :: p in DatedIn(files, dir) && p !in left ==> name != "" && ListDate(p.name).value <= date
        decreases left
      {
        var p :| p in left;
        left := left - {p};
        if p.dir != dir || !HasPrefix(p.name, PREFIX) {
          continue;
        }
        var d := PublishDate(p.name);
        if d.None? {
          continue;
        }
        if d.value > date {
          date, name := d.value, p.name;
        }
      }
      forall p | name != "" && p in DatedIn(files, dir) ensures NoLaterDate(name, p.name) {
        NotNewerMeansNotLater(name, p.name);
      }
    }

    /** The renames since `from` never made the active directory older, and `files` is where they led. */
    ghost predicate Tracked(start: Files, from: nat)
      reads this
    {
      from <= |states| && NeverOlder(start, states[from..]) && files == Current(start, states[from..])
    }

    /** Move one file that is not the newest active list to the archive. */
    method ArchiveOne(p: Path, keep: string, succeeds: bool, ghost start: Files, ghost from: nat)
      returns (target: Path)
      requires OneNameEach(files) && Tracked(start, from)
      requires p in files && p.dir != Archived && p.name != keep && IsNewestOf(files, p.dir, keep)
      modifies this
      ensures OneNameEach(files) && files.Values == old(files).Values && Tracked(start, from)
      ensures old(states) <= states
      ensures !succeeds ==> files == old(files)
      ensures target.dir == Archived && target !in old(files)
      ensures succeeds ==> files == (old(files) - {p})[target := old(files)[p]]
    {
      ghost var before, sofar := files, states[from..];
      var ok;
      ok, target := MoveInto(Archived, p, succeeds);
      if ok {
        ArchivingKeepsNewest(before, p, target, keep);
        NeverOlderSnoc(start, sofar, files);
        assert states[from..] == sofar + [files];
      }
    }

    /**
     `archiveLADD`: every LADD file of `dir` but `keep` is moved to the archive, if its move succeeds.
     Along the way the active directory never loses its newest list, as long as `keep` is that list.
     */
    method ArchiveLadd(dir: Dir, keep: string, succeeds: Path -> bool, ghost start: Files, ghost from: nat)
      requires dir != Archived && OneNameEach(files) && Tracked(start, from) && IsNewestOf(files, dir, keep)
      modifies this
      ensures OneNameEach(files) && files.Values == old(files).Values && Tracked(start, from)
      ensures old(states) <= states
      ensures KeepsOutside(old(files), files, dir) && OnlyArchiveGrows(old(files), files)
      ensures forall p :: p in old(files) && p.dir == dir ==> (p in files <==> Spared(p, keep, succeeds))
    {
      var entries := set p | p in files.Keys && p.dir == dir;
      var left := entries;
      while left != {}
        invariant left <= entries
        invariant OneNameEach(files) && files.Values == old(files).Values && Tracked(start, from)
        invariant old(states) <= states
        invariant KeepsOutside(old(files), files, dir) && OnlyArchiveGrows(old(files), files)
        invariant SweptSoFar(files, entries, left, keep, succeeds)
        decreases left
      {
        var p :| p in left;
        if p.name == keep || !HasPrefix(p.name, PREFIX) {
          left := left - {p};
          continue;
        }
        NewestSurvives(old(files), files, dir, keep);
        ghost var before := files;
        var target := ArchiveOne(p, keep, succeeds(p), start, from);
        SweepStep(old(files), before, files, entries, left, p, target, keep, succeeds);
        left := left - {p};
      }
    }

    /** No directory sits in the active directory under the name of a dated list. */
    ghost predicate NoDatedSubdirs() {
      forall p :: p in subdirs ==> !IsDated(p, Active)
    }

    /** Move the staged list into the active directory, where its own name is free. */
    method PromoteStaged(name: string, date: int, succeeds: bool, ghost start: Files, ghost from: nat)
      returns (ok: bool)
      requires OneNameEach(files) && Tracked(start, from) && NoDatedSubdirs()
      requires Path(Staging, name) in DatedIn(files, Staging) && ListDate(name) == Some(date)
      requires forall p :: p in DatedIn(files, Active) ==> ListDate(p.name).value < date
      modifies this
      ensures ok == succeeds
      ensures OneNameEach(files) && files.Values == old(files).Values && Tracked(start, from)
      ensures old(states) <= states
      ensures !ok ==> files == old(files)
      ensures ok ==> IsNewestOf(files, Active, name)
      ensures ok ==>
        files == (old(files) - {Path(Staging, name)})[Path(Active, name) := old(files)[Path(Staging, name)]]
    {
      ghost var before, sofar := files, states[from..];
      var src, dest := Path(Staging, name), Path(Active, name);
      assert dest !in files && dest !in subdirs by {
        assert dest in files ==> dest in DatedIn(files, Active);
        assert dest in subdirs ==> !IsDated(dest, Active);
      }
      var target;
      ok, target := MoveInto(Active, src, succeeds);
      if ok {
        PromotionIsNewer(before, src, dest);
        NeverOlderSnoc(start, sofar, files);
        assert states[from..] == sofar + [files];
      }
    }

    /** After a promotion, archive the superseded lists of the active directory and of staging. */
    method SweepSuperseded(name: string, succeeds: Path -> bool, ghost start: Files, ghost from: nat)
      requires OneNameEach(files) && Tracked(start, from) && IsNewestOf(files, Active, name)
      modifies this
      ensures OneNameEach(files) && files.Values == old(files).Values && Tracked(start, from)
      ensures old(states) <= states
      ensures OnlyArchiveGrows(old(files), files) && IsNewestOf(files, Active, name)
      ensures files[Path(Active, name)] == old(files)[Path(Active, name)]
      ensures Swept(old(files), files, Active, name, succeeds) && Swept(old(files), files, Staging, "", succeeds)
    {
      ghost var before := files;
      ArchiveLadd(Active, name, succeeds, start, from);
      NewestSurvives(before, files, Active, name);
      ghost var between := files;
      ArchiveLadd(Staging, "", succeeds, start, from);
      NewestSurvives(between, files, Active, name);
    }

    /**
     `Promote`. Whatever subset of the moves fails, no file is lost or overwritten and at no point is
     the active directory's newest list older than before. A call whose moves all succeed takes at
     least one dated file out of staging while there is one, and never puts one in.
     */
    method Promote(succeeds: Path -> bool, ghost start: Files, ghost from: nat)
      returns (promoted: string, failed: bool)
      requires OneNameEach(files) && NoDatedSubdirs() && Tracked(start, from)
      modifies this
      ensures OneNameEach(files) && files.Values == old(files).Values
      ensures old(states) <= states && Tracked(start, from)
      ensures DatedIn(files, Staging) <= DatedIn(old(files), Staging)
      ensures (forall p :: succeeds(p)) && DatedIn(old(files), Staging) != {} ==>
        DatedIn(files, Staging) < DatedIn(old(files), Staging)
      ensures promoted != "" ==> Promoted(old(files), files, promoted, succeeds)
      ensures promoted == "" ==> OnlyArchiveGrows(old(files), files)
      ensures failed ==> promoted == "" && files == old(files)
      ensures HasNewer(old(files)) <==> promoted != "" || failed
      ensures failed ==> exists p :: p in DatedIn(old(files), Staging) && !succeeds(p)
    {
      ghost var before := files;
      var stagedName, stagedDate := NewestDated(Staging);
      if stagedName == "" {
        return "", false;
      }
      var staged := Path(Staging, stagedName);
      var _, activeDate := NewestDated(Active);
      if stagedDate <= activeDate {
        var _ := ArchiveOne(staged, "", succeeds(staged), start, from);
        StagingShrinks(before, files, staged);
        return "", false;
      }
      assert IsNewer(before, stagedName);
      var ok := PromoteAndSweep(stagedName, stagedDate, succeeds, start, from);
      if !ok {
        return "", true;
      }
      StagingShrinks(before, files, staged);
      return stagedName, false;
    }

    /** The staged list is newer: move it, and if that worked archive what it supersedes. */
    method PromoteAndSweep(name: string, date: int, succeeds: Path -> bool, ghost start: Files, ghost from: nat)
      returns (ok: bool)
      requires OneNameEach(files) && Tracked(start, from) && NoDatedSubdirs()
      requires Path(Staging, name) in DatedIn(files, Staging) && ListDate(name) == Some(date) && IsNewer(files, name)
      requires forall p :: p in DatedIn(files, Staging) ==> ListDate(p.name).value <= date
      modifies this
      ensures ok == succeeds(Path(Staging, name))
      ensures OneNameEach(files) && files.Values == old(files).Values
      ensures old(states) <= states && Tracked(start, from)
      ensures !ok ==> files == old(files)
      ensures ok ==> Promoted(old(files), files, name, succeeds) && Path(Staging, name) !in files
      ensures forall p :: p in files && p.dir == Staging ==> p in old(files)
    {
      ghost var before := files;
      assert Path(Active, name) in files ==> Path(Active, name) in DatedIn(files, Active);
      ok := PromoteStaged(name, date, succeeds(Path(Staging, name)), start, from);
      if ok {
        ghost var moved := files;
        SweepSuperseded(name, succeeds, start, from);
        PromotionIsComplete(before, moved, files, name, succeeds);
      }
    }

    /**
     The reloader's ticker: any number of calls, any of whose moves may fail. Over all of them no file
     is lost or overwritten and the active directory never gets older, not even between two renames;
     if the moves succeed, as many calls as there are dated files empty staging of them.
     */
    method PromoteRepeatedly(calls: nat, succeeds: nat -> Path -> bool)
      requires OneNameEach(files) && NoDatedSubdirs()
      modifies this
      ensures OneNameEach(files) && files.Values == old(files).Values
      ensures old(states) <= states && NeverOlder(old(files), states[|old(states)|..])
      ensures AtLeastAsNew(old(files), files)
      ensures (forall k, p :: succeeds(k)(p)) && calls >= |DatedIn(old(files), Staging)| ==>
        DatedIn(files, Staging) == {}
    {
      ghost var start, from := files, |states|;
      assert states[from..] == [];
      for k := 0 to calls
        invariant OneNameEach(files) && files.Values == old(files).Values
        invariant old(states) <= states && Tracked(start, from)
        invariant (forall i, p :: succeeds(i)(p)) ==>
          DatedIn(files, Staging) == {} || |DatedIn(files, Staging)| + k <= |DatedIn(start, Staging)|
      {
        ghost var dated := DatedIn(files, Staging);
        var _, _ := Promote(succeeds(k), start, from);
        SmallerSubset(DatedIn(files, Staging), dated);
        if DatedIn(files, Staging) < dated {
          ProperlySmallerSubset(DatedIn(files, Staging), dated);
        }
      }
      TrackedIsAtLeastAsNew(start, states[from..]);
    }
  }

  /** A rename onto a free name loses and overwrites nothing. */
  lemma RenameKeepsFiles(files: Files, src: Path, target: Path)
    requires src in files && target !in files && OneNameEach(files)
    ensures var after := (files - {src})[target := files[src]];
      OneNameEach(after) && after.Values == files.Values
  {
    var after := (files - {src})[target := files[src]];
    forall v ensures v in after.Values <==> v in files.Values {
      if v in files.Values {
        var p :| p in files && files[p] == v;
        assert p != src ==> p in after && after[p] == v;
        assert after[target] == files[src];
      }
    }
  }
}
