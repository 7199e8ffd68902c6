/**
 The position both writers keep from a message's list, and why comparing timestamps as strings
 picks the chronologically latest one.
 */
module Positions {
  import opened Sql
  import opened Text
  import opened Calendar

  // ---------- string order ----------

  /** `a < b` on strings. */
  predicate Less(a: string, b: string) {
    if b == [] then false
    else if a == [] then true
    else a[0] < b[0] || (a[0] == b[0] && Less(a[1..], b[1..]))
  }

  lemma {:induction false} LessIsTotal(a: string, b: string)
    ensures a == b || Less(a, b) || Less(b, a)
    ensures !(Less(a, b) && Less(b, a))
    ensures Less(a, b) ==> a != b
  {
    if a != [] && b != [] {
      LessIsTotal(a[1..], b[1..]);
      assert a == [a[0]] + a[1..] && b == [b[0]] + b[1..];
    }
  }

  lemma {:induction false} LessIsTransitive(a: string, b: string, c: string)
    requires Less(a, b) && Less(b, c)
    ensures Less(a, c)
  {
    if a != [] && a[0] == b[0] == c[0] {
      LessIsTransitive(a[1..], b[1..], c[1..]);
    }
  }

  /** Strings of equal-length parts compare part by part. */
  lemma {:induction false} LessByParts(a: string, x: string, b: string, y: string)
    requires |a| == |b|
    ensures Less(a + x, b + y) <==> Less(a, b) || (a == b && Less(x, y))
    ensures a + x == b + y <==> a == b && x == y
  {
    if a == [] {
      assert a + x == x && b + y == y;
    } else {
      assert (a + x)[1..] == a[1..] + x && (b + y)[1..] == b[1..] + y;
      assert a == [a[0]] + a[1..] && b == [b[0]] + b[1..];
      LessByParts(a[1..], x, b[1..], y);
      assert a + x == b + y ==> (a + x)[0] == (b + y)[0] && (a + x)[1..] == (b + y)[1..];
    }
  }

  // ---------- the loop ----------

  /** One reported position; `coord` is absent when its text does not parse. */
  datatype Reported = Reported(
    time: string, coord: Option<(real, real)>, alt: string, altUom: string, vx: string, vy: string)

  /** The last of the usable positions with the greatest timestamp. */
  ghost predicate IsLatestUsable(ps: seq<Reported>, i: int) {
    && 0 <= i < |ps| && ps[i].coord.Some?
    && (forall k :: 0 <= k < |ps| && ps[k].coord.Some? ==> !Less(ps[i].time, ps[k].time))
    && (forall k :: i < k < |ps| && ps[k].coord.Some? ==> Less(ps[k].time, ps[i].time))
  }

  lemma LatestUsableIsUnique(ps: seq<Reported>, i: int, j: int)
    requires IsLatestUsable(ps, i) && IsLatestUsable(ps, j)
    ensures i == j
  {
    LessIsTotal(ps[i].time, ps[j].time);
  }

  lemma LatestUsableSnoc(ps: seq<Reported>, n: nat, i: int)
    requires n < |ps| && IsLatestUsable(ps[..n], i) && ps[n].coord.Some?
    ensures IsLatestUsable(ps[..n + 1], if Less(ps[n].time, ps[i].time) then i else n)
  {
    var up := ps[..n + 1];
    assert forall k :: 0 <= k < n ==> ps[..n][k] == ps[k] && up[k] == ps[k];
    LessIsTotal(ps[n].time, ps[i].time);
    LessIsTotal(ps[n].time, ps[n].time);
    if !Less(ps[n].time, ps[i].time) {
      forall k | 0 <= k < n && ps[k].coord.Some? ensures !Less(ps[n].time, ps[k].time) {
        if Less(ps[n].time, ps[k].time) && ps[n].time != ps[i].time {
          LessIsTransitive(ps[i].time, ps[n].time, ps[k].time);
        }
        assert !Less(ps[i].time, ps[..n][k].time);
      }
    }
  }

  ghost predicate NoneUsable(ps: seq<Reported>) {
    forall k :: 0 <= k < |ps| ==> ps[k].coord.None?
  }

  /** What the history keeps of a position. */
  datatype HistoryBest = HistoryBest(time: string, lat: real, lon: real, alt: string, vx: string, vy: string)

  /** What the live view keeps of a position. */
  datatype CacheBest = CacheBest(
    time: string, lat: real, lon: real, alt: string, altUom: string, vx: string, vy: string)

  function ForHistory(p: Reported): HistoryBest
    requires p.coord.Some?
  {
    HistoryBest(p.time, p.coord.value.0, p.coord.value.1, p.alt, p.vx, p.vy)
  }

  function ForCache(p: Reported): CacheBest
    requires p.coord.Some?
  {
    CacheBest(p.time, p.coord.value.0, p.coord.value.1, p.alt, p.altUom, p.vx, p.vy)
  }

  /** The database-writer's loop. */
  method LatestForHistory(ps: seq<Reported>) returns (best: Option<HistoryBest>)
    ensures best.None? <==> NoneUsable(ps)
    ensures forall i :: IsLatestUsable(ps, i) ==> best == Some(ForHistory(ps[i]))
    ensures best.Some? ==> exists i :: IsLatestUsable(ps, i)
  {
    best := None;
    ghost var at := -1;
    for n := 0 to |ps|
      invariant best.None? <==> NoneUsable(ps[..n])
      invariant best.Some? ==> IsLatestUsable(ps[..n], at) && best == Some(ForHistory(ps[at]))
    {
      var p := ps[n];
      assert ps[..n + 1] == ps[..n] + [p];
      if p.coord.None? {
        continue;
      }
      if best.Some? {
        LatestUsableSnoc(ps, n, at);
        if Less(p.time, best.value.time) {
          continue;
        }
      } else {
        LessIsTotal(p.time, p.time);
      }
      best := Some(HistoryBest(p.time, p.coord.value.0, p.coord.value.1, p.alt, p.vx, p.vy));
      at := n;
    }
    assert ps[..|ps|] == ps;
    forall i | IsLatestUsable(ps, i) ensures best == Some(ForHistory(ps[i])) {
      if best.Some? {
        LatestUsableIsUnique(ps, i, at);
      }
    }
  }

  /** The cache-writer's loop. */
  method LatestForCache(ps: seq<Reported>) returns (best: Option<CacheBest>)
    ensures best.None? <==> NoneUsable(ps)
    ensures forall i :: IsLatestUsable(ps, i) ==> best == Some(ForCache(ps[i]))
    ensures best.Some? ==> exists i :: IsLatestUsable(ps, i)
  {
    best := None;
    ghost var at := -1;
    for n := 0 to |ps|
      invariant best.None? <==> NoneUsable(ps[..n])
      invariant best.Some? ==> IsLatestUsable(ps[..n], at) && best == Some(ForCache(ps[at]))
    {
      var p := ps[n];
      assert ps[..n + 1] == ps[..n] + [p];
      if p.coord.None? {
        continue;
      }
      if best.Some? {
        LatestUsableSnoc(ps, n, at);
        if Less(p.time, best.value.time) {
          continue;
        }
      } else {
        LessIsTotal(p.time, p.time);
      }
      best := Some(CacheBest(p.time, p.coord.value.0, p.coord.value.1, p.alt, p.altUom, p.vx, p.vy));
      at := n;
    }
    assert ps[..|ps|] == ps;
    forall i | IsLatestUsable(ps, i) ensures best == Some(ForCache(ps[i])) {
      if best.Some? {
        LatestUsableIsUnique(ps, i, at);
      }
    }
  }

  // ---------- timestamps ----------

  /** A UTC time of day on a calendar day, to the second. */
  datatype Stamp = Stamp(y: int, m: int, d: int, h: int, min: int, s: int)

  predicate ValidStamp(t: Stamp) {
    ValidDate(t.y, t.m, t.d) && ValidClock(t.h, t.min, t.s)
  }

  function InstantOf(t: Stamp): int
    requires ValidStamp(t)
  {
    Instant(t.y, t.m, t.d, t.h, t.min, t.s)
  }

  lemma {:induction false} PadKeepsOrder(a: int, b: int, w: nat)
    requires 0 <= a < Power10(w) && 0 <= b < Power10(w)
    ensures Less(Pad(a, w), Pad(b, w)) <==> a < b
    ensures Pad(a, w) == Pad(b, w) <==> a == b
    decreases w
  {
    if w > 0 {
      PadKeepsOrder(a / 10, b / 10, w - 1);
      LessByParts(Pad(a / 10, w - 1), [Digit(a % 10)], Pad(b / 10, w - 1), [Digit(b % 10)]);
    }
  }

  /** `YYYY-MM-DDThh:mm:ssZ`, the UTC form of section 5.6 of RFC 3339. */
  function Format(t: Stamp): string
    requires ValidStamp(t)
  {
    Pad(t.y, 4) + ("-" + (Pad(t.m, 2) + ("-" + (Pad(t.d, 2) + ("T" +
      (Pad(t.h, 2) + (":" + (Pad(t.min, 2) + (":" + (Pad(t.s, 2) + "Z"))))))))))
  }

  /** Two strings that start with a number of the same width and then the same character. */
  lemma FieldThenRest(a: int, b: int, w: nat, mark: char, x: string, y: string)
    requires 0 <= a < Power10(w) && 0 <= b < Power10(w)
    ensures Less(Pad(a, w) + ([mark] + x), Pad(b, w) + ([mark] + y)) <==> a < b || (a == b && Less(x, y))
  {
    PadKeepsOrder(a, b, w);
    LessByParts(Pad(a, w), [mark] + x, Pad(b, w), [mark] + y);
    LessByParts([mark], x, [mark], y);
  }

  predicate StampBefore(a: Stamp, b: Stamp) {
    || DateBefore(a.y, a.m, a.d, b.y, b.m, b.d)
    || (a.y == b.y && a.m == b.m && a.d == b.d
        && (a.h < b.h || (a.h == b.h && (a.min < b.min || (a.min == b.min && a.s < b.s)))))
  }

  lemma FormatOrder(a: Stamp, b: Stamp)
    requires ValidStamp(a) && ValidStamp(b)
    ensures Less(Format(a), Format(b)) <==> StampBefore(a, b)
  {
    var za, zb: string := Pad(a.s, 2) + "Z", Pad(b.s, 2) + "Z";
    assert za == Pad(a.s, 2) + (['Z'] + []) && zb == Pad(b.s, 2) + (['Z'] + []);
    FieldThenRest(a.s, b.s, 2, 'Z', [], []);
    var ma, mb := Pad(a.min, 2) + (":" + za), Pad(b.min, 2) + (":" + zb);
    FieldThenRest(a.min, b.min, 2, ':', za, zb);
    var ha, hb := Pad(a.h, 2) + (":" + ma), Pad(b.h, 2) + (":" + mb);
    FieldThenRest(a.h, b.h, 2, ':', ma, mb);
    var da, db := Pad(a.d, 2) + ("T" + ha), Pad(b.d, 2) + ("T" + hb);
    FieldThenRest(a.d, b.d, 2, 'T', ha, hb);
    var oa, ob := Pad(a.m, 2) + ("-" + da), Pad(b.m, 2) + ("-" + db);
    FieldThenRest(a.m, b.m, 2, '-', da, db);
    FieldThenRest(a.y, b.y, 4, '-', oa, ob);
  }

  lemma InstantOrder(a: Stamp, b: Stamp)
    requires ValidStamp(a) && ValidStamp(b) && StampBefore(a, b)
    ensures InstantOf(a) < InstantOf(b)
  {
    if DateBefore(a.y, a.m, a.d, b.y, b.m, b.d) {
      DateOrder(a.y, a.m, a.d, b.y, b.m, b.d);
    }
  }

  /** Comparing the strings is comparing the instants. */
  lemma StringOrderIsTimeOrder(a: Stamp, b: Stamp)
    requires ValidStamp(a) && ValidStamp(b)
    ensures Less(Format(a), Format(b)) <==> InstantOf(a) < InstantOf(b)
  {
    FormatOrder(a, b);
    if StampBefore(a, b) {
      InstantOrder(a, b);
    } else if a != b {
      InstantOrder(b, a);
    }
  }

  /** When every usable position carries such a timestamp, the one kept is the latest in time, the last of ties. */
  lemma KeptPositionIsChronologicallyLatest(ps: seq<Reported>, stamps: seq<Stamp>, i: nat)
    requires |stamps| == |ps| && IsLatestUsable(ps, i)
    requires forall k :: 0 <= k < |ps| && ps[k].coord.Some? ==> ValidStamp(stamps[k]) && ps[k].time == Format(stamps[k])
    ensures forall k :: 0 <= k < |ps| && ps[k].coord.Some? ==> InstantOf(stamps[k]) <= InstantOf(stamps[i])
    ensures forall k :: i < k < |ps| && ps[k].coord.Some? ==> InstantOf(stamps[k]) < InstantOf(stamps[i])
  {
    forall k | 0 <= k < |ps| && ps[k].coord.Some?
      ensures InstantOf(stamps[k]) <= InstantOf(stamps[i])
      ensures i < k ==> InstantOf(stamps[k]) < InstantOf(stamps[i])
    {
      StringOrderIsTimeOrder(stamps[i], stamps[k]);
      StringOrderIsTimeOrder(stamps[k], stamps[i]);
    }
  }

  // ---------- fractions of a second ----------

  /** A time with the digits after the decimal point, none meaning that there is no point either. */
  datatype Fine = Fine(t: Stamp, fraction: string)

  ghost predicate ValidFine(a: Fine) {
    ValidStamp(a.t) && Digits(a.fraction)
  }

  /** The value of the digits after the point. */
  ghost function Fraction(digits: string): (r: real)
    requires Digits(digits)
    ensures 0.0 <= r < 1.0
  {
    if digits == [] then 0.0 else (DigitValue(digits[0]) as real + Fraction(digits[1..])) / 10.0
  }

  ghost function TimeOf(a: Fine): real
    requires ValidFine(a)
  {
    InstantOf(a.t) as real + Fraction(a.fraction)
  }

  /** Everything but the final `Z`. */
  function Seconds(t: Stamp): (r: string)
    requires ValidStamp(t)
    ensures r + "Z" == Format(t) && |r| == 19
  {
    Format(t)[..|Format(t)| - 1]
  }

  function Tail(fraction: string): string {
    if fraction == [] then "Z" else ['.'] + (fraction + "Z")
  }

  /** `YYYY-MM-DDThh:mm:ss`, the optional fraction, `Z`. */
  function FormatFine(a: Fine): string
    requires ValidStamp(a.t)
  {
    Seconds(a.t) + Tail(a.fraction)
  }

  lemma SecondsOrder(a: Stamp, b: Stamp)
    requires ValidStamp(a) && ValidStamp(b)
    ensures Less(Seconds(a), Seconds(b)) <==> InstantOf(a) < InstantOf(b)
    ensures Seconds(a) == Seconds(b) <==> InstantOf(a) == InstantOf(b)
  {
    StringOrderIsTimeOrder(a, b);
    StringOrderIsTimeOrder(b, a);
    LessIsTotal("Z", "Z");
    LessByParts(Seconds(a), "Z", Seconds(b), "Z");
    LessByParts(Seconds(b), "Z", Seconds(a), "Z");
    LessIsTotal(Seconds(a), Seconds(b));
  }

  lemma SameSecondMeansSameStamp(a: Stamp, b: Stamp)
    requires ValidStamp(a) && ValidStamp(b) && InstantOf(a) == InstantOf(b)
    ensures a == b
  {
    if StampBefore(a, b) {
      InstantOrder(a, b);
    } else if StampBefore(b, a) {
      InstantOrder(b, a);
    }
  }

  lemma StepIn(c: char, x: string, d: char, y: string)
    ensures Less([c] + x, [d] + y) <==> c < d || (c == d && Less(x, y))
  {
    assert ([c] + x)[1..] == x && ([d] + y)[1..] == y;
  }

  /**
   Digit strings followed by `Z`: a proper prefix sorts after the longer string although its value is
   not greater; strings that differ before either ends sort by value.
   */
  lemma {:induction false} FractionOrder(f: string, g: string)
    requires Digits(f) && Digits(g)
    ensures f < g ==> Less(g + "Z", f + "Z") && Fraction(f) <= Fraction(g)
    ensures g < f ==> Less(f + "Z", g + "Z") && Fraction(g) <= Fraction(f)
    ensures !(f <= g) && !(g <= f) ==> Fraction(f) != Fraction(g)
    ensures !(f <= g) && !(g <= f) ==> (Less(f + "Z", g + "Z") <==> Fraction(f) < Fraction(g))
  {
    if f != [] && g != [] {
      FractionOrder(f[1..], g[1..]);
      assert f == [f[0]] + f[1..] && g == [g[0]] + g[1..];
      assert f + "Z" == [f[0]] + (f[1..] + "Z") && g + "Z" == [g[0]] + (g[1..] + "Z");
      StepIn(f[0], f[1..] + "Z", g[0], g[1..] + "Z");
      StepIn(g[0], g[1..] + "Z", f[0], f[1..] + "Z");
    }
  }

  /** The two orders agree on two fractions of the same second. */
  ghost predicate FractionsAgree(f: string, g: string)
    requires Digits(f) && Digits(g)
  {
    && (Less(Tail(f), Tail(g)) <==> Fraction(f) < Fraction(g))
    && (Less(Tail(g), Tail(f)) <==> Fraction(g) < Fraction(f))
  }

  lemma PrefixSortsLast(f: string, g: string)
    requires Digits(f) && Digits(g) && f < g
    ensures Less(Tail(g), Tail(f)) && Fraction(f) <= Fraction(g)
  {
    FractionOrder(f, g);
    if f != [] {
      StepIn('.', g + "Z", '.', f + "Z");
    }
  }

  lemma FractionsAgreeIff(f: string, g: string)
    requires Digits(f) && Digits(g)
    ensures FractionsAgree(f, g) <==> !(f < g) && !(g < f)
  {
    if f < g {
      PrefixSortsLast(f, g);
    } else if g < f {
      PrefixSortsLast(g, f);
    } else if f == g {
      LessIsTotal(Tail(f), Tail(g));
    } else {
      FractionOrder(f, g);
      FractionOrder(g, f);
      StepIn('.', f + "Z", '.', g + "Z");
      StepIn('.', g + "Z", '.', f + "Z");
    }
  }

  /** Not the same second, or neither fraction is a proper prefix of the other. */
  predicate Comparable(a: Fine, b: Fine) {
    a.t != b.t || (!(a.fraction < b.fraction) && !(b.fraction < a.fraction))
  }

  ghost predicate OrdersAgree(a: Fine, b: Fine)
    requires ValidFine(a) && ValidFine(b)
  {
    && (Less(FormatFine(a), FormatFine(b)) <==> TimeOf(a) < TimeOf(b))
    && (Less(FormatFine(b), FormatFine(a)) <==> TimeOf(b) < TimeOf(a))
  }

  /** String order is time order for two timestamps exactly when a caller can see that they are comparable. */
  lemma FractionalOrderIsTimeOrderIff(a: Fine, b: Fine)
    requires ValidFine(a) && ValidFine(b)
    ensures OrdersAgree(a, b) <==> Comparable(a, b)
  {
    SecondsOrder(a.t, b.t);
    SecondsOrder(b.t, a.t);
    LessByParts(Seconds(a.t), Tail(a.fraction), Seconds(b.t), Tail(b.fraction));
    LessByParts(Seconds(b.t), Tail(b.fraction), Seconds(a.t), Tail(a.fraction));
    if a.t == b.t {
      LessIsTotal(Seconds(a.t), Seconds(b.t));
      FractionsAgreeIff(a.fraction, b.fraction);
    } else if InstantOf(a.t) == InstantOf(b.t) {
      SameSecondMeansSameStamp(a.t, b.t);
    }
  }

  // ---------- what the loop keeps ----------

  /** The usable positions carry these times, all of them from `times`. */
  ghost predicate Stamped(ps: seq<Reported>, stamps: seq<Fine>, times: iset<Fine>) {
    && |stamps| == |ps|
    && forall k :: 0 <= k < |ps| && ps[k].coord.Some? ==>
         stamps[k] in times && ValidFine(stamps[k]) && ps[k].time == FormatFine(stamps[k])
  }

  /** `ps[i]` is the latest usable position in time, the last of ties. */
  ghost predicate IsLatestInTime(ps: seq<Reported>, stamps: seq<Fine>, i: int) {
    && |stamps| == |ps| && 0 <= i < |ps| && ps[i].coord.Some? && ValidFine(stamps[i])
    && forall k :: 0 <= k < |ps| && ps[k].coord.Some? && ValidFine(stamps[k]) ==>
         TimeOf(stamps[k]) <= TimeOf(stamps[i]) && (i < k ==> TimeOf(stamps[k]) < TimeOf(stamps[i]))
  }

  ghost predicate AllComparable(times: iset<Fine>) {
    forall a, b :: a in times && b in times ==> Comparable(a, b)
  }

  lemma ComparableTimesKeepTheLatest(ps: seq<Reported>, stamps: seq<Fine>, times: iset<Fine>, i: int)
    requires Stamped(ps, stamps, times) && AllComparable(times) && IsLatestUsable(ps, i)
    ensures IsLatestInTime(ps, stamps, i)
  {
    forall k | 0 <= k < |ps| && ps[k].coord.Some? && ValidFine(stamps[k])
      ensures TimeOf(stamps[k]) <= TimeOf(stamps[i]) && (i < k ==> TimeOf(stamps[k]) < TimeOf(stamps[i]))
    {
      FractionalOrderIsTimeOrderIff(stamps[k], stamps[i]);
    }
  }

  function At(a: Fine): Reported
    requires ValidStamp(a.t)
  {
    Reported(FormatFine(a), Some((0.0, 0.0)), "", "", "", "")
  }

  /** A time whose fraction is a proper prefix of the next one's is kept in front of it, though it is not later. */
  lemma PrefixIsKept(a: Fine, b: Fine)
    requires ValidFine(a) && ValidFine(b) && a.t == b.t && a.fraction < b.fraction
    ensures IsLatestUsable([At(a), At(b)], 0)
    ensures TimeOf(a) <= TimeOf(b)
  {
    PrefixSortsLast(a.fraction, b.fraction);
    LessIsTotal(Seconds(a.t), Seconds(b.t));
    LessByParts(Seconds(b.t), Tail(b.fraction), Seconds(a.t), Tail(a.fraction));
    LessIsTotal(FormatFine(a), FormatFine(b));
    LessIsTotal(FormatFine(a), FormatFine(a));
  }

  /**
   Mixing whole seconds with fractions makes the loops keep an older position: of a whole second and
   any later fraction of it they keep the whole second.
   */
  lemma MixedFormsKeepTheOlder(t: Stamp, fraction: string)
    requires ValidStamp(t) && Digits(fraction) && Fraction(fraction) > 0.0
    ensures IsLatestUsable([At(Fine(t, [])), At(Fine(t, fraction))], 0)
    ensures TimeOf(Fine(t, [])) < TimeOf(Fine(t, fraction))
  {
    PrefixIsKept(Fine(t, []), Fine(t, fraction));
  }

  lemma IncomparableTimesBreakAList(a: Fine, b: Fine, times: iset<Fine>)
    requires a in times && b in times && ValidFine(a) && ValidFine(b) && a.t == b.t && a.fraction < b.fraction
    ensures Stamped([At(a), At(b)], [a, b], times) && IsLatestUsable([At(a), At(b)], 0)
    ensures !IsLatestInTime([At(a), At(b)], [a, b], 0)
  {
    PrefixIsKept(a, b);
    var ps, stamps := [At(a), At(b)], [a, b];
    assert ps[1] == At(b) && stamps[1] == b && ps[1].coord.Some?;
  }

  /**
   Over a set of times, the loops keep the chronologically latest position, the last of ties, of every
   list exactly when the times are pairwise comparable.
   */
  lemma KeptIsLatestInTimeIff(times: iset<Fine>)
    requires forall a :: a in times ==> ValidFine(a)
    ensures (forall ps, stamps, i ::
               Stamped(ps, stamps, times) && IsLatestUsable(ps, i) ==> IsLatestInTime(ps, stamps, i))
       <==> AllComparable(times)
  {
    if AllComparable(times) {
      forall ps, stamps, i | Stamped(ps, stamps, times) && IsLatestUsable(ps, i) ensures IsLatestInTime(ps, stamps, i) {
        ComparableTimesKeepTheLatest(ps, stamps, times, i);
      }
    } else {
      var a, b :| a in times && b in times && a.t == b.t && a.fraction < b.fraction;
      IncomparableTimesBreakAList(a, b, times);
    }
  }
}
