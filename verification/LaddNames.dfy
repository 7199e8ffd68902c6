/**
 File names of LADD lists: the publication date in a name, and the names tried for a file whose
 own name is taken.
 */
module LaddNames {
  import opened Sql
  import opened Text
  import opened Calendar

  const PREFIX := "LADD_Industry_Filter"

  /** The eight digits before a final `.txt`, if they are there. */
  function DateDigits(name: string): Option<string> {
    var n := |name|;
    if n >= 12 && name[n - 4..] == ".txt" && (forall i :: n - 12 <= i < n - 4 ==> IsDigit(name[i]))
    then Some(name[n - 12..n - 4])
    else None
  }

  /** `publishDate`: midnight of the date in the name, when it is a date. */
  function PublishDate(name: string): Option<int> {
    var digits := DateDigits(name);
    if digits.None? then None
    else
      var y, m, d := NumberOf(digits.value[..4]), NumberOf(digits.value[4..6]), NumberOf(digits.value[6..]);
      if ValidDate(y, m, d) then Some(Instant(y, m, d, 0, 0, 0)) else None
  }

  /** The date of a LADD list, for files the loader considers: dated after the zero time. */
  function ListDate(name: string): Option<int> {
    if !HasPrefix(name, PREFIX) then None
    else
      var date := PublishDate(name);
      if date.Some? && date.value > 0 then date else None
  }

  // ---------- which date a name carries ----------

  lemma Powers()
    ensures Power10(2) == 100 && Power10(4) == 10000
  {
    assert Power10(1) == 10;
    assert Power10(3) == 1000;
  }

  predicate InDigits(y: int, m: int, d: int) {
    0 <= y < Power10(4) && 0 <= m < Power10(2) && 0 <= d < Power10(2)
  }

  /** A name that ends in a date: year, month and day in four, two and two digits. */
  function Dated(text: string, y: int, m: int, d: int): string
    requires InDigits(y, m, d)
  {
    text + (Pad(y, 4) + Pad(m, 2) + Pad(d, 2)) + ".txt"
  }

  ghost predicate NamesDate(name: string, y: int, m: int, d: int) {
    ValidDate(y, m, d) && InDigits(y, m, d) && exists text :: name == Dated(text, y, m, d)
  }

  lemma DigitsReadBack(y: int, m: int, d: int)
    requires InDigits(y, m, d)
    ensures var digits := Pad(y, 4) + Pad(m, 2) + Pad(d, 2);
      && |digits| == 8 && Digits(digits)
      && NumberOf(digits[..4]) == y && NumberOf(digits[4..6]) == m && NumberOf(digits[6..]) == d
  {
    PadReadsBack(y, 4);
    PadReadsBack(m, 2);
    PadReadsBack(d, 2);
    var digits := Pad(y, 4) + Pad(m, 2) + Pad(d, 2);
    assert digits[..4] == Pad(y, 4) && digits[4..6] == Pad(m, 2) && digits[6..] == Pad(d, 2);
  }

  lemma DigitsAreFound(text: string, digits: string)
    requires |digits| == 8 && Digits(digits)
    ensures DateDigits(text + digits + ".txt") == Some(digits)
  {
    var name := text + digits + ".txt";
    var n := |name|;
    assert name[n - 4..] == ".txt" && name[n - 12..n - 4] == digits;
    assert forall i :: n - 12 <= i < n - 4 ==> name[i] == digits[i - (n - 12)];
  }

  /** A written date reads back as midnight of that day; eight digits that are no date read as none. */
  lemma DateReadsBack(text: string, y: int, m: int, d: int)
    requires InDigits(y, m, d)
    ensures PublishDate(Dated(text, y, m, d))
         == if ValidDate(y, m, d) then Some(Instant(y, m, d, 0, 0, 0)) else None
  {
    DigitsReadBack(y, m, d);
    DigitsAreFound(text, Pad(y, 4) + Pad(m, 2) + Pad(d, 2));
  }

  lemma EveryDateCanBeWritten(text: string, y: int, m: int, d: int)
    requires ValidDate(y, m, d)
    ensures InDigits(y, m, d) && PublishDate(Dated(text, y, m, d)) == Some(Instant(y, m, d, 0, 0, 0))
  {
    Powers();
    DateReadsBack(text, y, m, d);
  }

  /** Only names that end in a written date have one. */
  lemma OnlyWrittenDates(name: string) returns (text: string, y: int, m: int, d: int)
    requires PublishDate(name).Some?
    ensures ValidDate(y, m, d) && InDigits(y, m, d) && name == Dated(text, y, m, d)
    ensures NamesDate(name, y, m, d)
  {
    var n := |name|;
    var digits := DateDigits(name).value;
    text, y, m, d := name[..n - 12], NumberOf(digits[..4]), NumberOf(digits[4..6]), NumberOf(digits[6..]);
    assert forall i :: 0 <= i < 8 ==> digits[i] == name[n - 12 + i];
    DigitsWithin(digits, 0, 4);
    DigitsWithin(digits, 4, 6);
    DigitsWithin(digits, 6, 8);
    NumberPadsBack(digits[..4]);
    NumberPadsBack(digits[4..6]);
    NumberPadsBack(digits[6..]);
    assert digits == digits[..4] + digits[4..6] + digits[6..];
    assert name == text + digits + ".txt";
  }

  /** A list's name starts as the lists' names do and ends in a date after the zero time. */
  lemma ListNames(name: string)
    ensures ListDate(name).Some?
       <==> (exists rest :: name == "LADD_Industry_Filter" + rest)
            && PublishDate(name).Some? && PublishDate(name).value > 0
    ensures ListDate(name).Some? ==> ListDate(name) == PublishDate(name)
  {
    PrefixIff(name, "LADD_Industry_Filter");
  }

  /** The order of the dates of two names is the order of the calendar. */
  lemma LaterDateIsNewer(a: string, y: int, m: int, d: int, b: string, y': int, m': int, d': int)
    requires NamesDate(a, y, m, d) && NamesDate(b, y', m', d')
    ensures PublishDate(a).Some? && PublishDate(b).Some?
    ensures PublishDate(a).value < PublishDate(b).value <==> DateBefore(y, m, d, y', m', d')
  {
    var text :| a == Dated(text, y, m, d);
    var text' :| b == Dated(text', y', m', d');
    DateReadsBack(text, y, m, d);
    DateReadsBack(text', y', m', d');
    if DateBefore(y, m, d, y', m', d') {
      DateOrder(y, m, d, y', m', d');
    } else if DateBefore(y', m', d', y, m, d) {
      DateOrder(y', m', d', y, m, d);
    }
  }

  /** No date that `other` carries is later in the calendar than one that `name` carries. */
  ghost predicate NoLaterDate(name: string, other: string) {
    forall y, m, d, y', m', d' :: NamesDate(name, y, m, d) && NamesDate(other, y', m', d') ==>
      !DateBefore(y, m, d, y', m', d')
  }

  lemma NotNewerMeansNotLater(name: string, other: string)
    requires PublishDate(name).Some? && PublishDate(other).Some?
    requires PublishDate(other).value <= PublishDate(name).value
    ensures NoLaterDate(name, other)
  {
    forall y, m, d, y', m', d' | NamesDate(name, y, m, d) && NamesDate(other, y', m', d')
      ensures !DateBefore(y, m, d, y', m', d')
    {
      LaterDateIsNewer(name, y, m, d, other, y', m', d');
    }
  }

  // ---------- names for files whose own name is taken ----------

  /** Where the extension begins: the last dot, or the end. */
  function DotAt(name: string): (i: nat)
    ensures i <= |name|
    ensures i < |name| ==> name[i] == '.'
    ensures forall k :: i < k < |name| ==> name[k] != '.'
    ensures i == |name| ==> '.' !in name
  {
    if name == [] then 0
    else if name[|name| - 1] == '.' then |name| - 1
    else
      var i := DotAt(name[..|name| - 1]);
      if i == |name| - 1 then |name| else i
  }

  /** The name itself, then `stem.1.ext`, `stem.2.ext` and so on. */
  function Candidate(name: string, i: nat): string {
    if i == 0 then name
    else name[..DotAt(name)] + "." + Decimal(i) + name[DotAt(name)..]
  }

  lemma DotAtExtension(stem: string, ext: string)
    requires ext != [] && ext[0] == '.' && '.' !in ext[1..]
    ensures DotAt(stem + ext) == |stem|
  {
    var name := stem + ext;
    var at := DotAt(name);
    assert name[|stem|] == '.';
    assert forall k :: |stem| < k < |name| ==> name[k] == ext[1..][k - |stem| - 1];
  }

  /** The number goes between the stem and the extension, or after a name that has none. */
  lemma CandidateOf(stem: string, ext: string, i: nat)
    requires i > 0
    requires (ext == [] && '.' !in stem) || (ext != [] && ext[0] == '.' && '.' !in ext[1..])
    ensures Candidate(stem + ext, 0) == stem + ext
    ensures Candidate(stem + ext, i) == stem + "." + Decimal(i) + ext
  {
    if ext == [] {
      assert stem + ext == stem && DotAt(stem) == |stem|;
    } else {
      DotAtExtension(stem, ext);
    }
  }

  /** No two candidates are the same name. */
  lemma CandidatesAreDistinct(name: string, i: nat, j: nat)
    requires i != j
    ensures Candidate(name, i) != Candidate(name, j)
  {
    if i == 0 || j == 0 {
      DecimalReadsBack(i);
      DecimalReadsBack(j);
    } else if Candidate(name, i) == Candidate(name, j) {
      var at := DotAt(name);
      var front, back := name[..at] + ".", name[at..];
      assert Candidate(name, i)[|front|..|front| + |Decimal(i)|] == Decimal(i);
      assert Candidate(name, j)[|front|..|front| + |Decimal(j)|] == Decimal(j);
      DecimalIsInjective(i, j);
    }
  }

  /** `uniquePath`: the candidate with the least free index, found within one try more than there are names. */
  method UniqueName(taken: set<string>, name: string) returns (free: string, tries: nat)
    ensures free !in taken
    ensures 1 <= tries <= |taken| + 1
    ensures free == Candidate(name, tries - 1)
    ensures name !in taken ==> free == name
    ensures forall i :: 0 <= i < tries - 1 ==> Candidate(name, i) in taken
  {
    free, tries := name, 1;
    ghost var tried: set<string> := {};
    while free in taken
      invariant tries >= 1 && free == Candidate(name, tries - 1)
      invariant name !in taken ==> tries == 1
      invariant forall i :: 0 <= i < tries - 1 ==> Candidate(name, i) in taken
      invariant tried <= taken && |tried| == tries - 1
      invariant forall c :: c in tried ==> exists i :: 0 <= i < tries - 1 && c == Candidate(name, i)
      decreases |taken| - |tried|
    {
      if free in tried {
        var i :| 0 <= i < tries - 1 && free == Candidate(name, i);
        CandidatesAreDistinct(name, i, tries - 1);
      }
      tried := tried + {free};
      SmallerSubset(tried, taken);
      free, tries := Candidate(name, tries), tries + 1;
    }
    SmallerSubset(tried, taken);
  }

  lemma SmallerSubset<T>(a: set<T>, b: set<T>)
    requires a <= b
    ensures |a| <= |b|
  {
    if a != {} {
      var x :| x in a;
      SmallerSubset(a - {x}, b - {x});
    }
  }
}
