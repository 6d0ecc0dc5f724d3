/** The three-level directory hierarchy `organize_comics` files each record into. */
module Bucket {
  import opened Decimal
  import opened Format

  /** A closed range of ids `start..end`. */
  datatype Range = Range(start: int, end: int) {
    predicate Contains(n: int) {
      start <= n <= end
    }
  }

  /** The 1000-wide, 100-wide and 10-wide ranges around an id. */
  datatype Buckets = Buckets(thousands: Range, hundreds: Range, tens: Range)

  /** The nested computation of `organize_comics`: each level starts at the start of the level
      above plus a whole number of its own widths. Python's `//` by a positive constant rounds
      down, as Dafny's `/` does, so this is the source's arithmetic for every integer. */
  function BucketsOf(num: int): Buckets {
    var start1000 := ((num - 1) / 1000) * 1000 + 1;
    var start100 := start1000 + ((num - start1000) / 100) * 100;
    var start10 := start100 + ((num - start100) / 10) * 10;
    Buckets(Range(start1000, start1000 + 999), Range(start100, start100 + 99), Range(start10, start10 + 9))
  }

  /** The start of the `width`-wide range around `num`, counting ranges from 1. */
  function AlignedStart(num: int, width: nat): int
    requires width > 0
  {
    ((num - 1) / width) * width + 1
  }

  /** Each level agrees with the direct, one-level formula: the nesting computes the same ranges
      as aligning `num` to 1000, 100 and 10 independently. */
  lemma {:induction false} BucketsAreAligned(num: int)
    ensures BucketsOf(num).thousands.start == AlignedStart(num, 1000)
    ensures BucketsOf(num).hundreds.start == AlignedStart(num, 100)
    ensures BucketsOf(num).tens.start == AlignedStart(num, 10)
  {
    var x := num - 1;
    var q := x / 1000;
    var r := x % 1000;
    assert x == q * 1000 + r && 0 <= r < 1000;
    var s1000 := q * 1000 + 1;
    assert num - s1000 == r;
    var s100 := s1000 + (r / 100) * 100;
    assert x / 100 == q * 10 + r / 100;
    assert s100 == AlignedStart(num, 100);
    var r100 := x - (x / 100) * 100;
    assert num - s100 == r100;
    assert x / 10 == (x / 100) * 10 + r100 / 10;
  }

  /** The ranges nest around `num`, have widths 999, 99 and 9 (from start to end), and start one
      past a multiple of their width. */
  lemma {:induction false} BucketsNest(num: int)
    ensures var b := BucketsOf(num);
      && b.thousands.start <= b.hundreds.start <= b.tens.start <= num
      && num <= b.tens.end <= b.hundreds.end <= b.thousands.end
    ensures var b := BucketsOf(num);
      && b.thousands.end - b.thousands.start == 999
      && b.hundreds.end - b.hundreds.start == 99
      && b.tens.end - b.tens.start == 9
    ensures var b := BucketsOf(num);
      && b.thousands.start % 1000 == 1
      && b.hundreds.start % 100 == 1
      && b.tens.start % 10 == 1
  {
    BucketsAreAligned(num);
    var x := num - 1;
    var q1, q2, q3 := x / 1000, x / 100, x / 10;
    assert x == q1 * 1000 + x % 1000 && 0 <= x % 1000 < 1000;
    assert x == q2 * 100 + x % 100 && 0 <= x % 100 < 100;
    assert x == q3 * 10 + x % 10 && 0 <= x % 10 < 10;
    assert q1 * 10 <= q2 <= q1 * 10 + 9;
    assert q2 * 10 <= q3 <= q2 * 10 + 9;
    OnePastMultiples(q1, q2, q3);
  }

  lemma OnePastMultiples(q1: int, q2: int, q3: int)
    ensures (q1 * 1000 + 1) % 1000 == 1 && (q2 * 100 + 1) % 100 == 1 && (q3 * 10 + 1) % 10 == 1
  {
  }

  /** Two ids share their whole bucket path exactly when they share their 10-wide range. */
  lemma {:induction false} SameBucketsIff(a: int, b: int)
    ensures BucketsOf(a) == BucketsOf(b) <==> (a - 1) / 10 == (b - 1) / 10
  {
    BucketsAreAligned(a);
    BucketsAreAligned(b);
    BucketsNest(a);
    BucketsNest(b);
    if (a - 1) / 10 == (b - 1) / 10 {
      assert (a - 1) / 100 == ((a - 1) / 10) / 10;
      assert (b - 1) / 100 == ((b - 1) / 10) / 10;
      assert (a - 1) / 1000 == ((a - 1) / 10) / 100;
      assert (b - 1) / 1000 == ((b - 1) / 10) / 100;
    }
  }

  /** The directory label `f"{start:04}-{end:04}"`. */
  function RangeName(r: Range): string {
    Format04(r.start) + "-" + Format04(r.end)
  }

  /** The three directory names, outermost first. */
  function BucketDirs(num: int): (dirs: seq<string>)
    ensures |dirs| == 3
  {
    var b := BucketsOf(num);
    [RangeName(b.thousands), RangeName(b.hundreds), RangeName(b.tens)]
  }

  /** A label of a range with non-negative bounds gives its bounds back: the first `-` separates
      the two numbers, and `int` of each half is that bound. */
  lemma RangeNameInjective(r1: Range, r2: Range)
    requires r1.start >= 0 && r1.end >= 0 && r2.start >= 0 && r2.end >= 0
    ensures RangeName(r1) == RangeName(r2) <==> r1 == r2
  {
    if RangeName(r1) == RangeName(r2) {
      var n := RangeName(r1);
      var u1, u2 := Format04(r1.start), Format04(r2.start);
      Format04Digits(r1.start);
      Format04Digits(r2.start);
      // The separator sits right after the first label, which holds no `-`.
      assert n[|u1|] == '-' && n[|u2|] == '-';
      assert forall i :: 0 <= i < |u1| ==> n[i] == u1[i] && n[i] != '-';
      assert forall i :: 0 <= i < |u2| ==> n[i] == u2[i] && n[i] != '-';
      assert u1 == n[..|u1|] == u2;
      assert Format04(r1.end) == n[|u1| + 1..] == Format04(r2.end);
      Format04RoundTrip(r1.start);
      Format04RoundTrip(r2.start);
      Format04RoundTrip(r1.end);
      Format04RoundTrip(r2.end);
    }
  }

  /** The directory path names the buckets: two ids from 1 up are filed into the same three
      directories exactly when they share their 10-wide range. */
  lemma SameDirsIff(a: int, b: int)
    requires a >= 1 && b >= 1
    ensures BucketDirs(a) == BucketDirs(b) <==> (a - 1) / 10 == (b - 1) / 10
  {
    SameBucketsIff(a, b);
    BucketsAreAligned(a);
    BucketsAreAligned(b);
    var ta, tb := BucketsOf(a).tens, BucketsOf(b).tens;
    if BucketDirs(a) == BucketDirs(b) {
      assert RangeName(ta) == RangeName(tb);
      RangeNameInjective(ta, tb);
      assert ((a - 1) / 10) * 10 == ((b - 1) / 10) * 10;
    }
  }

  /** No bucket directory is named like a record file: labels end in a digit. */
  lemma DirNamesAreNotRecords(num: int)
    ensures forall i :: 0 <= i < 3 ==> !IsMdName(BucketDirs(num)[i])
  {
    var b := BucketsOf(num);
    forall r | r in [b.thousands, b.hundreds, b.tens] ensures !IsMdName(RangeName(r)) {
      Format04Digits(r.end);
      var n := RangeName(r);
      assert n[|n| - 1] == Format04(r.end)[|Format04(r.end)| - 1];
    }
  }

  /** Id 1 goes to `0001-1000/0001-0100/0001-0010`. */
  lemma BucketDirsOfFirstId()
    ensures BucketDirs(1) == ["0001-1000", "0001-0100", "0001-0010"]
  {
    assert (1 - 1) / 1000 == 0 && (1 - 1) / 100 == 0 && (1 - 1) / 10 == 0;
    assert BucketsOf(1) == Buckets(Range(1, 1000), Range(1, 100), Range(1, 10));
    assert Show(1) == "1";
    assert Show(10) == "10";
    assert Show(100) == "100";
    assert Show(1000) == "1000";
    assert RangeName(Range(1, 1000)) == "0001-1000";
    assert RangeName(Range(1, 100)) == "0001-0100";
    assert RangeName(Range(1, 10)) == "0001-0010";
  }

  /** Id 1005 goes to `1001-2000/1001-1100/1001-1010`. */
  lemma BucketDirsOf1005()
    ensures BucketDirs(1005) == ["1001-2000", "1001-1100", "1001-1010"]
  {
    assert (1005 - 1) / 1000 == 1;
    assert BucketsOf(1005) == Buckets(Range(1001, 2000), Range(1001, 1100), Range(1001, 1010));
    WideRangeName(Range(1001, 2000), "1001-2000");
    WideRangeName(Range(1001, 1100), "1001-1100");
    WideRangeName(Range(1001, 1010), "1001-1010");
  }

  /** The label of a range whose bounds both have four digits: the two numbers around `-`. */
  lemma WideRangeName(r: Range, name: string)
    requires |name| == 9 && name[4] == '-' && AllDigits(name[..4]) && AllDigits(name[5..])
    requires 1000 <= r.start && r.start == FourDigitValue(name[..4])
    requires 1000 <= r.end && r.end == FourDigitValue(name[5..])
    ensures RangeName(r) == name
  {
    WideLabel(r.start, name[..4]);
    WideLabel(r.end, name[5..]);
    assert name == name[..4] + "-" + name[5..];
  }

  /** The number four decimal digits denote. */
  function FourDigitValue(s: string): nat
    requires |s| == 4 && AllDigits(s)
  {
    DigitValue(s[0]) * 1000 + DigitValue(s[1]) * 100 + DigitValue(s[2]) * 10 + DigitValue(s[3])
  }

  /** A bound of four digits is written without padding. */
  lemma WideLabel(n: nat, s: string)
    requires |s| == 4 && AllDigits(s) && 1000 <= n == FourDigitValue(s)
    ensures Format04(n) == s
  {
    var a, b, c := n / 1000, n / 100, n / 10;
    assert a == DigitValue(s[0]) && b == a * 10 + DigitValue(s[1]) && c == b * 10 + DigitValue(s[2]);
    assert Show(a) == s[..1];
    assert Show(b) == Show(a) + [s[1]];
    assert Show(c) == Show(b) + [s[2]];
    assert Show(n) == Show(c) + [s[3]];
    assert Repeat('0', 0) + s == s;
  }
}
