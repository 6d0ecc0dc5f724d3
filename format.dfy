/** Zero-padded names: `format_str`, the `{x:04}` directory labels, and record file names. */
module Format {
  import opened Wrappers
  import opened Decimal

  /** `format_str(s, base)`: left-pads `s` with `base[0]` up to the width given by the digit
      `base[1]`; a string already that wide or wider is returned as it is. */
  function FormatStr(s: string, base: string := "04"): (r: string)
    requires |base| >= 2 && IsDigit(base[1])
    ensures var w := DigitValue(base[1]); |r| == if |s| >= w then |s| else w
    ensures |r| >= |s| && r[|r| - |s|..] == s
    ensures forall i :: 0 <= i < |r| - |s| ==> r[i] == base[0]
    ensures |s| >= DigitValue(base[1]) ==> r == s
  {
    var w := DigitValue(base[1]);
    if |s| >= w then s else Repeat(base[0], w - |s|) + s
  }

  /** `format_str(index)` as called by `write_md`: `str(index)` padded with zeros to width 4. */
  function FormatId(n: int): string {
    FormatStr(ShowInt(n))
  }

  /** The record file name `f"{format_str(index)}.md"`. */
  function RecordName(n: int): string {
    FormatId(n) + ".md"
  }

  /** Names that `glob('*.md')` matches. */
  predicate IsMdName(name: string) {
    |name| >= 3 && name[|name| - 3..] == ".md"
  }

  /** `Path(name).stem` for a name ending in `.md` (for the name ".md" itself Python's stem is
      ".md"; both that and the empty stem fail to parse as an integer). */
  function Stem(name: string): (stem: string)
    requires IsMdName(name)
    ensures stem + ".md" == name
  {
    name[..|name| - 3]
  }

  /** `int(file.stem)`. */
  function StemNumber(name: string): Option<int>
    requires IsMdName(name)
  {
    Parse(Stem(name))
  }

  /** `f"{x:04}"`: the sign, then zeros, then the digits of `|x|`, at least 4 characters wide. */
  function Format04(x: int): string {
    var digits := Show(if x < 0 then -x else x);
    var sign := if x < 0 then "-" else "";
    var fill := 4 - |sign| - |digits|;
    sign + Repeat('0', if fill > 0 then fill else 0) + digits
  }

  /** A padded non-negative id is the canonical digits of the id after zeros only. */
  lemma FormatIdShape(n: nat)
    ensures |FormatId(n)| == if |Show(n)| >= 4 then |Show(n)| else 4
    ensures FormatId(n) == Repeat('0', |FormatId(n)| - |Show(n)|) + Show(n)
  {
    var s := Show(n);
    assert ShowInt(n) == s;
    assert "04"[0] == '0' && DigitValue("04"[1]) == 4;
    if |s| >= 4 {
      assert FormatId(n) == s;
      assert Repeat('0', 0) + s == s;
    } else {
      assert FormatId(n) == Repeat('0', 4 - |s|) + s;
    }
  }

  /** Round trip: `int(format_str(n))` is `n` for every non-negative `n`. */
  lemma FormatIdRoundTrip(n: nat)
    ensures Parse(FormatId(n)) == Some(n)
  {
    FormatIdShape(n);
    ParseZeroPadded(|FormatId(n)| - |Show(n)|, n);
  }

  /** The file written for id `n` is matched by `*.md` and its stem reads back as `n`. */
  lemma RecordNameRoundTrip(n: nat)
    ensures IsMdName(RecordName(n))
    ensures StemNumber(RecordName(n)) == Some(n)
  {
    var name := RecordName(n);
    assert name[|name| - 3..] == ".md";
    assert Stem(name) == FormatId(n);
    FormatIdRoundTrip(n);
  }

  /** Different non-negative ids get different record files. */
  lemma RecordNameInjective(m: nat, n: nat)
    requires RecordName(m) == RecordName(n)
    ensures m == n
  {
    RecordNameRoundTrip(m);
    RecordNameRoundTrip(n);
  }

  /** For non-negative numbers `{x:04}` and `format_str` produce the same text. */
  lemma Format04AgreesWithFormatId(n: nat)
    ensures Format04(n) == FormatId(n)
  {
  }

  /** `{x:04}` ends in a digit, and for a non-negative `x` it is digits only. */
  lemma Format04Digits(x: int)
    ensures |Format04(x)| >= 4 && IsDigit(Format04(x)[|Format04(x)| - 1])
    ensures x >= 0 ==> AllDigits(Format04(x))
  {
    var digits := Show(if x < 0 then -x else x);
    var sign := if x < 0 then "-" else "";
    var fill := 4 - |sign| - |digits|;
    var zeros := Repeat('0', if fill > 0 then fill else 0);
    var r := sign + zeros + digits;
    assert r[|r| - 1] == digits[|digits| - 1];
    if x >= 0 {
      assert sign == "";
      forall i | 0 <= i < |r| ensures IsDigit(r[i]) {
        if i >= |zeros| {
          assert r[i] == digits[i - |zeros|];
        }
      }
    }
  }

  /** `int(f"{x:04}")` is `x`, for negative `x` as well. */
  lemma Format04RoundTrip(x: int)
    ensures Parse(Format04(x)) == Some(x)
  {
    var digits := Show(if x < 0 then -x else x);
    var fill := 4 - (if x < 0 then 1 else 0) - |digits|;
    var k := if fill > 0 then fill else 0;
    ParseZeroPadded(k, if x < 0 then -x else x);
    var t := Repeat('0', k) + digits;
    if x < 0 {
      assert Format04(x) == "-" + t;
      assert Format04(x)[1..] == t;
      ValueOfLeadingZeros(k, digits);
      ValueOfShow(-x);
    } else {
      assert Format04(x) == t;
    }
  }
}
