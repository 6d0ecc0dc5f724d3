/** The numbering tracker: `get_latest_number` reads the ids back from the record files' names and
    takes the largest. */
module Numbering {
  import opened Wrappers
  import opened Decimal
  import opened Format
  import opened Files

  /** `max(xs, default=0)`. */
  function MaxOrZero(xs: seq<int>): (m: int)
    ensures xs == [] ==> m == 0
    ensures xs != [] ==> m in xs && forall i :: 0 <= i < |xs| ==> xs[i] <= m
    decreases |xs|
  {
    if xs == [] then 0
    else if |xs| == 1 then xs[0]
    else
      var rest := MaxOrZero(xs[1..]);
      if xs[0] >= rest then xs[0] else rest
  }

  /** `[int(stem) for stem in stems]`; `None` when some `int()` raises ValueError. */
  function ParseAll(stems: seq<string>): (r: Option<seq<int>>)
    ensures r.None? <==> exists i :: 0 <= i < |stems| && Parse(stems[i]).None?
    ensures r.Some? ==> |r.value| == |stems| && forall i :: 0 <= i < |stems| ==> Parse(stems[i]) == Some(r.value[i])
    decreases |stems|
  {
    if stems == [] then Some([])
    else
      var head := Parse(stems[0]);
      var tail := ParseAll(stems[1..]);
      if head.None? then None
      else if tail.None? then
        assert exists i :: 0 <= i < |stems| - 1 && Parse(stems[1..][i]).None?;
        None
      else
        Some([head.value] + tail.value)
  }

  /** `get_latest_number` over the stems of the record files `rglob('*.md')` finds, in the
      order it finds them. */
  function LatestNumber(stems: seq<string>): Option<int> {
    match ParseAll(stems)
    case None => None
    case Some(ids) => Some(MaxOrZero(ids))
  }

  /** The stems of every `.md` file anywhere below the folder. */
  function Stems(fs: FileTable): set<string> {
    set p | p in fs && |p| > 0 && IsMdName(Name(p)) :: Stem(Name(p))
  }

  /** No stems gives 0; otherwise the result is the id that one of the stems spells, and no
      stem spells a larger one. A stem that is not an integer aborts the scan. */
  lemma LatestNumberSpec(stems: seq<string>)
    ensures LatestNumber(stems).None? <==> exists i :: 0 <= i < |stems| && Parse(stems[i]).None?
    ensures stems == [] ==> LatestNumber(stems) == Some(0)
    ensures LatestNumber(stems).Some? && stems != [] ==>
      (exists i :: 0 <= i < |stems| && Parse(stems[i]) == LatestNumber(stems)) &&
      (forall i :: 0 <= i < |stems| ==> Parse(stems[i]).value <= LatestNumber(stems).value)
  {
    var r := ParseAll(stems);
    if r.Some? && stems != [] {
      var m := MaxOrZero(r.value);
      var k :| 0 <= k < |r.value| && r.value[k] == m;
      assert Parse(stems[k]) == Some(m);
    }
  }

  /** The result depends only on which stems occur, not on their order or repetition. */
  lemma LatestNumberOrderFree(xs: seq<string>, ys: seq<string>)
    requires forall s :: s in xs <==> s in ys
    ensures LatestNumber(xs) == LatestNumber(ys)
  {
    LatestNumberSpec(xs);
    LatestNumberSpec(ys);
    BadStemCarries(xs, ys);
    BadStemCarries(ys, xs);
    assert xs != [] ==> xs[0] in ys;
    assert ys != [] ==> ys[0] in xs;
    if LatestNumber(xs).Some? && xs != [] {
      var mx := LatestNumber(xs).value;
      var my := LatestNumber(ys).value;
      var i :| 0 <= i < |xs| && Parse(xs[i]) == Some(mx);
      var j :| 0 <= j < |ys| && Parse(ys[j]) == Some(my);
      assert xs[i] in ys;
      var i' :| 0 <= i' < |ys| && ys[i'] == xs[i];
      assert ys[j] in xs;
      var j' :| 0 <= j' < |xs| && xs[j'] == ys[j];
      assert mx <= my && my <= mx;
    }
  }

  /** A stem that does not parse, and occurs in `ys`, aborts the scan of `ys` too. */
  lemma BadStemCarries(xs: seq<string>, ys: seq<string>)
    requires forall s :: s in xs ==> s in ys
    ensures (exists i :: 0 <= i < |xs| && Parse(xs[i]).None?) ==> exists j :: 0 <= j < |ys| && Parse(ys[j]).None?
  {
    if i :| 0 <= i < |xs| && Parse(xs[i]).None? {
      assert xs[i] in ys;
      var j :| 0 <= j < |ys| && ys[j] == xs[i];
      assert Parse(ys[j]).None?;
    }
  }

  /** Stems written as `format_str(id)` read back as the ids: the latest number of a folder of
      records is their largest id. */
  lemma {:induction false} LatestOfRecords(stems: seq<string>, ids: seq<nat>)
    requires |stems| == |ids| && forall i :: 0 <= i < |ids| ==> stems[i] == FormatId(ids[i])
    ensures LatestNumber(stems) == Some(MaxOrZero(ids))
  {
    forall i | 0 <= i < |ids| ensures Parse(stems[i]) == Some(ids[i] as int) {
      FormatIdRoundTrip(ids[i]);
    }
    var r := ParseAll(stems);
    assert r.Some?;
    assert r.value == ids;
  }
}
