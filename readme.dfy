/** The README step: `pick_and_generate_readme` fills the README template with the newest record
    and three sampled ones, provided at least five records were fetched. */
module Readme {
  import opened Wrappers
  import opened Text
  import opened Markdown
  import opened Fetch

  /** Fewer records than this and no README is written. */
  const MinRecords := 5

  /** `max(comic_infos, key=lambda x: x[0])`: the position of the first entry with the largest
      id (Python's `max` keeps the earlier of two equal keys). */
  function FirstMaxIndex(infos: seq<ComicInfo>): (k: nat)
    requires |infos| > 0
    ensures k < |infos|
    ensures forall j :: 0 <= j < |infos| ==> infos[j].id <= infos[k].id
    ensures forall j :: 0 <= j < k ==> infos[j].id < infos[k].id
    decreases |infos|
  {
    if |infos| == 1 then 0
    else
      var m := FirstMaxIndex(infos[1..]) + 1;
      if infos[0].id >= infos[m].id then 0 else m
  }

  /** What `random.sample(comic_infos, 3)` may return, as positions: three different positions
      of the list, in the order sampled. */
  predicate IsSample(picks: seq<nat>, n: nat) {
    |picks| == 3 &&
    (forall i :: 0 <= i < 3 ==> picks[i] < n) &&
    picks[0] != picks[1] && picks[0] != picks[2] && picks[1] != picks[2]
  }

  /** The four records placed in the README: the newest one, then the three sampled ones. */
  function Selection(infos: seq<ComicInfo>, picks: seq<nat>): (sel: seq<ComicInfo>)
    requires |infos| > 0 && IsSample(picks, |infos|)
    ensures |sel| == 4
    ensures forall c :: c in sel ==> c in infos
    ensures forall j :: 0 <= j < |infos| ==> infos[j].id <= sel[0].id
    ensures exists k :: 0 <= k < |infos| && sel[0] == infos[k] && forall j :: 0 <= j < k ==> infos[j].id < infos[k].id
    ensures forall i :: 1 <= i < 4 ==> sel[i] == infos[picks[i - 1]]
  {
    var k := FirstMaxIndex(infos);
    [infos[k], infos[picks[0]], infos[picks[1]], infos[picks[2]]]
  }

  /** The replace chain of the README template, with the four rendered records. */
  function Fill(stencil: string, latest: string, r1: string, r2: string, r3: string): string {
    ReplaceAll(ReplaceAll(ReplaceAll(ReplaceAll(stencil, "$new$", latest), "$random1$", r1), "$random2$", r2), "$random3$", r3)
  }

  /** `readme_content`. */
  function ReadmeContent(cfg: Config, infos: seq<ComicInfo>, picks: seq<nat>): string
    requires |infos| > 0 && IsSample(picks, |infos|)
  {
    var sel := Selection(infos, picks);
    var md := Render(cfg);
    Fill(cfg.stencilReadme, md(sel[0]), md(sel[1]), md(sel[2]), md(sel[3]))
  }

  /** `pick_and_generate_readme(comic_infos)`: `readme` is what the README file holds, `None` for
      no file. With fewer than five records it is left as it was; otherwise it is overwritten.
      The sample is only drawn, and so only needed, when there are enough records. */
  function GenerateReadme(readme: Option<string>, cfg: Config, infos: seq<ComicInfo>, picks: seq<nat>): (r: Option<string>)
    requires |infos| >= MinRecords ==> IsSample(picks, |infos|)
    ensures |infos| < MinRecords ==> r == readme
    ensures |infos| >= MinRecords ==> r.Some?
  {
    if |infos| < MinRecords then readme else Some(ReadmeContent(cfg, infos, picks))
  }

  /** With five or more records the README is the filled template, whatever it held before. */
  lemma GeneratedContent(readme: Option<string>, cfg: Config, infos: seq<ComicInfo>, picks: seq<nat>)
    requires |infos| >= MinRecords && IsSample(picks, |infos|)
    ensures GenerateReadme(readme, cfg, infos, picks) == GenerateReadme(None, cfg, infos, picks)
    ensures var sel := Selection(infos, picks);
      GenerateReadme(readme, cfg, infos, picks) ==
        Some(Fill(cfg.stencilReadme, Render(cfg)(sel[0]), Render(cfg)(sel[1]), Render(cfg)(sel[2]), Render(cfg)(sel[3])))
  {
  }

  /** The sample is drawn from the whole list, so it may or may not contain the newest record. */
  lemma SampleMayIncludeLatest(infos: seq<ComicInfo>)
    requires |infos| >= MinRecords
    ensures exists picks :: IsSample(picks, |infos|) && FirstMaxIndex(infos) in picks
    ensures exists picks :: IsSample(picks, |infos|) && FirstMaxIndex(infos) !in picks
  {
    SampleMayInclude(|infos|, FirstMaxIndex(infos));
  }

  /** Any position of a list of five or more may be sampled, or left out of the sample. */
  lemma SampleMayInclude(n: nat, k: nat)
    requires n >= MinRecords && k < n
    ensures exists picks :: IsSample(picks, n) && k in picks
    ensures exists picks :: IsSample(picks, n) && k !in picks
  {
    var with: seq<nat>, without: seq<nat>;
    if k >= 3 {
      with, without := [k, 0, 1], [0, 1, 2];
    } else {
      with, without := [k, 3, 4], [3, 4, if k == 0 then 1 else 0];
    }
    assert IsSample(with, n) && k in with;
    assert IsSample(without, n) && k !in without;
  }

  /** The fetcher lists ids in ascending order, so the newest record of a fetch is its last. */
  lemma LatestIsLastFetched(lo: int, hi: int, fetch: int -> Option<Comic>)
    requires |Fetched(lo, hi, fetch)| > 0
    ensures FirstMaxIndex(Fetched(lo, hi, fetch)) == |Fetched(lo, hi, fetch)| - 1
  {
    var infos := Fetched(lo, hi, fetch);
    FetchedOrdered(lo, hi, fetch);
    var k := FirstMaxIndex(infos);
    var last := |infos| - 1;
    assert infos[last].id <= infos[k].id;
  }

  /** The `$new$` slot of a template: text without `$` around it passes through, and the slot
      receives the newest record's text, in which the later passes still replace the sampled
      placeholders. Text without those placeholders lands in the slot verbatim. */
  lemma NewSlot(pre: string, post: string, latest: string, r1: string, r2: string, r3: string)
    requires '$' !in pre && '$' !in post
    ensures Fill(pre + "$new$" + post, latest, r1, r2, r3) ==
      pre + ReplaceAll(ReplaceAll(ReplaceAll(latest, "$random1$", r1), "$random2$", r2), "$random3$", r3) + post
    ensures !Occurs(latest, "$random1$") && !Occurs(latest, "$random2$") && !Occurs(latest, "$random3$") ==>
      Fill(pre + "$new$" + post, latest, r1, r2, r3) == pre + latest + post
  {
    ReplaceInside(pre, "$new$", post, "$new$", latest);
    ReplaceWhole("$new$", latest);
    var t1 := ReplaceAll(latest, "$random1$", r1);
    var t2 := ReplaceAll(t1, "$random2$", r2);
    ReplaceInside(pre, latest, post, "$random1$", r1);
    ReplaceInside(pre, t1, post, "$random2$", r2);
    ReplaceInside(pre, t2, post, "$random3$", r3);
    if !Occurs(latest, "$random1$") && !Occurs(latest, "$random2$") && !Occurs(latest, "$random3$") {
      ReplaceAbsent(latest, "$random1$", r1);
      ReplaceAbsent(latest, "$random2$", r2);
      ReplaceAbsent(latest, "$random3$", r3);
    }
  }

  lemma NoneOccursInRandom3Slot()
    ensures !Occurs("$random3$", "$new$") && !Occurs("$random3$", "$random1$") && !Occurs("$random3$", "$random2$")
  {
    forall i: nat | i <= 9
      ensures !OccursAt("$random3$", "$new$", i)
      ensures !OccursAt("$random3$", "$random1$", i) && !OccursAt("$random3$", "$random2$", i)
    {
      if i + 5 <= 9 {
        assert "$random3$"[i..i + 5][0] != "$new$"[0] || "$random3$"[i..i + 5][1] != "$new$"[1];
      }
      if i == 0 {
        assert "$random3$"[i..i + 9][7] != "$random1$"[7];
        assert "$random3$"[i..i + 9][7] != "$random2$"[7];
      }
    }
  }

  /** The `$random3$` slot of a template: the third sampled record is substituted last, so
      the slot receives its text verbatim, between the unchanged text around it. */
  lemma Random3Slot(pre: string, post: string, latest: string, r1: string, r2: string, r3: string)
    requires '$' !in pre && '$' !in post
    ensures Fill(pre + "$random3$" + post, latest, r1, r2, r3) == pre + r3 + post
  {
    var slot := "$random3$";
    NoneOccursInRandom3Slot();
    ReplaceInside(pre, slot, post, "$new$", latest);
    ReplaceAbsent(slot, "$new$", latest);
    ReplaceInside(pre, slot, post, "$random1$", r1);
    ReplaceAbsent(slot, "$random1$", r1);
    ReplaceInside(pre, slot, post, "$random2$", r2);
    ReplaceAbsent(slot, "$random2$", r2);
    ReplaceInside(pre, slot, post, "$random3$", r3);
    ReplaceWhole(slot, r3);
  }
}
