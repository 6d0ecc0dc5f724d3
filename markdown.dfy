/** The record writer: `get_md` renders a comic into the record template and `write_md` stores
    it under its zero-padded id. */
module Markdown {
  import opened Decimal
  import opened Text
  import opened Format
  import opened Files

  /** The settings the program reads from its configuration module: the record template, the
      README template and the comic site's base URL. */
  datatype Config = Config(stencil: string, stencilReadme: string, xkcdUrl: string)

  /** `get_md(index, title, image)`: four replace-all passes over the record template, in this
      order: the image, the comic's URL, the title, the index. */
  function GetMd(cfg: Config, index: int, title: string, image: string): string {
    var withImage := ReplaceAll(cfg.stencil, "$image$", image);
    var withUrl := ReplaceAll(withImage, "$url$", cfg.xkcdUrl + "/" + ShowInt(index));
    var withTitle := ReplaceAll(withUrl, "$title$", title);
    ReplaceAll(withTitle, "$index$", ShowInt(index))
  }

  predicate HasNoPlaceholder(s: string) {
    !Occurs(s, "$image$") && !Occurs(s, "$url$") && !Occurs(s, "$title$") && !Occurs(s, "$index$")
  }

  /** A template without any of the four placeholders is rendered as it is. */
  lemma GetMdWithoutPlaceholders(cfg: Config, index: int, title: string, image: string)
    requires HasNoPlaceholder(cfg.stencil)
    ensures GetMd(cfg, index, title, image) == cfg.stencil
  {
    var url := cfg.xkcdUrl + "/" + ShowInt(index);
    ReplaceAbsent(cfg.stencil, "$image$", image);
    ReplaceAbsent(cfg.stencil, "$url$", url);
    ReplaceAbsent(cfg.stencil, "$title$", title);
    ReplaceAbsent(cfg.stencil, "$index$", ShowInt(index));
  }

  lemma NoneOccursInTitleSlot()
    ensures !Occurs("$title$", "$image$") && !Occurs("$title$", "$url$")
  {
    forall i: nat | i <= 7 ensures !OccursAt("$title$", "$image$", i) && !OccursAt("$title$", "$url$", i) {
      if i + 5 <= 7 {
        assert "$title$"[i..i + 5][1] != "$url$"[1] || "$title$"[i..i + 5][0] != "$url$"[0];
      }
      if i == 0 {
        assert "$title$"[i..i + 7][1] != "$image$"[1];
      }
    }
  }

  /** The title slot of a template: around one `$title$`, text without `$` passes through,
      and the slot receives the title after the index pass, which runs last and so also replaces
      any `$index$` inside the title. A title without `$index$` lands in the slot verbatim. */
  lemma GetMdTitleSlot(cfg: Config, index: int, title: string, image: string, pre: string, post: string)
    requires cfg.stencil == pre + "$title$" + post
    requires '$' !in pre && '$' !in post
    ensures GetMd(cfg, index, title, image) == pre + ReplaceAll(title, "$index$", ShowInt(index)) + post
    ensures !Occurs(title, "$index$") ==> GetMd(cfg, index, title, image) == pre + title + post
  {
    var url := cfg.xkcdUrl + "/" + ShowInt(index);
    NoneOccursInTitleSlot();
    ReplaceInside(pre, "$title$", post, "$image$", image);
    ReplaceAbsent("$title$", "$image$", image);
    ReplaceInside(pre, "$title$", post, "$url$", url);
    ReplaceAbsent("$title$", "$url$", url);
    ReplaceInside(pre, "$title$", post, "$title$", title);
    ReplaceWhole("$title$", title);
    ReplaceInside(pre, title, post, "$index$", ShowInt(index));
    if !Occurs(title, "$index$") {
      ReplaceAbsent(title, "$index$", ShowInt(index));
    }
  }

  /** The URL slot of a template: around one `$url$`, text without `$` passes through. The image
      pass runs first and leaves the slot alone; the slot then receives `f"{xkcd_url}/{index}"`,
      over which the title and index passes still run. A base URL without `$` lands verbatim. */
  lemma GetMdUrlSlot(cfg: Config, index: int, title: string, image: string, pre: string, post: string)
    requires cfg.stencil == pre + "$url$" + post
    requires '$' !in pre && '$' !in post
    ensures var url := cfg.xkcdUrl + "/" + ShowInt(index);
      GetMd(cfg, index, title, image) == pre + ReplaceAll(ReplaceAll(url, "$title$", title), "$index$", ShowInt(index)) + post
    ensures var url := cfg.xkcdUrl + "/" + ShowInt(index);
      '$' !in cfg.xkcdUrl ==> GetMd(cfg, index, title, image) == pre + url + post
  {
    var url := cfg.xkcdUrl + "/" + ShowInt(index);
    var titled := ReplaceAll(url, "$title$", title);
    assert ReplaceAll("$url$", "$image$", image) == "$url$";
    ReplaceInside(pre, "$url$", post, "$image$", image);
    ReplaceInside(pre, "$url$", post, "$url$", url);
    ReplaceWhole("$url$", url);
    ReplaceInside(pre, url, post, "$title$", title);
    ReplaceInside(pre, titled, post, "$index$", ShowInt(index));
    if '$' !in cfg.xkcdUrl {
      DollarFreeShowInt(index);
      PassesSkip(url, title, ShowInt(index));
    }
  }

  /** The title and index passes leave text without `$` as it is. */
  lemma PassesSkip(s: string, title: string, digits: string)
    requires '$' !in s
    ensures ReplaceAll(ReplaceAll(s, "$title$", title), "$index$", digits) == s
  {
    ReplaceAfterPrefix(s, "", "$title$", title);
    ReplaceAfterPrefix(s, "", "$index$", digits);
    assert s + "" == s;
  }

  /** `str(i)` is digits after an optional minus sign, so it holds no `$`. */
  lemma DollarFreeShowInt(i: int)
    ensures '$' !in ShowInt(i)
  {
    var s := ShowInt(i);
    forall k | 0 <= k < |s| ensures s[k] != '$' {
      if k > 0 || i >= 0 {
        var d := if i < 0 then s[1..] else s;
        assert s[k] == d[if i < 0 then k - 1 else k];
      }
    }
  }

  /** Where `write_md` puts the record of `index`: directly in the image folder. */
  function RecordPath(index: int): Path {
    [RecordName(index)]
  }

  /** Different non-negative ids are written to different paths. */
  lemma RecordPathInjective(m: nat, n: nat)
    requires m != n
    ensures RecordPath(m) != RecordPath(n)
  {
    if RecordName(m) == RecordName(n) {
      RecordNameInjective(m, n);
    }
  }

  /** `write_md`: the rendered record replaces whatever the folder held under its file name. */
  function WriteMd(fs: FileTable, cfg: Config, index: int, title: string, image: string): FileTable {
    fs[RecordPath(index) := GetMd(cfg, index, title, image)]
  }
}
