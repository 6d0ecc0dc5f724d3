/** The fetcher: `get_xkcd_comics` tries ids `start+1 .. start+count` one after the other and keeps
    those whose request succeeded, writing a record file for each. */
module Fetch {
  import opened Wrappers
  import opened Format
  import opened Files
  import opened Markdown

  /** The two fields of a successful response that the program uses. */
  datatype Comic = Comic(title: string, img: string)

  /** One entry of `comic_infos`: the tuple `(i, title, img)`. */
  datatype ComicInfo = ComicInfo(id: int, title: string, img: string)

  /** What one attempt adds to the result: the comic when the request for `i` succeeded (status
      200), nothing otherwise. `fetch` stands for the HTTP request and its decoding. */
  function Attempt(i: int, fetch: int -> Option<Comic>): seq<ComicInfo> {
    match fetch(i)
    case Some(c) => [ComicInfo(i, c.title, c.img)]
    case None => []
  }

  /** The entries collected over `range(lo, hi)`, in the order they were tried. */
  function Fetched(lo: int, hi: int, fetch: int -> Option<Comic>): seq<ComicInfo>
    decreases hi - lo
  {
    if hi <= lo then [] else Fetched(lo, hi - 1, fetch) + Attempt(hi - 1, fetch)
  }

  /** The text `write_md` stores for an entry. */
  function Render(cfg: Config): ComicInfo -> string {
    (c: ComicInfo) => GetMd(cfg, c.id, c.title, c.img)
  }

  /** The files written for `infos`, one after the other: entry `c` stores `render(c)` at
      `path(c.id)`. `WriteAll(fs, RecordPath, Render(cfg), infos)` is the effect of the loop's calls
      to `write_md`. */
  function WriteAll(fs: FileTable, path: int -> Path, render: ComicInfo -> string, infos: seq<ComicInfo>): FileTable
    decreases |infos|
  {
    if infos == [] then fs
    else
      var c := infos[|infos| - 1];
      WriteAll(fs, path, render, infos[..|infos| - 1])[path(c.id) := render(c)]
  }

  /** `get_xkcd_comics(start, count)`: the loop over `range(start + 1, start + count + 1)`. */
  method GetXkcdComics(cfg: Config, fs: FileTable, start: int, count: int, fetch: int -> Option<Comic>)
    returns (infos: seq<ComicInfo>, written: FileTable)
    ensures infos == Fetched(start + 1, start + count + 1, fetch)
    ensures written == WriteAll(fs, RecordPath, Render(cfg), infos)
  {
    // An empty range (count <= 0) runs the loop zero times.
    var lo, hi := start + 1, start + count + 1;
    infos, written := [], fs;
    if hi <= lo {
      return;
    }
    var i := lo;
    while i < hi
      invariant lo <= i <= hi
      invariant infos == Fetched(lo, i, fetch)
      invariant written == WriteAll(fs, RecordPath, Render(cfg), infos)
      decreases hi - i
    {
      infos, written := TryFetch(cfg, fs, lo, i, fetch, infos, written);
      i := i + 1;
    }
  }

  /** One iteration of the loop, for id `i`: on success the record is written and the entry
      appended; the entries and the folder stay those of `range(lo, i + 1)`. */
  method TryFetch(cfg: Config, ghost fs: FileTable, ghost lo: int, i: int, fetch: int -> Option<Comic>, infos: seq<ComicInfo>, written: FileTable)
    returns (infos': seq<ComicInfo>, written': FileTable)
    requires lo <= i && infos == Fetched(lo, i, fetch) && written == WriteAll(fs, RecordPath, Render(cfg), infos)
    ensures infos' == Fetched(lo, i + 1, fetch) && written' == WriteAll(fs, RecordPath, Render(cfg), infos')
  {
    FetchStep(cfg, fs, lo, i, fetch, infos);
    var response := fetch(i);
    infos', written' := infos, written;
    if response.Some? {
      var c := ComicInfo(i, response.value.title, response.value.img);
      written' := WriteMd(written, cfg, i, c.title, c.img);
      infos' := infos + [c];
    }
  }

  /** What `TryFetch` relies on: the attempt for `i` extends the entries, and a success adds
      one more `write_md`. */
  lemma FetchStep(cfg: Config, fs: FileTable, lo: int, i: int, fetch: int -> Option<Comic>, infos: seq<ComicInfo>)
    requires lo <= i && infos == Fetched(lo, i, fetch)
    ensures fetch(i).None? ==> Fetched(lo, i + 1, fetch) == infos
    ensures fetch(i).Some? ==>
      var c := ComicInfo(i, fetch(i).value.title, fetch(i).value.img);
      Fetched(lo, i + 1, fetch) == infos + [c] &&
      WriteAll(fs, RecordPath, Render(cfg), infos + [c]) ==
        WriteMd(WriteAll(fs, RecordPath, Render(cfg), infos), cfg, i, c.title, c.img)
  {
    if fetch(i).Some? {
      WriteAllSnoc(fs, cfg, infos, ComicInfo(i, fetch(i).value.title, fetch(i).value.img));
    } else {
      assert infos + [] == infos;
    }
  }

  /** One more successful entry adds one more `write_md`. */
  lemma WriteAllSnoc(fs: FileTable, cfg: Config, infos: seq<ComicInfo>, c: ComicInfo)
    ensures WriteAll(fs, RecordPath, Render(cfg), infos + [c]) ==
      WriteMd(WriteAll(fs, RecordPath, Render(cfg), infos), cfg, c.id, c.title, c.img)
  {
    assert (infos + [c])[..|infos|] == infos;
  }

  /** Every entry has an id of the range, and ids strictly increase along the result. */
  lemma {:induction false} FetchedOrdered(lo: int, hi: int, fetch: int -> Option<Comic>)
    ensures forall k :: 0 <= k < |Fetched(lo, hi, fetch)| ==> lo <= Fetched(lo, hi, fetch)[k].id < hi
    ensures forall a, b :: 0 <= a < b < |Fetched(lo, hi, fetch)| ==>
      Fetched(lo, hi, fetch)[a].id < Fetched(lo, hi, fetch)[b].id
    decreases hi - lo
  {
    if lo < hi {
      FetchedOrdered(lo, hi - 1, fetch);
    }
  }

  /** The result holds exactly the comics whose request succeeded, with the title and image of
      the response. */
  lemma {:induction false} FetchedExactly(lo: int, hi: int, fetch: int -> Option<Comic>)
    ensures forall c :: c in Fetched(lo, hi, fetch) <==>
      lo <= c.id < hi && fetch(c.id) == Some(Comic(c.title, c.img))
    decreases hi - lo
  {
    if lo < hi {
      FetchedExactly(lo, hi - 1, fetch);
    }
  }

  /** At most one entry per id tried, none when `count <= 0`. */
  lemma {:induction false} FetchedLength(lo: int, hi: int, fetch: int -> Option<Comic>)
    ensures |Fetched(lo, hi, fetch)| <= if hi > lo then hi - lo else 0
    decreases hi - lo
  {
    if lo < hi {
      FetchedLength(lo, hi - 1, fetch);
    }
  }

  /** When the entries' paths are pairwise distinct, entry `k` finds `render` of itself at its
      path: no other write lands there. */
  lemma {:induction false} WriteAllHolds(fs: FileTable, path: int -> Path, render: ComicInfo -> string,
                                         infos: seq<ComicInfo>, k: nat)
    requires forall a, b :: 0 <= a < b < |infos| ==> path(infos[a].id) != path(infos[b].id)
    requires k < |infos|
    ensures path(infos[k].id) in WriteAll(fs, path, render, infos)
    ensures WriteAll(fs, path, render, infos)[path(infos[k].id)] == render(infos[k])
    decreases |infos|
  {
    var n := |infos| - 1;
    var init := infos[..n];
    if k < n {
      assert init[k] == infos[k];
      WriteAllHolds(fs, path, render, init, k);
    }
  }

  /** Paths that are no entry's path keep what they held. */
  lemma {:induction false} WriteAllFrame(fs: FileTable, path: int -> Path, render: ComicInfo -> string,
                                         infos: seq<ComicInfo>, p: Path)
    requires forall k :: 0 <= k < |infos| ==> p != path(infos[k].id)
    ensures p in WriteAll(fs, path, render, infos) <==> p in fs
    ensures p in fs ==> WriteAll(fs, path, render, infos)[p] == fs[p]
    decreases |infos|
  {
    if infos != [] {
      var n := |infos| - 1;
      var init := infos[..n];
      assert forall k :: 0 <= k < n ==> init[k] == infos[k];
      WriteAllFrame(fs, path, render, init, p);
    }
  }

  /** After a run from a non-negative `start`, the record of every fetched comic holds its
      rendered text: ids differ, so their zero-padded file names differ. */
  lemma FetchedRecordsWritten(cfg: Config, fs: FileTable, start: int, count: int,
                              fetch: int -> Option<Comic>, k: nat)
    requires start >= 0
    requires k < |Fetched(start + 1, start + count + 1, fetch)|
    ensures var infos := Fetched(start + 1, start + count + 1, fetch);
      var written := WriteAll(fs, RecordPath, Render(cfg), infos);
      RecordPath(infos[k].id) in written &&
      written[RecordPath(infos[k].id)] == GetMd(cfg, infos[k].id, infos[k].title, infos[k].img)
  {
    var infos := Fetched(start + 1, start + count + 1, fetch);
    FetchedOrdered(start + 1, start + count + 1, fetch);
    forall a, b | 0 <= a < b < |infos| ensures RecordPath(infos[a].id) != RecordPath(infos[b].id) {
      RecordPathInjective(infos[a].id, infos[b].id);
    }
    WriteAllHolds(fs, RecordPath, Render(cfg), infos, k);
  }
}
