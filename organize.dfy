/** The organiser: `organize_comics` sorts the record files at the top of the folder by id and
    moves each into its three-level bucket directory, unless a file of that name is already
    there. */
module Organize {
  import opened Wrappers
  import opened Decimal
  import opened Format
  import opened Files
  import opened Bucket
  import opened Numbering

  /** A top-level record file as `organize_comics` sees it: `int(file.stem)`, `file.name`, and
      the three directory names the loop computes from the id. */
  datatype Entry = Entry(num: int, name: string, dirs: seq<string>)

  /** What `folder.glob('*.md')` may return: top-level `.md` files of the table, each once, and
      all of them, in some order the file system chooses. */
  predicate IsListing(fs: FileTable, listing: seq<string>) {
    (forall i :: 0 <= i < |listing| ==> IsMdName(listing[i]) && [listing[i]] in fs) &&
    (forall i, j :: 0 <= i < j < |listing| ==> listing[i] != listing[j]) &&
    (forall p :: p in fs && |p| == 1 && IsMdName(p[0]) ==> p[0] in listing)
  }

  /** The entries of a listing, in listing order; `None` when some stem is not an integer, since
      `sorted` computes every key before anything is moved and `int()` then raises ValueError. */
  function Entries(listing: seq<string>): (r: Option<seq<Entry>>)
    requires forall i :: 0 <= i < |listing| ==> IsMdName(listing[i])
    ensures r.None? <==> exists i :: 0 <= i < |listing| && StemNumber(listing[i]).None?
    ensures r.Some? ==> (|r.value| == |listing| &&
      forall i :: 0 <= i < |listing| ==>
        var n := StemNumber(listing[i]).value; r.value[i] == Entry(n, listing[i], BucketDirs(n)))
  {
    var stems := seq(|listing|, i requires 0 <= i < |listing| => Stem(listing[i]));
    assert forall i :: 0 <= i < |listing| ==> StemNumber(listing[i]) == Parse(stems[i]);
    match ParseAll(stems)
    case None => None
    case Some(nums) => Some(seq(|listing|, i requires 0 <= i < |listing| => Entry(nums[i], listing[i], BucketDirs(nums[i]))))
  }

  /** No two entries share a file name. */
  predicate DistinctNames(es: seq<Entry>) {
    forall i, j :: 0 <= i < j < |es| ==> es[i].name != es[j].name
  }

  /** Ascending ids. */
  predicate SortedByNum(es: seq<Entry>) {
    forall i, j :: 0 <= i < j < |es| ==> es[i].num <= es[j].num
  }

  /** Inserts `e` before the first entry whose id is not smaller. */
  function Insert(e: Entry, s: seq<Entry>): (r: seq<Entry>)
    ensures multiset(r) == multiset(s) + multiset{e}
  {
    if s == [] || e.num <= s[0].num then [e] + s
    else
      assert s == [s[0]] + s[1..];
      [s[0]] + Insert(e, s[1..])
  }

  /** `sorted(entries, key=num)`: a stable insertion sort by id. */
  function SortByNum(es: seq<Entry>): (r: seq<Entry>)
    ensures multiset(r) == multiset(es)
  {
    if es == [] then []
    else
      assert es == [es[0]] + es[1..];
      Insert(es[0], SortByNum(es[1..]))
  }

  lemma {:induction false} InsertSorted(e: Entry, s: seq<Entry>)
    requires SortedByNum(s)
    ensures SortedByNum(Insert(e, s))
    decreases |s|
  {
    if s != [] && e.num > s[0].num {
      var rest := Insert(e, s[1..]);
      InsertSorted(e, s[1..]);
      forall x | x in rest ensures s[0].num <= x.num {
        assert x in multiset(rest);
        assert x == e || x in multiset(s[1..]);
      }
    }
  }

  lemma {:induction false} InsertDistinct(e: Entry, s: seq<Entry>)
    requires DistinctNames(s) && forall x :: x in s ==> x.name != e.name
    ensures DistinctNames(Insert(e, s))
    decreases |s|
  {
    if s != [] && e.num > s[0].num {
      var rest := Insert(e, s[1..]);
      InsertDistinct(e, s[1..]);
      forall x | x in rest ensures s[0].name != x.name {
        assert x in multiset(rest);
        assert x == e || x in multiset(s[1..]);
      }
    }
  }

  /** The sort returns the entries in ascending order of id, each exactly as often as before. */
  lemma {:induction false} SortByNumSpec(es: seq<Entry>)
    ensures SortedByNum(SortByNum(es))
    ensures multiset(SortByNum(es)) == multiset(es)
    ensures DistinctNames(es) ==> DistinctNames(SortByNum(es))
    decreases |es|
  {
    if es != [] {
      var rest := SortByNum(es[1..]);
      SortByNumSpec(es[1..]);
      InsertSorted(es[0], rest);
      if DistinctNames(es) {
        forall x | x in rest ensures x.name != es[0].name {
          assert x in multiset(es[1..]);
          var j :| 0 <= j < |es[1..]| && es[1..][j] == x;
          assert es[j + 1] == x;
        }
        InsertDistinct(es[0], rest);
      }
    }
  }

  /** The path `folder / start-end / start-end / start-end / name` the entry is moved to. */
  function Target(e: Entry): (p: Path)
    ensures |p| == |e.dirs| + 1 && Name(p) == e.name
  {
    e.dirs + [e.name]
  }

  /** `if not new_path.exists(): file.rename(new_path)`: the file at `src` goes to `dst` unless
      something is already stored there, in which case nothing changes. */
  function Move(fs: FileTable, src: Path, dst: Path): (r: FileTable)
    requires src in fs
    ensures dst in fs ==> r == fs
    ensures dst !in fs ==> dst in r && r[dst] == fs[src]
  {
    if dst in fs then fs else (fs - {src})[dst := fs[src]]
  }

  /** `Move` path by path: after a move `src` is gone, `dst` holds the file and every other path
      is as before; after a skipped move every path is as before. */
  lemma MoveAt(fs: FileTable, src: Path, dst: Path, p: Path)
    requires src in fs
    ensures var r := Move(fs, src, dst); p in r <==> p == dst || (p in fs && (dst in fs || p != src))
    ensures var r := Move(fs, src, dst); p in r && (dst in fs || p != dst) ==> r[p] == fs[p]
  {
  }

  /** A move takes one path away and adds one, so the number of files stays the same. */
  lemma MoveSize(fs: FileTable, src: Path, dst: Path)
    requires src in fs
    ensures |Move(fs, src, dst)| == |fs|
  {
    if dst !in fs {
      var rest := fs - {src};
      assert rest.Keys == fs.Keys - {src};
    }
  }

  /** Every entry's file is a record file still at the top of the folder, no two entries share a
      name, and each entry has three directory names, the outermost not named like a record. */
  predicate Movable(fs: FileTable, es: seq<Entry>) {
    DistinctNames(es) &&
    forall i :: 0 <= i < |es| ==>
      IsMdName(es[i].name) && [es[i].name] in fs && |es[i].dirs| == 3 && !IsMdName(es[i].dirs[0])
  }

  /** `target_dir.mkdir(parents=True, exist_ok=True)` raises: one of the three directories it
      would create, outermost first, is a file. */
  predicate Blocked(fs: FileTable, e: Entry) {
    var d := e.dirs;
    |d| == 3 && ([d[0]] in fs || [d[0], d[1]] in fs || d in fs)
  }

  /** None of the entries' directories is blocked, so every `mkdir` succeeds. */
  predicate Completes(fs: FileTable, es: seq<Entry>) {
    forall i :: 0 <= i < |es| ==> !Blocked(fs, es[i])
  }

  /** The moves of `es`, first to last; the run stops, with the earlier moves done, at the
      first entry whose directories cannot be created. */
  function MoveAll(fs: FileTable, es: seq<Entry>): FileTable
    requires Movable(fs, es)
    decreases |es|
  {
    if es == [] || Blocked(fs, es[0]) then fs
    else
      var e := es[0];
      var next := Move(fs, [e.name], Target(e));
      assert Movable(next, es[1..]) by {
        forall i | 0 <= i < |es[1..]| ensures [es[1..][i].name] in next {
          assert es[1..][i] == es[i + 1];
          assert [es[i + 1].name] != [e.name];
          MoveAt(fs, [e.name], Target(e), [es[i + 1].name]);
        }
      }
      MoveAll(next, es[1..])
  }

  /** A move neither creates nor removes a file where a bucket directory goes: it removes a
      record file, which is never named like a directory, and adds a file below three of them. */
  lemma BlockedKept(fs: FileTable, f: Entry, e: Entry)
    requires [f.name] in fs && IsMdName(f.name) && |f.dirs| == 3
    requires |e.dirs| == 3 && !IsMdName(e.dirs[0])
    ensures Blocked(Move(fs, [f.name], Target(f)), e) == Blocked(fs, e)
  {
    var d := e.dirs;
    assert d[0] != f.name;
    MoveAt(fs, [f.name], Target(f), [d[0]]);
    MoveAt(fs, [f.name], Target(f), [d[0], d[1]]);
    MoveAt(fs, [f.name], Target(f), d);
  }

  /** The folder after all moves of a listing whose stems are all integers. */
  function Organized(fs: FileTable, listing: seq<string>): FileTable
    requires IsListing(fs, listing) && Entries(listing).Some?
  {
    EntriesMovable(fs, listing);
    SortedMovable(fs, Entries(listing).value);
    MoveAll(fs, SortByNum(Entries(listing).value))
  }

  /** `organize_comics()` on the folder `fs`, whose top level `glob('*.md')` lists as `listing`.
      When some stem is not an integer the call raises before moving anything. Otherwise the
      files are moved in ascending order of id, and the call raises at the first file whose
      directories cannot be created, after the earlier moves. `ok` is false when it raises. */
  method OrganizeComics(fs: FileTable, listing: seq<string>) returns (ok: bool, after: FileTable)
    requires IsListing(fs, listing)
    ensures ok <==> Entries(listing).Some? && Completes(fs, Entries(listing).value)
    ensures Entries(listing).None? ==> after == fs
    ensures Entries(listing).Some? ==> after == Organized(fs, listing)
  {
    var parsed := Entries(listing);
    if parsed.None? {
      return false, fs;
    }
    var order := SortByNum(parsed.value);
    assert Movable(fs, order) by {
      EntriesMovable(fs, listing);
      SortedMovable(fs, parsed.value);
    }
    CompletesSorted(fs, parsed.value);
    ok, after := MoveInOrder(fs, order);
  }

  /** The loop `for file in all_files`: each file is moved in turn, and `ok` turns false when
      `mkdir` raises, which ends the loop. */
  method MoveInOrder(fs: FileTable, order: seq<Entry>) returns (ok: bool, after: FileTable)
    requires Movable(fs, order)
    ensures ok <==> Completes(fs, order)
    ensures after == MoveAll(fs, order)
  {
    after := fs;
    var k := 0;
    while k < |order|
      invariant 0 <= k <= |order|
      invariant Movable(after, order[k..])
      invariant MoveAll(after, order[k..]) == MoveAll(fs, order)
      invariant Completes(after, order[k..]) <==> Completes(fs, order)
      decreases |order| - k
    {
      var e := order[k];
      ghost var before := after;
      ghost var rest := order[k..];
      assert rest[0] == e && rest[1..] == order[k + 1..];
      if Blocked(after, e) {
        // `target_dir.mkdir` raises.
        MoveAllBlocked(before, rest);
        return false, after;
      }
      after := MoveFile(after, [e.name], Target(e));
      MoveAllFirst(before, rest);
      k := k + 1;
    }
    ok := true;
  }

  /** One move of the loop: `if not new_path.exists(): file.rename(new_path)`. */
  method MoveFile(fs: FileTable, src: Path, dst: Path) returns (after: FileTable)
    requires src in fs
    ensures after == Move(fs, src, dst)
  {
    after := fs;
    if dst !in after {
      after := (after - {src})[dst := after[src]];
    }
  }

  /** The entries of a listing have distinct names and are all at the top of the folder. */
  lemma EntriesMovable(fs: FileTable, listing: seq<string>)
    requires IsListing(fs, listing) && Entries(listing).Some?
    ensures Movable(fs, Entries(listing).value)
  {
    var es := Entries(listing).value;
    forall i | 0 <= i < |es| ensures |es[i].dirs| == 3 && !IsMdName(es[i].dirs[0]) {
      DirNamesAreNotRecords(es[i].num);
    }
  }

  /** Sorting keeps the entries movable. */
  lemma SortedMovable(fs: FileTable, es: seq<Entry>)
    requires Movable(fs, es)
    ensures Movable(fs, SortByNum(es))
  {
    var order := SortByNum(es);
    SortByNumSpec(es);
    forall i | 0 <= i < |order|
      ensures IsMdName(order[i].name) && [order[i].name] in fs && |order[i].dirs| == 3 && !IsMdName(order[i].dirs[0])
    {
      assert order[i] in multiset(es);
      var j :| 0 <= j < |es| && es[j] == order[i];
    }
  }

  /** Sorting does not change whether some entry's directories are blocked. */
  lemma CompletesSorted(fs: FileTable, es: seq<Entry>)
    ensures Completes(fs, SortByNum(es)) <==> Completes(fs, es)
  {
    var order := SortByNum(es);
    if Completes(fs, es) {
      forall k | 0 <= k < |order| ensures !Blocked(fs, order[k]) {
        assert order[k] in multiset(es);
      }
    }
    if Completes(fs, order) {
      forall i | 0 <= i < |es| ensures !Blocked(fs, es[i]) {
        assert es[i] in multiset(order);
      }
    }
  }

  /** One step of `MoveAll` when the first entry's directories can be created: the first move,
      then the rest, which meet the same blocked directories as before the move. */
  lemma MoveAllFirst(fs: FileTable, es: seq<Entry>)
    requires Movable(fs, es) && es != [] && !Blocked(fs, es[0])
    ensures Movable(Move(fs, [es[0].name], Target(es[0])), es[1..])
    ensures MoveAll(fs, es) == MoveAll(Move(fs, [es[0].name], Target(es[0])), es[1..])
    ensures Completes(fs, es) <==> Completes(Move(fs, [es[0].name], Target(es[0])), es[1..])
  {
    var next := Move(fs, [es[0].name], Target(es[0]));
    forall i | 0 <= i < |es[1..]| ensures Blocked(next, es[1..][i]) == Blocked(fs, es[i + 1]) {
      assert es[1..][i] == es[i + 1];
      BlockedKept(fs, es[0], es[i + 1]);
    }
  }

  /** A run whose next entry is blocked stops there and does not complete. */
  lemma MoveAllBlocked(fs: FileTable, es: seq<Entry>)
    requires Movable(fs, es) && es != [] && Blocked(fs, es[0])
    ensures MoveAll(fs, es) == fs && !Completes(fs, es)
  {
  }

  /** A run that does not complete stops at the first blocked entry: the folder is then what the
      moves of the entries before it leave. */
  lemma {:induction false} MoveAllStops(fs: FileTable, es: seq<Entry>) returns (k: nat)
    requires Movable(fs, es) && !Completes(fs, es)
    ensures k < |es| && Blocked(fs, es[k])
    ensures Movable(fs, es[..k]) && Completes(fs, es[..k])
    ensures MoveAll(fs, es) == MoveAll(fs, es[..k])
    decreases |es|
  {
    if Blocked(fs, es[0]) {
      k := 0;
      assert es[..0] == [];
    } else {
      MoveAllFirst(fs, es);
      var next := Move(fs, [es[0].name], Target(es[0]));
      var j := MoveAllStops(next, es[1..]);
      k := j + 1;
      assert Blocked(fs, es[k]) by {
        assert es[1..][j] == es[k];
        BlockedKept(fs, es[0], es[k]);
      }
      var pre := es[..k];
      assert pre[0] == es[0] && pre[1..] == es[1..][..j];
      MovablePrefix(fs, es, k);
      MoveAllFirst(fs, pre);
    }
  }

  /** The entries before position `k` are movable when all are. */
  lemma MovablePrefix(fs: FileTable, es: seq<Entry>, k: nat)
    requires Movable(fs, es) && k <= |es|
    ensures Movable(fs, es[..k])
  {
    assert forall i :: 0 <= i < k ==> es[..k][i] == es[i];
  }

  /** A path that is neither the source nor the target of any move keeps what it held. */
  lemma {:induction false} MoveAllFrame(fs: FileTable, es: seq<Entry>, p: Path)
    requires Movable(fs, es)
    requires forall i :: 0 <= i < |es| ==> p != [es[i].name] && p != Target(es[i])
    ensures var r := MoveAll(fs, es); (p in r <==> p in fs) && (p in fs ==> r[p] == fs[p])
    decreases |es|
  {
    if es != [] && !Blocked(fs, es[0]) {
      MoveAllFirst(fs, es);
      var next := Move(fs, [es[0].name], Target(es[0]));
      forall i | 0 <= i < |es[1..]| ensures p != [es[1..][i].name] && p != Target(es[1..][i]) {
        assert es[1..][i] == es[i + 1];
      }
      MoveAt(fs, [es[0].name], Target(es[0]), p);
      MoveAllFrame(next, es[1..], p);
    }
  }

  /** Each entry's own move: when the target is taken both files stay as they were; when it is
      free and the run completes the file is found there and no longer at the top; when its own
      directories cannot be created the file stays at the top. None of this depends on the
      order of the moves. */
  lemma {:induction false} MoveAllOutcome(fs: FileTable, es: seq<Entry>, k: nat)
    requires Movable(fs, es) && k < |es|
    ensures var e, r := es[k], MoveAll(fs, es);
      Target(e) in fs ==> [e.name] in r && r[[e.name]] == fs[[e.name]] && Target(e) in r && r[Target(e)] == fs[Target(e)]
    ensures var e, r := es[k], MoveAll(fs, es);
      Completes(fs, es) && Target(e) !in fs ==> [e.name] !in r && Target(e) in r && r[Target(e)] == fs[[e.name]]
    decreases |es|
  {
    if Blocked(fs, es[0]) {
      MoveAllBlocked(fs, es);
    } else if k == 0 {
      MoveAllOutcomeFirst(fs, es);
    } else {
      MoveAllFirst(fs, es);
      var e, f := es[0], es[k];
      var next := Move(fs, [e.name], Target(e));
      assert es[1..][k - 1] == f;
      assert Name(Target(f)) != Name(Target(e));
      assert [f.name] != [e.name];
      MoveAt(fs, [e.name], Target(e), [f.name]);
      MoveAt(fs, [e.name], Target(e), Target(f));
      MoveAllOutcome(next, es[1..], k - 1);
    }
  }

  /** An entry whose own directories cannot be created is not reached: the run stops at or
      before it, and its file stays at the top. */
  lemma MoveAllBlockedStays(fs: FileTable, es: seq<Entry>, k: nat)
    requires Movable(fs, es) && k < |es| && Blocked(fs, es[k])
    ensures var r := MoveAll(fs, es); [es[k].name] in r && r[[es[k].name]] == fs[[es[k].name]]
  {
    var s := MoveAllStops(fs, es);
    var pre := es[..s];
    assert k >= s by {
      assert forall i :: 0 <= i < s ==> pre[i] == es[i] && !Blocked(fs, es[i]);
    }
    forall i | 0 <= i < |pre| ensures [es[k].name] != [pre[i].name] && [es[k].name] != Target(pre[i]) {
      assert pre[i] == es[i] && i != k;
    }
    MoveAllFrame(fs, pre, [es[k].name]);
  }

  /** `MoveAllOutcome` for a first entry whose directories can be created: the later moves leave
      its source and target alone. */
  lemma MoveAllOutcomeFirst(fs: FileTable, es: seq<Entry>)
    requires Movable(fs, es) && es != [] && !Blocked(fs, es[0])
    ensures var e, r := es[0], MoveAll(fs, es);
      Target(e) !in fs ==> [e.name] !in r && Target(e) in r && r[Target(e)] == fs[[e.name]]
    ensures var e, r := es[0], MoveAll(fs, es);
      Target(e) in fs ==> [e.name] in r && r[[e.name]] == fs[[e.name]] && Target(e) in r && r[Target(e)] == fs[Target(e)]
  {
    MoveAllFirst(fs, es);
    var e := es[0];
    var next := Move(fs, [e.name], Target(e));
    RestAvoidsFirst(es);
    MoveAt(fs, [e.name], Target(e), [e.name]);
    MoveAt(fs, [e.name], Target(e), Target(e));
    MoveAllFrame(next, es[1..], [e.name]);
    MoveAllFrame(next, es[1..], Target(e));
  }

  /** The later entries of a list with distinct names never touch the first entry's paths. */
  lemma RestAvoidsFirst(es: seq<Entry>)
    requires DistinctNames(es) && es != []
    ensures forall i :: 0 <= i < |es[1..]| ==> [es[0].name] != [es[1..][i].name] && [es[0].name] != Target(es[1..][i])
    ensures forall i :: 0 <= i < |es[1..]| ==> Target(es[0]) != [es[1..][i].name] && Target(es[0]) != Target(es[1..][i])
  {
    forall i | 0 <= i < |es[1..]|
      ensures [es[0].name] != [es[1..][i].name] && [es[0].name] != Target(es[1..][i])
      ensures Target(es[0]) != [es[1..][i].name] && Target(es[0]) != Target(es[1..][i])
    {
      assert es[1..][i] == es[i + 1];
      assert Name(Target(es[i + 1])) != Name(Target(es[0]));
    }
  }

  /** No file is lost and none is duplicated: the folder holds as many files as before. */
  lemma {:induction false} MoveAllSize(fs: FileTable, es: seq<Entry>)
    requires Movable(fs, es)
    ensures |MoveAll(fs, es)| == |fs|
    decreases |es|
  {
    if es != [] && !Blocked(fs, es[0]) {
      MoveAllFirst(fs, es);
      MoveSize(fs, [es[0].name], Target(es[0]));
      MoveAllSize(Move(fs, [es[0].name], Target(es[0])), es[1..]);
    }
  }

  /** Moves only put files below the top level: a top-level file afterwards was there before. */
  lemma {:induction false} MoveAllAddsNoTopLevel(fs: FileTable, es: seq<Entry>, p: Path)
    requires Movable(fs, es) && |p| == 1 && p in MoveAll(fs, es)
    ensures p in fs
    decreases |es|
  {
    if es != [] && !Blocked(fs, es[0]) {
      MoveAllFirst(fs, es);
      MoveAllAddsNoTopLevel(Move(fs, [es[0].name], Target(es[0])), es[1..], p);
      MoveAt(fs, [es[0].name], Target(es[0]), p);
    }
  }

  /** A move keeps the file's name, so the set of stems `rglob('*.md')` sees is unchanged. */
  lemma MoveKeepsStems(fs: FileTable, src: Path, dst: Path)
    requires src in fs && |src| > 0 && |dst| > 0 && Name(src) == Name(dst)
    ensures Stems(Move(fs, src, dst)) == Stems(fs)
  {
    var r := Move(fs, src, dst);
    if dst !in fs {
      forall s | s in Stems(r) ensures s in Stems(fs) {
        var p :| p in r && |p| > 0 && IsMdName(Name(p)) && Stem(Name(p)) == s;
        MoveAt(fs, src, dst, p);
        if p == dst {
          assert src in fs && Name(src) == Name(p);
        } else {
          assert p in fs;
        }
      }
      forall s | s in Stems(fs) ensures s in Stems(r) {
        var p :| p in fs && |p| > 0 && IsMdName(Name(p)) && Stem(Name(p)) == s;
        MoveAt(fs, src, dst, p);
        MoveAt(fs, src, dst, dst);
        if p == src {
          assert dst in r && Name(dst) == Name(p);
        } else {
          assert p in r;
        }
      }
    }
  }

  lemma {:induction false} MoveAllKeepsStems(fs: FileTable, es: seq<Entry>)
    requires Movable(fs, es)
    ensures Stems(MoveAll(fs, es)) == Stems(fs)
    decreases |es|
  {
    if es != [] && !Blocked(fs, es[0]) {
      MoveAllFirst(fs, es);
      var next := Move(fs, [es[0].name], Target(es[0]));
      MoveKeepsStems(fs, [es[0].name], Target(es[0]));
      MoveAllKeepsStems(next, es[1..]);
    }
  }

  /** Where an entry of the listing ends up in the sorted order. */
  lemma SortedPosition(es: seq<Entry>, i: nat) returns (k: nat)
    requires i < |es|
    ensures k < |SortByNum(es)| && SortByNum(es)[k] == es[i]
  {
    assert es[i] in multiset(SortByNum(es));
    k :| 0 <= k < |SortByNum(es)| && SortByNum(es)[k] == es[i];
  }

  /** A file of the listing whose bucket already holds a file of its name stays at the top, and
      the file in the bucket is left alone. Otherwise, when no listed file's directories are
      blocked, it is moved into its bucket. A file whose own directories are blocked stays. */
  lemma OrganizedFile(fs: FileTable, listing: seq<string>, i: nat)
    requires IsListing(fs, listing) && Entries(listing).Some? && i < |listing|
    ensures var e, r := Entries(listing).value[i], Organized(fs, listing);
      Target(e) in fs ==> [listing[i]] in r && r[[listing[i]]] == fs[[listing[i]]] && Target(e) in r && r[Target(e)] == fs[Target(e)]
    ensures var es, r := Entries(listing).value, Organized(fs, listing);
      Completes(fs, es) && Target(es[i]) !in fs ==> [listing[i]] !in r && Target(es[i]) in r && r[Target(es[i])] == fs[[listing[i]]]
    ensures var e, r := Entries(listing).value[i], Organized(fs, listing);
      Blocked(fs, e) ==> [listing[i]] in r && r[[listing[i]]] == fs[[listing[i]]]
  {
    var es := Entries(listing).value;
    EntriesMovable(fs, listing);
    SortedMovable(fs, es);
    CompletesSorted(fs, es);
    var k := SortedPosition(es, i);
    MoveAllOutcome(fs, SortByNum(es), k);
    if Blocked(fs, es[i]) {
      MoveAllBlockedStays(fs, SortByNum(es), k);
    }
  }

  /** Nothing else changes: a path that is neither a listed file nor one of their targets. */
  lemma OrganizedFrame(fs: FileTable, listing: seq<string>, p: Path)
    requires IsListing(fs, listing) && Entries(listing).Some?
    requires forall i :: 0 <= i < |listing| ==> p != [listing[i]] && p != Target(Entries(listing).value[i])
    ensures var r := Organized(fs, listing); (p in r <==> p in fs) && (p in fs ==> r[p] == fs[p])
  {
    var es := Entries(listing).value;
    EntriesMovable(fs, listing);
    SortedMovable(fs, es);
    var order := SortByNum(es);
    assert forall i :: 0 <= i < |es| ==> es[i].name == listing[i];
    SortedAvoids(es, p);
    MoveAllFrame(fs, order, p);
  }

  /** A record file still at the top of the folder afterwards was listed, and either its bucket
      already held a file of the same name or the run stopped at a blocked directory. */
  lemma LeftAtTop(fs: FileTable, listing: seq<string>, p: Path)
    requires IsListing(fs, listing) && Entries(listing).Some?
    requires |p| == 1 && IsMdName(p[0])
    ensures p in Organized(fs, listing) ==>
      exists i :: 0 <= i < |listing| && listing[i] == p[0] &&
        (Target(Entries(listing).value[i]) in fs || !Completes(fs, Entries(listing).value))
  {
    var es := Entries(listing).value;
    EntriesMovable(fs, listing);
    SortedMovable(fs, es);
    SortedLeftAtTop(fs, listing, es, p);
  }

  /** `LeftAtTop` for any entries named by the listing and moved in sorted order. */
  lemma SortedLeftAtTop(fs: FileTable, listing: seq<string>, es: seq<Entry>, p: Path)
    requires IsListing(fs, listing) && |es| == |listing| && forall i :: 0 <= i < |es| ==> es[i].name == listing[i]
    requires Movable(fs, es) && Movable(fs, SortByNum(es)) && |p| == 1 && IsMdName(p[0])
    ensures p in MoveAll(fs, SortByNum(es)) ==>
      exists i :: 0 <= i < |listing| && listing[i] == p[0] && (Target(es[i]) in fs || !Completes(fs, es))
  {
    if p in MoveAll(fs, SortByNum(es)) {
      MoveAllAddsNoTopLevel(fs, SortByNum(es), p);
      assert p[0] in listing;
      var i :| 0 <= i < |listing| && listing[i] == p[0];
      SortedStays(fs, es, i);
      assert [es[i].name] == p;
    }
  }

  /** A file moved in sorted order that is still at the top was not free to move. */
  lemma SortedStays(fs: FileTable, es: seq<Entry>, i: nat)
    requires Movable(fs, es) && Movable(fs, SortByNum(es)) && i < |es|
    ensures [es[i].name] in MoveAll(fs, SortByNum(es)) ==> Target(es[i]) in fs || !Completes(fs, es)
  {
    CompletesSorted(fs, es);
    var k := SortedPosition(es, i);
    MoveAllOutcome(fs, SortByNum(es), k);
  }

  /** `get_latest_number` searches with `rglob`, so it reads the same number before and after the
      files are moved into buckets, whatever order the two scans find them in. */
  lemma OrganizeKeepsLatest(fs: FileTable, listing: seq<string>, xs: seq<string>, ys: seq<string>)
    requires IsListing(fs, listing) && Entries(listing).Some?
    requires forall s :: s in xs <==> s in Stems(fs)
    requires forall s :: s in ys <==> s in Stems(Organized(fs, listing))
    ensures LatestNumber(xs) == LatestNumber(ys)
  {
    EntriesMovable(fs, listing);
    SortedMovable(fs, Entries(listing).value);
    MoveAllKeepsStems(fs, SortByNum(Entries(listing).value));
    LatestNumberOrderFree(xs, ys);
  }

  /** A path avoided by every entry's file and target is avoided by the sorted entries too. */
  lemma SortedAvoids(es: seq<Entry>, p: Path)
    requires forall i :: 0 <= i < |es| ==> p != [es[i].name] && p != Target(es[i])
    ensures forall k :: 0 <= k < |SortByNum(es)| ==> p != [SortByNum(es)[k].name] && p != Target(SortByNum(es)[k])
  {
    var order := SortByNum(es);
    forall k | 0 <= k < |order| ensures p != [order[k].name] && p != Target(order[k]) {
      assert order[k] in multiset(es);
    }
  }
}
