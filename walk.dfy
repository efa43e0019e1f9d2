/**
 * The directory walk shared by `createBaseline` and `runMonitor`
 * (main.py:42-57 and main.py:67-82): the `os.walk` result is collected into
 * the dictionary `directory_map`, then every file of every directory is
 * visited in that dictionary's order, files named in `IGNORE_LIST` skipped,
 * and each visited file named by `dir + "/" + file`.
 *
 * The file system is a snapshot: the `(dir_path, file_names)` pairs `os.walk`
 * yields, in its order (the `dir_names` it also yields are unused), and the
 * text of every file that can be read.
 */
module Walk {

  const BASELINE_RESULTS: string := "baseline.txt"
  const ALERT_FILE: string := "alert.log"

  /** Bare file names that are never scanned: the monitor's own files and macOS folder metadata. */
  const IGNORE_LIST: seq<string> := [BASELINE_RESULTS, ALERT_FILE, "main.py", ".DS_Store"]

  /** One entry of the walk: a directory path and the bare names of the files directly in it. */
  type WalkEntry = (string, seq<string>)

  datatype Snapshot = Snapshot(walk: seq<WalkEntry>, readable: map<string, string>)

  /** The key under which a file is known: `dir + "/" + file`. */
  function FullPath(dir: string, name: string): string {
    dir + "/" + name
  }

  /** No string occurs twice in `s`. */
  predicate Distinct(s: seq<string>) {
    forall i, j :: 0 <= i < j < |s| ==> s[i] != s[j]
  }

  /** The directories the walk lists. */
  function Dirs(walk: seq<WalkEntry>): set<string> {
    set e | e in walk :: e.0
  }

  /**
   * The key order of `directory_map`: each directory at the position where
   * the walk first lists it, once.
   */
  function DirOrder(walk: seq<WalkEntry>): (order: seq<string>)
    ensures forall d :: d in order <==> d in Dirs(walk)
  {
    if walk == [] then []
    else
      var prefix := walk[..|walk| - 1];
      var d := walk[|walk| - 1].0;
      assert walk == prefix + [walk[|walk| - 1]];
      assert Dirs(walk) == Dirs(prefix) + {d};
      var order := DirOrder(prefix);
      if d in order then order else order + [d]
  }

  /** `directory_map` has each directory once in its key order. */
  lemma {:induction false} DirOrderDistinct(walk: seq<WalkEntry>)
    ensures Distinct(DirOrder(walk))
  {
    if walk != [] {
      var prefix := walk[..|walk| - 1];
      DirOrderDistinct(prefix);
      var order := DirOrder(prefix);
      var d := walk[|walk| - 1].0;
      if d !in order {
        forall i, j | 0 <= i < j < |order| + 1
          ensures (order + [d])[i] != (order + [d])[j]
        {
          if j == |order| {
            assert (order + [d])[i] == order[i];
          }
        }
      }
    }
  }

  /** The values of `directory_map`: for each directory, the file list the walk gave it last. */
  function DirListing(walk: seq<WalkEntry>): (listing: map<string, seq<string>>)
    ensures listing.Keys == Dirs(walk)
  {
    if walk == [] then map[]
    else
      var prefix := walk[..|walk| - 1];
      assert walk == prefix + [walk[|walk| - 1]];
      assert Dirs(walk) == Dirs(prefix) + {walk[|walk| - 1].0};
      DirListing(prefix)[walk[|walk| - 1].0 := walk[|walk| - 1].1]
  }

  /** The directories of the walk, in walk order, as many times as it lists them. */
  function WalkDirs(walk: seq<WalkEntry>): seq<string> {
    seq(|walk|, i requires 0 <= i < |walk| => walk[i].0)
  }

  /** Dropping the last report of the walk drops the last directory of `WalkDirs`. */
  lemma WalkDirsOfPrefix(walk: seq<WalkEntry>)
    requires walk != []
    ensures WalkDirs(walk) == WalkDirs(walk[..|walk| - 1]) + [walk[|walk| - 1].0]
  {
    var prefix := walk[..|walk| - 1];
    assert forall i :: 0 <= i < |prefix| ==> prefix[i] == walk[i];
  }

  /** A run free of repeats stays so without its last element, which occurs nowhere before it. */
  lemma DistinctWithoutLast(s: seq<string>, x: string)
    requires Distinct(s + [x])
    ensures Distinct(s) && x !in s
  {
    forall i, j | 0 <= i < j < |s|
      ensures s[i] != s[j]
    {
      assert (s + [x])[i] == s[i] && (s + [x])[j] == s[j];
    }
    forall i | 0 <= i < |s|
      ensures s[i] != x
    {
      assert (s + [x])[i] == s[i] && (s + [x])[|s|] == x;
    }
  }

  /** When no directory is reported twice, the key order of `directory_map` is the walk order. */
  lemma {:induction false} DirOrderOfDistinctWalk(walk: seq<WalkEntry>)
    requires Distinct(WalkDirs(walk))
    ensures DirOrder(walk) == WalkDirs(walk)
  {
    if walk != [] {
      var prefix := walk[..|walk| - 1];
      WalkDirsOfPrefix(walk);
      DistinctWithoutLast(WalkDirs(prefix), walk[|walk| - 1].0);
      DirOrderOfDistinctWalk(prefix);
    }
  }

  /**
   * When every directory is listed once, as `os.walk` does, `directory_map`
   * holds the walk unchanged: its keys in walk order, each with its own list.
   */
  lemma DirectoryMapOfDistinctWalk(walk: seq<WalkEntry>)
    requires Distinct(WalkDirs(walk))
    ensures DirOrder(walk) == WalkDirs(walk)
    ensures forall i :: 0 <= i < |walk| ==> DirListing(walk)[walk[i].0] == walk[i].1
  {
    DirOrderOfDistinctWalk(walk);
    ListingOfDistinctWalk(walk);
  }

  /** When every directory is listed once, each one's entry in `directory_map` is its own list. */
  lemma {:induction false} ListingOfDistinctWalk(walk: seq<WalkEntry>)
    requires Distinct(WalkDirs(walk))
    ensures forall i :: 0 <= i < |walk| ==> DirListing(walk)[walk[i].0] == walk[i].1
  {
    if walk != [] {
      var prefix := walk[..|walk| - 1];
      var last := walk[|walk| - 1];
      WalkDirsOfPrefix(walk);
      DistinctWithoutLast(WalkDirs(prefix), last.0);
      ListingOfDistinctWalk(prefix);
      forall i | 0 <= i < |walk|
        ensures DirListing(walk)[walk[i].0] == walk[i].1
      {
        if i < |walk| - 1 {
          assert walk[i] == prefix[i];
          assert WalkDirs(prefix)[i] == walk[i].0;
          ListingOfEarlierDir(walk, walk[i].0);
        }
      }
    }
  }

  /** A later report of another directory leaves an earlier directory's entry as it was. */
  lemma ListingOfEarlierDir(walk: seq<WalkEntry>, d: string)
    requires walk != [] && d != walk[|walk| - 1].0 && d in Dirs(walk[..|walk| - 1])
    ensures DirListing(walk)[d] == DirListing(walk[..|walk| - 1])[d]
  {
  }

  /** Builds `directory_map` (main.py:42-44 and main.py:67-69): its key order and its values. */
  method BuildDirectoryMap(walk: seq<WalkEntry>) returns (order: seq<string>, listing: map<string, seq<string>>)
    ensures order == DirOrder(walk) && listing == DirListing(walk)
  {
    order, listing := [], map[];
    for i := 0 to |walk|
      invariant order == DirOrder(walk[..i]) && listing == DirListing(walk[..i])
    {
      assert walk[..i + 1][..i] == walk[..i];
      var (dir, names) := walk[i];
      if dir !in listing {
        order := order + [dir];
      }
      listing := listing[dir := names];
    }
    assert walk[..|walk|] == walk;
  }

  /** The full paths visited in one directory's file list, in list order, ignored names skipped. */
  function DirVisits(dir: string, names: seq<string>): (paths: seq<string>)
    ensures |paths| <= |names|
  {
    if names == [] then []
    else
      var name := names[|names| - 1];
      DirVisits(dir, names[..|names| - 1]) + (if name in IGNORE_LIST then [] else [FullPath(dir, name)])
  }

  /** The full paths visited in the directories of `order`, directory after directory. */
  function Visits(order: seq<string>, listing: map<string, seq<string>>): seq<string>
    requires forall d :: d in order ==> d in listing
  {
    if order == [] then []
    else
      var dir := order[|order| - 1];
      Visits(order[..|order| - 1], listing) + DirVisits(dir, listing[dir])
  }

  /** Visiting one more directory of `order` appends its visits. */
  lemma VisitsStep(order: seq<string>, listing: map<string, seq<string>>, i: nat)
    requires forall d :: d in order ==> d in listing
    requires i < |order|
    ensures Visits(order[..i + 1], listing) == Visits(order[..i], listing) + DirVisits(order[i], listing[order[i]])
  {
    assert order[..i + 1][..i] == order[..i];
  }

  /** Visiting one more name of a directory's list appends its full path unless the name is ignored. */
  lemma DirVisitsStep(dir: string, names: seq<string>, j: nat)
    requires j < |names|
    ensures DirVisits(dir, names[..j + 1])
      == DirVisits(dir, names[..j]) + (if names[j] in IGNORE_LIST then [] else [FullPath(dir, names[j])])
  {
    assert names[..j + 1][..j] == names[..j];
  }

  /** The full paths one scan of the snapshot's walk visits, in visiting order. */
  function Observed(walk: seq<WalkEntry>): seq<string> {
    Visits(DirOrder(walk), DirListing(walk))
  }

  /** `name` is among the files `directory_map` holds for `dir`. */
  predicate Listed(walk: seq<WalkEntry>, dir: string, name: string) {
    var listing := DirListing(walk);
    dir in listing && name in listing[dir]
  }

  lemma {:induction false} DirVisitsIff(dir: string, names: seq<string>, p: string)
    ensures p in DirVisits(dir, names) <==>
      exists name :: name in names && name !in IGNORE_LIST && p == FullPath(dir, name)
  {
    if names != [] {
      var prefix := names[..|names| - 1];
      DirVisitsIff(dir, prefix, p);
      assert names == prefix + [names[|names| - 1]];
    }
  }

  lemma {:induction false} VisitsIff(order: seq<string>, listing: map<string, seq<string>>, p: string)
    requires forall d :: d in order ==> d in listing
    ensures p in Visits(order, listing) <==>
      exists dir, name :: dir in order && name in listing[dir] && name !in IGNORE_LIST && p == FullPath(dir, name)
  {
    if order != [] {
      var prefix := order[..|order| - 1];
      var dir := order[|order| - 1];
      VisitsIff(prefix, listing, p);
      DirVisitsIff(dir, listing[dir], p);
      assert order == prefix + [dir];
    }
  }

  /**
   * A scan visits exactly the files the walk lists under names outside
   * `IGNORE_LIST`, each under the key `dir + "/" + file`.
   */
  lemma ObservedIff(walk: seq<WalkEntry>, p: string)
    ensures p in Observed(walk) <==>
      exists dir, name :: Listed(walk, dir, name) && name !in IGNORE_LIST && p == FullPath(dir, name)
  {
    VisitsIff(DirOrder(walk), DirListing(walk), p);
  }

  /** File names hold no '/', as on every file system `os.walk` reports. */
  predicate PlainNames(walk: seq<WalkEntry>) {
    forall i, j :: 0 <= i < |walk| && 0 <= j < |walk[i].1| ==> '/' !in walk[i].1[j]
  }

  lemma {:induction false} ListedNamesArePlain(walk: seq<WalkEntry>, dir: string, name: string)
    requires PlainNames(walk) && Listed(walk, dir, name)
    ensures '/' !in name
  {
    var prefix := walk[..|walk| - 1];
    if walk[|walk| - 1].0 == dir {
      var j :| 0 <= j < |walk[|walk| - 1].1| && walk[|walk| - 1].1[j] == name;
    } else {
      assert PlainNames(prefix) by {
        forall i, j | 0 <= i < |prefix| && 0 <= j < |prefix[i].1| ensures '/' !in prefix[i].1[j] {
          assert prefix[i] == walk[i];
        }
      }
      ListedNamesArePlain(prefix, dir, name);
    }
  }

  /** The part of a path after its last '/'. */
  function NamePart(p: string): string {
    if p == [] || p[|p| - 1] == '/' then [] else NamePart(p[..|p| - 1]) + [p[|p| - 1]]
  }

  /** The part of a path before its last '/'. */
  function DirPart(p: string): string {
    if p == [] then []
    else if p[|p| - 1] == '/' then p[..|p| - 1]
    else DirPart(p[..|p| - 1])
  }

  /** The key `dir + "/" + file` gives back both parts when the file name holds no '/'. */
  lemma {:induction false} FullPathParts(dir: string, name: string)
    requires '/' !in name
    ensures DirPart(FullPath(dir, name)) == dir && NamePart(FullPath(dir, name)) == name
  {
    var p := FullPath(dir, name);
    if name == [] {
      assert p[..|p| - 1] == dir;
    } else {
      var prefix := name[..|name| - 1];
      FullPathParts(dir, prefix);
      assert p[..|p| - 1] == FullPath(dir, prefix);
      assert prefix + [name[|name| - 1]] == name;
    }
  }

  /** A key built from a name outside `IGNORE_LIST` is never the key of a name inside it. */
  lemma KeysOfIgnoredNamesDiffer(dir: string, name: string, dir': string, name': string)
    requires name in IGNORE_LIST
    requires '/' !in name' && name' !in IGNORE_LIST
    ensures FullPath(dir, name) != FullPath(dir', name')
  {
    assert '/' !in name;
    FullPathParts(dir, name);
    FullPathParts(dir', name');
  }

  /** A file whose bare name is in `IGNORE_LIST` is never visited, in any directory. */
  lemma IgnoredNeverObserved(walk: seq<WalkEntry>, dir: string, name: string)
    requires PlainNames(walk)
    requires name in IGNORE_LIST
    ensures FullPath(dir, name) !in Observed(walk)
  {
    var p := FullPath(dir, name);
    forall dir', name' | Listed(walk, dir', name') && name' !in IGNORE_LIST
      ensures p != FullPath(dir', name')
    {
      ListedNamesArePlain(walk, dir', name');
      KeysOfIgnoredNamesDiffer(dir, name, dir', name');
    }
    ObservedIff(walk, p);
  }

  /** No directory lists a file name twice, as `os.walk` reports a directory's entries. */
  predicate DistinctNames(walk: seq<WalkEntry>) {
    var listing := DirListing(walk);
    forall d :: d in listing ==> Distinct(listing[d])
  }

  /** Two sequences without repeats and without a common element make one without repeats. */
  lemma DistinctConcat(a: seq<string>, b: seq<string>)
    requires Distinct(a) && Distinct(b)
    requires forall x :: x in a ==> x !in b
    ensures Distinct(a + b)
  {
    forall i, j | 0 <= i < j < |a + b|
      ensures (a + b)[i] != (a + b)[j]
    {
      if i < |a| && |a| <= j {
        assert (a + b)[i] in a && (a + b)[j] == b[j - |a|];
      }
    }
  }

  /** Within one directory, the key determines the file name. */
  lemma SameDirKeys(dir: string, a: string, b: string)
    ensures FullPath(dir, a) == FullPath(dir, b) <==> a == b
  {
    assert FullPath(dir, a)[|dir| + 1..] == a;
    assert FullPath(dir, b)[|dir| + 1..] == b;
  }

  /** A directory whose list names each file once yields each key once. */
  lemma {:induction false} DirVisitsDistinct(dir: string, names: seq<string>)
    requires Distinct(names)
    ensures Distinct(DirVisits(dir, names))
  {
    if names != [] {
      var prefix := names[..|names| - 1];
      var name := names[|names| - 1];
      assert names == prefix + [name];
      assert name !in prefix;
      DirVisitsDistinct(dir, prefix);
      if name !in IGNORE_LIST {
        var p := FullPath(dir, name);
        forall n | n in prefix
          ensures p != FullPath(dir, n)
        {
          SameDirKeys(dir, name, n);
        }
        DirVisitsIff(dir, prefix, p);
        DistinctConcat(DirVisits(dir, prefix), [p]);
      }
    }
  }

  /**
   * Directories listed once, each naming its files once, with names that
   * hold no '/', yield each key once.
   */
  lemma {:induction false} VisitsDistinct(order: seq<string>, listing: map<string, seq<string>>)
    requires forall d :: d in order ==> d in listing
    requires Distinct(order)
    requires forall d :: d in order ==> Distinct(listing[d])
    requires forall d, n :: d in order && n in listing[d] ==> '/' !in n
    ensures Distinct(Visits(order, listing))
  {
    if order != [] {
      var prefix := order[..|order| - 1];
      var dir := order[|order| - 1];
      assert order == prefix + [dir];
      assert dir !in prefix;
      VisitsDistinct(prefix, listing);
      DirVisitsDistinct(dir, listing[dir]);
      forall p | p in Visits(prefix, listing)
        ensures p !in DirVisits(dir, listing[dir])
      {
        VisitsIff(prefix, listing, p);
        var d, n :| d in prefix && n in listing[d] && n !in IGNORE_LIST && p == FullPath(d, n);
        forall m | m in listing[dir]
          ensures p != FullPath(dir, m)
        {
          FullPathParts(d, n);
          FullPathParts(dir, m);
        }
        DirVisitsIff(dir, listing[dir], p);
      }
      DistinctConcat(Visits(prefix, listing), DirVisits(dir, listing[dir]));
    }
  }

  /**
   * On a walk shaped as `os.walk` reports it (plain file names, no name
   * twice in a directory), a scan visits each key at most once.
   */
  lemma ObservedDistinct(walk: seq<WalkEntry>)
    requires PlainNames(walk) && DistinctNames(walk)
    ensures Distinct(Observed(walk))
  {
    var order, listing := DirOrder(walk), DirListing(walk);
    forall d, n | d in order && n in listing[d]
      ensures '/' !in n
    {
      ListedNamesArePlain(walk, d, n);
    }
    DirOrderDistinct(walk);
    VisitsDistinct(order, listing);
  }
}
