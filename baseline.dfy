/**
 * What `createBaseline` (main.py:37-61) and one `runMonitor` round
 * (main.py:65-110) compute, stated as functions of the snapshot and of the
 * baseline they start from, with the properties of those results. The
 * methods of the `Engine` module are proved to produce exactly these values.
 */
module Baseline {
  import opened Digest
  import opened LineFormat
  import opened Walk

  /** One value of `baseline_map`: the list `[hash, flag]`, the flag meaning "seen in this round". */
  datatype Record = Record(hash: string, seen: bool)

  /** One alert of `alert.log`, without its timestamp. */
  datatype Event = Created(path: string) | Modified(path: string) | Deleted(path: string)

  /** `order` lists the keys of `records` once each: the iteration order of the dict. */
  ghost predicate Tracks(order: seq<string>, records: map<string, Record>) {
    Distinct(order) && forall k :: k in records <==> k in order
  }

  /** Every flag is down, as it is between rounds. */
  predicate AllUnseen(records: map<string, Record>) {
    forall k :: k in records ==> !records[k].seen
  }

  /** Two dicts with the same keys and digests whose flags are all down are the same dict. */
  lemma SameUnflagged(a: map<string, Record>, b: map<string, Record>)
    requires a.Keys == b.Keys && AllUnseen(a) && AllUnseen(b)
    requires forall k :: k in a ==> a[k].hash == b[k].hash
    ensures a == b
  {
  }

  /**
   * The iteration order of a dict after `paths` are assigned to it in turn:
   * a new key goes to the end, a key already there keeps its place.
   */
  function AppendNew(order: seq<string>, paths: seq<string>): (r: seq<string>)
    ensures |order| <= |r| <= |order| + |paths|
  {
    if paths == [] then order
    else
      var before := AppendNew(order, paths[..|paths| - 1]);
      var p := paths[|paths| - 1];
      if p in before then before else before + [p]
  }

  /** Assigning keys keeps the existing key order as a prefix of the new one. */
  lemma {:induction false} AppendNewPrefix(order: seq<string>, paths: seq<string>)
    ensures AppendNew(order, paths)[..|order|] == order
  {
    if paths != [] {
      var before := AppendNew(order, paths[..|paths| - 1]);
      AppendNewPrefix(order, paths[..|paths| - 1]);
      if paths[|paths| - 1] !in before {
        assert (before + [paths[|paths| - 1]])[..|order|] == before[..|order|];
      }
    }
  }

  /**
   * Assigning keys keeps the dict order free of repeats, and the keys it
   * lists afterwards are the old ones and the assigned ones.
   */
  lemma {:induction false} AppendNewKeys(order: seq<string>, paths: seq<string>)
    ensures Distinct(order) ==> Distinct(AppendNew(order, paths))
    ensures forall k :: k in AppendNew(order, paths) <==> k in order || k in paths
  {
    if paths != [] {
      var prefix := paths[..|paths| - 1];
      assert paths == prefix + [paths[|paths| - 1]];
      AppendNewKeys(order, prefix);
    }
  }

  /**
   * The dict after `createBaseline` assigns the entry `[hash, False]` to each
   * visited path in turn (main.py:57-59): an assignment to a key already
   * there replaces its value.
   */
  function AssignEntries(sha3: string -> HexDigest, readable: map<string, string>, records: map<string, Record>, paths: seq<string>): (m: map<string, Record>)
    ensures |m| <= |records| + |paths|
  {
    if paths == [] then records
    else
      var p := paths[|paths| - 1];
      AssignEntries(sha3, readable, records, paths[..|paths| - 1])[p := Record(GenerateHash(sha3, readable, p), false)]
  }

  /**
   * The dict holds the keys it held and the visited paths; a visited path
   * holds the digest of its file and the flag down, any other key keeps its
   * value.
   */
  lemma {:induction false} AssignEntriesValues(sha3: string -> HexDigest, readable: map<string, string>, records: map<string, Record>, paths: seq<string>)
    ensures forall p :: p in AssignEntries(sha3, readable, records, paths) <==> p in records || p in paths
    ensures forall p :: p in AssignEntries(sha3, readable, records, paths) ==>
      AssignEntries(sha3, readable, records, paths)[p]
        == if p in paths then Record(GenerateHash(sha3, readable, p), false) else records[p]
  {
    if paths != [] {
      var prefix := paths[..|paths| - 1];
      assert paths == prefix + [paths[|paths| - 1]];
      AssignEntriesValues(sha3, readable, records, prefix);
    }
  }

  /**
   * The baseline file after `createBaseline` appends one line per visited
   * path in turn to `file` (main.py:60-61).
   */
  function WriteLines(sha3: string -> HexDigest, readable: map<string, string>, file: seq<string>, paths: seq<string>): (lines: seq<string>)
    ensures |lines| == |file| + |paths|
  {
    if paths == [] then file
    else
      var p := paths[|paths| - 1];
      WriteLines(sha3, readable, file, paths[..|paths| - 1]) + [FormatLine(p, GenerateHash(sha3, readable, p))]
  }

  /** The lines already written stay; after them comes one line per visited path, in visiting order, holding that path and its digest. */
  lemma {:induction false} WriteLinesAt(sha3: string -> HexDigest, readable: map<string, string>, file: seq<string>, paths: seq<string>)
    ensures WriteLines(sha3, readable, file, paths)[..|file|] == file
    ensures forall j :: |file| <= j < |file| + |paths| ==>
      WriteLines(sha3, readable, file, paths)[j]
        == FormatLine(paths[j - |file|], GenerateHash(sha3, readable, paths[j - |file|]))
  {
    if paths != [] {
      var prefix := paths[..|paths| - 1];
      WriteLinesAt(sha3, readable, file, prefix);
      var lines := WriteLines(sha3, readable, file, paths);
      var before := WriteLines(sha3, readable, file, prefix);
      assert lines == before + [FormatLine(paths[|paths| - 1], GenerateHash(sha3, readable, paths[|paths| - 1]))];
      assert lines[..|file|] == before[..|file|];
      forall j | |file| <= j < |file| + |prefix|
        ensures lines[j] == FormatLine(paths[j - |file|], GenerateHash(sha3, readable, paths[j - |file|]))
      {
        assert lines[j] == before[j];
        assert prefix[j - |file|] == paths[j - |file|];
      }
    }
  }

  /** A fresh baseline file holds one line per visited path, in visiting order, with that path and its digest. */
  lemma FreshLines(sha3: string -> HexDigest, readable: map<string, string>, paths: seq<string>)
    ensures forall i :: 0 <= i < |paths| ==>
      WriteLines(sha3, readable, [], paths)[i] == FormatLine(paths[i], GenerateHash(sha3, readable, paths[i]))
  {
    WriteLinesAt(sha3, readable, [], paths);
  }

  /** What the walk of a round reports for one visited path (main.py:83-100). */
  function Classify(sha3: string -> HexDigest, readable: map<string, string>, records: map<string, Record>, p: string): (events: seq<Event>)
    ensures |events| <= 1 && (events != [] ==> events[0].path == p)
  {
    if p in records then
      if GenerateHash(sha3, readable, p) == records[p].hash then [] else [Modified(p)]
    else
      [Created(p)]
  }

  /** The alerts of the walk of a round, in visiting order. */
  function WalkEvents(sha3: string -> HexDigest, readable: map<string, string>, records: map<string, Record>, paths: seq<string>): seq<Event>
  {
    if paths == [] then []
    else
      var prefix := paths[..|paths| - 1];
      var p := paths[|paths| - 1];
      assert paths == prefix + [p];
      WalkEvents(sha3, readable, records, prefix) + Classify(sha3, readable, records, p)
  }

  /** The alerts of the sweep after the walk (main.py:102-110), in dict order. */
  function SweepEvents(order: seq<string>, visited: seq<string>): seq<Event>
  {
    if order == [] then []
    else
      var prefix := order[..|order| - 1];
      var k := order[|order| - 1];
      assert order == prefix + [k];
      SweepEvents(prefix, visited) + (if k in visited then [] else [Deleted(k)])
  }

  /** The dict midway through a round: the flag of every visited key raised, nothing else changed. */
  function Mark(records: map<string, Record>, visited: seq<string>): (marked: map<string, Record>)
    ensures |marked| == |records|
  {
    if visited == [] then records
    else
      var before := Mark(records, visited[..|visited| - 1]);
      var p := visited[|visited| - 1];
      if p in before then before[p := before[p].(seen := true)] else before
  }

  /** Marking keeps the keys and digests, and raises exactly the flags of the visited keys. */
  lemma {:induction false} MarkValues(records: map<string, Record>, visited: seq<string>)
    ensures Mark(records, visited).Keys == records.Keys
    ensures forall k :: k in records ==> Mark(records, visited)[k].hash == records[k].hash
    ensures forall k :: k in records ==> Mark(records, visited)[k].seen == (records[k].seen || k in visited)
  {
    if visited != [] {
      var prefix := visited[..|visited| - 1];
      assert visited == prefix + [visited[|visited| - 1]];
      MarkValues(records, prefix);
    }
  }

  /** The dict after the sweep has visited `keys` in turn: each raised flag among them lowered (main.py:103-104). */
  function Lower(records: map<string, Record>, keys: seq<string>): (lowered: map<string, Record>)
    ensures |lowered| == |records|
  {
    if keys == [] then records
    else
      var before := Lower(records, keys[..|keys| - 1]);
      var k := keys[|keys| - 1];
      if k in before && before[k].seen then before[k := before[k].(seen := false)] else before
  }

  /** Sweeping one more key of the dict order lowers its flag if it is up. */
  lemma LowerStep(records: map<string, Record>, keys: seq<string>, i: nat)
    requires i < |keys|
    ensures var before, k := Lower(records, keys[..i]), keys[i];
      Lower(records, keys[..i + 1]) == if k in before && before[k].seen then before[k := before[k].(seen := false)] else before
  {
    assert keys[..i + 1][..i] == keys[..i];
  }

  /** Lowering keeps the keys and digests; a swept key ends with its flag down, any other keeps its flag. */
  lemma {:induction false} LowerValues(records: map<string, Record>, keys: seq<string>)
    ensures Lower(records, keys).Keys == records.Keys
    ensures forall k :: k in records ==> Lower(records, keys)[k].hash == records[k].hash
    ensures forall k :: k in records ==> Lower(records, keys)[k].seen == (records[k].seen && k !in keys)
  {
    if keys != [] {
      var prefix := keys[..|keys| - 1];
      assert keys == prefix + [keys[|keys| - 1]];
      LowerValues(records, prefix);
    }
  }

  /** The sweep reaches each key of a dict it tracks with the flag that key had before the sweep. */
  lemma SweptOnce(records: map<string, Record>, order: seq<string>, i: nat)
    requires Tracks(order, records) && i < |order|
    ensures order[i] in Lower(records, order[..i])
    ensures Lower(records, order[..i])[order[i]] == records[order[i]]
  {
    LowerValues(records, order[..i]);
    assert order[i] !in order[..i];
  }

  /** The walk never alerts a deletion, and alerts only about visited paths. */
  lemma {:induction false} WalkEventsShape(sha3: string -> HexDigest, readable: map<string, string>, records: map<string, Record>, paths: seq<string>)
    ensures forall e :: e in WalkEvents(sha3, readable, records, paths) ==> !e.Deleted? && e.path in paths
  {
    if paths != [] {
      var prefix := paths[..|paths| - 1];
      assert paths == prefix + [paths[|paths| - 1]];
      WalkEventsShape(sha3, readable, records, prefix);
    }
  }

  /** The sweep alerts only deletions, of keys the walk did not visit. */
  lemma {:induction false} SweepEventsShape(order: seq<string>, visited: seq<string>)
    ensures forall e :: e in SweepEvents(order, visited) ==> e.Deleted? && e.path in order && e.path !in visited
  {
    if order != [] {
      var prefix := order[..|order| - 1];
      assert order == prefix + [order[|order| - 1]];
      SweepEventsShape(prefix, visited);
    }
  }

  /** Sweeping one more key of the dict order adds its alert, if any, at the end of the log so far. */
  lemma SweepStep(order: seq<string>, visited: seq<string>, i: nat, log: seq<Event>)
    requires i < |order|
    ensures log + SweepEvents(order[..i], visited) + (if order[i] in visited then [] else [Deleted(order[i])])
      == log + SweepEvents(order[..i + 1], visited)
  {
    assert order[..i + 1][..i] == order[..i];
  }

  /** A round's log is its walk's alerts followed by its sweep's. */
  lemma WalkThenSweep(sha3: string -> HexDigest, snap: Snapshot, order: seq<string>, records: map<string, Record>, log: seq<Event>)
    ensures var visited := Observed(snap.walk);
      log + WalkEvents(sha3, snap.readable, records, visited) + SweepEvents(order, visited)
        == log + RoundEvents(sha3, snap, order, records)
  {
  }

  /** All alerts of one round against a baseline whose flags are down. */
  function RoundEvents(sha3: string -> HexDigest, snap: Snapshot, order: seq<string>, records: map<string, Record>): seq<Event> {
    var visited := Observed(snap.walk);
    WalkEvents(sha3, snap.readable, records, visited) + SweepEvents(order, visited)
  }

  /** What one visit contributes to the counts of `WalkEventCounts`. */
  lemma ClassifyCounts(sha3: string -> HexDigest, readable: map<string, string>, records: map<string, Record>, q: string, p: string)
    ensures multiset(Classify(sha3, readable, records, q))[Created(p)]
      == if p in records || p != q then 0 else 1
    ensures multiset(Classify(sha3, readable, records, q))[Modified(p)]
      == if p == q && p in records && GenerateHash(sha3, readable, p) != records[p].hash then 1 else 0
    ensures multiset(Classify(sha3, readable, records, q))[Deleted(p)] == 0
  {
  }

  /** Assigning `a` then `b` to a dict orders its keys as assigning `a + b` does. */
  lemma {:induction false} AppendNewConcat(order: seq<string>, a: seq<string>, b: seq<string>)
    ensures AppendNew(order, a + b) == AppendNew(AppendNew(order, a), b)
  {
    if b != [] {
      var prefix := b[..|b| - 1];
      assert (a + b)[..|a + b| - 1] == a + prefix;
      assert (a + b)[|a + b| - 1] == b[|b| - 1];
      AppendNewConcat(order, a, prefix);
    } else {
      assert a + b == a;
    }
  }

  /** Assigning the entries of `a` then of `b` gives the dict that assigning those of `a + b` gives. */
  lemma {:induction false} AssignEntriesConcat(sha3: string -> HexDigest, readable: map<string, string>, records: map<string, Record>, a: seq<string>, b: seq<string>)
    ensures AssignEntries(sha3, readable, records, a + b)
      == AssignEntries(sha3, readable, AssignEntries(sha3, readable, records, a), b)
  {
    if b != [] {
      var prefix := b[..|b| - 1];
      assert (a + b)[..|a + b| - 1] == a + prefix;
      assert (a + b)[|a + b| - 1] == b[|b| - 1];
      AssignEntriesConcat(sha3, readable, records, a, prefix);
    } else {
      assert a + b == a;
    }
  }

  /**
   * Assigning entries for `paths` to a dict whose order lists its keys once
   * each and whose flags are down keeps both facts.
   */
  lemma BaselineKeepsTracks(sha3: string -> HexDigest, readable: map<string, string>, order: seq<string>, records: map<string, Record>, paths: seq<string>)
    requires Tracks(order, records) && AllUnseen(records)
    ensures Tracks(AppendNew(order, paths), AssignEntries(sha3, readable, records, paths))
    ensures AllUnseen(AssignEntries(sha3, readable, records, paths))
  {
    var entries := AssignEntries(sha3, readable, records, paths);
    var listed := AppendNew(order, paths);
    AppendNewKeys(order, paths);
    AssignEntriesValues(sha3, readable, records, paths);
    forall k
      ensures k in entries <==> k in listed
    {
    }
    forall k | k in entries
      ensures !entries[k].seen
    {
      if k !in paths {
        assert !records[k].seen;
      }
    }
  }

  /** While the baseline is built, a path is in the dict exactly when it is in the dict order. */
  lemma KeyInBoth(sha3: string -> HexDigest, readable: map<string, string>, order: seq<string>, records: map<string, Record>, paths: seq<string>, p: string)
    requires forall k :: k in records <==> k in order
    ensures p in AssignEntries(sha3, readable, records, paths) <==> p in AppendNew(order, paths)
  {
    AppendNewKeys(order, paths);
    AssignEntriesValues(sha3, readable, records, paths);
  }

  /** One more visited path adds its entry and its line at the end. */
  lemma BaselineStep(sha3: string -> HexDigest, readable: map<string, string>, records: map<string, Record>, file: seq<string>, done: seq<string>, path: string)
    ensures AssignEntries(sha3, readable, records, done + [path])
      == AssignEntries(sha3, readable, records, done)[path := Record(GenerateHash(sha3, readable, path), false)]
    ensures WriteLines(sha3, readable, file, done + [path])
      == WriteLines(sha3, readable, file, done) + [FormatLine(path, GenerateHash(sha3, readable, path))]
  {
    assert (done + [path])[..|done|] == done;
  }

  /** One more visited path raises its flag and adds its alerts at the end of the round's log so far, whatever flags the walk raised before it. */
  lemma CheckStep(sha3: string -> HexDigest, readable: map<string, string>, records: map<string, Record>, log: seq<Event>, done: seq<string>, path: string)
    ensures Mark(Mark(records, done), [path]) == Mark(records, done + [path])
    ensures log + WalkEvents(sha3, readable, records, done) + Classify(sha3, readable, Mark(records, done), path)
      == log + WalkEvents(sha3, readable, records, done + [path])
  {
    var before, here := WalkEvents(sha3, readable, records, done), Classify(sha3, readable, records, path);
    assert log + before + here == log + (before + here);
    assert (done + [path])[..|done|] == done;
    assert [path][..0] == [];
    MarkValues(records, done);
  }

  /** The visits of one more directory add their alerts at the end of the round's log so far, whatever flags the walk raised before them. */
  lemma WalkStep(sha3: string -> HexDigest, readable: map<string, string>, records: map<string, Record>, log: seq<Event>, done: seq<string>, more: seq<string>)
    ensures log + WalkEvents(sha3, readable, records, done) + WalkEvents(sha3, readable, Mark(records, done), more)
      == log + WalkEvents(sha3, readable, records, done + more)
  {
    var before, after := WalkEvents(sha3, readable, records, done), WalkEvents(sha3, readable, records, more);
    calc {
      log + before + WalkEvents(sha3, readable, Mark(records, done), more);
    == { WalkEventsIgnoreFlags(sha3, readable, records, done, more); }
      log + before + after;
    ==
      log + (before + after);
    == { WalkEventsConcat(sha3, readable, records, done, more); }
      log + WalkEvents(sha3, readable, records, done + more);
    }
  }

  /** Writing the lines of `a` then of `b` gives the file that writing those of `a + b` gives. */
  lemma {:induction false} WriteLinesConcat(sha3: string -> HexDigest, readable: map<string, string>, file: seq<string>, a: seq<string>, b: seq<string>)
    ensures WriteLines(sha3, readable, file, a + b)
      == WriteLines(sha3, readable, WriteLines(sha3, readable, file, a), b)
  {
    if b != [] {
      var prefix := b[..|b| - 1];
      assert (a + b)[..|a + b| - 1] == a + prefix;
      assert (a + b)[|a + b| - 1] == b[|b| - 1];
      WriteLinesConcat(sha3, readable, file, a, prefix);
    } else {
      assert a + b == a;
    }
  }

  /** Raising the flags of `a` then of `b` raises the flags of `a + b`. */
  lemma {:induction false} MarkConcat(records: map<string, Record>, a: seq<string>, b: seq<string>)
    ensures Mark(Mark(records, a), b) == Mark(records, a + b)
  {
    if b != [] {
      var prefix := b[..|b| - 1];
      assert (a + b)[..|a + b| - 1] == a + prefix;
      assert (a + b)[|a + b| - 1] == b[|b| - 1];
      MarkConcat(records, a, prefix);
    } else {
      assert a + b == a;
    }
  }

  /** The walk reports `a + b` as it reports `a` then `b`. */
  lemma {:induction false} WalkEventsConcat(sha3: string -> HexDigest, readable: map<string, string>, records: map<string, Record>, a: seq<string>, b: seq<string>)
    ensures WalkEvents(sha3, readable, records, a + b)
      == WalkEvents(sha3, readable, records, a) + WalkEvents(sha3, readable, records, b)
  {
    if b != [] {
      var prefix := b[..|b| - 1];
      assert (a + b)[..|a + b| - 1] == a + prefix;
      assert (a + b)[|a + b| - 1] == b[|b| - 1];
      WalkEventsConcat(sha3, readable, records, a, prefix);
    } else {
      assert a + b == a;
    }
  }

  /** The walk's alerts depend on the keys and digests of the dict, not on its flags. */
  lemma {:induction false} WalkEventsIgnoreFlags(sha3: string -> HexDigest, readable: map<string, string>, records: map<string, Record>, visited: seq<string>, paths: seq<string>)
    ensures WalkEvents(sha3, readable, Mark(records, visited), paths) == WalkEvents(sha3, readable, records, paths)
  {
    if paths != [] {
      WalkEventsIgnoreFlags(sha3, readable, records, visited, paths[..|paths| - 1]);
      MarkValues(records, visited);
    }
  }

  /**
   * The walk reports `Created(p)` once per visit of a path the baseline does
   * not know, `Modified(p)` once per visit of a known path whose digest
   * differs from the stored one, and no deletion.
   */
  lemma {:induction false} WalkEventCounts(sha3: string -> HexDigest, readable: map<string, string>, records: map<string, Record>, paths: seq<string>, p: string)
    ensures multiset(WalkEvents(sha3, readable, records, paths))[Created(p)]
      == if p in records then 0 else multiset(paths)[p]
    ensures multiset(WalkEvents(sha3, readable, records, paths))[Modified(p)]
      == if p in records && GenerateHash(sha3, readable, p) != records[p].hash then multiset(paths)[p] else 0
    ensures multiset(WalkEvents(sha3, readable, records, paths))[Deleted(p)] == 0
  {
    if paths != [] {
      var prefix := paths[..|paths| - 1];
      var q := paths[|paths| - 1];
      assert paths == prefix + [q];
      WalkEventCounts(sha3, readable, records, prefix, p);
      ClassifyCounts(sha3, readable, records, q, p);
      assert multiset(paths) == multiset(prefix) + multiset{q};
      assert WalkEvents(sha3, readable, records, paths)
        == WalkEvents(sha3, readable, records, prefix) + Classify(sha3, readable, records, q);
    }
  }

  /** The sweep reports `Deleted(k)` for each key not visited, once per place in the dict order, and nothing else. */
  lemma {:induction false} SweepEventCounts(order: seq<string>, visited: seq<string>, k: string)
    ensures multiset(SweepEvents(order, visited))[Deleted(k)] == if k in visited then 0 else multiset(order)[k]
    ensures multiset(SweepEvents(order, visited))[Created(k)] == 0
    ensures multiset(SweepEvents(order, visited))[Modified(k)] == 0
  {
    if order != [] {
      var prefix := order[..|order| - 1];
      var last := order[|order| - 1];
      assert order == prefix + [last];
      SweepEventCounts(prefix, visited, k);
      assert multiset(order) == multiset(prefix) + multiset{last};
    }
  }

  /** In a sequence without repeats, an element occurs once. */
  lemma {:induction false} DistinctCount(s: seq<string>, x: string)
    requires Distinct(s)
    ensures multiset(s)[x] == if x in s then 1 else 0
  {
    if s != [] {
      var prefix, last := s[..|s| - 1], s[|s| - 1];
      assert s == prefix + [last];
      assert last !in prefix;
      DistinctCount(prefix, x);
      assert multiset(s) == multiset(prefix) + multiset{last};
    }
  }

  /**
   * On a walk shaped as `os.walk` reports it, a round alerts a visited path
   * exactly once or not at all: one `created` when the dict lacks it, one
   * `modified` when its digest differs from the stored one.
   */
  lemma OneAlertPerVisit(sha3: string -> HexDigest, snap: Snapshot, order: seq<string>, records: map<string, Record>, p: string)
    requires PlainNames(snap.walk) && DistinctNames(snap.walk)
    requires p in Observed(snap.walk)
    ensures multiset(RoundEvents(sha3, snap, order, records))[Created(p)] == if p in records then 0 else 1
    ensures multiset(RoundEvents(sha3, snap, order, records))[Modified(p)]
      == if p in records && GenerateHash(sha3, snap.readable, p) != records[p].hash then 1 else 0
  {
    var visited := Observed(snap.walk);
    ObservedDistinct(snap.walk);
    DistinctCount(visited, p);
    WalkEventCounts(sha3, snap.readable, records, visited, p);
    SweepEventCounts(order, visited, p);
    assert multiset(RoundEvents(sha3, snap, order, records))
      == multiset(WalkEvents(sha3, snap.readable, records, visited)) + multiset(SweepEvents(order, visited));
  }

  /**
   * The walk's alerts follow the visiting order: each alert comes from a
   * visited position, and the positions strictly increase.
   */
  ghost function WalkOrigins(sha3: string -> HexDigest, readable: map<string, string>, records: map<string, Record>, paths: seq<string>): (origins: seq<nat>)
    ensures |origins| == |WalkEvents(sha3, readable, records, paths)|
    ensures forall i :: 0 <= i < |origins| ==>
      origins[i] < |paths| && WalkEvents(sha3, readable, records, paths)[i].path == paths[origins[i]]
    ensures forall i, j :: 0 <= i < j < |origins| ==> origins[i] < origins[j]
  {
    if paths == [] then []
    else
      var prefix := paths[..|paths| - 1];
      var p := paths[|paths| - 1];
      var before := WalkOrigins(sha3, readable, records, prefix);
      var here := Classify(sha3, readable, records, p);
      var earlier := WalkEvents(sha3, readable, records, prefix);
      assert WalkEvents(sha3, readable, records, paths) == earlier + here;
      assert forall i :: 0 <= i < |before| ==> paths[before[i]] == prefix[before[i]];
      OriginsStep(earlier, here, paths, before);
      before + (if here == [] then [] else [|paths| - 1])
  }

  /**
   * Proof helper: alerts traced to increasing positions of all but the last
   * path stay so when the last path adds at most one alert of its own.
   */
  lemma OriginsStep(events: seq<Event>, here: seq<Event>, paths: seq<string>, before: seq<nat>)
    requires paths != [] && |here| <= 1 && (here != [] ==> here[0].path == paths[|paths| - 1])
    requires |before| == |events|
    requires forall i :: 0 <= i < |before| ==> before[i] < |paths| - 1 && events[i].path == paths[before[i]]
    requires forall i, j :: 0 <= i < j < |before| ==> before[i] < before[j]
    ensures var origins := before + (if here == [] then [] else [|paths| - 1]);
      && |origins| == |events + here|
      && (forall i :: 0 <= i < |origins| ==> origins[i] < |paths| && (events + here)[i].path == paths[origins[i]])
      && (forall i, j :: 0 <= i < j < |origins| ==> origins[i] < origins[j])
  {
  }

  /**
   * The sweep's alerts follow the dict order: each alert comes from a position
   * of `order`, and the positions strictly increase.
   */
  ghost function SweepOrigins(order: seq<string>, visited: seq<string>): (origins: seq<nat>)
    ensures |origins| == |SweepEvents(order, visited)|
    ensures forall i :: 0 <= i < |origins| ==>
      origins[i] < |order| && SweepEvents(order, visited)[i].path == order[origins[i]]
    ensures forall i, j :: 0 <= i < j < |origins| ==> origins[i] < origins[j]
  {
    if order == [] then []
    else
      var prefix := order[..|order| - 1];
      var k := order[|order| - 1];
      SweepOrigins(prefix, visited) + (if k in visited then [] else [|order| - 1])
  }

  /** Within a round, every creation and modification comes before every deletion. */
  lemma RoundEventsGrouped(sha3: string -> HexDigest, snap: Snapshot, order: seq<string>, records: map<string, Record>)
    ensures var events := RoundEvents(sha3, snap, order, records);
      var walked := |WalkEvents(sha3, snap.readable, records, Observed(snap.walk))|;
      forall i :: 0 <= i < |events| ==> (events[i].Deleted? <==> walked <= i)
  {
    var visited := Observed(snap.walk);
    WalkEventsShape(sha3, snap.readable, records, visited);
    SweepEventsShape(order, visited);
    var walked: seq<Event> := WalkEvents(sha3, snap.readable, records, visited);
    var swept: seq<Event> := SweepEvents(order, visited);
    forall i | 0 <= i < |walked| + |swept|
      ensures (walked + swept)[i].Deleted? <==> |walked| <= i
    {
      if i < |walked| {
        assert (walked + swept)[i] == walked[i];
        assert walked[i] in walked;
      } else {
        assert (walked + swept)[i] == swept[i - |walked|];
        assert swept[i - |walked|] in swept;
      }
    }
  }

  lemma {:induction false} WalkEventsEmptyIff(sha3: string -> HexDigest, readable: map<string, string>, records: map<string, Record>, paths: seq<string>)
    ensures WalkEvents(sha3, readable, records, paths) == [] <==>
      forall p :: p in paths ==> p in records && records[p].hash == GenerateHash(sha3, readable, p)
  {
    if paths != [] {
      var prefix := paths[..|paths| - 1];
      assert paths == prefix + [paths[|paths| - 1]];
      WalkEventsEmptyIff(sha3, readable, records, prefix);
    }
  }

  lemma {:induction false} SweepEventsEmptyIff(order: seq<string>, visited: seq<string>)
    ensures SweepEvents(order, visited) == [] <==> forall k :: k in order ==> k in visited
  {
    if order != [] {
      var prefix := order[..|order| - 1];
      assert order == prefix + [order[|order| - 1]];
      SweepEventsEmptyIff(prefix, visited);
    }
  }

  /**
   * A round is silent exactly when every visited path is known with its
   * current digest and every known path is visited.
   */
  lemma SilentRoundIff(sha3: string -> HexDigest, snap: Snapshot, order: seq<string>, records: map<string, Record>)
    ensures RoundEvents(sha3, snap, order, records) == [] <==>
      (forall p :: p in Observed(snap.walk) ==> p in records && records[p].hash == GenerateHash(sha3, snap.readable, p))
      && (forall k :: k in order ==> k in Observed(snap.walk))
  {
    WalkEventsEmptyIff(sha3, snap.readable, records, Observed(snap.walk));
    SweepEventsEmptyIff(order, Observed(snap.walk));
  }

  /**
   * A round run against the snapshot that built the baseline reports
   * nothing: the baseline a fresh `createBaseline` leaves behind (dict order
   * and entries) matches what the round sees.
   */
  lemma BaselineRoundIsSilent(sha3: string -> HexDigest, snap: Snapshot)
    ensures var visited := Observed(snap.walk);
      RoundEvents(sha3, snap, AppendNew([], visited), AssignEntries(sha3, snap.readable, map[], visited)) == []
  {
    var visited := Observed(snap.walk);
    AppendNewKeys([], visited);
    AssignEntriesValues(sha3, snap.readable, map[], visited);
    SilentRoundIff(sha3, snap, AppendNew([], visited), AssignEntries(sha3, snap.readable, map[], visited));
  }

  /**
   * A file whose bare name is in `IGNORE_LIST` gets no place in the dict
   * order and no entry when the baseline is built, whatever its content.
   */
  lemma IgnoredNotInBaseline(sha3: string -> HexDigest, built: Snapshot, dir: string, name: string)
    requires PlainNames(built.walk)
    requires name in IGNORE_LIST
    ensures var known := Observed(built.walk);
      && FullPath(dir, name) !in AppendNew([], known)
      && FullPath(dir, name) !in AssignEntries(sha3, built.readable, map[], known)
  {
    var known := Observed(built.walk);
    IgnoredNeverObserved(built.walk, dir, name);
    assert FullPath(dir, name) !in AppendNew([], known) by {
      AppendNewKeys([], known);
    }
    AssignEntriesValues(sha3, built.readable, map[], known);
  }

  /**
   * Nor does it get a line in the baseline file: every line written names
   * a visited path, and that path is never the ignored file's key.
   */
  lemma IgnoredHasNoLine(sha3: string -> HexDigest, built: Snapshot, dir: string, name: string)
    requires PlainNames(built.walk)
    requires name in IGNORE_LIST
    ensures var known := Observed(built.walk);
      forall i :: 0 <= i < |known| ==>
        WriteLines(sha3, built.readable, [], known)[i] == FormatLine(known[i], GenerateHash(sha3, built.readable, known[i]))
        && known[i] != FullPath(dir, name)
  {
    var known := Observed(built.walk);
    IgnoredNeverObserved(built.walk, dir, name);
    FreshLines(sha3, built.readable, known);
    forall i | 0 <= i < |known|
      ensures known[i] != FullPath(dir, name)
    {
      assert known[i] in known;
    }
  }

  /**
   * A round raises no alert about a file whose bare name is in
   * `IGNORE_LIST`, whatever its content, against any baseline that holds no
   * entry for it.
   */
  lemma IgnoredNeverAlerted(sha3: string -> HexDigest, snap: Snapshot, order: seq<string>, records: map<string, Record>, dir: string, name: string)
    requires PlainNames(snap.walk)
    requires name in IGNORE_LIST && FullPath(dir, name) !in order
    ensures forall e :: e in RoundEvents(sha3, snap, order, records) ==> e.path != FullPath(dir, name)
  {
    IgnoredNeverObserved(snap.walk, dir, name);
    WalkEventsShape(sha3, snap.readable, records, Observed(snap.walk));
    SweepEventsShape(order, Observed(snap.walk));
  }

  /** A stored digest holds no TAB, LF or CR and has clean ends, whether it is a digest or the sentinel. */
  lemma HashFieldIsClean(h: string)
    requires IsHexDigest(h) || h == ERROR
    ensures TAB !in h && LF !in h && CR !in h && Clean(h)
  {
  }

  /**
   * Resume mode reads back the first entry a fresh baseline wrote, provided
   * its path holds no TAB, LF or CR and has clean ends.
   */
  lemma ResumeReadsFirstEntry(sha3: string -> HexDigest, readable: map<string, string>, paths: seq<string>)
    requires paths != []
    requires TAB !in paths[0] && LF !in paths[0] && CR !in paths[0] && Clean(paths[0])
    ensures StoredEntry(Concat(WriteLines(sha3, readable, [], paths)))
      == Some((paths[0], GenerateHash(sha3, readable, paths[0])))
  {
    var p, h := paths[0], GenerateHash(sha3, readable, paths[0]);
    var rest := FirstWriteOpens(sha3, readable, paths);
    HashFieldIsClean(h);
    assert p + [TAB] + h + [LF] + rest == (p + [TAB] + h) + [LF] + rest;
    ReadLineAtNewline(p + [TAB] + h, rest);
    ParseFormatRoundTrip(p, h);
  }

  /** A fresh baseline file opens with the line of the first visited path. */
  lemma FirstWriteOpens(sha3: string -> HexDigest, readable: map<string, string>, paths: seq<string>) returns (rest: string)
    requires paths != []
    ensures Concat(WriteLines(sha3, readable, [], paths))
      == paths[0] + [TAB] + GenerateHash(sha3, readable, paths[0]) + [LF] + rest
  {
    var lines := WriteLines(sha3, readable, [], paths);
    FreshLines(sha3, readable, paths);
    rest := Concat(lines[1..]);
    assert lines[0] == FormatLine(paths[0], GenerateHash(sha3, readable, paths[0]));
    assert Concat(lines) == lines[0] + rest;
  }

  /**
   * A first path holding a CR is not read back: text mode reads the CR as
   * the end of the line, so the first line is the path's part before it,
   * with no TAB, and resume mode rejects it and rebuilds.
   */
  lemma CarriageReturnInFirstPath(sha3: string -> HexDigest, readable: map<string, string>, paths: seq<string>, a: string, b: string)
    requires paths != [] && paths[0] == a + [CR] + b
    requires a != [] && TAB !in a && LF !in a && CR !in a
    ensures RejectsFirstLine(Concat(WriteLines(sha3, readable, [], paths)))
  {
    var lines := WriteLines(sha3, readable, [], paths);
    var text := Concat(lines);
    var n := |a| + 1;
    FreshLines(sha3, readable, paths);
    assert lines[0] == paths[0] + [TAB] + GenerateHash(sha3, readable, paths[0]) + [LF];
    assert n <= |lines[0]| <= |text|;
    forall i | 0 <= i < n
      ensures text[i] == (a + [CR])[i]
    {
      assert text[i] == lines[0][i] == paths[0][i];
    }
    assert text == a + [CR] + text[n..] by {
      assert text[..n] == a + [CR];
    }
    RejectsAtCarriageReturn(a, text[n..]);
  }

  /** A text whose first CR comes before any TAB or LF has its first line rejected. */
  lemma RejectsAtCarriageReturn(a: string, tail: string)
    requires a != [] && TAB !in a && LF !in a && CR !in a
    ensures RejectsFirstLine(a + [CR] + tail)
  {
    ReadLineAtCarriageReturn(a, tail);
    SplitWithoutSeparator(a + [LF], TAB);
    assert a + [LF] != [LF];
  }

  /**
   * The entry resume mode takes from the baseline file's text
   * (main.py:132-136): the first line as text mode reads it, accepted when
   * it splits on TAB into exactly two fields, both stripped.
   */
  function StoredEntry(text: string): Option<(string, string)> {
    ParseLine(ReadLine(text))
  }

  /**
   * Resume mode rebuilds at once (main.py:137-140) when the first line does
   * not split into two fields and its first field is not a lone LF.
   */
  predicate RejectsFirstLine(text: string) {
    var fields := Split(ReadLine(text), TAB);
    |fields| != 2 && fields[0] != [LF]
  }

  /**
   * The first line is rejected exactly when no entry is taken from it and it
   * is not the line "\n" alone: an empty file and a first line with no TAB
   * or with several TABs are rejected, a blank first line is not.
   */
  lemma RejectsFirstLineIff(text: string)
    ensures RejectsFirstLine(text) <==> StoredEntry(text).None? && ReadLine(text) != [LF]
  {
    var t := TranslateNewlines(text);
    var line := FirstLine(t);
    var fields := Split(line, TAB);
    SplitFirstIsPrefix(line, TAB);
    if line == [LF] {
      assert fields == [[LF]] by {
        SplitWithoutSeparator(line, TAB);
      }
    }
    if fields[0] == [LF] {
      assert line[0] == LF;
      assert LF in t by {
        assert line == t[..|line|];
        assert t[0] == LF;
      }
    }
  }

  /** What resume mode takes from the stored text, in terms of the TAB-separated fields of its first line. */
  lemma StoredEntryOfFields(text: string)
    ensures var fields := Split(ReadLine(text), TAB);
      && (|fields| == 2 ==> StoredEntry(text) == Some((Strip(fields[0]), Strip(fields[1]))))
      && (|fields| != 2 ==> StoredEntry(text).None? && (RejectsFirstLine(text) <==> fields[0] != [LF]))
  {
  }

  /** Assigning entries for new paths that do not repeat adds one key per path. */
  lemma {:induction false} AssignEntriesSize(sha3: string -> HexDigest, readable: map<string, string>, records: map<string, Record>, paths: seq<string>)
    requires Distinct(paths) && forall p :: p in paths ==> p !in records
    ensures |AssignEntries(sha3, readable, records, paths)| == |records| + |paths|
  {
    if paths != [] {
      var prefix, last := paths[..|paths| - 1], paths[|paths| - 1];
      assert paths == prefix + [last];
      assert last !in prefix;
      AssignEntriesSize(sha3, readable, records, prefix);
      AssignEntriesValues(sha3, readable, records, prefix);
    }
  }

  /**
   * On a walk shaped as `os.walk` reports it, a new baseline file holds
   * exactly one line per entry of the dict.
   */
  lemma OneLinePerEntry(sha3: string -> HexDigest, readable: map<string, string>, walk: seq<WalkEntry>)
    requires PlainNames(walk) && DistinctNames(walk)
    ensures |WriteLines(sha3, readable, [], Observed(walk))| == |AssignEntries(sha3, readable, map[], Observed(walk))|
  {
    ObservedDistinct(walk);
    AssignEntriesSize(sha3, readable, map[], Observed(walk));
  }

  /** The baseline built from a scan is empty exactly when the scan visits no file. */
  lemma EmptyBaselineIff(sha3: string -> HexDigest, readable: map<string, string>, visited: seq<string>)
    ensures |AssignEntries(sha3, readable, map[], visited)| == 0 <==> visited == []
  {
    AssignEntriesValues(sha3, readable, map[], visited);
    if visited != [] {
      assert visited[0] in AssignEntries(sha3, readable, map[], visited);
    }
  }

  /** A dict of one entry with its flag down, listed once in the dict order. */
  lemma SingleEntryTracks(path: string, hash: string)
    ensures Tracks([path], map[path := Record(hash, false)])
    ensures AllUnseen(map[path := Record(hash, false)]) && |map[path := Record(hash, false)]| == 1
  {
  }

  /** The alerts of a run of rounds, one per snapshot, against a baseline no round changes. */
  function AllRounds(sha3: string -> HexDigest, snaps: seq<Snapshot>, order: seq<string>, records: map<string, Record>): seq<Event> {
    if snaps == [] then []
    else
      AllRounds(sha3, snaps[..|snaps| - 1], order, records) + RoundEvents(sha3, snaps[|snaps| - 1], order, records)
  }

  /** One more round adds its alerts at the end of the log of the rounds before it. */
  lemma RoundsStep(sha3: string -> HexDigest, snaps: seq<Snapshot>, i: nat, order: seq<string>, records: map<string, Record>, log: seq<Event>)
    requires i < |snaps|
    ensures log + AllRounds(sha3, snaps[..i], order, records) + RoundEvents(sha3, snaps[i], order, records)
      == log + AllRounds(sha3, snaps[..i + 1], order, records)
  {
    assert snaps[..i + 1][..i] == snaps[..i];
  }

  /** How many times the rounds of `snaps` visit `p`, over all rounds. */
  function VisitCount(snaps: seq<Snapshot>, p: string): nat {
    if snaps == [] then 0
    else VisitCount(snaps[..|snaps| - 1], p) + multiset(Observed(snaps[|snaps| - 1].walk))[p]
  }

  /** In how many of the rounds of `snaps` the walk does not visit `k`. */
  function MissCount(snaps: seq<Snapshot>, k: string): nat {
    if snaps == [] then 0
    else MissCount(snaps[..|snaps| - 1], k) + (if k in Observed(snaps[|snaps| - 1].walk) then 0 else 1)
  }

  /**
   * Since a round never inserts a created path, a path the baseline does not
   * hold is alerted as created again at every visit of every round.
   */
  lemma {:induction false} CreatedEveryRound(sha3: string -> HexDigest, snaps: seq<Snapshot>, order: seq<string>, records: map<string, Record>, p: string)
    requires p !in records
    ensures multiset(AllRounds(sha3, snaps, order, records))[Created(p)] == VisitCount(snaps, p)
  {
    if snaps != [] {
      var last := snaps[|snaps| - 1];
      var visited := Observed(last.walk);
      CreatedEveryRound(sha3, snaps[..|snaps| - 1], order, records, p);
      WalkEventCounts(sha3, last.readable, records, visited, p);
      SweepEventCounts(order, visited, p);
    }
  }

  /**
   * Since a round never removes a deleted entry, a key listed once in the
   * dict order is alerted as deleted again in every round that does not
   * visit it.
   */
  lemma {:induction false} DeletedEveryRound(sha3: string -> HexDigest, snaps: seq<Snapshot>, order: seq<string>, records: map<string, Record>, k: string)
    requires multiset(order)[k] == 1
    ensures multiset(AllRounds(sha3, snaps, order, records))[Deleted(k)] == MissCount(snaps, k)
  {
    if snaps != [] {
      var last := snaps[|snaps| - 1];
      var visited := Observed(last.walk);
      DeletedEveryRound(sha3, snaps[..|snaps| - 1], order, records, k);
      WalkEventCounts(sha3, last.readable, records, visited, k);
      SweepEventCounts(order, visited, k);
    }
  }

  /**
   * Since a round never updates a stored digest, a known path whose file
   * differs from its stored digest is alerted as modified again at every
   * visit of every round in which it still differs.
   */
  lemma {:induction false} ModifiedEveryRound(sha3: string -> HexDigest, snaps: seq<Snapshot>, order: seq<string>, records: map<string, Record>, p: string)
    requires p in records
    requires forall i :: 0 <= i < |snaps| ==> GenerateHash(sha3, snaps[i].readable, p) != records[p].hash
    ensures multiset(AllRounds(sha3, snaps, order, records))[Modified(p)] == VisitCount(snaps, p)
  {
    if snaps != [] {
      var last := snaps[|snaps| - 1];
      var visited := Observed(last.walk);
      ModifiedEveryRound(sha3, snaps[..|snaps| - 1], order, records, p);
      WalkEventCounts(sha3, last.readable, records, visited, p);
      SweepEventCounts(order, visited, p);
    }
  }
}
