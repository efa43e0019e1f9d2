/**
 * The monitor as the source runs it: the global dict `baseline_map`
 * (main.py:23) with the iteration order Python keeps for it, the baseline
 * file and the alert log, changed in place by `createBaseline`
 * (main.py:37-61), by each `runMonitor` round (main.py:65-110) and by the
 * resume branch of the main block (main.py:131-144).
 *
 * The source never inserts a created path, never updates the digest of a
 * modified one and never removes a deleted one; this model keeps that
 * behaviour, so a round leaves the baseline exactly as it found it and the
 * same changes are reported again in every later round.
 */
module Engine {
  import opened Digest
  import opened LineFormat
  import opened Walk
  import opened Baseline

  class Monitor {
    /** SHA3-512 of a file's text, as `hexdigest()` renders it. */
    const sha3: string -> HexDigest
    /** The keys of `baseline_map` in insertion order, which is the order Python iterates them in. */
    var order: seq<string>
    /** `baseline_map`: each known path with its `[hash, flag]`. */
    var records: map<string, Record>
    /** Whether `baseline.txt` exists. */
    var baselineExists: bool
    /** The writes made to `baseline.txt`, in order; the file's text is their concatenation. */
    var baselineFile: seq<string>
    /** The alerts appended to `alert.log`, in order. */
    var alertLog: seq<Event>

    /** Between operations the dict order lists every key once and every flag is down. */
    ghost predicate Valid()
      reads this
    {
      Tracks(order, records) && AllUnseen(records)
    }

    /**
     * A fresh process: `baseline_map` is empty, and `baseline.txt` holds what
     * an earlier run left in it, if it exists at all.
     */
    constructor (sha3: string -> HexDigest, storedBaseline: Option<string>)
      ensures Valid() && this.sha3 == sha3
      ensures order == [] && records == map[] && alertLog == []
      ensures baselineExists == storedBaseline.Some?
      ensures baselineFile == if storedBaseline.Some? then [storedBaseline.value] else []
    {
      this.sha3 := sha3;
      order, records := [], map[];
      baselineExists := storedBaseline.Some?;
      baselineFile := if storedBaseline.Some? then [storedBaseline.value] else [];
      alertLog := [];
    }

    /**
     * The part of `createBaseline` that records one visited file
     * (main.py:57-61); opening `baseline.txt` to append creates it.
     */
    method AddToBaseline(path: string, hash: string)
      requires path in records <==> path in order
      modifies this
      ensures order == AppendNew(old(order), [path])
      ensures records == old(records)[path := Record(hash, false)]
      ensures baselineExists && baselineFile == old(baselineFile) + [FormatLine(path, hash)]
      ensures alertLog == old(alertLog)
    {
      assert [path][..0] == [];
      if path !in records {
        order := order + [path];
      }
      records := records[path := Record(hash, false)];
      baselineFile := baselineFile + [FormatLine(path, hash)];
      baselineExists := true;
    }

    /** `createBaseline`'s loop over the files of one directory (main.py:52-61). */
    method BaselineDirectory(snap: Snapshot, dir: string, names: seq<string>)
      requires Valid()
      modifies this
      ensures order == AppendNew(old(order), DirVisits(dir, names))
      ensures records == AssignEntries(sha3, snap.readable, old(records), DirVisits(dir, names))
      ensures baselineFile == WriteLines(sha3, snap.readable, old(baselineFile), DirVisits(dir, names))
      ensures baselineExists == (old(baselineExists) || DirVisits(dir, names) != [])
      ensures alertLog == old(alertLog)
    {
      ghost var order0, records0, file0, exists0 := order, records, baselineFile, baselineExists;
      for j := 0 to |names|
        invariant order == AppendNew(order0, DirVisits(dir, names[..j]))
        invariant records == AssignEntries(sha3, snap.readable, records0, DirVisits(dir, names[..j]))
        invariant baselineFile == WriteLines(sha3, snap.readable, file0, DirVisits(dir, names[..j]))
        invariant baselineExists == (exists0 || DirVisits(dir, names[..j]) != [])
        invariant alertLog == old(alertLog)
      {
        BaselineName(snap, dir, names, j, order0, records0, file0, exists0);
      }
      assert names[..|names|] == names;
    }

    /** One pass of that loop: the name at `j` is skipped when ignored, otherwise recorded. */
    method BaselineName(snap: Snapshot, dir: string, names: seq<string>, j: nat,
                        ghost order0: seq<string>, ghost records0: map<string, Record>, ghost file0: seq<string>, ghost exists0: bool)
      requires j < |names| && forall k :: k in records0 <==> k in order0
      requires order == AppendNew(order0, DirVisits(dir, names[..j]))
      requires records == AssignEntries(sha3, snap.readable, records0, DirVisits(dir, names[..j]))
      requires baselineFile == WriteLines(sha3, snap.readable, file0, DirVisits(dir, names[..j]))
      requires baselineExists == (exists0 || DirVisits(dir, names[..j]) != [])
      modifies this
      ensures order == AppendNew(order0, DirVisits(dir, names[..j + 1]))
      ensures records == AssignEntries(sha3, snap.readable, records0, DirVisits(dir, names[..j + 1]))
      ensures baselineFile == WriteLines(sha3, snap.readable, file0, DirVisits(dir, names[..j + 1]))
      ensures baselineExists == (exists0 || DirVisits(dir, names[..j + 1]) != [])
      ensures alertLog == old(alertLog)
    {
      ghost var done := DirVisits(dir, names[..j]);
      var name := names[j];
      DirVisitsStep(dir, names, j);
      if name !in IGNORE_LIST {
        var path := dir + "/" + name;
        assert DirVisits(dir, names[..j + 1]) == done + [path];
        KeyInBoth(sha3, snap.readable, order0, records0, done, path);
        var hash := GenerateHash(sha3, snap.readable, path);
        AddToBaseline(path, hash);
        assert order == AppendNew(order0, done + [path]) by {
          AppendNewConcat(order0, done, [path]);
        }
        assert records == AssignEntries(sha3, snap.readable, records0, done + [path])
          && baselineFile == WriteLines(sha3, snap.readable, file0, done + [path]) by {
          BaselineStep(sha3, snap.readable, records0, file0, done, path);
        }
      } else {
        assert DirVisits(dir, names[..j + 1]) == done;
      }
    }

    /**
     * `createBaseline` (main.py:37-61): removes the baseline file, raising
     * (`raised`) when there is none, then gives every visited file the entry
     * `[hash, False]` under `dir + "/" + file` and appends its line to the
     * baseline file, which the first append creates again. Entries already
     * in the dict stay; no alert is raised.
     */
    method CreateBaseline(snap: Snapshot) returns (raised: bool)
      requires Valid()
      modifies this
      ensures Valid() && alertLog == old(alertLog)
      ensures raised <==> !old(baselineExists)
      ensures raised ==> order == old(order) && records == old(records) && baselineFile == old(baselineFile) && !baselineExists
      ensures !raised ==>
        && order == AppendNew(old(order), Observed(snap.walk))
        && records == AssignEntries(sha3, snap.readable, old(records), Observed(snap.walk))
        && baselineFile == WriteLines(sha3, snap.readable, [], Observed(snap.walk))
        && baselineExists == (Observed(snap.walk) != [])
    {
      if !baselineExists {
        return true;
      }
      raised := false;
      baselineFile, baselineExists := [], false;
      var dirs, listing := BuildDirectoryMap(snap.walk);
      for i := 0 to |dirs|
        invariant order == AppendNew(old(order), Visits(dirs[..i], listing))
        invariant records == AssignEntries(sha3, snap.readable, old(records), Visits(dirs[..i], listing))
        invariant baselineFile == WriteLines(sha3, snap.readable, [], Visits(dirs[..i], listing))
        invariant baselineExists == (Visits(dirs[..i], listing) != [])
        invariant alertLog == old(alertLog)
      {
        BaselineDir(snap, dirs, listing, i, old(order), old(records));
      }
      assert dirs[..|dirs|] == dirs;
      assert Valid() by {
        BaselineKeepsTracks(sha3, snap.readable, old(order), old(records), Observed(snap.walk));
      }
    }

    /** One pass of `createBaseline`'s loop over the directories (main.py:49-61), from the dict as it stood before the loop. */
    method BaselineDir(snap: Snapshot, dirs: seq<string>, listing: map<string, seq<string>>, i: nat,
                       ghost order0: seq<string>, ghost records0: map<string, Record>)
      requires i < |dirs| && forall d :: d in dirs ==> d in listing
      requires Tracks(order0, records0) && AllUnseen(records0)
      requires order == AppendNew(order0, Visits(dirs[..i], listing))
      requires records == AssignEntries(sha3, snap.readable, records0, Visits(dirs[..i], listing))
      requires baselineFile == WriteLines(sha3, snap.readable, [], Visits(dirs[..i], listing))
      requires baselineExists == (Visits(dirs[..i], listing) != [])
      modifies this
      ensures order == AppendNew(order0, Visits(dirs[..i + 1], listing))
      ensures records == AssignEntries(sha3, snap.readable, records0, Visits(dirs[..i + 1], listing))
      ensures baselineFile == WriteLines(sha3, snap.readable, [], Visits(dirs[..i + 1], listing))
      ensures baselineExists == (Visits(dirs[..i + 1], listing) != [])
      ensures alertLog == old(alertLog)
    {
      ghost var done := Visits(dirs[..i], listing);
      var dir := dirs[i];
      var names := listing[dir];
      ghost var more := DirVisits(dir, names);
      VisitsStep(dirs, listing, i);
      AppendNewConcat(order0, done, more);
      AssignEntriesConcat(sha3, snap.readable, records0, done, more);
      WriteLinesConcat(sha3, snap.readable, [], done, more);
      if |names| != 0 {
        BaselineKeepsTracks(sha3, snap.readable, order0, records0, done);
        BaselineDirectory(snap, dir, names);
      } else {
        assert more == [];
      }
    }

    /** `runMonitor`'s handling of one visited file (main.py:82-100). */
    method CheckFile(snap: Snapshot, path: string)
      modifies this
      ensures order == old(order) && baselineFile == old(baselineFile) && baselineExists == old(baselineExists)
      ensures records == Mark(old(records), [path])
      ensures alertLog == old(alertLog) + Classify(sha3, snap.readable, old(records), path)
    {
      assert [path][..0] == [];
      if path in records {
        if GenerateHash(sha3, snap.readable, path) == records[path].hash {
          records := records[path := records[path].(seen := true)];
        } else {
          alertLog := alertLog + [Modified(path)];
          records := records[path := records[path].(seen := true)];
        }
      } else {
        alertLog := alertLog + [Created(path)];
      }
    }

    /** `runMonitor`'s loop over the files of one directory (main.py:77-100). */
    method CheckDirectory(snap: Snapshot, dir: string, names: seq<string>)
      modifies this
      ensures order == old(order) && baselineFile == old(baselineFile) && baselineExists == old(baselineExists)
      ensures records == Mark(old(records), DirVisits(dir, names))
      ensures alertLog == old(alertLog) + WalkEvents(sha3, snap.readable, old(records), DirVisits(dir, names))
    {
      for j := 0 to |names|
        invariant order == old(order) && baselineFile == old(baselineFile) && baselineExists == old(baselineExists)
        invariant records == Mark(old(records), DirVisits(dir, names[..j]))
        invariant alertLog == old(alertLog) + WalkEvents(sha3, snap.readable, old(records), DirVisits(dir, names[..j]))
      {
        CheckName(snap, dir, names, j, old(records), old(alertLog));
      }
      assert names[..|names|] == names;
    }

    /** One pass of that loop: the name at `j` is skipped when ignored, otherwise checked. */
    method CheckName(snap: Snapshot, dir: string, names: seq<string>, j: nat, ghost records0: map<string, Record>, ghost log0: seq<Event>)
      requires j < |names|
      requires records == Mark(records0, DirVisits(dir, names[..j]))
      requires alertLog == log0 + WalkEvents(sha3, snap.readable, records0, DirVisits(dir, names[..j]))
      modifies this
      ensures order == old(order) && baselineFile == old(baselineFile) && baselineExists == old(baselineExists)
      ensures records == Mark(records0, DirVisits(dir, names[..j + 1]))
      ensures alertLog == log0 + WalkEvents(sha3, snap.readable, records0, DirVisits(dir, names[..j + 1]))
    {
      ghost var done := DirVisits(dir, names[..j]);
      var name := names[j];
      DirVisitsStep(dir, names, j);
      if name !in IGNORE_LIST {
        var path := dir + "/" + name;
        assert DirVisits(dir, names[..j + 1]) == done + [path];
        CheckFile(snap, path);
        CheckStep(sha3, snap.readable, records0, log0, done, path);
      } else {
        assert DirVisits(dir, names[..j + 1]) == done;
      }
    }

    /**
     * The sweep that ends a round (main.py:102-110): in dict order, a key
     * whose flag is up has it lowered, a key whose flag is down is alerted
     * as deleted and stays in the dict.
     */
    method Sweep(ghost visited: seq<string>)
      requires Tracks(order, records)
      requires forall k :: k in records ==> records[k].seen == (k in visited)
      modifies this
      ensures order == old(order) && baselineFile == old(baselineFile) && baselineExists == old(baselineExists)
      ensures records.Keys == old(records).Keys && AllUnseen(records)
      ensures forall k :: k in records ==> records[k].hash == old(records)[k].hash
      ensures alertLog == old(alertLog) + SweepEvents(order, visited)
    {
      for i := 0 to |order|
        invariant order == old(order) && baselineFile == old(baselineFile) && baselineExists == old(baselineExists)
        invariant records == Lower(old(records), order[..i])
        invariant alertLog == old(alertLog) + SweepEvents(order[..i], visited)
      {
        SweepKey(i, old(records), old(alertLog), visited);
      }
      assert order[..|order|] == order;
      LowerValues(old(records), order);
    }

    /** One pass of that loop: the key at position `i` of the dict order. */
    method SweepKey(i: nat, ghost records0: map<string, Record>, ghost log0: seq<Event>, ghost visited: seq<string>)
      requires i < |order| && Tracks(order, records0)
      requires forall k :: k in records0 ==> records0[k].seen == (k in visited)
      requires records == Lower(records0, order[..i])
      requires alertLog == log0 + SweepEvents(order[..i], visited)
      modifies this
      ensures order == old(order) && baselineFile == old(baselineFile) && baselineExists == old(baselineExists)
      ensures records == Lower(records0, order[..i + 1])
      ensures alertLog == log0 + SweepEvents(order[..i + 1], visited)
    {
      var key := order[i];
      SweptOnce(records0, order, i);
      LowerStep(records0, order, i);
      if records[key].seen {
        records := records[key := records[key].(seen := false)];
      } else {
        alertLog := alertLog + [Deleted(key)];
      }
      SweepStep(order, visited, i, log0);
    }

    /**
     * One `runMonitor` round (main.py:65-110). The walk raises the flag of
     * every visited known path, alerting `modified` when its digest differs
     * from the stored one, and alerts `created` for a visited path the dict
     * does not hold; the sweep then alerts `deleted` for every key whose
     * flag is still down and lowers the others. The dict itself ends as it
     * began: no insertion, no digest update, no removal.
     */
    method RunMonitor(snap: Snapshot)
      requires Valid()
      modifies this
      ensures Valid()
      ensures order == old(order) && records == old(records)
      ensures baselineFile == old(baselineFile) && baselineExists == old(baselineExists)
      ensures alertLog == old(alertLog) + RoundEvents(sha3, snap, old(order), old(records))
    {
      WalkRound(snap);
      ghost var visited := Observed(snap.walk);
      MarkValues(old(records), visited);
      Sweep(visited);
      WalkThenSweep(sha3, snap, order, old(records), old(alertLog));
      SameUnflagged(records, old(records));
    }

    /** The walk of a `runMonitor` round (main.py:67-100), before the sweep. */
    method WalkRound(snap: Snapshot)
      modifies this
      ensures order == old(order) && baselineFile == old(baselineFile) && baselineExists == old(baselineExists)
      ensures records == Mark(old(records), Observed(snap.walk))
      ensures alertLog == old(alertLog) + WalkEvents(sha3, snap.readable, old(records), Observed(snap.walk))
    {
      var dirs, listing := BuildDirectoryMap(snap.walk);
      for i := 0 to |dirs|
        invariant order == old(order) && baselineFile == old(baselineFile) && baselineExists == old(baselineExists)
        invariant records == Mark(old(records), Visits(dirs[..i], listing))
        invariant alertLog == old(alertLog) + WalkEvents(sha3, snap.readable, old(records), Visits(dirs[..i], listing))
      {
        WalkDir(snap, dirs, listing, i, old(records), old(alertLog));
      }
      assert dirs[..|dirs|] == dirs;
    }

    /** One pass of that loop: the directory at position `i` of the `directory_map` order. */
    method WalkDir(snap: Snapshot, dirs: seq<string>, listing: map<string, seq<string>>, i: nat,
                   ghost records0: map<string, Record>, ghost log0: seq<Event>)
      requires i < |dirs| && forall d :: d in dirs ==> d in listing
      requires records == Mark(records0, Visits(dirs[..i], listing))
      requires alertLog == log0 + WalkEvents(sha3, snap.readable, records0, Visits(dirs[..i], listing))
      modifies this
      ensures order == old(order) && baselineFile == old(baselineFile) && baselineExists == old(baselineExists)
      ensures records == Mark(records0, Visits(dirs[..i + 1], listing))
      ensures alertLog == log0 + WalkEvents(sha3, snap.readable, records0, Visits(dirs[..i + 1], listing))
    {
      ghost var done := Visits(dirs[..i], listing);
      var dir := dirs[i];
      var names := listing[dir];
      ghost var more := DirVisits(dir, names);
      VisitsStep(dirs, listing, i);
      MarkConcat(records0, done, more);
      WalkStep(sha3, snap.readable, records0, log0, done, more);
      if |names| != 0 {
        CheckDirectory(snap, dir, names);
      } else {
        assert more == [];
      }
    }

    /**
     * The reading part of the `with` block of the resume branch
     * (main.py:132-137), run by a fresh process whose dict is empty. Only the
     * first line of `text`, the stored baseline, is read. When it splits on TAB into
     * two fields, their stripped values become the one entry of the dict;
     * otherwise the line is rejected unless its first field is a lone LF.
     *
     * Where the source stores the bare string `hash` as the value of the
     * entry, the model stores `[hash, False]`. With the bare string, the
     * next round's compare at main.py:84 reads the hash's first character,
     * and its flag assignments at main.py:93 and main.py:104 raise.
     */
    method LoadStoredEntry(text: string) returns (rejected: bool)
      requires order == [] && records == map[]
      modifies this
      ensures baselineFile == old(baselineFile) && baselineExists == old(baselineExists) && alertLog == old(alertLog)
      ensures rejected == RejectsFirstLine(text)
      ensures rejected ==> StoredEntry(text).None?
      ensures StoredEntry(text).Some? ==>
        var (path, hash) := StoredEntry(text).value;
        order == [path] && records == map[path := Record(hash, false)]
      ensures StoredEntry(text).None? ==> order == [] && records == map[]
    {
      var line := ReadLine(text);
      var fields := Split(line, TAB);
      StoredEntryOfFields(text);
      rejected := LoadFields(fields);
    }

    /**
     * The test on the fields of the first line (main.py:135-138): two fields
     * become the one entry of the dict, stripped; otherwise the line is
     * rejected unless its first field is a lone LF.
     */
    method LoadFields(fields: seq<string>) returns (rejected: bool)
      requires |fields| >= 1
      requires order == [] && records == map[]
      modifies this
      ensures baselineFile == old(baselineFile) && baselineExists == old(baselineExists) && alertLog == old(alertLog)
      ensures rejected <==> |fields| != 2 && fields[0] != [LF]
      ensures |fields| == 2 ==>
        order == [Strip(fields[0])] && records == map[Strip(fields[0]) := Record(Strip(fields[1]), false)]
      ensures |fields| != 2 ==> order == [] && records == map[]
    {
      rejected := false;
      if |fields| == 2 {
        var path := Strip(fields[0]);
        records := map[path := Record(Strip(fields[1]), false)];
        order := [path];
      } else if fields[0] != [LF] {
        rejected := true;
      }
    }

    /**
     * The resume branch of the main block (main.py:131-144), run by a fresh
     * process whose dict is empty. Opening a missing `baseline.txt` raises
     * at once (main.py:132). A rejected first line rebuilds the baseline
     * (main.py:137-140); then, if the dict is still empty, it is rebuilt
     * (again) (main.py:142-144). `rebuilds` counts the rebuilds that
     * complete; `raised` tells whether the branch ends in an exception,
     * which happens when a second rebuild finds no `baseline.txt` to remove
     * because the first one visited no file.
     */
    method Resume(snap: Snapshot) returns (rebuilds: nat, raised: bool)
      requires order == [] && records == map[]
      modifies this
      ensures Valid() && alertLog == old(alertLog)
      ensures !old(baselineExists) ==>
        && raised && rebuilds == 0
        && order == [] && records == map[] && baselineFile == old(baselineFile) && !baselineExists
      ensures old(baselineExists) && StoredEntry(Concat(old(baselineFile))).Some? ==>
        var (path, hash) := StoredEntry(Concat(old(baselineFile))).value;
        && !raised && rebuilds == 0
        && order == [path] && records == map[path := Record(hash, false)]
        && baselineFile == old(baselineFile) && baselineExists
      ensures old(baselineExists) && StoredEntry(Concat(old(baselineFile))).None? ==>
        var visited := Observed(snap.walk);
        && raised == (RejectsFirstLine(Concat(old(baselineFile))) && visited == [])
        && rebuilds == 1
        && order == AppendNew([], visited)
        && records == AssignEntries(sha3, snap.readable, map[], visited)
        && baselineFile == WriteLines(sha3, snap.readable, [], visited)
        && baselineExists == (visited != [])
    {
      rebuilds := 0;
      if !baselineExists {
        return 0, true;
      }
      ghost var text := Concat(baselineFile);
      var rejected := LoadStoredEntry(Concat(baselineFile));
      raised := false;
      if StoredEntry(text).Some? {
        var (path, hash) := StoredEntry(text).value;
        SingleEntryTracks(path, hash);
      }
      if rejected {
        raised := CreateBaseline(snap);
        rebuilds := 1;
      }
      ghost var visited := Observed(snap.walk);
      EmptyBaselineIff(sha3, snap.readable, visited);
      if |records| == 0 {
        raised := CreateBaseline(snap);
        if !raised {
          rebuilds := rebuilds + 1;
        }
      }
    }

    /**
     * A run of `runMonitor` rounds, one per snapshot, as the endless loops of
     * the main block (main.py:126-128 and main.py:146-148) perform them.
     * The baseline is left as it was and the alerts of every round are
     * appended in turn.
     */
    method MonitorRounds(snaps: seq<Snapshot>)
      requires Valid()
      modifies this
      ensures Valid()
      ensures order == old(order) && records == old(records)
      ensures baselineFile == old(baselineFile) && baselineExists == old(baselineExists)
      ensures alertLog == old(alertLog) + AllRounds(sha3, snaps, old(order), old(records))
    {
      for i := 0 to |snaps|
        invariant Valid()
        invariant order == old(order) && records == old(records)
        invariant baselineFile == old(baselineFile) && baselineExists == old(baselineExists)
        invariant alertLog == old(alertLog) + AllRounds(sha3, snaps[..i], order, records)
      {
        RunMonitor(snaps[i]);
        RoundsStep(sha3, snaps, i, order, records, old(alertLog));
      }
      assert snaps[..|snaps|] == snaps;
    }
  }
}
