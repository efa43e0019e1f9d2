# File Integrity Monitor — a Dafny model of its baseline/diff engine

The monitor (`main.py`) fingerprints every file under a root directory and
stores the result as a baseline. It holds the baseline in the global dict
`baseline_map`, keyed by `dir + "/" + file`, with the value `[hash, flag]`.
It also writes the baseline to `baseline.txt`, one `path<TAB>hash<LF>` line per file.
After that it runs monitoring rounds. Each round walks the tree again and
alerts `created`, `modified` or `deleted` for what changed. On request it
resumes from an earlier `baseline.txt` instead of building a new baseline.

The model has five modules, one file each:

- `Digest` (digest.dfy): `generateHash`. SHA3-512 (section 6.1 of FIPS 202)
  is a parameter `sha3` returning 128 lower-case hex digits. A file that
  cannot be read yields the sentinel `"ERROR!"`.
- `LineFormat` (line_format.dfy): the text side of `baseline.txt`. It
  covers Python's `str.split('\t')`, `str.strip()` and a text-mode
  `readline()`, the line written at main.py:61, and the parse of
  main.py:134-136.
- `Walk` (walk.dfy): `IGNORE_LIST` and the `os.walk` snapshot. It also
  covers `directory_map`, in the insertion order Python iterates it in,
  and the files a scan visits, in visiting order.
- `Baseline` (baseline.dfy): functions over values that say what
  `createBaseline`, a `runMonitor` round and the resume parse produce,
  and the lemmas about them.
- `Engine` (engine.dfy): class `Monitor`. It holds the dict, its key
  order, the lines written to `baseline.txt` and the alerts written to
  `alert.log`, all changed in place. Each of its methods follows the
  source's loops and is proved against the functions in `Baseline`.

The code leaves the dict alone during a round:

- A created path is never inserted into the dict (main.py:95-100).
- A modified path keeps its old digest (main.py:93).
- A deleted path is never removed (main.py:105-110).

So a round leaves the baseline exactly as it found it, and the same
changes are reported again every round (`CreatedEveryRound`,
`ModifiedEveryRound`, `DeletedEveryRound`).

The resume branch reads only the first line of `baseline.txt`
(main.py:133). It opens the file in text mode, so a CR or a CRLF ends
that line just as an LF does. A missing `baseline.txt` makes `open` raise
at main.py:132; nothing falls back.

Python iterates the dict in insertion order, and that order fixes the
order of the `deleted` alerts.

## Model

| member | source | states |
|---|---|---|
| Digest.GenerateHash | main.py:25-34 | The result is `"ERROR!"` exactly when the file cannot be read; otherwise it is the SHA3 digest of the content. Either way it is a 128-digit hex digest or the sentinel, so no failure escapes. |
| Digest.HashesAgree | main.py:84 | Two reads of a path compare equal exactly when both fail, or when both succeed with equal digests. Two unreadable reads compare equal. |
| LineFormat.Split | main.py:134 | `str.split('\t')` returns one more field than the text has TABs, and no field holds a TAB. |
| LineFormat.JoinSplit | main.py:134 | Joining the fields of a split with the separator gives back the text, so nothing is lost. |
| LineFormat.SplitAtFirstSeparator | main.py:134 | Text made of a TAB-free part, a TAB and a rest splits into that part followed by the fields of the rest. |
| LineFormat.SplitWithoutSeparator | main.py:134 | Text without a TAB splits into the single field that is the text itself. |
| LineFormat.SplitFirstIsPrefix | main.py:134 | The first field of a split is a prefix of the text. |
| LineFormat.StripLeading | main.py:136 | Removing whitespace from the front never lengthens the string. |
| LineFormat.StripLeadingShape | main.py:136 | Only whitespace is removed from the front, all of it, and what remains is a suffix of the input. |
| LineFormat.StripTrailing | main.py:136 | Removing whitespace from the back never lengthens the string. |
| LineFormat.StripTrailingShape | main.py:136 | Only whitespace is removed from the back, all of it, and what remains is a prefix of the input. |
| LineFormat.Strip | main.py:136 | `str.strip()` never lengthens its input. |
| LineFormat.StripIsClean | main.py:136 | `str.strip()` gives a value with no whitespace at either end. |
| LineFormat.StripIsSlice | main.py:136 | `str.strip()` returns a slice `s[i..j]` of its input, and every character outside that slice is whitespace. |
| LineFormat.SliceOfSuffix | main.py:136 | Proof helper for `StripIsSlice`: a prefix of `s[i..]` with only whitespace before and after it is a slice of `s`. |
| LineFormat.StripClean | main.py:136 | Stripping a value that has no whitespace at its ends leaves it unchanged. |
| LineFormat.StripNewline | main.py:136 | Stripping a clean value followed by LF gives back the value, so the line's LF is dropped from the hash field. |
| LineFormat.FormatLine | main.py:61 | A baseline line is `path`, TAB, `hash`, LF: two characters longer than its parts, ending in LF. |
| LineFormat.ParseLine | main.py:134-136 | A line is accepted exactly when it holds exactly one TAB, so it splits into two fields. |
| LineFormat.ParsedFieldsAreClean | main.py:134-136 | Both fields of an accepted line have no whitespace at either end. |
| LineFormat.ParseFormatRoundTrip | main.py:134-136 | Parsing the line written at main.py:61 gives back `(path, hash)` when neither holds a TAB and both have clean ends. |
| LineFormat.FirstLine | main.py:133 | `readline()` returns no more characters than the text holds. |
| LineFormat.FirstLineShape | main.py:133 | On text whose newlines are already translated, `readline()` returns a prefix of it. If the text has an LF, the prefix runs up to and including the first one; otherwise it is the whole text. |
| LineFormat.FirstLineOf | main.py:133 | The first line of `a + LF + rest`, where `a` holds no LF, is `a + LF`. |
| LineFormat.TranslateNewlines | main.py:132-133 | Text mode's universal newlines turn each CR and each CRLF into one LF, so the text read is no longer than the file's text. |
| LineFormat.TranslatePlain | main.py:132-133 | A part of the text with no CR passes through the translation unchanged. |
| LineFormat.TranslatedHasNoCR | main.py:132-133 | Text read in text mode holds no CR. |
| LineFormat.ReadLine | main.py:133 | `readline()` in text mode returns the first line of the translated text, never longer than the file's text. |
| LineFormat.ReadLineAtNewline | main.py:133 | When the text is `a`, LF and a rest, with no CR or LF in `a`, `readline()` returns `a + LF`. |
| LineFormat.ReadLineAtCarriageReturn | main.py:133 | When the text is `a`, CR and a rest, with no CR or LF in `a`, `readline()` returns `a + LF`: the CR ends the line. |
| LineFormat.TranslateAtCarriageReturn | main.py:132-133 | Text opened with universal newlines reads a CR as LF, and a CR directly followed by LF as one LF. |
| LineFormat.Concat | main.py:60-61 | The file text made of the appended writes starts with the first write. |
| Walk.DirOrder | main.py:42-46 | The keys of `directory_map` are exactly the directories the walk reports. |
| Walk.DirOrderDistinct | main.py:42-46 | The keys of `directory_map`, in iteration order, list no directory twice. |
| Walk.WalkDirs | main.py:43 | Definition: the directories the walk reports, in walk order, one per report, repeats included. |
| Walk.WalkDirsOfPrefix | main.py:43 | Proof helper: dropping the walk's last report drops the last directory of the walk order. |
| Walk.DirListing | main.py:42-44 | `directory_map` has one key per directory the walk reports. |
| Walk.BuildDirectoryMap | main.py:42-44 | The loop that fills `directory_map` yields its key order and contents. A later report of the same directory keeps the first one's place and overwrites its file list. |
| Walk.DirectoryMapOfDistinctWalk | main.py:43-44 | When no directory is reported twice (`Distinct(WalkDirs(walk))`), the dict's order is the walk order and each directory maps to the file list the walk gave it. |
| Walk.DirOrderOfDistinctWalk | main.py:42-46 | When no directory is reported twice, the key order of `directory_map` is the walk order. |
| Walk.ListingOfDistinctWalk | main.py:43-44 | When no directory is reported twice, each directory maps to the file list the walk gave it. |
| Walk.ListingOfEarlierDir | main.py:44 | Proof helper: a later report of another directory leaves an earlier directory's file list as it was. |
| Walk.DistinctWithoutLast | main.py:42-46 | Proof helper: a run free of repeats stays so without its last element, which does not occur before it. |
| Walk.FullPath | main.py:57 | Definition: the key of a file is `dir + "/" + name`. |
| Walk.DirVisits | main.py:52-57 | A directory yields at most one visited path per listed name. |
| Walk.DirVisitsIff | main.py:52-57 | A path is visited in a directory exactly when it is `dir + "/" + name` for a listed name outside `IGNORE_LIST`. |
| Walk.DirVisitsStep | main.py:52-57 | Visiting one more name of a directory appends its key, unless the name is in `IGNORE_LIST`. |
| Walk.Visits | main.py:46-57 | Definition: the keys visited in the directories of `directory_map`, directory after directory in the dict's order and file after file in each list, ignored names skipped. An empty directory adds nothing, as the skip at main.py:49-50 does. |
| Walk.VisitsStep | main.py:46-52 | Visiting one more directory appends exactly its visited paths. |
| Walk.Observed | main.py:42-57 | Definition: the keys one scan visits, that is `Visits` over the `directory_map` the snapshot's walk builds. |
| Walk.VisitsIff | main.py:46-57 | A path is visited by the directory loop exactly when it is `dir + "/" + name` for a listed name outside `IGNORE_LIST`. |
| Walk.ObservedIff | main.py:43-57 | A scan visits exactly the keys `dir + "/" + name` of the files the walk lists under names outside `IGNORE_LIST`. |
| Walk.ListedNamesArePlain | main.py:52 | A listed file name holds no `/`. |
| Walk.FullPathParts | main.py:57 | The key `dir + "/" + name` gives back `dir` and `name` when the name holds no `/`. |
| Walk.KeysOfIgnoredNamesDiffer | main.py:54-57 | The key of an ignored name never equals the key of a name that is not ignored. |
| Walk.IgnoredNeverObserved | main.py:52-57 | A file whose bare name is in `IGNORE_LIST` is never visited, in any directory. |
| Walk.DistinctConcat | main.py:46-57 | Proof helper: two runs of keys, each free of repeats and sharing no key, join into a run free of repeats. |
| Walk.SameDirKeys | main.py:57 | Within one directory, two names give the same key `dir + "/" + name` exactly when they are the same name. |
| Walk.DirVisitsDistinct | main.py:52-57 | A directory whose file list names no file twice yields no key twice. |
| Walk.VisitsDistinct | main.py:46-57 | When the dict lists each directory once, each file list is free of repeats and no name holds `/`, the directory loop yields no key twice. |
| Walk.ObservedDistinct | main.py:42-57 | When the walk names no file twice in a directory and no name holds `/`, one scan visits each key at most once. |
| Baseline.AppendNew | main.py:59 | Assigning keys to the dict adds at most one key per assigned path and drops none. |
| Baseline.AppendNewPrefix | main.py:59 | Assigning keys to the dict keeps the existing key order as a prefix. |
| Baseline.AppendNewKeys | main.py:59 | After assigning keys, the dict order lists the old keys and the new paths and nothing else. It still lists each key once. |
| Baseline.AssignEntries | main.py:57-59 | Assigning entries for visited paths adds at most one key per path. |
| Baseline.AssignEntriesValues | main.py:57-59 | After the assignments, the dict holds exactly the old keys and the visited paths. A visited path maps to `[generateHash(path), False]` and any other key keeps its entry. |
| Baseline.WriteLines | main.py:60-61 | Appending the lines adds exactly one line per visited path. |
| Baseline.AssignEntriesSize | main.py:57-59 | Assigning entries for paths that are new and free of repeats grows the dict by exactly one key per path. |
| Baseline.OneLinePerEntry | main.py:52-61 | When the walk names no file twice in a directory, a fresh baseline writes exactly as many lines as the dict gets keys. |
| Baseline.WriteLinesAt | main.py:60-61 | Appending keeps the earlier writes. The i-th new line is `path_i<TAB>hash_i<LF>`, in visiting order. |
| Baseline.FreshLines | main.py:40-61 | After the truncation, line i of the baseline file is the line of the i-th visited file. |
| Baseline.Classify | main.py:82-100 | A visited path raises at most one alert, and that alert names the path. |
| Baseline.ClassifyCounts | main.py:83-100 | A visited path gives one `created` alert when the dict lacks it, and one `modified` alert when it is known with another digest. It never gives `deleted`. |
| Baseline.Mark | main.py:83-93 | Raising flags keeps the size of the dict. |
| Baseline.MarkValues | main.py:83-93 | After the walk, the keys and every stored digest are unchanged. A flag is up exactly when it was up before or its key was visited, for both unchanged and modified files. |
| Baseline.Lower | main.py:102-104 | Lowering flags keeps the size of the dict. |
| Baseline.LowerValues | main.py:102-104 | The sweep keeps the keys and digests. A flag stays up only when it was up and the sweep has not reached its key. |
| Baseline.SweptOnce | main.py:102-104 | When the sweep reaches a key, its entry is as the walk left it, because each key is listed once. |
| Baseline.WalkEvents | main.py:77-100 | Definition: the walk's alerts. Each visited path is classified in turn against the dict as it stood before the walk, and the alerts follow visiting order. |
| Baseline.SweepEvents | main.py:102-110 | Definition: one `deleted` alert for each key of the dict order that the walk did not visit, in dict order. |
| Baseline.RoundEvents | main.py:65-110 | Definition: the alerts of a round, which are the walk's alerts over the scan's visits followed by the sweep's. |
| Baseline.LowerStep | main.py:102-104 | Proof helper: sweeping one more key lowers its flag when it is up. |
| Baseline.SweepStep | main.py:102-110 | Proof helper: sweeping one more key appends its `deleted` alert when the walk did not visit it. |
| Baseline.WalkThenSweep | main.py:65-110 | Proof helper: a round's log is the walk's alerts followed by the sweep's. |
| Baseline.SameUnflagged | main.py:102-104 | Proof helper: two dicts with the same keys and digests and every flag down are the same dict. |
| Baseline.WalkEventsShape | main.py:77-100 | The walk raises only `created` and `modified` alerts, each for a visited path. |
| Baseline.SweepEventsShape | main.py:102-110 | The sweep raises only `deleted` alerts, each for a key that was not visited. |
| Baseline.WalkEventCounts | main.py:77-100 | Each unknown path gets as many `created` alerts as times it was visited. A known path with a new digest gets that many `modified` alerts. The walk raises no `deleted`. |
| Baseline.SweepEventCounts | main.py:102-110 | A key gets one `deleted` alert per place in the dict order when it was not visited, and none when it was. The sweep raises nothing else. |
| Baseline.AppendNewConcat | main.py:46-59 | Assigning keys for two runs of paths in turn orders the dict as assigning them together. |
| Baseline.AssignEntriesConcat | main.py:46-59 | Assigning entries for two runs of paths in turn gives the dict that assigning them together gives. |
| Baseline.WriteLinesConcat | main.py:46-61 | Writing the lines of two runs of paths in turn gives the lines of both, in order. |
| Baseline.MarkConcat | main.py:71-93 | Raising the flags of two runs of paths in turn equals raising them together. |
| Baseline.WalkEventsConcat | main.py:71-100 | The alerts of a walk over two runs of paths are those of the first run, then those of the second. |
| Baseline.WalkEventsIgnoreFlags | main.py:83-93 | Flags raised earlier in the walk never change how a later path is classified, because only the digest is compared. |
| Baseline.BaselineKeepsTracks | main.py:52-59 | Building the baseline keeps each key listed once in the dict order, in step with the dict, and keeps every flag down. |
| Baseline.KeyInBoth | main.py:59 | Proof helper: while the baseline is built, a path is in the dict exactly when it is in the dict order. |
| Baseline.BaselineStep | main.py:57-61 | Proof helper: one more visited file sets its entry to `[hash, False]` and appends its line at the end. |
| Baseline.CheckStep | main.py:82-100 | Proof helper: one more visited file raises its flag and appends its alert at the end of the log so far, whatever flags the walk raised before it. |
| Baseline.WalkStep | main.py:71-100 | Proof helper: the alerts of one more directory follow the round's log so far, and the flags the walk raised before them do not change them. |
| Baseline.WalkOrigins | main.py:71-100 | Each walk alert comes from a visited path, and the alerts come in visiting order. |
| Baseline.OriginsStep | main.py:71-100 | Proof helper: the alerts of one more visited path extend the origins of the alerts so far, still in visiting order. |
| Baseline.SweepOrigins | main.py:102-110 | Each `deleted` alert comes from a key of the dict, and the alerts come in dict order. |
| Baseline.RoundEventsGrouped | main.py:71-110 | Within a round, every `created` and `modified` alert comes before every `deleted` alert. |
| Baseline.WalkEventsEmptyIff | main.py:77-100 | The walk is silent exactly when every visited path is known with its current digest. |
| Baseline.SweepEventsEmptyIff | main.py:102-110 | The sweep is silent exactly when every key in the dict was visited. |
| Baseline.SilentRoundIff | main.py:65-110 | A round is silent exactly when every visited path is known with its current digest and every known path is visited. |
| Baseline.DistinctCount | main.py:46-57 | Proof helper: in a run free of repeats, a key occurs once when present and not at all otherwise. |
| Baseline.OneAlertPerVisit | main.py:71-110 | When the walk names no file twice in a directory, a round writes for a visited key exactly one `created` alert when it is unknown and none otherwise, and exactly one `modified` alert when it is known with another digest and none otherwise. |
| Baseline.BaselineRoundIsSilent | main.py:37-110 | A round against the snapshot that built the baseline raises no alert. |
| Baseline.IgnoredNotInBaseline | main.py:52-59 | A file whose bare name is in `IGNORE_LIST` gets no dict entry and no place in the dict order, whatever its content. |
| Baseline.IgnoredHasNoLine | main.py:52-61 | Every line of a new baseline file names a visited path, and none names a file whose bare name is in `IGNORE_LIST`. |
| Baseline.IgnoredNeverAlerted | main.py:77-110 | Against a baseline that holds no entry for it, a round raises no alert about a file whose bare name is in `IGNORE_LIST`. |
| Baseline.HashFieldIsClean | main.py:30-34 | A digest or the sentinel holds no TAB or LF and has clean ends, so the line written at main.py:61 parses back. |
| Baseline.FirstWriteOpens | main.py:40-61 | A fresh baseline file begins with the line `path<TAB>hash<LF>` of the first visited file. |
| Baseline.ResumeReadsFirstEntry | main.py:131-136 | On a baseline file written by `createBaseline`, resume reads back exactly the first visited path and its digest, provided the path holds no TAB, LF or CR and has clean ends. |
| Baseline.CarriageReturnInFirstPath | main.py:131-140 | When the first visited path holds a CR after a non-empty part with no TAB, LF or CR, resume reads only that part as the first line, rejects it and rebuilds. |
| Baseline.RejectsAtCarriageReturn | main.py:133-138 | A text whose first CR follows a non-empty part with no TAB or LF has its first line rejected. |
| Baseline.StoredEntry | main.py:132-136 | Definition: the entry resume takes from the file's text. The first line, as text mode reads it, gives an entry when it splits on TAB into exactly two fields, both stripped, and none otherwise. |
| Baseline.RejectsFirstLine | main.py:137-138 | Definition: the first line read does not split into two fields, and its first field is not a lone LF. |
| Baseline.RejectsFirstLineIff | main.py:137-140 | Resume rejects the first line, and rebuilds, exactly when it yields no entry and is not a lone LF. An empty file, or a first line with no TAB or several, is rejected; a blank first line is not. |
| Baseline.StoredEntryOfFields | main.py:133-140 | Proof helper: with two fields, the entry is their stripped values. With any other count there is no entry, and the line is rejected exactly when the first field is not a lone LF. |
| Baseline.EmptyBaselineIff | main.py:142-144 | A baseline built from a scan is empty exactly when the scan visits no file. |
| Baseline.SingleEntryTracks | main.py:136 | Proof helper: the dict resume loads holds one entry with its flag down, listed once. |
| Baseline.AllRounds | main.py:146-148 | Definition: the alerts of a run of rounds, one per snapshot, each against the same dict, concatenated in round order. |
| Baseline.RoundsStep | main.py:146-148 | Proof helper: one more round appends its alerts to the run's log. |
| Baseline.CreatedEveryRound | main.py:95-100 | A path that is not in the baseline is alerted `created` once for every round that visits it, because it is never inserted. |
| Baseline.DeletedEveryRound | main.py:102-110 | A key listed once is alerted `deleted` once for every round that does not visit it, because it is never removed. |
| Baseline.ModifiedEveryRound | main.py:83-93 | A known path whose digest differs from the stored one in every round is alerted `modified` once for every visit, because the stored digest is never updated. |
| Engine.Monitor.constructor | main.py:23 | A fresh process starts with an empty `baseline_map` and no alerts. `baseline.txt` exists exactly when an earlier run left one, and then holds that run's text. |
| Engine.Monitor.AddToBaseline | main.py:57-61 | Recording a file sets its entry to `[hash, False]`. A new key goes to the end of the dict order and an existing key keeps its place. The line `path<TAB>hash<LF>` is appended, which creates `baseline.txt` if it is missing, and no alert is raised. |
| Engine.Monitor.BaselineDirectory | main.py:52-61 | The loop over one directory's files leaves the dict, its order and the baseline file as the assignments and writes for its visited paths make them. The file exists afterwards when it existed before or some file was visited. |
| Engine.Monitor.BaselineName | main.py:52-61 | One pass of that loop: an ignored name changes nothing, any other name is recorded, so the dict, its order, the file and its existence are as the visits so far plus this one make them. |
| Engine.Monitor.BaselineDir | main.py:46-61 | One pass of `createBaseline`'s loop over the directories: a directory with no files changes nothing, any other has its visits recorded after those of the directories before it. |
| Engine.Monitor.CreateBaseline | main.py:37-61 | When `baseline.txt` is missing, `os.remove` raises (`raised`) and nothing changes. Otherwise the file is removed; then every visited file gets the entry `[hash, False]` under its key and one line, in walk order, and the file exists again exactly when some file was visited. Earlier entries stay, every flag is down, each key is listed once, and no alert is raised. |
| Engine.Monitor.CheckFile | main.py:82-100 | A visited file raises its flag when known and appends its single alert. The dict order, the digests and the baseline file are unchanged. |
| Engine.Monitor.CheckDirectory | main.py:77-100 | The loop over one directory's files raises their flags and appends their alerts in visiting order. |
| Engine.Monitor.CheckName | main.py:77-100 | One pass of that loop: an ignored name changes nothing, any other name raises its flag and appends its alerts after those of the names before it. |
| Engine.Monitor.WalkRound | main.py:67-100 | The walk raises exactly the flags of the visited keys and appends the walk's alerts in visiting order. |
| Engine.Monitor.WalkDir | main.py:71-100 | One pass of the round's loop over the directories: the flags and alerts are those of the visits so far plus this directory's. |
| Engine.Monitor.Sweep | main.py:102-110 | In dict order, each unvisited key is alerted `deleted` and each raised flag is lowered. Keys and digests stay, and every flag ends down. |
| Engine.Monitor.SweepKey | main.py:102-110 | One pass of the sweep: the key at this position has its raised flag lowered, or is alerted `deleted` when its flag is down. |
| Engine.Monitor.RunMonitor | main.py:65-110 | A round appends its walk alerts and then its sweep alerts. The dict, its order and the baseline file end exactly as they began. |
| Engine.Monitor.LoadStoredEntry | main.py:132-140 | Resume reads only the first line, as text mode reads it. With two TAB-separated fields, the dict becomes that one stripped entry. Otherwise the dict stays empty, and the line is rejected exactly when its first field is not a lone LF. |
| Engine.Monitor.LoadFields | main.py:134-138 | The test on the split first line: two fields make the dict that one entry, both fields stripped. Otherwise the dict stays empty, and the line is rejected exactly when its first field is not a lone LF. |
| Engine.Monitor.Resume | main.py:131-144 | With no `baseline.txt`, `open` raises and nothing changes. A good first line gives a one-entry baseline with no rebuild. Otherwise the baseline is rebuilt once from the scan. When the line was rejected and the scan visits nothing, the second rebuild at main.py:144 raises, because the first one removed the file and wrote nothing. |
| Engine.Monitor.MonitorRounds | main.py:146-148 | Repeated rounds leave the baseline as it was and append each round's alerts in turn. |

## Left out

- SHA3-512 itself (`hashlib.sha3_512`, main.py:29) is the parameter `sha3`. Reading a file, decoding it and encoding it to bytes (main.py:27-29) are reduced to the snapshot's map from readable paths to their text. Any failure of those steps, which the bare `except` catches, is the path missing from that map.
- `os.walk` (main.py:43, 68) is a snapshot input: `(dir_path, file_names)` pairs in walk order. `dir_names` is unused in the source and is dropped. A missing root gives an empty walk, as `os.walk` does.
- The timestamps, the alert message text and `print` (main.py:33, 87-89, 96-98, 106-108) are left out. Alerts are modelled as `Created`/`Modified`/`Deleted` events appended to the alert log.
- Appends to `baseline.txt` are modelled as the sequence of strings written. The file's text is their concatenation, written with no newline translation, as on POSIX. Reading it back in text mode translates CR and CRLF to LF, and that is modelled.
- An exception is modelled only as the flag `raised`, and what follows it (the traceback, the end of the process) is not. This covers `os.remove` at main.py:40 and `open` at main.py:132 on a missing `baseline.txt`. In particular, when resume's first rebuild visits no file, it removes `baseline.txt` and writes nothing, so the second rebuild at main.py:144 raises `FileNotFoundError` at main.py:40.
- Engine.Monitor.Resume: `baseline.txt` is modelled as either missing or readable text. The model does not capture the other ways main.py:132-133 raises: `open` raises `PermissionError` on an unreadable file and `IsADirectoryError` on a directory, and `readline()` raises `UnicodeDecodeError` on bytes the locale encoding cannot decode. Nor does it capture a file name from `os.walk` that holds surrogate escapes, on which the write at main.py:61 raises `UnicodeEncodeError` partway through `createBaseline`. The model also assumes POSIX, where `os.remove` at main.py:40 succeeds while the `with` at main.py:132 holds the file open. On Windows that call raises.
- Engine.Monitor.LoadStoredEntry, Engine.Monitor.LoadFields: where main.py:136 stores the bare string `hash` as the dict value, the model stores `[hash, False]`, so the model's rounds after a successful resume run normally. In the source, the first round after a successful resume always raises an exception, after a spurious `modified` alert when the path is visited. When the walk visits the path, `baseline_map[p][0]` at main.py:84 is the hash's first character, which never equals a digest or `"ERROR!"`. The round therefore writes a `modified` alert (main.py:87-91) and then raises `TypeError` at main.py:93. An empty hash raises `IndexError` at main.py:84 instead, before any alert. When the walk does not visit the path, the sweep raises `TypeError` at main.py:104, or `IndexError` at main.py:103 when the hash is shorter than 2 characters.
- The menu and `int(input())` (main.py:119-124) are not modelled. A non-numeric choice raises, and a choice other than 1 or 2 does nothing.
- The endless `while(True)` loops and `time.sleep` (main.py:126-128, 146-148) are modelled as a finite run of rounds, one per snapshot.
- Baseline.IgnoredNotInBaseline, Baseline.IgnoredHasNoLine, Baseline.IgnoredNeverAlerted: these assume file names hold no `/`, as `os.walk` reports them. Under that assumption the key of an ignored name cannot equal another file's key.
- Baseline.IgnoredNeverAlerted: this also assumes the baseline holds no entry for the ignored file. A baseline resumed from a hand-edited file could hold one. In the model, that entry would be alerted `deleted`. In the source, the sweep raises at main.py:103-104 instead, because the resumed value is a bare string (see `Engine.Monitor.LoadStoredEntry`).
- Baseline.DeletedEveryRound: this needs the key to be listed once in the dict order. `Valid()` keeps that for every dict the monitor builds.
