/** The size-rotating log writer (src/contexts/evaluation/infrastructure/logger.rs) over a directory of files. */
module LogRotation {
  import opened Numbers
  import opened Sequences

  datatype FileName = Active | Backup(index: nat)

  type Directory = map<FileName, seq<Byte>>

  /** The bytes of a file; a missing file has none. */
  function Content(dir: Directory, name: FileName): seq<Byte> { if name in dir then dir[name] else [] }

  datatype LogRotationPolicy = LogRotationPolicy(maxBytes: u64, maxBackups: u32) {
    /** What reading the configuration always produces. */
    predicate Valid() { maxBytes > 0 && maxBackups > 0 }
  }

  class FileSystem {
    var files: Directory

    constructor (files: Directory)
      ensures this.files == files
    {
      this.files := files;
    }

    method RemoveIfExists(name: FileName)
      modifies this
      ensures files == old(files) - {name}
    {
      files := files - {name};
    }

    method RenameIfExists(from: FileName, to: FileName)
      requires from != to
      modifies this
      ensures files == if from in old(files) then (old(files) - {from})[to := old(files)[from]] else old(files)
    {
      if from in files {
        files := (files - {from})[to := files[from]];
      }
    }

    /** Opens for appending, creating the file when it is missing. */
    method OpenForAppend(name: FileName)
      modifies this
      ensures files == old(files)[name := Content(old(files), name)]
    {
      files := files[name := Content(files, name)];
    }

    /** Writes the part of `buf` the system accepts in one call. */
    method Append(name: FileName, buf: seq<Byte>, accepted: nat)
      requires name in files && accepted <= |buf|
      modifies this
      ensures files == old(files)[name := old(files)[name] + buf[..accepted]]
    {
      files := files[name := files[name] + buf[..accepted]];
    }

    /** Shifts the backups by one, drops the oldest, and makes a non-empty active file the first backup. */
    method RotateFiles(maxBackups: u32)
      requires maxBackups > 0
      modifies this
      ensures Active !in files
      ensures Content(files, Backup(1)) == Content(old(files), Active)
      ensures forall k: nat | 1 <= k < maxBackups :: Content(files, Backup(k + 1)) == Content(old(files), Backup(k))
      ensures forall k: nat | k == 0 || k > maxBackups :: Content(files, Backup(k)) == Content(old(files), Backup(k))
    {
      RemoveIfExists(Backup(maxBackups));
      var index := maxBackups;
      while index > 1
        invariant 1 <= index <= maxBackups
        invariant Backup(index) !in files
        invariant (Active in files) == (Active in old(files)) && Content(files, Active) == Content(old(files), Active)
        invariant forall k: nat | k < index || k > maxBackups ::
                    Content(files, Backup(k)) == Content(old(files), Backup(k))
        invariant forall k: nat | index <= k < maxBackups ::
                    Content(files, Backup(k + 1)) == Content(old(files), Backup(k))
      {
        index := index - 1;
        RenameIfExists(Backup(index), Backup(index + 1));
      }
      if Active in files {
        if |files[Active]| > 0 {
          RenameIfExists(Active, Backup(1));
        } else {
          RemoveIfExists(Active);
        }
      }
    }
  }

  // ---- what has been logged --------------------------------------------------------------------

  /** Everything logged, one element for each write, in order. */
  type Log = seq<seq<Byte>>

  /** File number `k`: the active file for 0, backup `k` otherwise. */
  function FileNumber(k: nat): FileName { if k == 0 then Active else Backup(k) }

  ghost predicate CutOk(log: Log, cuts: seq<nat>, k: nat)
    requires k + 1 < |cuts|
  {
    cuts[k + 1] <= cuts[k] <= |log|
  }

  /** The whole writes between two cuts. */
  ghost function Part(log: Log, cuts: seq<nat>, k: nat): seq<Byte>
    requires k + 1 < |cuts| && CutOk(log, cuts, k)
  {
    Flatten(log[cuts[k + 1]..cuts[k]])
  }

  /** `cuts` divides the log among the files: file `k` holds the whole writes from `cuts[k + 1]` up to `cuts[k]`, and
      the newest write is in the active file. */
  ghost predicate HoldsLog(dir: Directory, maxBackups: nat, log: Log, cuts: seq<nat>) {
    && |cuts| == maxBackups + 2 && cuts[0] == |log|
    && (forall k: nat | k <= maxBackups :: CutOk(log, cuts, k) && Content(dir, FileNumber(k)) == Part(log, cuts, k))
  }

  /** The oldest backup first, the active file last. */
  function Kept(dir: Directory, maxBackups: nat): seq<Byte> {
    if maxBackups == 0 then Content(dir, Active) else Content(dir, Backup(maxBackups)) + Kept(dir, maxBackups - 1)
  }

  lemma {:induction false} KeptFrom(dir: Directory, n: nat, log: Log, cuts: seq<nat>, k: nat)
    requires HoldsLog(dir, n, log, cuts) && k <= n
    ensures cuts[k + 1] <= |log| && Kept(dir, k) == Flatten(log[cuts[k + 1]..])
  {
    assert CutOk(log, cuts, k) && Content(dir, FileNumber(k)) == Part(log, cuts, k);
    if k == 0 {
      assert log[cuts[1]..cuts[0]] == log[cuts[1]..];
    } else {
      KeptFrom(dir, n, log, cuts, k - 1);
      assert log[cuts[k + 1]..] == log[cuts[k + 1]..cuts[k]] + log[cuts[k]..];
      FlattenConcat(log[cuts[k + 1]..cuts[k]], log[cuts[k]..]);
    }
  }

  /** The files, oldest first, are a suffix of everything ever logged: what precedes the last cut is what was
      dropped. */
  lemma KeptIsSuffix(dir: Directory, maxBackups: nat, log: Log, cuts: seq<nat>)
    requires HoldsLog(dir, maxBackups, log, cuts)
    ensures cuts[maxBackups + 1] <= |log|
    ensures Flatten(log[..cuts[maxBackups + 1]]) + Kept(dir, maxBackups) == Flatten(log)
  {
    KeptFrom(dir, maxBackups, log, cuts, maxBackups);
    var c := cuts[maxBackups + 1];
    assert log == log[..c] + log[c..];
    FlattenConcat(log[..c], log[c..]);
  }

  /** A backup that a write made is within the limit or holds exactly one write. */
  ghost predicate FitsOrSingle(maxBytes: u64, log: Log, cuts: seq<nat>, k: nat)
    requires k + 1 < |cuts| && CutOk(log, cuts, k)
  {
    |Part(log, cuts, k)| <= maxBytes || cuts[k] == cuts[k + 1] + 1
  }

  /** The backups that writes have made: the newest `made`, of which the oldest may be gone. */
  ghost predicate MadeFit(maxBytes: u64, n: nat, log: Log, cuts: seq<nat>, made: nat) {
    forall k: nat | 1 <= k <= n && k <= made ::
      k + 1 < |cuts| && CutOk(log, cuts, k) && FitsOrSingle(maxBytes, log, cuts, k)
  }

  // ---- how the division changes ----------------------------------------------------------------

  /** After a rotation every file number moves up by one and the active file is empty. */
  function Shifted(cuts: seq<nat>, logged: nat): seq<nat>
    requires |cuts| > 0
  {
    [logged] + cuts[..|cuts| - 1]
  }

  ghost predicate IsRotated(dir: Directory, dir': Directory, maxBackups: nat) {
    && Content(dir', Active) == []
    && forall k | 0 <= k < maxBackups :: Content(dir', FileNumber(k + 1)) == Content(dir, FileNumber(k))
  }

  lemma RotationHolds(dir: Directory, dir': Directory, n: nat, log: Log, cuts: seq<nat>)
    requires HoldsLog(dir, n, log, cuts) && IsRotated(dir, dir', n)
    ensures HoldsLog(dir', n, log, Shifted(cuts, |log|))
  {
    var cuts' := Shifted(cuts, |log|);
    forall k: nat | k <= n ensures CutOk(log, cuts', k) && Content(dir', FileNumber(k)) == Part(log, cuts', k) {
      if k == 0 {
        assert log[cuts'[1]..cuts'[0]] == [];
      } else {
        assert CutOk(log, cuts, k - 1) && Content(dir, FileNumber(k - 1)) == Part(log, cuts, k - 1);
        assert FileNumber(k) == FileNumber((k - 1) + 1);
      }
    }
  }

  lemma AppendHolds(dir: Directory, dir': Directory, n: nat, log: Log, cuts: seq<nat>, chunk: seq<Byte>)
    requires HoldsLog(dir, n, log, cuts)
    requires Active in dir && dir' == dir[Active := dir[Active] + chunk]
    ensures HoldsLog(dir', n, log + [chunk], cuts[0 := |log| + 1])
  {
    var longer, cuts' := log + [chunk], cuts[0 := |log| + 1];
    forall k: nat | k <= n ensures CutOk(longer, cuts', k) && Content(dir', FileNumber(k)) == Part(longer, cuts', k) {
      assert CutOk(log, cuts, k) && Content(dir, FileNumber(k)) == Part(log, cuts, k);
      if k == 0 {
        assert longer[cuts[1]..|log| + 1] == log[cuts[1]..cuts[0]] + [chunk];
        FlattenConcat(log[cuts[1]..cuts[0]], [chunk]);
        FlattenOne(chunk);
      } else {
        assert longer[cuts[k + 1]..cuts[k]] == log[cuts[k + 1]..cuts[k]];
      }
    }
  }

  lemma AppendFits(maxBytes: u64, n: nat, log: Log, cuts: seq<nat>, made: nat, chunk: seq<Byte>)
    requires |cuts| == n + 2 && MadeFit(maxBytes, n, log, cuts, made)
    ensures MadeFit(maxBytes, n, log + [chunk], cuts[0 := |log| + 1], made)
  {
    var longer, cuts' := log + [chunk], cuts[0 := |log| + 1];
    forall k: nat | 1 <= k <= n && k <= made
      ensures CutOk(longer, cuts', k) && FitsOrSingle(maxBytes, longer, cuts', k)
    {
      assert FitsOrSingle(maxBytes, log, cuts, k);
      assert longer[cuts[k + 1]..cuts[k]] == log[cuts[k + 1]..cuts[k]];
    }
  }

  lemma ShiftFits(maxBytes: u64, n: nat, log: Log, cuts: seq<nat>, made: nat)
    requires |cuts| == n + 2 && MadeFit(maxBytes, n, log, cuts, made)
    requires CutOk(log, cuts, 0) && FitsOrSingle(maxBytes, log, cuts, 0)
    ensures MadeFit(maxBytes, n, log, Shifted(cuts, |log|), made + 1)
  {
    var cuts' := Shifted(cuts, |log|);
    forall k: nat | 1 <= k <= n && k <= made + 1 ensures CutOk(log, cuts', k) && FitsOrSingle(maxBytes, log, cuts', k) {
      assert FitsOrSingle(maxBytes, log, cuts, k - 1);
    }
  }

  lemma ReadRotation(dir: Directory, dir': Directory, maxBackups: nat)
    requires Active !in dir' && maxBackups > 0
    requires Content(dir', Backup(1)) == Content(dir, Active)
    requires forall k: nat | 1 <= k < maxBackups :: Content(dir', Backup(k + 1)) == Content(dir, Backup(k))
    ensures IsRotated(dir, dir', maxBackups)
  {
    forall k: nat | k < maxBackups ensures Content(dir', FileNumber(k + 1)) == Content(dir, FileNumber(k)) {
    }
  }

  lemma SameContents(dir: Directory, dir': Directory, n: nat, log: Log, cuts: seq<nat>)
    requires HoldsLog(dir, n, log, cuts)
    requires dir' == dir[Active := Content(dir, Active)]
    ensures HoldsLog(dir', n, log, cuts)
  {
    forall k: nat | k <= n ensures CutOk(log, cuts, k) && Content(dir', FileNumber(k)) == Part(log, cuts, k) {
      assert Content(dir, FileNumber(k)) == Part(log, cuts, k);
    }
  }

  /** The files found when the writer opens, as a log with one element for each file. */
  function Found(dir: Directory, n: nat): Log {
    if n == 0 then [Content(dir, Active)] else [Content(dir, Backup(n))] + Found(dir, n - 1)
  }

  lemma FoundIs(dir: Directory, n: nat)
    ensures |Found(dir, n)| == n + 1
    ensures forall k: nat | k <= n :: Found(dir, n)[n - k] == Content(dir, FileNumber(k))
    ensures Flatten(Found(dir, n)) == Kept(dir, n)
  {
    if n == 0 {
      FlattenOne(Content(dir, Active));
    } else {
      FoundIs(dir, n - 1);
      assert Found(dir, n)[1..] == Found(dir, n - 1);
      forall k: nat | k <= n ensures Found(dir, n)[n - k] == Content(dir, FileNumber(k)) {
        if k < n {
          assert Found(dir, n)[n - k] == Found(dir, n - 1)[n - 1 - k];
        }
      }
    }
  }

  /** One found file for each file number. */
  ghost function FirstCuts(n: nat): seq<nat> { seq(n + 2, k requires 0 <= k < n + 2 => n + 1 - k) }

  lemma OneElement(log: Log, i: nat)
    requires i < |log|
    ensures log[i..i + 1] == [log[i]]
  {
  }

  lemma FoundHolds(dir: Directory, n: nat)
    ensures HoldsLog(dir, n, Found(dir, n), FirstCuts(n))
  {
    FoundIs(dir, n);
    var log, cuts := Found(dir, n), FirstCuts(n);
    forall k: nat | k <= n ensures CutOk(log, cuts, k) && Content(dir, FileNumber(k)) == Part(log, cuts, k) {
      OneElement(log, n - k);
      FlattenOne(log[n - k]);
    }
  }

  // ---- the writer ------------------------------------------------------------------------------

  class RotatingLogWriter {
    const fs: FileSystem
    const policy: LogRotationPolicy
    var isOpen: bool
    var currentSize: u64
    /** Everything logged, its division among the files, and how many backups the writes have made. */
    ghost var log: Log
    ghost var cuts: seq<nat>
    ghost var made: nat

    /** The files hold the log, and every backup made by a write fits or is a single write. */
    ghost predicate Consistent()
      reads this, fs
    {
      && policy.Valid()
      && HoldsLog(fs.files, policy.maxBackups, log, cuts)
      && currentSize == Clamp(|Content(fs.files, Active)|)
      && MadeFit(policy.maxBytes, policy.maxBackups, log, cuts, made)
    }

    ghost predicate Valid()
      reads this, fs
    {
      Consistent() && isOpen && Active in fs.files && currentSize <= policy.maxBytes
    }

    /** Opening keeps the files it finds, rotating first when the active one is over the limit. */
    constructor Open(fs: FileSystem, policy: LogRotationPolicy)
      requires policy.Valid()
      modifies fs
      ensures Valid() && this.fs == fs && this.policy == policy && made == 0
      ensures Flatten(log) == Kept(old(fs.files), policy.maxBackups)
      ensures cuts[policy.maxBackups + 1]
           == if |Content(old(fs.files), Active)| > policy.maxBytes && policy.maxBytes < U64_MAX then 1 else 0
    {
      this.fs, this.policy := fs, policy;
      isOpen, currentSize := false, 0;
      log, cuts, made := Found(fs.files, policy.maxBackups), [], 0;
      new;
      FoundHolds(fs.files, policy.maxBackups);
      FoundIs(fs.files, policy.maxBackups);
      cuts := FirstCuts(policy.maxBackups);
      ghost var found := fs.files;
      if Clamp(|Content(fs.files, Active)|) > policy.maxBytes {
        fs.RotateFiles(policy.maxBackups);
        ReadRotation(found, fs.files, policy.maxBackups);
        RotationHolds(found, fs.files, policy.maxBackups, log, cuts);
        cuts := Shifted(cuts, |log|);
      }
      currentSize := Clamp(|Content(fs.files, Active)|);
      ghost var rotated := fs.files;
      fs.OpenForAppend(Active);
      SameContents(rotated, fs.files, policy.maxBackups, log, cuts);
      isOpen := true;
    }

    method Rotate()
      requires Consistent() && isOpen
      requires CutOk(log, cuts, 0) && FitsOrSingle(policy.maxBytes, log, cuts, 0)
      modifies this, fs
      ensures Valid() && log == old(log) && cuts == Shifted(old(cuts), |log|) && made == old(made) + 1
      ensures Content(fs.files, Active) == [] && currentSize == 0
    {
      ghost var before := fs.files;
      isOpen := false;
      fs.RotateFiles(policy.maxBackups);
      ReadRotation(before, fs.files, policy.maxBackups);
      RotationHolds(before, fs.files, policy.maxBackups, log, cuts);
      ghost var rotated := fs.files;
      fs.OpenForAppend(Active);
      isOpen := true;
      currentSize := 0;
      SameContents(rotated, fs.files, policy.maxBackups, log, Shifted(cuts, |log|));
      ShiftFits(policy.maxBytes, policy.maxBackups, log, cuts, made);
      cuts, made := Shifted(cuts, |log|), made + 1;
    }

    /** One write: whatever part of `buf` the system accepts goes, whole, into one file. A write that would take
        the active file over the limit rotates first, and again when it is over the limit on its own; each
        rotation drops the oldest file and nothing else is lost. */
    method Write(buf: seq<Byte>, accepted: nat) returns (written: nat)
      requires Valid() && |buf| <= U64_MAX && accepted <= |buf|
      modifies this, fs
      ensures Valid() && written == (if buf == [] then 0 else accepted)
      ensures log == if buf == [] then old(log) else old(log) + [buf[..accepted]]
      ensures var rotations :=
                if buf == [] || SatAdd(old(currentSize), |buf|) <= policy.maxBytes then 0
                else if accepted <= policy.maxBytes then 1 else 2;
              && made == old(made) + rotations
              && cuts[policy.maxBackups + 1] == old(cuts)[policy.maxBackups + 1 - rotations]
    {
      if buf == [] {
        return 0;
      }
      if SatAdd(currentSize, |buf|) > policy.maxBytes {
        Rotate();
      }
      AppendActive(buf, accepted);
      written := accepted;
      if currentSize > policy.maxBytes {
        Rotate();
      }
    }

    method AppendActive(buf: seq<Byte>, accepted: nat)
      requires Valid() && accepted <= |buf| <= U64_MAX
      modifies this, fs
      ensures Consistent() && isOpen && Active in fs.files
      ensures log == old(log) + [buf[..accepted]] && cuts == old(cuts)[0 := |log|] && made == old(made)
      ensures currentSize == SatAdd(old(currentSize), accepted)
    {
      ghost var before := fs.files;
      fs.Append(Active, buf, accepted);
      currentSize := SatAdd(currentSize, accepted);
      AppendHolds(before, fs.files, policy.maxBackups, log, cuts, buf[..accepted]);
      AppendFits(policy.maxBytes, policy.maxBackups, log, cuts, made, buf[..accepted]);
      cuts, log := cuts[0 := |log| + 1], log + [buf[..accepted]];
    }
  }
}
