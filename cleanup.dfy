/** The retention reconciler, `cleanup_bucket`: a TTL pass that removes the files older than
    the retention period, then a count-cap pass over the files left that removes the oldest
    ones until at most `max_files` remain. A setting of 0 (or below) turns a pass off. */
module Cleanup {
  import opened Common
  import opened Config
  import opened FileSystem
  import opened MtimeOrder

  /** The TTL rule condemns a file: TTL is on and the file's age is strictly above it. */
  predicate Expired(meta: Meta, retentionSeconds: int, now: int)
    ensures Expired(meta, retentionSeconds, now) ==> retentionSeconds > 0 && meta.mtime < now
  {
    retentionSeconds > 0 && now - meta.mtime > retentionSeconds
  }

  /** What the TTL pass leaves: exactly the files the TTL rule does not condemn, unchanged.
      A file whose age equals the retention period stays. */
  function TtlSweep(files: Files, retentionSeconds: int, now: int): (r: Files)
    ensures SubMap(r, files)
    ensures forall k :: k in files ==> (k in r <==> !Expired(files[k], retentionSeconds, now))
  {
    map k | k in files && !Expired(files[k], retentionSeconds, now) :: files[k]
  }

  /** What the count-cap pass may leave. At or under the cap, or with the cap off, nothing
      changes. Over it, exactly `max_files` files remain, untouched, and no removed file is
      newer than a kept one; how ties in mtime fall is not specified. */
  ghost predicate CapEvicted(before: Files, after: Files, maxFiles: int) {
    if maxFiles <= 0 || |before| <= maxFiles then after == before
    else
      && SubMap(after, before)
      && |after| == maxFiles
      && forall gone, kept :: gone in before && gone !in after && kept in after ==>
           before[gone].mtime <= before[kept].mtime
  }

  /** The outcome of one reconciliation at time `now`: the TTL pass, then the cap pass. */
  ghost predicate Reconciled(before: Files, after: Files, retentionSeconds: int, maxFiles: int, now: int) {
    CapEvicted(TtlSweep(before, retentionSeconds, now), after, maxFiles)
  }

  /** `cleanup_bucket(settings)` at time `now`. */
  method CleanupBucket(dir: BucketDir, settings: Settings, now: int)
    modifies dir
    ensures Reconciled(old(dir.files), dir.files, settings.retentionSeconds, settings.maxFiles, now)
    ensures SubMap(dir.files, old(dir.files))
    ensures forall k :: k in dir.files ==> !Expired(dir.files[k], settings.retentionSeconds, now)
    ensures settings.maxFiles > 0 ==> |dir.files| <= settings.maxFiles
  {
    ghost var before := dir.files;
    var names := dir.ListFiles();
    if |names| == 0 {
      assert before == map[];
      ReconciledBounds(before, dir.files, settings.retentionSeconds, settings.maxFiles, now);
      return;
    }
    if settings.retentionSeconds > 0 {
      TtlPass(dir, names, settings.retentionSeconds, now);
    }
    assert dir.files == TtlSweep(before, settings.retentionSeconds, now);
    CapPass(dir, settings.maxFiles);
    ReconciledBounds(before, dir.files, settings.retentionSeconds, settings.maxFiles, now);
  }

  /** The TTL loop of `cleanup_bucket`, over a listing of the whole bucket. */
  method TtlPass(dir: BucketDir, names: seq<string>, retentionSeconds: int, now: int)
    requires Distinct(names) && forall n :: n in names <==> n in dir.files
    modifies dir
    ensures dir.files == TtlSweep(old(dir.files), retentionSeconds, now)
  {
    for i := 0 to |names|
      invariant forall k :: k in dir.files <==> k in old(dir.files) && !(k in names[..i] && Expired(old(dir.files)[k], retentionSeconds, now))
      invariant SubMap(dir.files, old(dir.files))
    {
      assert names[i] !in names[..i];
      var meta := dir.Stat(names[i]);
      var age := now - meta.mtime;
      if retentionSeconds > 0 && age > retentionSeconds {
        dir.Unlink(names[i]);
      }
      assert names[..i + 1] == names[..i] + [names[i]];
    }
    assert names[..|names|] == names;
  }

  /** The re-listing, sort and eviction loop of `cleanup_bucket`. */
  method CapPass(dir: BucketDir, maxFiles: int)
    modifies dir
    ensures CapEvicted(old(dir.files), dir.files, maxFiles)
  {
    var names := dir.ListFiles();
    if maxFiles <= 0 || |names| <= maxFiles {
      return;
    }
    ghost var before := dir.files;
    var ordered := SortByMtime(names, dir.files, false);
    var overflow := |ordered| - maxFiles;
    EvictPrefix(dir, ordered, overflow);
    OldestGo(before, dir.files, ordered, overflow);
  }

  /** Unlinks the first `count` names of a listing without repeats. */
  method EvictPrefix(dir: BucketDir, ordered: seq<string>, count: nat)
    requires count <= |ordered| && Distinct(ordered) && InFiles(ordered, dir.files)
    modifies dir
    ensures forall k :: k in dir.files <==> k in old(dir.files) && k !in ordered[..count]
    ensures SubMap(dir.files, old(dir.files))
    ensures |dir.files| == |old(dir.files)| - count
  {
    for i := 0 to count
      invariant forall k :: k in dir.files <==> k in old(dir.files) && k !in ordered[..i]
      invariant SubMap(dir.files, old(dir.files))
      invariant |dir.files| == |old(dir.files)| - i
    {
      assert ordered[i] !in ordered[..i];
      assert ordered[i] in dir.files;
      dir.Unlink(ordered[i]);
      assert ordered[..i + 1] == ordered[..i] + [ordered[i]];
    }
  }

  /** Removing a prefix of the oldest-first order removes no file newer than one kept. */
  lemma OldestGo(swept: Files, after: Files, ordered: seq<string>, overflow: nat)
    requires overflow <= |ordered|
    requires InFiles(ordered, swept) && Ordered(ordered, swept, false)
    requires forall k :: k in swept ==> k in ordered
    requires forall k :: k in after <==> k in swept && k !in ordered[..overflow]
    ensures forall gone, kept :: gone in swept && gone !in after && kept in after ==>
              swept[gone].mtime <= swept[kept].mtime
  {
    forall gone, kept | gone in swept && gone !in after && kept in after
      ensures swept[gone].mtime <= swept[kept].mtime
    {
      var a :| 0 <= a < overflow && ordered[a] == gone;
      assert ordered == ordered[..overflow] + ordered[overflow..];
      assert kept in ordered[overflow..];
      var b :| 0 <= b < |ordered| - overflow && ordered[overflow..][b] == kept;
      assert Precedes(swept, ordered[a], ordered[overflow + b], false);
    }
  }

  /** What every reconciliation guarantees: it only removes files, leaves none the TTL rule
      condemns, and leaves at most `max_files` when the cap is on. */
  lemma ReconciledBounds(before: Files, after: Files, retentionSeconds: int, maxFiles: int, now: int)
    requires Reconciled(before, after, retentionSeconds, maxFiles, now)
    ensures SubMap(after, before)
    ensures forall k :: k in after ==> !Expired(after[k], retentionSeconds, now)
    ensures maxFiles > 0 ==> |after| <= maxFiles
  {
  }

  /** Over the cap, the pass removes exactly `len - max_files` files. */
  lemma EvictionCount(before: Files, after: Files, maxFiles: int)
    requires CapEvicted(before, after, maxFiles) && maxFiles > 0 && |before| > maxFiles
    ensures |before.Keys - after.Keys| == |before| - maxFiles
  {
    assert after.Keys <= before.Keys;
    assert before.Keys == (before.Keys - after.Keys) + after.Keys;
  }

  /** With both rules off, or on an empty bucket, reconciliation changes nothing. */
  lemma ReconcileNoOp(before: Files, after: Files, retentionSeconds: int, maxFiles: int, now: int)
    requires Reconciled(before, after, retentionSeconds, maxFiles, now)
    requires (retentionSeconds <= 0 && maxFiles <= 0) || before == map[]
    ensures after == before
  {
    assert TtlSweep(before, retentionSeconds, now) == before;
  }

  /** The record's default settings keep every file. */
  lemma DefaultsKeepEverything(before: Files, after: Files, now: int)
    requires Reconciled(before, after, DefaultSettings().retentionSeconds, DefaultSettings().maxFiles, now)
    ensures after == before
  {
    ReconcileNoOp(before, after, DefaultSettings().retentionSeconds, DefaultSettings().maxFiles, now);
  }

  /** A second reconciliation at the same time removes nothing. */
  lemma ReconcileIdempotent(first: Files, second: Files, third: Files, retentionSeconds: int, maxFiles: int, now: int)
    requires Reconciled(first, second, retentionSeconds, maxFiles, now)
    requires Reconciled(second, third, retentionSeconds, maxFiles, now)
    ensures third == second
  {
    ReconciledBounds(first, second, retentionSeconds, maxFiles, now);
    assert TtlSweep(second, retentionSeconds, now) == second;
  }
}
