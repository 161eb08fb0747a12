/** The bucket service's endpoints: upload, the paginated listing, serving and deleting one
    file by name, and purging the bucket. Each takes the request's inputs, the clock reading
    `now` and, where the answer holds URLs, the request's base URL. */
module Routes {
  import opened Common
  import opened Config
  import opened Paths
  import opened FileSystem
  import opened MtimeOrder
  import opened Cleanup
  import opened Storage

  /** The public URL of a stored file: the base URL, the route prefix, then the name. */
  function FileUrl(baseUrl: string, settings: Settings, name: string): (r: string)
    ensures |r| == |baseUrl| + |settings.routePrefix| + 1 + |name|
    ensures r[..|baseUrl|] == baseUrl && r[|r| - |name| - 1..] == "/" + name
    ensures r[|baseUrl|..|baseUrl| + |settings.routePrefix|] == settings.routePrefix
  {
    baseUrl + settings.routePrefix + "/" + name
  }

  /** The answer to a successful upload. */
  datatype UploadReply = UploadReply(url: string, filename: string)

  /** `upload_image`: reconcile, save, and reconcile again once the file is stored. A refused
      upload skips the second reconciliation. */
  method UploadImage(dir: BucketDir, settings: Settings, baseUrl: string, upload: Upload, tokens: seq<string>,
                     guess: string -> Option<string>, now: int)
    returns (r: Result<UploadReply, HttpError>)
    requires Admissible(dir.files, settings, upload, tokens, guess)
    modifies dir
    ensures exists swept, saved, s ::
              && Reconciled(old(dir.files), swept, settings.retentionSeconds, settings.maxFiles, now)
              && SaveOutcome(swept, saved, s, settings, upload, tokens, guess, now)
              && (s.Ok? ==> && Reconciled(saved, dir.files, settings.retentionSeconds, settings.maxFiles, now)
                            && r == Ok(UploadReply(FileUrl(baseUrl, settings, s.value), s.value)))
              && (s.Err? ==> dir.files == saved && r == Err(s.error))
    ensures r.Ok? ==> settings.maxFiles > 0 ==> |dir.files| <= settings.maxFiles
    ensures r.Ok? ==> forall k :: k in dir.files ==> !Expired(dir.files[k], settings.retentionSeconds, now)
    ensures r.Err? ==> SubMap(dir.files, old(dir.files))
  {
    CleanupBucket(dir, settings, now);
    ghost var swept := dir.files;
    AdmissibleAfterRemoval(old(dir.files), swept, settings, upload, tokens, guess);
    var s := SaveUploadFile(dir, settings, upload, tokens, guess, now);
    ghost var saved := dir.files;
    if s.Err? {
      SaveOutcomeFacts(swept, saved, s, settings, upload, tokens, guess, now);
      r := Err(s.error);
    } else {
      CleanupBucket(dir, settings, now);
      r := Ok(UploadReply(FileUrl(baseUrl, settings, s.value), s.value));
    }
    assert Reconciled(old(dir.files), swept, settings.retentionSeconds, settings.maxFiles, now)
           && SaveOutcome(swept, saved, s, settings, upload, tokens, guess, now);
  }

  /** Removing files keeps free every name that was free. */
  lemma AdmissibleAfterRemoval(before: Files, after: Files, settings: Settings, upload: Upload, tokens: seq<string>,
                               guess: string -> Option<string>)
    requires Admissible(before, settings, upload, tokens, guess) && SubMap(after, before)
    ensures Admissible(after, settings, upload, tokens, guess)
  {
    if AssertImageFile(upload.contentType, settings.allowedMimePrefixes).Ok? {
      var ext := NormalizeExtension(upload.filename, upload.contentType, guess);
      var k :| 0 <= k < |tokens| && tokens[k] + ext !in before;
      assert tokens[k] + ext !in after;
    }
  }

  /** A file just stored at `now` survives the reconciliation that follows it, provided every
      other file is older: it is too young for the TTL rule and the newest for the cap. */
  lemma FreshUploadSurvives(before: Files, after: Files, name: string, retentionSeconds: int, maxFiles: int, now: int)
    requires name in before && before[name].mtime == now
    requires forall k :: k in before && k != name ==> before[k].mtime < now
    requires Reconciled(before, after, retentionSeconds, maxFiles, now)
    ensures name in after
  {
    var swept := TtlSweep(before, retentionSeconds, now);
    assert name in swept;
    if maxFiles > 0 && |swept| > maxFiles {
      assert |after| > 0;
      var kept :| kept in after;
      assert kept == name || swept[kept].mtime < swept[name].mtime;
    }
  }

  /** `max(1, min(limit, 200))`. */
  function ClampLimit(limit: int): (r: int)
    ensures 1 <= r <= 200
    ensures 1 <= limit <= 200 ==> r == limit
    ensures limit > 200 ==> r == 200
    ensures limit < 1 ==> r == 1
  {
    Max(1, Min(limit, 200))
  }

  /** `max(0, offset)`. */
  function ClampOffset(offset: int): (r: int)
    ensures r >= 0
    ensures offset >= 0 ==> r == offset
    ensures offset < 0 ==> r == 0
  {
    Max(0, offset)
  }

  /** The seconds a file has left before the TTL rule condemns it, none when TTL is off:
      the retention period minus the file's age, and 0 once that is used up. */
  function TtlRemaining(retentionSeconds: int, now: int, createdAt: int): (r: Option<int>)
    ensures retentionSeconds <= 0 <==> r == None
    ensures r.Some? ==> r.value >= 0
    ensures r.Some? ==> (r.value == 0 <==> now - createdAt >= retentionSeconds)
    ensures r.Some? && r.value > 0 ==> r.value + (now - createdAt) == retentionSeconds
  {
    if retentionSeconds > 0 then Some(Max(retentionSeconds - (now - createdAt), 0)) else None
  }

  /** A file not dated in the future never has more than the whole retention period left. */
  lemma TtlRemainingAtMostRetention(retentionSeconds: int, now: int, createdAt: int)
    requires retentionSeconds > 0 && createdAt <= now
    ensures TtlRemaining(retentionSeconds, now, createdAt).value <= retentionSeconds
  {
  }

  /** A file the TTL rule condemns shows no time left. */
  lemma ExpiredShowsZero(meta: Meta, retentionSeconds: int, now: int)
    requires Expired(meta, retentionSeconds, now)
    ensures TtlRemaining(retentionSeconds, now, meta.mtime) == Some(0)
  {
  }

  /** The countdown: `d` seconds later a file has `d` seconds less left, down to 0. */
  lemma TtlRemainingCountsDown(retentionSeconds: int, now: int, createdAt: int, d: nat)
    requires retentionSeconds > 0
    ensures TtlRemaining(retentionSeconds, now + d, createdAt).value
            == Max(TtlRemaining(retentionSeconds, now, createdAt).value - d, 0)
  {
  }

  /** One entry of the listing. */
  datatype Item = Item(filename: string, url: string, thumbnailUrl: string, sizeBytes: nat, createdAt: int,
                       ttlSecondsRemaining: Option<int>)

  /** The answer of `list_images`. */
  datatype Page = Page(items: seq<Item>, count: int, total: int, limit: int, offset: int, nextOffset: int,
                       hasMore: bool)

  /** One listing entry: the file's name, its URL twice (as link and as thumbnail), its size,
      its mtime, and the seconds it has left under the TTL rule. */
  function Describe(name: string, meta: Meta, settings: Settings, baseUrl: string, now: int): (r: Item)
    ensures r.filename == name && r.url == r.thumbnailUrl == FileUrl(baseUrl, settings, name)
    ensures r.sizeBytes == meta.size && r.createdAt == meta.mtime
    ensures r.ttlSecondsRemaining == TtlRemaining(settings.retentionSeconds, now, meta.mtime)
  {
    Item(name, FileUrl(baseUrl, settings, name), FileUrl(baseUrl, settings, name), meta.size, meta.mtime,
         TtlRemaining(settings.retentionSeconds, now, meta.mtime))
  }

  /** `order[offset : offset + limit]`: the window of at most `limit` names starting at
      `offset`; it is empty past the end, and short only where it reaches the end. */
  function Window(order: seq<string>, offset: nat, limit: nat): (w: seq<string>)
    ensures |w| <= limit
    ensures w != [] ==> offset + |w| <= |order|
    ensures forall i :: 0 <= i < |w| ==> w[i] == order[offset + i]
    ensures |w| == limit || offset + |w| >= |order|
  {
    if offset >= |order| then []
    else if offset + limit >= |order| then order[offset..]
    else order[offset..offset + limit]
  }

  /** The query defaults of `list_images`: `limit=50`, `offset=0`. */
  const DefaultLimit := 50
  const DefaultOffset := 0

  /** A request without query parameters gets the first 50 names of the order, or all of them
      when there are fewer. */
  lemma DefaultQueryFirstPage(order: seq<string>)
    ensures Window(order, ClampOffset(DefaultOffset), ClampLimit(DefaultLimit)) == order[..Min(DefaultLimit, |order|)]
  {
    WindowIsSlice(order, 0, 50);
  }

  lemma WindowIsSlice(order: seq<string>, offset: nat, limit: nat)
    requires offset <= |order|
    ensures Window(order, offset, limit) == order[offset..Min(offset + limit, |order|)]
  {
  }

  /** `items` describes `names` one by one, each from the file's own stat. */
  predicate Lists(items: seq<Item>, names: seq<string>, files: Files, settings: Settings, baseUrl: string, now: int) {
    && InFiles(names, files)
    && |items| == |names|
    && forall i :: 0 <= i < |items| ==> items[i] == Describe(names[i], files[names[i]], settings, baseUrl, now)
  }

  /** `list_images`: the clamped window of the bucket sorted newest first, with the paging
      figures of the answer. */
  method ListImages(dir: BucketDir, settings: Settings, baseUrl: string, limit: int, offset: int, now: int)
    returns (page: Page)
    ensures page.limit == ClampLimit(limit) && page.offset == ClampOffset(offset)
    ensures page.total == |dir.files| && page.count == |page.items| <= page.limit
    ensures page.nextOffset == page.offset + page.count
    ensures page.hasMore <==> page.nextOffset < page.total
    ensures exists order :: && IsArrangement(order, dir.files, true)
                            && Lists(page.items, Window(order, page.offset, page.limit), dir.files, settings, baseUrl, now)
  {
    var normalizedLimit := ClampLimit(limit);
    var normalizedOffset := ClampOffset(offset);
    var names := dir.ListFiles();
    var sorted := SortByMtime(names, dir.files, true);
    SortArranges(names, dir.files, true);
    var totalFiles := |sorted|;
    var window := Window(sorted, normalizedOffset, normalizedLimit);
    assert InFiles(window, dir.files) by {
      forall i | 0 <= i < |window| ensures window[i] in dir.files {
        assert window[i] == sorted[normalizedOffset + i];
      }
    }
    var items := DescribeWindow(dir, window, settings, baseUrl, now);
    var nextOffset := normalizedOffset + |items|;
    page := Page(items, |items|, totalFiles, normalizedLimit, normalizedOffset, nextOffset, nextOffset < totalFiles);
    assert IsArrangement(sorted, dir.files, true) && Lists(items, window, dir.files, settings, baseUrl, now);
  }

  /** The item-building loop of `list_images`: one stat per name of the window. */
  method DescribeWindow(dir: BucketDir, window: seq<string>, settings: Settings, baseUrl: string, now: int)
    returns (items: seq<Item>)
    requires InFiles(window, dir.files)
    ensures Lists(items, window, dir.files, settings, baseUrl, now)
  {
    items := [];
    for i := 0 to |window|
      invariant |items| == i
      invariant forall j :: 0 <= j < i ==> items[j] == Describe(window[j], dir.files[window[j]], settings, baseUrl, now)
    {
      var meta := dir.Stat(window[i]);
      items := items + [Describe(window[i], meta, settings, baseUrl, now)];
    }
  }

  /** A client paging from `offset` by following `next_offset` while `has_more`: the
      windows it receives, one after another. */
  function Walk(order: seq<string>, offset: nat, limit: nat): seq<string>
    requires limit >= 1
    decreases |order| - offset
  {
    var w := Window(order, offset, limit);
    if offset + |w| < |order| then w + Walk(order, offset + |w|, limit) else w
  }

  /** Paging from `offset` to the end visits every name from there on once, in order. */
  lemma {:induction false} WalkCovers(order: seq<string>, offset: nat, limit: nat)
    requires limit >= 1 && offset <= |order|
    ensures Walk(order, offset, limit) == order[offset..]
    decreases |order| - offset
  {
    var n := Min(offset + limit, |order|);
    WindowIsSlice(order, offset, limit);
    if n < |order| {
      WalkCovers(order, n, limit);
      assert order[offset..] == order[offset..n] + order[n..];
    }
  }

  /** Paging from the start lists the whole bucket. */
  lemma WalkFromStart(order: seq<string>, limit: nat)
    requires limit >= 1
    ensures Walk(order, 0, limit) == order
  {
    WalkCovers(order, 0, limit);
  }

  /** `serve_image`: the file named by the last component of the request, or not found.
      The answer names the served file. */
  method ServeImage(dir: BucketDir, filename: string) returns (r: Result<string, HttpError>)
    ensures Name(filename) in dir.files ==> r == Ok(Name(filename))
    ensures Name(filename) !in dir.files ==> r == Err(NotFound)
    ensures r.Ok? ==> '/' !in r.value
  {
    var safeName := Name(filename);
    var present := dir.Exists(safeName);
    if !present {
      return Err(NotFound);
    }
    return Ok(safeName);
  }

  /** `delete_image`: removes exactly the file named by the last component of the request,
      or answers not found and changes nothing. */
  method DeleteImage(dir: BucketDir, filename: string) returns (r: Result<string, HttpError>)
    modifies dir
    ensures Name(filename) in old(dir.files) ==> r == Ok(Name(filename)) && dir.files == old(dir.files) - {Name(filename)}
    ensures Name(filename) !in old(dir.files) ==> r == Err(NotFound) && dir.files == old(dir.files)
  {
    var safeName := Name(filename);
    var present := dir.Exists(safeName);
    if !present {
      return Err(NotFound);
    }
    dir.Unlink(safeName);
    return Ok(safeName);
  }

  /** `purge_bucket`: unlinks every file, counting them, then reconciles the empty bucket. */
  method PurgeBucket(dir: BucketDir, settings: Settings, now: int) returns (removed: nat)
    modifies dir
    ensures dir.files == map[]
    ensures removed == |old(dir.files)|
  {
    var files := dir.ListFiles();
    removed := UnlinkAll(dir, files);
    assert removed == |old(dir.files)|;
    ghost var emptied := dir.files;
    CleanupBucket(dir, settings, now);
    ReconcileNoOp(emptied, dir.files, settings.retentionSeconds, settings.maxFiles, now);
  }

  /** The removal loop of `purge_bucket`, over a listing of the whole bucket. */
  method UnlinkAll(dir: BucketDir, names: seq<string>) returns (removed: nat)
    requires forall n :: n in dir.files ==> n in names
    modifies dir
    ensures dir.files == map[]
    ensures removed == |names|
  {
    removed := 0;
    for i := 0 to |names|
      invariant removed == i
      invariant forall k :: k in dir.files ==> k in names[i..]
    {
      assert names[i..] == [names[i]] + names[i + 1..];
      dir.Unlink(names[i]);
      removed := removed + 1;
    }
    assert dir.files.Keys == {};
  }
}
