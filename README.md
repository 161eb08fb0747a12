# quick-clip bucket lifecycle, in Dafny

quick-clip is a local image bucket: a flat directory of uploaded images behind a small HTTP
service. This project models the part of it that decides what the bucket holds, and proves
properties of that model:

- the retention reconciler `cleanup_bucket`. It runs a TTL pass and then a count-cap pass.
- the ingest guard `save_upload_file`. It covers the content-type allow-list, the choice of
  extension, collision-free name allocation, and the chunked copy with its size cap.
- the endpoints `upload_image`, `list_images`, `serve_image`, `delete_image` and
  `purge_bucket`.
- the configuration helpers `_env_int`, `_env_bool` and `_parse_prefixes`, the prefix fallback
  of `get_settings`, and the `Settings` defaults.

The bucket directory is a class, `FileSystem.BucketDir`. Its one field, `files`, maps each file
name to the file's size and modification time. Each filesystem call the service makes is a
method on that class: `iterdir`, `stat`, `exists`, `unlink(missing_ok=True)`, `open("wb")`,
`write` and `utime`.

The loops of the source are methods with `while` or `for` loops. Each method is proved against
a specification:

- `Cleanup.TtlSweep` and the predicate `Cleanup.CapEvicted` specify the two passes of the
  reconciler.
- `Storage.SaveOutcome` specifies a save.
- `MtimeOrder.IsArrangement` and `Routes.Window` specify the listing; `MtimeOrder.SortByMtime`
  is the sort it calls, proved to produce an arrangement.

The pure parts are functions, with lemmas relating them:

- the Python string operations the configuration relies on (`strip`, `lower`, `split`,
  `int`), in `Text`;
- the two members of `pathlib` the service uses (`.name`, `.suffix`), in `Paths`;
- the configuration readers, in `Config`.

Inputs the service takes from outside are explicit parameters:

- The clock is an integer `now`, one reading per call.
- The random tokens of `secrets.token_urlsafe` are a sequence `tokens`, tried in order.
- `mimetypes.guess_extension` is a function parameter `guess`.
- The upload body is the sequence of chunks that successive `read(8192)` calls return.
- The environment is a map from variable names to values.
- The request's base URL is a string `baseUrl`.

Modules, one per file: `Common`, `Text`, `Paths`, `Config`, `FileSystem`, `MtimeOrder`,
`Cleanup`, `Storage`, `Routes`.

## Model

| member | source | states |
|---|---|---|
| Text.TrimLeft | app/core/config.py:43 | `lstrip` removes leading whitespace, and only whitespace. What remains is a suffix of the input that starts with a non-space character, or is empty. |
| Text.TrimRight | app/core/config.py:43 | `rstrip` removes trailing whitespace, and only whitespace. What remains is a prefix of the input that ends with a non-space character, or is empty. |
| Text.Strip | app/core/config.py:43 | `strip()` returns a contiguous slice of its input. Everything before and after the slice is whitespace, and the slice starts and ends with a non-space character. |
| Text.StripKeeps | app/core/config.py:47 | A non-whitespace character of the input survives `strip()`. |
| Text.StripUnchanged | app/core/config.py:47 | A string without whitespace at either end is its own strip. |
| Text.StripUnique | app/core/config.py:43 | Stripping whitespace padding from around a string whose ends are non-space gives that string back. |
| Text.StripPadding | app/core/config.py:43 | Adding whitespace on either side of a value does not change its strip. |
| Text.StripIsSlice | app/core/config.py:47 | Stripping never introduces a character, so a comma-free token stays comma-free. |
| Text.StripIdempotent | app/core/config.py:47 | Stripping twice is stripping once. |
| Text.Lower | app/core/config.py:43 | `lower()` keeps the length of the string and maps it character by character, each ASCII capital to its small letter and every other character to itself. No ASCII capital is left. |
| Text.StripLower | app/core/config.py:43 | `strip()` and `lower()` commute. |
| Text.LowerIdempotent | app/core/config.py:43 | Lower-casing twice is lower-casing once. |
| Text.Split | app/core/config.py:47 | `split(',')` yields at least one piece, and no piece holds the separator. |
| Text.JoinSplit | app/core/config.py:47 | Joining the pieces of a split with the separator gives the original string. |
| Text.SplitJoin | app/core/config.py:47 | Splitting a join of separator-free pieces gives the pieces back. |
| Text.SplitWithoutSep | app/core/config.py:47 | A string without the separator splits into itself alone. |
| Text.SplitConcat | app/api/routes.py:98 | Splitting `a + sep + b` gives the pieces of `a` followed by the pieces of `b`. |
| Text.ParseIntNeedsDigit | app/core/config.py:34 | Every string `int()` accepts holds a decimal digit, and a negative result needs a minus sign in the string. |
| Text.ParseIntRejectsSeparator | app/core/config.py:34 | `int()` refuses a string holding one of U+001C..U+001F anywhere: they count as whitespace for `strip()`, but `int()` does not skip them. |
| Text.ParseUnsigned | app/core/config.py:34 | `int()` of a string of decimal digits is their value. |
| Text.ParseNegative | app/core/config.py:34 | `int()` of a minus sign followed by decimal digits is minus their value. |
| Text.ParseShowInt | app/core/config.py:34 | `int(str(n)) == n` for every integer `n`. |
| Text.ParseIntRejectsLetter | app/core/config.py:33-36 | `int()` refuses every string that holds an ASCII letter. |
| Paths.Components | app/api/routes.py:98 | The components `pathlib` keeps are pieces of the path that are neither empty nor `.`. |
| Paths.ComponentsComplete | app/api/routes.py:98 | Every piece that is neither empty nor `.` is kept as a component. |
| Paths.ComponentsConcat | app/api/routes.py:98 | Components keep their order: those of `xs + ys` are those of `xs`, then those of `ys`. |
| Paths.Name | app/api/routes.py:98 | `Path(p).name` is never `.` and never holds a '/'. So joining it to the bucket directory gives the directory itself (for ""), its parent (for `..`), or one of its entries. A plain file name is its own `.name`. |
| Paths.NameDropsDirectories | app/api/routes.py:98 | Whatever directories or `..` components precede it, the `.name` of `dirs/x` is `x`. |
| Paths.Suffix | app/services/storage.py:23 | `.suffix` is empty, or a '.' followed by at least one non-dot character that ends the name and is shorter than it. |
| Paths.SuffixAtLastDot | app/services/storage.py:23-25 | The suffix is non-empty exactly when the last dot of the name is neither its first nor its last character, and it then runs from that dot to the end of the name. |
| Paths.SuffixExamples | app/services/storage.py:23-25 | `x.tar.gz` has suffix `.gz`; `.bashrc`, `photo.` and `photo` have none. |
| Paths.SuffixOfJoin | app/services/storage.py:23 | The suffix of `stem + ext` is `ext` when the stem is a non-empty, dot-free string and `ext` has a suffix's shape. |
| Config.EnvInt | app/core/config.py:29-36 | `_env_int` returns the default when the variable is unset. When it is set, the result is that value as an integer exactly when it parses as one; otherwise it is an error naming the variable. |
| Config.EnvIntReadsBack | app/core/config.py:29-36 | A variable set to the decimal text of `n` reads back as `n`. |
| Config.EnvIntRejectsLetters | app/core/config.py:33-36 | A variable whose value holds an ASCII letter is a configuration error naming it. |
| Config.EnvBool | app/core/config.py:39-43 | `_env_bool` returns the default when the variable is unset. Otherwise it is true exactly when the stripped, lower-cased value is one of `1 true t yes y on`. |
| Config.EnvBoolIgnoresCase | app/core/config.py:43 | The boolean reading of a value and of its lower-cased form agree. |
| Config.EnvBoolIgnoresPadding | app/core/config.py:43 | The boolean reading ignores whitespace around the value. |
| Config.GetEnv | app/core/config.py:30 | `os.getenv(name, default)` is the variable's value when it is set, and the default otherwise. |
| Config.DefaultSettings | app/core/config.py:19-26 | The record defaults switch both lifecycle rules off (TTL and count cap both exactly 0), allow only `image/`, and cap uploads at 10 MiB. |
| Config.NonEmpty | app/core/config.py:48 | Dropping the empty tokens keeps every non-empty token and nothing else. |
| Config.NonEmptyConcat | app/core/config.py:48 | The filter works piece by piece: filtering `a + b` is filtering `a`, then `b`. With `NonEmptySingle` this fixes the order and the count of the tokens kept. |
| Config.NonEmptySingle | app/core/config.py:48 | One token passes the filter exactly when it is not empty. |
| Config.ParsePrefixes | app/core/config.py:46-48 | Every prefix that `_parse_prefixes` yields is non-empty, comma-free, and has no whitespace at either end. |
| Config.ParsePrefixesConcat | app/core/config.py:46-48 | A comma splits the parse: the prefixes of `a + "," + b` are those of `a`, then those of `b`, in order. |
| Config.ParsePrefixesToken | app/core/config.py:46-48 | A token without a comma yields its strip, or nothing when the strip is empty. With `ParsePrefixesConcat` this fixes the parse of every string. |
| Config.ParsePaddedToken | app/core/config.py:46-48 | Whitespace around a comma-free token is dropped, and a blank token yields nothing. |
| Config.ParsePrefixesJoin | app/core/config.py:46-48 | Parsing the comma-joined list of such prefixes gives them back, in order. |
| Config.NonEmptyKeeps | app/core/config.py:48 | A list without empty tokens passes the filter unchanged. |
| Config.AllowedPrefixes | app/core/config.py:56-58 | The allow-list is the parsed list when that is non-empty, and `("image/",)` otherwise. So it is never empty and never holds an empty prefix. |
| Config.LoadSettings | app/core/config.py:51-74 | `get_settings` succeeds exactly when each integer variable is unset or an integer. On failure the error names the first bad variable, in the order upload cap, TTL, count cap, port. On success each field is what its reader gives: the allow-list from `LOCAL_BUCKET_ALLOWED_PREFIXES` (default `image/`) with the fallback, the four integers from `_env_int` with their defaults, the host from `os.getenv`, `reload` from `_env_bool`, route prefix `s`. The allow-list is non-empty and has no empty prefix. |
| Config.ParseDefaultPrefixes | app/core/config.py:56 | The default allow-list text `image/` parses to the single prefix `image/`. |
| Config.LoadDefaults | app/core/config.py:14-26 | With nothing set, `get_settings` yields the record defaults: route prefix `s`, `("image/",)`, 10 MiB, TTL 0, count cap 0, host 127.0.0.1, port 8000, no reload. |
| FileSystem.BucketDir.ListFiles | app/services/cleanup.py:11 | The listing holds every file of the bucket exactly once, and nothing else. |
| FileSystem.BucketDir.Stat | app/services/cleanup.py:18 | `stat()` reports the file's recorded size and modification time. |
| FileSystem.BucketDir.Exists | app/services/storage.py:35 | `exists()` holds exactly for the files of the bucket. |
| FileSystem.BucketDir.Unlink | app/services/cleanup.py:20 | `unlink(missing_ok=True)` removes that one file and is a no-op when it is absent. |
| FileSystem.BucketDir.Create | app/services/storage.py:46 | `open("wb")` leaves the file present and empty, stamped now. Every other file is unchanged. |
| FileSystem.BucketDir.Write | app/services/storage.py:59 | Writing a chunk grows the file by the chunk's length and leaves every other file unchanged. |
| FileSystem.BucketDir.Touch | app/services/storage.py:62 | `os.utime(path, None)` re-stamps the file to now and keeps its size. |
| MtimeOrder.Insert | app/services/cleanup.py:26 | Inserting a name into an mtime-ordered list keeps it ordered. It adds exactly that name, and keeps the list free of repeats. |
| MtimeOrder.SortByMtime | app/api/routes.py:52-56 | Sorting by mtime, oldest first or newest first, gives an ordered rearrangement: the same names, the same length, no repeats added. |
| MtimeOrder.InsertCounts | app/services/cleanup.py:26 | Inserting a name adds exactly one occurrence of it to the list. |
| MtimeOrder.SortPermutes | app/api/routes.py:52-56 | Sorting by mtime is a permutation of its input, repeated names included. |
| MtimeOrder.SortArranges | app/services/cleanup.py:26 | Sorting a full listing of the bucket lists every file exactly once, in order. |
| MtimeOrder.ArrangementUnique | app/api/routes.py:52-56 | When no two files share a modification time, there is only one arrangement in each direction, so the sorted listing does not depend on the `iterdir` order. |
| MtimeOrder.TiesAllowBothOrders | app/services/cleanup.py:26 | Two files with the same modification time can be arranged either way round, so the tie order is left open. |
| Cleanup.TtlSweep | app/services/cleanup.py:16-20 | A file stays exactly when TTL is off or its age is at most the retention period; the comparison is a strict `>`. Kept files are unchanged. |
| Cleanup.Expired | app/services/cleanup.py:18-19 | A file the TTL rule condemns has TTL on and an mtime strictly before now. |
| Cleanup.CleanupBucket | app/services/cleanup.py:10-29 | The new bucket is the TTL sweep of the old one, followed by a cap eviction. Only files are removed, and kept files are unchanged. No kept file is older than the retention period. With a count cap, at most `max_files` remain. |
| Cleanup.TtlPass | app/services/cleanup.py:16-20 | The TTL loop leaves exactly the TTL sweep of the bucket. |
| Cleanup.CapPass | app/services/cleanup.py:22-29 | The re-list, sort and eviction loop leaves the bucket unchanged when it is at or under the cap or the cap is off. Otherwise exactly `max_files` files remain, and no removed file is newer than a kept one. |
| Cleanup.EvictPrefix | app/services/cleanup.py:28-29 | Unlinking `files[:overflow]` removes exactly those `overflow` files. |
| Cleanup.OldestGo | app/services/cleanup.py:26-29 | Removing a prefix of the oldest-first order removes no file newer than any kept file. |
| Cleanup.ReconciledBounds | app/services/cleanup.py:16-29 | Every reconciliation only removes files, leaves none past retention, and respects the count cap. |
| Cleanup.EvictionCount | app/services/cleanup.py:27-29 | Over the cap, exactly `len - max_files` files are evicted. |
| Cleanup.ReconcileNoOp | app/services/cleanup.py:12-13 | With both rules off, or on an empty bucket, reconciliation changes nothing. |
| Cleanup.DefaultsKeepEverything | app/services/cleanup.py:16-24 | Under the default settings, reconciliation keeps every file. |
| Cleanup.ReconcileIdempotent | app/services/cleanup.py:16-29 | A second reconciliation at the same time removes nothing. |
| Storage.AnyPrefix | app/services/storage.py:15 | `any(ct.startswith(p) for p in prefixes)` holds exactly when some prefix starts the string. |
| Storage.StartsWithPointwise | app/services/storage.py:15 | `startswith` compares the prefix character by character with the start of the string. |
| Storage.StartsWithBounds | app/services/storage.py:15 | Every string starts with the empty prefix, and no string starts with a longer one. |
| Storage.AssertImageFile | app/services/storage.py:13-19 | The upload passes exactly when its content type starts with an allowed prefix, a missing type counting as "". Otherwise it is refused as an unsupported type. |
| Storage.MissingTypeRejected | app/services/storage.py:14-15 | An upload without a content type is refused by every allow-list of non-empty prefixes. |
| Storage.DefaultAllowsImages | app/services/storage.py:14-15 | The default allow-list accepts exactly the `image/...` content types. |
| Storage.NormalizeExtension | app/services/storage.py:22-28 | The extension is never empty. When the client name has a suffix, it is that suffix lower-cased. Otherwise it is the guessed extension, or `.png` when there is no guess (None or ""). |
| Storage.LowerSuffixShape | app/services/storage.py:23 | Lower-casing keeps a suffix's shape. |
| Storage.ExtensionFromName | app/services/storage.py:23-25 | An extension taken from the client name is a lower-case suffix without '/'. |
| Storage.StoredNameKeepsExtension | app/services/storage.py:22-34 | Uploading under a name the bucket gave out (a URL-safe token plus a lower-case extension) picks that same extension again. |
| Storage.FirstFree | app/services/storage.py:31-36 | The chosen token is the first whose candidate name is free; every earlier candidate is taken. |
| Storage.NextFilename | app/services/storage.py:31-36 | `next_filename` returns the first free `token + extension`. The name is not in the bucket, and every token tried before it gave a taken name. |
| Storage.Received | app/services/storage.py:47-50 | The body is the longest run of non-empty chunks at the start of the stream; the read after it returns nothing. |
| Storage.ReceivedIs | app/services/storage.py:47-50 | When the first `n` reads are non-empty and read `n` is empty, or the stream ends, the body is exactly those `n` chunks. |
| Storage.ReceivedIsAtLeast | app/services/storage.py:47-51 | When the first `n` reads are non-empty, the body starts with them. |
| Storage.TotalStep | app/services/storage.py:51 | Each chunk read adds its length to `bytes_copied`. |
| Storage.TotalPrefix | app/services/storage.py:51 | `bytes_copied` never decreases as chunks are read: a prefix holds no more bytes than the whole. |
| Storage.TooLargeIffCounterExceeds | app/services/storage.py:51-52 | The running count passes `max_upload_bytes` after some chunk exactly when the body is non-empty and larger than the cap. |
| Storage.SaveUploadFile | app/services/storage.py:39-63 | Three outcomes in the model, where the filesystem never fails. A refused type leaves the bucket unchanged, and no name is allocated. A body over the cap ends in a 413 with no file left behind. Otherwise the body is stored whole under the first free name, stamped now, and nothing else changes. |
| Storage.StoreBody | app/services/storage.py:42-63 | After the type check: a body over the cap leaves the bucket as it was and answers 413. Otherwise the first free `token + extension` now holds the whole body, stamped now, and nothing else changes. |
| Storage.CopyBody | app/services/storage.py:45-59 | The copy loop keeps `bytes_copied <= max_upload_bytes` at every write. It either writes the whole body, or unlinks the partial file once the count passes the cap. |
| Storage.OverflowIsTooLarge | app/services/storage.py:51-58 | The count passing the cap at some chunk means the body is too large. |
| Storage.EndFits | app/services/storage.py:47-50 | Reaching the end of the body without passing the cap means the body fits, and the count is its size. |
| Storage.SaveOutcomeFacts | app/services/storage.py:39-63 | A refusal changes nothing. Success happens exactly when the type passes and the body is within the cap or empty, so a body of exactly `max_upload_bytes` is stored. It adds exactly one file: under a name that was free, holding the whole body, stamped now, with every other file unchanged. |
| Routes.UploadImage | app/api/routes.py:31-40 | The upload is reconcile, then save, then reconcile again only after a successful save. The reply carries the file's URL and name. After a successful upload the count cap holds and no file is past retention. A failed upload only removes files. |
| Routes.AdmissibleAfterRemoval | app/api/routes.py:34-35 | The first reconciliation keeps free every name that was free. |
| Routes.FreshUploadSurvives | app/api/routes.py:34-36 | A file stored at `now` survives the reconciliation after it, when every other file is older. |
| Routes.ClampLimit | app/api/routes.py:49 | The limit is clamped to `[1, 200]`, and kept when already inside. |
| Routes.ClampOffset | app/api/routes.py:50 | The offset is clamped to `>= 0`, and kept when already non-negative. |
| Routes.DefaultQueryFirstPage | app/api/routes.py:45 | A request without query parameters (`limit=50`, `offset=0`) gets the first 50 names of the order, or all of them when there are fewer. |
| Routes.FileUrl | app/api/routes.py:38 | A file's URL starts with the base URL and ends with `/` and the file name, with the route prefix filling the middle. |
| Routes.Describe | app/api/routes.py:68-78 | An item carries the file's name, its URL as both link and thumbnail, its size, its mtime, and its remaining TTL. |
| Routes.TtlRemaining | app/api/routes.py:64-66 | With TTL off this is None. Otherwise it is at least 0, is 0 exactly when the age has reached the retention period, and when positive, adding the age gives the retention period. |
| Routes.TtlRemainingAtMostRetention | app/api/routes.py:64-66 | A file not dated in the future has at most the whole retention period left. |
| Routes.ExpiredShowsZero | app/api/routes.py:66 | A file past retention shows 0 seconds left. |
| Routes.TtlRemainingCountsDown | app/api/routes.py:66 | `d` seconds later a file has `d` seconds less left, down to 0. |
| Routes.Window | app/api/routes.py:61 | `sorted[offset : offset + limit]` has at most `limit` names and is the run of them starting at `offset`. It is empty past the end, and short only where it reaches the end. |
| Routes.ListImages | app/api/routes.py:43-92 | The items describe the clamped window of the bucket sorted newest first. `count` is the number of items and at most the limit, and `total` is the number of files. `next_offset = offset + count` and `has_more = next_offset < total`. |
| Routes.DescribeWindow | app/api/routes.py:61-79 | Each item describes its file from that file's own stat, one item per name of the window, in order. |
| Routes.WalkCovers | app/api/routes.py:81-82 | Over one fixed newest-first order, following `next_offset` while `has_more` visits that order from the offset on, each name once and in order. That is the only order the listing can use when no two files share a modification time (`MtimeOrder.ArrangementUnique`). |
| Routes.WalkFromStart | app/api/routes.py:81-82 | Over one fixed newest-first order, paging from offset 0 lists the whole order, and so every file of the bucket once. |
| Routes.ServeImage | app/api/routes.py:95-105 | The answer is the file named by the request's last path component when it exists, and not-found otherwise. |
| Routes.DeleteImage | app/api/routes.py:108-118 | Deleting an existing base name removes exactly that file. An absent one answers not-found and changes nothing. |
| Routes.PurgeBucket | app/api/routes.py:121-130 | After a purge the bucket is empty, and the count is the number of files it held. |
| Routes.UnlinkAll | app/api/routes.py:124-128 | The purge loop removes every listed file and counts each one. |

## Left out

- Text.Lower: models `str.lower()` on ASCII letters only. It matches Python on the truthy words and on ASCII file suffixes, but not on other letters that have lower-case forms.
- Text.ParseInt: takes ASCII decimal digits only. Python's `int()` also accepts other Unicode decimal digits. It also does not model the limit of Python 3.11 and later on integer strings of more than 4300 digits, where `int()` raises ValueError.
- Text.ParseShowInt: holds for every integer here. In Python 3.11 and later, `str(n)` and `int()` refuse numbers of more than 4300 digits, so the round trip holds only below that size.
- Config.EnvIntReadsBack: holds for every integer here, with the same 4300-digit limit in Python as `Text.ParseShowInt`.
- Paths.Suffix: follows the `PurePath.suffix` rule up to Python 3.13. From 3.14, a name ending in a dot has suffix ".".
- Storage.NextFilename: requires that some supplied token gives a free name. The source retries random tokens without a bound, so this stands for that loop eventually succeeding.
- Routes.ServeImage: treats `exists()` as "is a file of the bucket". In the source, a name that resolves to a directory (such as `..`) passes the `exists()` check, and the failure happens later, when the response is sent.
- Routes.UploadImage: the reply names the stored file by its key `token + extension`. The source reports `saved.name`, which is the same for URL-safe tokens and for extensions without '/'.
- Floating-point time: `time()` and `st_mtime` are integers here, so the `int()` truncations of app/api/routes.py:63-66 are the identity.
- Clock: each call reads the clock once. In the source, cleanup reads it once per call, and successive calls within one request may disagree by a fraction of a second.
- Filesystem errors: `open`, `write`, `utime`, `stat` and `unlink` never fail in the model. In the source, an `OSError` from `stream.write` (a full disk, say) skips the unlink of app/services/storage.py:54 and leaves the partial file in the bucket. An `OSError` from `os.utime` leaves the whole file with its write time and the request fails. An `unlink` that raises anything but `FileNotFoundError` stops `cleanup_bucket` partway through its sweep.
- Paging across requests: when files share a modification time, each listing may break the tie differently, since `iterdir` promises no order. Two pages of an unchanged bucket can then show one file twice and miss another. `Routes.WalkCovers` holds for one fixed order only.
- Concurrency and filesystem races, and subdirectories in the bucket: the bucket holds only regular files, and no other process touches it.
- HTTP transport: status codes appear as the error variants `UnsupportedType` (400), `PayloadTooLarge` (413) and `NotFound` (404); the rest is not modelled. This covers response bodies, `FileResponse` and its `guess_type` media type, the `home` and `health` routes.
- The read size of 8192 bytes does not appear: the body is whatever chunks the stream returns.
- `Settings` paths: `root_dir`, `bucket_dir` and `static_dir`, the `mkdir` calls, `load_dotenv` and the `lru_cache` on `get_settings` are not modelled. The environment is a map.
- `mimetypes.guess_extension`: a parameter, not the real table.
- app/main.py and main.py (app construction, CORS, static mount, server start-up) are not part of this model; their lifespan hook only calls `cleanup_bucket`.
- A negative `max_upload_bytes` still lets an empty body be stored as a 0-byte file, since the size test runs only after a non-empty chunk. The model reproduces this.
