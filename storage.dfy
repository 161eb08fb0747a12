/** The ingest guard: the content-type allow-list, the choice of extension, collision-free
    name allocation and the chunked copy with its size cap (`save_upload_file` and helpers). */
module Storage {
  import opened Common
  import opened Text
  import opened Paths
  import opened Config
  import opened FileSystem

  /** What the service sees of one multipart upload: its declared content type, its client
      file name, and its body as the successive results of `file.read(8192)`. A read that
      returns no bytes ends the body. */
  datatype Upload = Upload(contentType: Option<string>, filename: Option<string>, chunks: seq<seq<bv8>>)

  /** `s.startswith(prefix)`. */
  predicate StartsWith(s: string, prefix: string) {
    |prefix| <= |s| && s[..|prefix|] == prefix
  }

  /** `startswith` compares the prefix character by character with the start of the string. */
  lemma StartsWithPointwise(s: string, prefix: string)
    ensures StartsWith(s, prefix) <==> |prefix| <= |s| && forall i :: 0 <= i < |prefix| ==> s[i] == prefix[i]
  {
    if |prefix| <= |s| && forall i :: 0 <= i < |prefix| ==> s[i] == prefix[i] {
      assert s[..|prefix|] == prefix;
    }
  }

  /** Every string starts with the empty prefix, and a string longer than `s` never starts it. */
  lemma StartsWithBounds(s: string, prefix: string)
    ensures StartsWith(s, "")
    ensures |prefix| > |s| ==> !StartsWith(s, prefix)
  {
  }

  /** `any(s.startswith(p) for p in prefixes)`. */
  function AnyPrefix(s: string, prefixes: seq<string>): (r: bool)
    ensures r <==> exists i :: 0 <= i < |prefixes| && StartsWith(s, prefixes[i])
    decreases |prefixes|
  {
    if prefixes == [] then false
    else
      var rest := AnyPrefix(s, prefixes[1..]);
      assert forall i :: 0 <= i < |prefixes| - 1 ==> prefixes[1..][i] == prefixes[i + 1];
      StartsWith(s, prefixes[0]) || rest
  }

  /** `assert_image_file`: the upload passes when its content type, read as "" when absent,
      starts with one of the allowed prefixes, and is refused as unsupported otherwise. */
  function AssertImageFile(contentType: Option<string>, allowed: seq<string>): (r: Result<(), HttpError>)
    ensures r.Ok? <==> exists i :: 0 <= i < |allowed| && StartsWith(OrDefault(contentType, ""), allowed[i])
    ensures r.Err? ==> r.error == UnsupportedType
  {
    if AnyPrefix(OrDefault(contentType, ""), allowed) then Ok(()) else Err(UnsupportedType)
  }

  /** An upload without a content type is refused by every allow-list of non-empty prefixes,
      in particular by every allow-list the configuration can produce. */
  lemma MissingTypeRejected(allowed: seq<string>)
    requires forall i :: 0 <= i < |allowed| ==> allowed[i] != ""
    ensures AssertImageFile(None, allowed) == Err(UnsupportedType)
  {
    assert OrDefault(None, "") == "";
    forall i | 0 <= i < |allowed|
      ensures !StartsWith("", allowed[i])
    {
      assert |allowed[i]| > 0;
    }
  }

  /** The default allow-list takes exactly the `image/...` content types. */
  lemma DefaultAllowsImages(contentType: string)
    ensures AssertImageFile(Some(contentType), DefaultSettings().allowedMimePrefixes).Ok?
            <==> StartsWith(contentType, "image/")
  {
    assert DefaultSettings().allowedMimePrefixes[0] == "image/";
    if contentType == "" {
      assert !StartsWith(contentType, "image/");
    }
  }

  /** `normalize_extension`: the lower-cased suffix of the client file name when it has one;
      otherwise the extension guessed from the content type, or ".png" when there is no guess.
      `guess` stands for `mimetypes.guess_extension`. */
  function NormalizeExtension(filename: Option<string>, contentType: Option<string>, guess: string -> Option<string>): (r: string)
    ensures r != ""
    ensures Suffix(Name(OrDefault(filename, ""))) != "" ==> r == Lower(Suffix(Name(OrDefault(filename, ""))))
    ensures Suffix(Name(OrDefault(filename, ""))) == "" ==> r == OrDefault(guess(OrDefault(contentType, "")), ".png")
  {
    var original := Lower(Suffix(Name(OrDefault(filename, ""))));
    if original != "" then original
    else OrDefault(guess(OrDefault(contentType, "")), ".png")
  }

  /** Lower-casing keeps the shape of a suffix, since it maps no letter to a dot. */
  lemma LowerSuffixShape(e: string)
    requires IsSuffixShape(e)
    ensures IsSuffixShape(Lower(e))
  {
    var l := Lower(e);
    forall j | 1 <= j < |l|
      ensures l[j] != '.'
    {
      assert e[j] in e[1..];
    }
  }

  /** An extension taken from the client file name is a lower-case suffix without a '/'. */
  lemma ExtensionFromName(filename: Option<string>, contentType: Option<string>, guess: string -> Option<string>)
    requires Suffix(Name(OrDefault(filename, ""))) != ""
    ensures var r := NormalizeExtension(filename, contentType, guess);
            IsSuffixShape(r) && '/' !in r && Lower(r) == r
  {
    var s := Suffix(Name(OrDefault(filename, "")));
    LowerSuffixShape(s);
    LowerIdempotent(s);
    var name := Name(OrDefault(filename, ""));
    assert s == name[|name| - |s|..];
    forall j | 0 <= j < |s|
      ensures Lower(s)[j] != '/'
    {
      assert s[j] == name[|name| - |s| + j];
    }
  }

  /** The characters `secrets.token_urlsafe` draws from. */
  predicate IsUrlSafe(c: char) {
    'a' <= c <= 'z' || 'A' <= c <= 'Z' || '0' <= c <= '9' || c == '-' || c == '_'
  }

  /** A `secrets.token_urlsafe(6)` token: six random bytes in unpadded URL-safe base64. */
  predicate IsToken(t: string) {
    |t| == 8 && forall i :: 0 <= i < |t| ==> IsUrlSafe(t[i])
  }

  /** A stored name keeps its extension: uploading a file under the name the bucket gave it
      picks the same extension again. */
  lemma StoredNameKeepsExtension(token: string, ext: string, contentType: Option<string>, guess: string -> Option<string>)
    requires IsToken(token) && IsSuffixShape(ext) && '/' !in ext && Lower(ext) == ext
    ensures NormalizeExtension(Some(token + ext), contentType, guess) == ext
  {
    var name := token + ext;
    assert '.' !in token by {
      forall j | 0 <= j < |token| ensures token[j] != '.' { assert IsUrlSafe(token[j]); }
    }
    assert '/' !in name by {
      forall j | 0 <= j < |name| ensures name[j] != '/' {
        if j < |token| { assert IsUrlSafe(token[j]); } else { assert name[j] == ext[j - |token|]; }
      }
    }
    assert |name| > 1;
    assert OrDefault(Some(name), "") == name;
    assert Name(name) == name;
    SuffixOfJoin(token, ext);
  }

  /** Some token, joined with the extension, names no file of the bucket. */
  predicate TokensSuffice(files: Files, ext: string, tokens: seq<string>) {
    exists k :: 0 <= k < |tokens| && tokens[k] + ext !in files
  }

  /** The index of the first token whose candidate name is free. */
  function FirstFree(files: Files, ext: string, tokens: seq<string>): (i: nat)
    requires TokensSuffice(files, ext, tokens)
    ensures i < |tokens| && tokens[i] + ext !in files
    ensures forall j :: 0 <= j < i ==> tokens[j] + ext in files
    decreases |tokens|
  {
    if tokens[0] + ext !in files then 0
    else
      assert TokensSuffice(files, ext, tokens[1..]) by {
        var k :| 0 <= k < |tokens| && tokens[k] + ext !in files;
        assert tokens[1..][k - 1] == tokens[k];
      }
      var rest := FirstFree(files, ext, tokens[1..]);
      assert forall j :: 1 <= j <= rest ==> tokens[j] == tokens[1..][j - 1];
      1 + rest
  }

  /** `next_filename`: tries the tokens in turn and returns the first candidate name
      `token + extension` that does not exist yet, with the number of tokens passed over. */
  method NextFilename(dir: BucketDir, ext: string, tokens: seq<string>) returns (name: string, used: nat)
    requires TokensSuffice(dir.files, ext, tokens)
    ensures used == FirstFree(dir.files, ext, tokens) && name == tokens[used] + ext
    ensures name !in dir.files
    ensures forall j :: 0 <= j < used ==> tokens[j] + ext in dir.files
  {
    used := 0;
    while true
      invariant used <= FirstFree(dir.files, ext, tokens)
      decreases FirstFree(dir.files, ext, tokens) - used
    {
      name := tokens[used] + ext;
      var taken := dir.Exists(name);
      if !taken {
        return;
      }
      used := used + 1;
    }
  }

  /** The chunks read before the first empty one: the body the copy loop sees. */
  function Received(chunks: seq<seq<bv8>>): (r: seq<seq<bv8>>)
    ensures |r| <= |chunks| && r == chunks[..|r|]
    ensures forall i :: 0 <= i < |r| ==> r[i] != []
    ensures |r| < |chunks| ==> chunks[|r|] == []
    decreases |chunks|
  {
    if chunks == [] || chunks[0] == [] then []
    else [chunks[0]] + Received(chunks[1..])
  }

  /** The body is the first `n` chunks when those are non-empty and the next read is empty. */
  lemma {:induction false} ReceivedIs(chunks: seq<seq<bv8>>, n: nat)
    requires n <= |chunks| && forall j :: 0 <= j < n ==> chunks[j] != []
    requires n == |chunks| || chunks[n] == []
    ensures Received(chunks) == chunks[..n]
    decreases n
  {
    if n > 0 {
      assert forall j :: 0 <= j < n - 1 ==> chunks[1..][j] == chunks[j + 1];
      ReceivedIs(chunks[1..], n - 1);
      assert chunks[..n] == [chunks[0]] + chunks[1..][..n - 1];
    }
  }

  /** The number of bytes in a sequence of chunks. */
  function TotalLength(chunks: seq<seq<bv8>>): nat
    decreases |chunks|
  {
    if chunks == [] then 0 else TotalLength(chunks[..|chunks| - 1]) + |chunks[|chunks| - 1]|
  }

  /** Reading one more chunk adds its length to the count. */
  lemma TotalStep(chunks: seq<seq<bv8>>, i: nat)
    requires i < |chunks|
    ensures TotalLength(chunks[..i + 1]) == TotalLength(chunks[..i]) + |chunks[i]|
  {
    assert chunks[..i + 1][..i] == chunks[..i];
  }

  /** A prefix of the chunks holds no more bytes than all of them. */
  lemma {:induction false} TotalPrefix(chunks: seq<seq<bv8>>, n: nat)
    requires n <= |chunks|
    ensures TotalLength(chunks[..n]) <= TotalLength(chunks)
    decreases |chunks|
  {
    if n < |chunks| {
      var init := chunks[..|chunks| - 1];
      assert init[..n] == chunks[..n];
      TotalPrefix(init, n);
    } else {
      assert chunks[..n] == chunks;
    }
  }

  /** The size of the stored body. */
  function UploadSize(chunks: seq<seq<bv8>>): nat {
    TotalLength(Received(chunks))
  }

  /** The running byte count passes the cap after some chunk of the body. */
  predicate CounterExceeds(chunks: seq<seq<bv8>>, maxUploadBytes: int) {
    exists n :: 1 <= n <= |Received(chunks)| && TotalLength(Received(chunks)[..n]) > maxUploadBytes
  }

  /** The copy loop's abort condition in closed form: a non-empty body larger than the cap.
      An empty body is stored whatever the cap. */
  predicate TooLarge(chunks: seq<seq<bv8>>, maxUploadBytes: int) {
    UploadSize(chunks) > maxUploadBytes && UploadSize(chunks) > 0
  }

  /** The running count passes the cap exactly when a non-empty body is larger than the cap. */
  lemma TooLargeIffCounterExceeds(chunks: seq<seq<bv8>>, maxUploadBytes: int)
    ensures TooLarge(chunks, maxUploadBytes) <==> CounterExceeds(chunks, maxUploadBytes)
  {
    var body := Received(chunks);
    if TooLarge(chunks, maxUploadBytes) {
      assert body != [];
      assert body[..|body|] == body;
    }
    if CounterExceeds(chunks, maxUploadBytes) {
      var n :| 1 <= n <= |body| && TotalLength(body[..n]) > maxUploadBytes;
      TotalPrefix(body, n);
      assert body[..n] != [];
    }
  }

  /** What the caller must supply for the call to end: when the type passes, some token
      gives a free name. */
  predicate Admissible(files: Files, settings: Settings, upload: Upload, tokens: seq<string>, guess: string -> Option<string>) {
    AssertImageFile(upload.contentType, settings.allowedMimePrefixes).Ok? ==>
      TokensSuffice(files, NormalizeExtension(upload.filename, upload.contentType, guess), tokens)
  }

  /** The outcome of `save_upload_file` on the bucket `before`, leaving `after`: a refused
      type or an over-size body leaves the bucket as it was; otherwise the body is stored
      under the first free name, stamped `now`. */
  predicate SaveOutcome(before: Files, after: Files, r: Result<string, HttpError>, settings: Settings,
                        upload: Upload, tokens: seq<string>, guess: string -> Option<string>, now: int)
  {
    if AssertImageFile(upload.contentType, settings.allowedMimePrefixes).Err? then
      r == Err(UnsupportedType) && after == before
    else if TooLarge(upload.chunks, settings.maxUploadBytes) then
      r == Err(PayloadTooLarge(settings.maxUploadBytes)) && after == before
    else
      var ext := NormalizeExtension(upload.filename, upload.contentType, guess);
      && TokensSuffice(before, ext, tokens)
      && r == Ok(tokens[FirstFree(before, ext, tokens)] + ext)
      && after == before[r.value := Meta(UploadSize(upload.chunks), now)]
  }

  /** `save_upload_file`. The body is copied chunk by chunk; once the running count passes
      `max_upload_bytes` the partial file is unlinked and the upload refused. */
  method SaveUploadFile(dir: BucketDir, settings: Settings, upload: Upload, tokens: seq<string>,
                        guess: string -> Option<string>, now: int)
    returns (r: Result<string, HttpError>)
    requires Admissible(dir.files, settings, upload, tokens, guess)
    modifies dir
    ensures SaveOutcome(old(dir.files), dir.files, r, settings, upload, tokens, guess, now)
  {
    var admitted := AssertImageFile(upload.contentType, settings.allowedMimePrefixes);
    if admitted.Err? {
      return Err(admitted.error);
    }
    var ext := NormalizeExtension(upload.filename, upload.contentType, guess);
    r := StoreBody(dir, ext, tokens, upload.chunks, settings.maxUploadBytes, now);
  }

  /** The part of `save_upload_file` after the type check: allocate the name, copy the body,
      and stamp the file, or leave no file behind when the body is too large. */
  method StoreBody(dir: BucketDir, ext: string, tokens: seq<string>, chunks: seq<seq<bv8>>, maxUploadBytes: int,
                   now: int)
    returns (r: Result<string, HttpError>)
    requires TokensSuffice(dir.files, ext, tokens)
    modifies dir
    ensures TooLarge(chunks, maxUploadBytes) ==> r == Err(PayloadTooLarge(maxUploadBytes)) && dir.files == old(dir.files)
    ensures !TooLarge(chunks, maxUploadBytes) ==>
              && r == Ok(tokens[FirstFree(old(dir.files), ext, tokens)] + ext)
              && dir.files == old(dir.files)[r.value := Meta(UploadSize(chunks), now)]
  {
    var target, used := NextFilename(dir, ext, tokens);
    dir.Create(target, now);
    var tooLarge := CopyBody(dir, target, chunks, maxUploadBytes, now);
    if tooLarge {
      assert dir.files == old(dir.files);
      return Err(PayloadTooLarge(maxUploadBytes));
    }
    dir.Touch(target, now);
    return Ok(target);
  }

  /** The copy loop of `save_upload_file`, writing into the just-created empty `target`:
      either the whole body is written, or the running count passes the cap and `target`
      is unlinked. */
  method CopyBody(dir: BucketDir, target: string, chunks: seq<seq<bv8>>, maxUploadBytes: int, now: int)
    returns (tooLarge: bool)
    requires target in dir.files && dir.files[target] == Meta(0, now)
    modifies dir
    ensures tooLarge == TooLarge(chunks, maxUploadBytes)
    ensures tooLarge ==> dir.files == old(dir.files) - {target}
    ensures !tooLarge ==> dir.files == old(dir.files)[target := Meta(UploadSize(chunks), now)]
  {
    var copied: nat := 0;
    var i := 0;
    while true
      invariant i <= |chunks|
      invariant forall j :: 0 <= j < i ==> chunks[j] != []
      invariant copied == TotalLength(chunks[..i])
      invariant i > 0 ==> copied <= maxUploadBytes
      invariant dir.files == old(dir.files)[target := Meta(copied, now)]
      decreases |chunks| - i
    {
      var chunk := if i < |chunks| then chunks[i] else [];
      if chunk == [] {
        break;
      }
      TotalStep(chunks, i);
      copied := copied + |chunk|;
      if copied > maxUploadBytes {
        OverflowIsTooLarge(chunks, i, maxUploadBytes);
        dir.Unlink(target);
        return true;
      }
      dir.Write(target, chunk, now);
      i := i + 1;
    }
    EndFits(chunks, i, maxUploadBytes);
    return false;
  }

  /** The count passing the cap at chunk `i` means the body is too large. */
  lemma OverflowIsTooLarge(chunks: seq<seq<bv8>>, i: nat, maxUploadBytes: int)
    requires i < |chunks| && forall j :: 0 <= j <= i ==> chunks[j] != []
    requires TotalLength(chunks[..i + 1]) > maxUploadBytes
    ensures TooLarge(chunks, maxUploadBytes)
  {
    ReceivedIsAtLeast(chunks, i + 1);
    TotalPrefix(Received(chunks), i + 1);
  }

  /** Reaching the end of the body with the count within the cap (or nothing read) means the
      body is not too large, and the count is its size. */
  lemma EndFits(chunks: seq<seq<bv8>>, i: nat, maxUploadBytes: int)
    requires i <= |chunks| && forall j :: 0 <= j < i ==> chunks[j] != []
    requires i == |chunks| || chunks[i] == []
    requires i > 0 ==> TotalLength(chunks[..i]) <= maxUploadBytes
    ensures UploadSize(chunks) == TotalLength(chunks[..i])
    ensures !TooLarge(chunks, maxUploadBytes)
  {
    ReceivedIs(chunks, i);
  }

  /** When the first `n` chunks are non-empty, the body starts with them. */
  lemma {:induction false} ReceivedIsAtLeast(chunks: seq<seq<bv8>>, n: nat)
    requires n <= |chunks| && forall j :: 0 <= j < n ==> chunks[j] != []
    ensures n <= |Received(chunks)| && Received(chunks)[..n] == chunks[..n]
    decreases n
  {
    if n > 0 {
      assert forall j :: 0 <= j < n - 1 ==> chunks[1..][j] == chunks[j + 1];
      ReceivedIsAtLeast(chunks[1..], n - 1);
    }
  }

  /** What a save guarantees: the only outcomes are the two refusals, which change nothing,
      and a success, which adds exactly one file under a name that was free, holding the whole
      body, within the cap unless it is empty, stamped `now`. A body of exactly the cap is
      stored. */
  lemma SaveOutcomeFacts(before: Files, after: Files, r: Result<string, HttpError>, settings: Settings,
                         upload: Upload, tokens: seq<string>, guess: string -> Option<string>, now: int)
    requires SaveOutcome(before, after, r, settings, upload, tokens, guess, now)
    ensures r.Err? ==> after == before
    ensures r == Err(UnsupportedType) <==> AssertImageFile(upload.contentType, settings.allowedMimePrefixes).Err?
    ensures r.Ok? <==> AssertImageFile(upload.contentType, settings.allowedMimePrefixes).Ok?
                       && (UploadSize(upload.chunks) <= settings.maxUploadBytes || UploadSize(upload.chunks) == 0)
    ensures r.Ok? ==> && r.value !in before
                      && after.Keys == before.Keys + {r.value}
                      && (forall k :: k in before ==> after[k] == before[k])
                      && after[r.value] == Meta(UploadSize(upload.chunks), now)
  {
  }
}
