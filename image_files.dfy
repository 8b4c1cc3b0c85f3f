/**
 * The image attachments of the chat prompt: the list kept by `useImageFiles`
 * (insert or merge by `_id`, removal, link load results, clearing, the visible
 * subset), the acceptance test of `useLocalFileUploader`, the entries a local
 * upload produces, and the `disabled` rule shared by the clipboard and
 * drag-and-drop uploaders.
 */
module ImageUploader {
  import opened Wrappers
  import opened JsText

  datatype TransferMethod = LocalFile | RemoteUrl

  /** The two `File` properties the uploader reads. */
  datatype FileInfo = FileInfo(mimeType: string, size: int)

  /**
   * An `ImageFile`. `None` stands for an optional key that is absent, so
   * that object spread can be modelled key by key.
   */
  datatype ImageFile = ImageFile(
    id: string,
    transferMethod: TransferMethod,
    fileId: Option<string>,
    file: Option<FileInfo>,
    url: Option<string>,
    base64Url: Option<string>,
    progress: int,          // 0..100, -1 marks a failure
    deleted: Option<bool>)

  /** The vision settings of the chat app. */
  datatype VisionSettings = VisionSettings(
    enabled: bool,
    numberLimits: int,
    transferMethods: seq<TransferMethod>,
    imageFileSizeLimit: Option<int>)  // MB

  // ---------------------------------------------------------------------
  // The list, as values

  function Pick<T>(update: Option<T>, current: Option<T>): Option<T>
  {
    if update.Some? then update else current
  }

  /** `{ ...base, ...update }`: each key present in `update` wins, the others keep their old value. */
  function Merge(base: ImageFile, update: ImageFile): ImageFile
  {
    ImageFile(update.id, update.transferMethod, Pick(update.fileId, base.fileId), Pick(update.file, base.file),
              Pick(update.url, base.url), Pick(update.base64Url, base.base64Url), update.progress,
              Pick(update.deleted, base.deleted))
  }

  /** Merging the same update twice is merging it once; merging an entry into itself changes nothing. */
  lemma MergeIdempotent(base: ImageFile, update: ImageFile)
    ensures Merge(Merge(base, update), update) == Merge(base, update)
    ensures Merge(base, base) == base
  {
  }

  /** `files.findIndex(file => file._id === id)`. */
  function FindIndex(files: seq<ImageFile>, id: string): (r: int)
    ensures -1 <= r < |files|
    ensures 0 <= r ==> files[r].id == id && forall j :: 0 <= j < r ==> files[j].id != id
    ensures r == -1 <==> forall j :: 0 <= j < |files| ==> files[j].id != id
  {
    if files == [] then -1
    else if files[0].id == id then 0
    else
      var k := FindIndex(files[1..], id);
      if k == -1 then -1 else k + 1
  }

  /**
   * `handleUpload`: an entry whose `_id` is already listed is merged into the
   * first such entry in place; a new `_id` is appended.
   */
  function Upserted(files: seq<ImageFile>, update: ImageFile): (r: seq<ImageFile>)
    ensures var i := FindIndex(files, update.id);
            if 0 <= i then
              && |r| == |files|
              && r[i] == Merge(files[i], update)
              && forall j :: 0 <= j < |files| && j != i ==> r[j] == files[j]
            else
              && |r| == |files| + 1
              && r[..|files|] == files
              && r[|files|] == update
  {
    var i := FindIndex(files, update.id);
    if i > -1 then files[..i] + [Merge(files[i], update)] + files[i + 1..]
    else files + [update]
  }

  /** `handleRemove`: every entry with that `_id` goes, the rest stay. */
  function Removed(files: seq<ImageFile>, id: string): (r: seq<ImageFile>)
    ensures |r| <= |files|
    ensures forall f :: f in r <==> f in files && f.id != id
  {
    if files == [] then []
    else (if files[0].id != id then [files[0]] else []) + Removed(files[1..], id)
  }

  /** The link load handlers: the first entry with that `_id` gets the new progress. */
  function WithProgress(files: seq<ImageFile>, id: string, progress: int): (r: seq<ImageFile>)
    ensures |r| == |files|
    ensures forall j :: 0 <= j < |files| ==> r[j].id == files[j].id
    ensures var i := FindIndex(files, id);
            forall j :: 0 <= j < |files| ==>
              r[j] == if j == i then files[j].(progress := progress) else files[j]
  {
    var i := FindIndex(files, id);
    if i > -1 then files[i := files[i].(progress := progress)]
    else files
  }

  /** `filteredFiles`: the entries whose `deleted` flag is not set. */
  function Visible(files: seq<ImageFile>): (r: seq<ImageFile>)
    ensures |r| <= |files|
    ensures forall f :: f in r <==> f in files && f.deleted != Some(true)
  {
    if files == [] then []
    else (if files[0].deleted != Some(true) then [files[0]] else []) + Visible(files[1..])
  }

  // ---------------------------------------------------------------------
  // Properties of the list operations

  /** Removal keeps the relative order of what stays: it distributes over concatenation. */
  lemma {:induction false} RemovedAppend(a: seq<ImageFile>, b: seq<ImageFile>, id: string)
    ensures Removed(a + b, id) == Removed(a, id) + Removed(b, id)
  {
    if a != [] {
      assert (a + b)[0] == a[0];
      assert (a + b)[1..] == a[1..] + b;
      RemovedAppend(a[1..], b, id);
      var h := if a[0].id != id then [a[0]] else [];
      assert Removed(a + b, id) == h + Removed(a[1..] + b, id);
      assert Removed(a, id) == h + Removed(a[1..], id);
    } else {
      assert a + b == b;
    }
  }

  /** Removing an `_id` that is not listed changes nothing. */
  lemma {:induction false} RemovedAbsent(files: seq<ImageFile>, id: string)
    requires FindIndex(files, id) == -1
    ensures Removed(files, id) == files
  {
    if files != [] {
      assert files[0].id != id;
      assert forall j :: 0 <= j < |files| - 1 ==> files[1..][j].id == files[j + 1].id;
      RemovedAbsent(files[1..], id);
    }
  }

  /** The visible entries keep their relative order. */
  lemma {:induction false} VisibleAppend(a: seq<ImageFile>, b: seq<ImageFile>)
    ensures Visible(a + b) == Visible(a) + Visible(b)
  {
    if a != [] {
      assert (a + b)[0] == a[0];
      assert (a + b)[1..] == a[1..] + b;
      VisibleAppend(a[1..], b);
      var h := if a[0].deleted != Some(true) then [a[0]] else [];
      assert Visible(a + b) == h + (Visible(a[1..]) + Visible(b));
    } else {
      assert a + b == b;
    }
  }

  /** Replacing the first entry with an `_id` by one with the same `_id` keeps it the first. */
  lemma FindIndexAfterUpdate(files: seq<ImageFile>, id: string, v: ImageFile)
    requires 0 <= FindIndex(files, id) && v.id == id
    ensures FindIndex(files[FindIndex(files, id) := v], id) == FindIndex(files, id)
  {
    var i := FindIndex(files, id);
    var r := FindIndex(files[i := v], id);
    assert files[i := v][i].id == id;
  }

  /** An appended entry with a new `_id` is the first with that `_id`. */
  lemma FindIndexAfterAppend(files: seq<ImageFile>, v: ImageFile)
    requires FindIndex(files, v.id) == -1
    ensures FindIndex(files + [v], v.id) == |files|
  {
    var r := FindIndex(files + [v], v.id);
    assert (files + [v])[|files|].id == v.id;
  }

  /** Uploading the same entry twice leaves the list as after the first upload. */
  lemma UpsertIdempotent(files: seq<ImageFile>, update: ImageFile)
    ensures Upserted(Upserted(files, update), update) == Upserted(files, update)
  {
    var once := Upserted(files, update);
    var i := FindIndex(files, update.id);
    if i >= 0 {
      var m := Merge(files[i], update);
      assert once == files[i := m];
      FindIndexAfterUpdate(files, update.id, m);
      MergeIdempotent(files[i], update);
      assert Upserted(once, update) == once[i := Merge(m, update)];
    } else {
      assert once == files + [update];
      FindIndexAfterAppend(files, update);
      MergeIdempotent(update, update);
      assert Upserted(once, update) == once[|files| := Merge(update, update)];
    }
  }

  /** Whatever an upload did, removing its `_id` afterwards is the same as removing it before. */
  lemma UpsertThenRemove(files: seq<ImageFile>, update: ImageFile)
    ensures Removed(Upserted(files, update), update.id) == Removed(files, update.id)
  {
    var i := FindIndex(files, update.id);
    var id := update.id;
    if i >= 0 {
      var m := Merge(files[i], update);
      var pre, post := files[..i], files[i + 1..];
      assert Upserted(files, update) == (pre + [m]) + post;
      assert files == (pre + [files[i]]) + post;
      RemovedAppend(pre + [m], post, id);
      RemovedAppend(pre, [m], id);
      RemovedAppend(pre + [files[i]], post, id);
      RemovedAppend(pre, [files[i]], id);
      assert Removed([m], id) == [] == Removed([files[i]], id);
    } else {
      RemovedAppend(files, [update], id);
      assert Removed([update], id) == [];
    }
  }

  /** A later link load result overrides an earlier one for the same `_id`. */
  lemma ProgressLastWriteWins(files: seq<ImageFile>, id: string, p: int, q: int)
    ensures WithProgress(WithProgress(files, id, p), id, q) == WithProgress(files, id, q)
  {
    var once := WithProgress(files, id, p);
    var i := FindIndex(files, id);
    if i >= 0 {
      assert once == files[i := files[i].(progress := p)];
      FindIndexAfterUpdate(files, id, files[i].(progress := p));
      assert WithProgress(once, id, q) == once[i := once[i].(progress := q)];
    } else {
      assert once == files;
    }
  }

  // ---------------------------------------------------------------------
  // Local files

  const AllowFileExtensions: seq<string> := ["png", "jpg", "jpeg", "webp", "gif"]

  predicate NotSlash(c: char)
  {
    c != '/'
  }

  /** `mime.split('/')[1]`: the text between the first `/` and the next one, absent without a `/`. */
  function MimeSubtype(mime: string): (r: Option<string>)
    ensures r.None? <==> '/' !in mime
    ensures r.Some? ==> '/' !in r.value
  {
    var n := SpanLength(mime, NotSlash);
    if n == |mime| then None
    else
      var rest := mime[n + 1..];
      Some(UpToSlash(rest))
  }

  /** The text before the first `/`, or all of it. */
  function UpToSlash(s: string): string
  {
    s[..SpanLength(s, NotSlash)]
  }

  /**
   * The subtype is the text right after the first `/`, up to the next `/` or
   * the end.
   */
  lemma MimeSubtypeSound(mime: string)
    requires MimeSubtype(mime).Some?
    ensures var sub := MimeSubtype(mime).value;
            exists n :: 0 <= n < |mime| && mime[n] == '/' && '/' !in mime[..n]
                        && StartsWith(mime[n + 1..], sub)
                        && (|mime[n + 1..]| == |sub| || mime[n + 1..][|sub|] == '/')
  {
    var n := SpanLength(mime, NotSlash);
    assert '/' !in mime[..n] by { assert forall k :: 0 <= k < n ==> mime[..n][k] == mime[k]; }
    var rest := mime[n + 1..];
    assert StartsWith(rest, MimeSubtype(mime).value);
  }

  function ToLowerChar(c: char): char
  {
    if 'A' <= c <= 'Z' then (c as int + 32) as char else c
  }

  /** `toLowerCase()` on the ASCII letters. */
  function ToLower(s: string): (r: string)
    ensures |r| == |s|
    ensures forall k :: 0 <= k < |s| ==> r[k] == ToLowerChar(s[k])
  {
    seq(|s|, k requires 0 <= k < |s| => ToLowerChar(s[k]))
  }

  /** Lower-casing keeps every `/` where it was and adds none. */
  lemma LowerKeepsSlashSpan(m: string)
    ensures SpanLength(ToLower(m), NotSlash) == SpanLength(m, NotSlash)
  {
    var n := SpanLength(m, NotSlash);
    var lm := ToLower(m);
    forall k | 0 <= k < n ensures NotSlash(lm[k]) {
      assert NotSlash(m[k]);
    }
    SpanLengthIs(lm, NotSlash, n);
  }

  /** Lower-casing a prefix or a suffix is cutting the lower-cased text. */
  lemma ToLowerCuts(m: string, i: nat)
    requires i <= |m|
    ensures ToLower(m)[..i] == ToLower(m[..i])
    ensures ToLower(m)[i..] == ToLower(m[i..])
  {
  }

  /** Lower-casing twice is lower-casing once. */
  lemma ToLowerIdempotent(s: string)
    ensures ToLower(ToLower(s)) == ToLower(s)
  {
    assert forall k :: 0 <= k < |s| ==> ToLower(ToLower(s))[k] == ToLower(s)[k];
  }

  /** Lower-casing commutes with cutting at the first `/`. */
  lemma UpToSlashOfLower(s: string)
    ensures UpToSlash(ToLower(s)) == ToLower(UpToSlash(s))
  {
    LowerKeepsSlashSpan(s);
    ToLowerCuts(s, SpanLength(s, NotSlash));
  }

  /** The subtype is cut from what follows the first `/`. */
  lemma MimeSubtypeAfter(m: string, n: nat)
    requires n == SpanLength(m, NotSlash)
    ensures n < |m| ==> MimeSubtype(m) == Some(UpToSlash(m[n + 1..]))
    ensures n == |m| ==> MimeSubtype(m).None?
  {
  }

  /** The subtype of the lower-cased MIME type is the lower-cased subtype. */
  lemma MimeSubtypeOfLower(m: string)
    ensures MimeSubtype(ToLower(m)).Some? == MimeSubtype(m).Some?
    ensures MimeSubtype(m).Some? ==> MimeSubtype(ToLower(m)).value == ToLower(MimeSubtype(m).value)
  {
    var n := SpanLength(m, NotSlash);
    var lm := ToLower(m);
    LowerKeepsSlashSpan(m);
    MimeSubtypeAfter(m, n);
    MimeSubtypeAfter(lm, n);
    if n < |m| {
      var rest := m[n + 1..];
      calc {
        MimeSubtype(lm).value;
        UpToSlash(lm[n + 1..]);
        { ToLowerCuts(m, n + 1); }
        UpToSlash(ToLower(rest));
        { UpToSlashOfLower(rest); }
        ToLower(UpToSlash(rest));
        ToLower(MimeSubtype(m).value);
      }
    }
  }

  /** `handleLocalFileUpload`'s checks: not disabled, an allowed image subtype, and within `limit` MB when a limit is set. */
  predicate AcceptLocalFile(disabled: bool, limit: int, file: FileInfo)
  {
    && !disabled
    && MimeSubtype(file.mimeType).Some?
    && ToLower(MimeSubtype(file.mimeType).value) in AllowFileExtensions
    && (limit == 0 || file.size <= limit * 1024 * 1024)
  }

  /** The test ignores the case of the MIME type. */
  lemma AcceptIgnoresCase(disabled: bool, limit: int, file: FileInfo)
    ensures AcceptLocalFile(disabled, limit, file.(mimeType := ToLower(file.mimeType)))
        == AcceptLocalFile(disabled, limit, file)
  {
    MimeSubtypeOfLower(file.mimeType);
    if MimeSubtype(file.mimeType).Some? {
      ToLowerIdempotent(MimeSubtype(file.mimeType).value);
    }
  }

  /** A larger non-zero size limit accepts everything a smaller one does. */
  lemma AcceptUnderLargerLimit(disabled: bool, limit: int, larger: int, file: FileInfo)
    requires 0 < limit <= larger
    requires AcceptLocalFile(disabled, limit, file)
    ensures AcceptLocalFile(disabled, larger, file)
  {
    assert limit * 1048576 <= larger * 1048576;
  }

  /** The entry `handleLocalFileUpload` adds once the file is read as a data URL. */
  function LocalEntry(stamp: string, file: FileInfo, dataUrl: string): ImageFile
  {
    ImageFile(stamp, LocalFile, Some(""), Some(file), Some(dataUrl), Some(dataUrl), 0, None)
  }

  /** The entries the upload callbacks send back through `onUpload`. */
  function UploadProgressed(entry: ImageFile, progress: int): ImageFile { entry.(progress := progress) }
  function UploadSucceeded(entry: ImageFile, fileId: string): ImageFile { entry.(fileId := Some(fileId), progress := 100) }
  function UploadFailed(entry: ImageFile): ImageFile { entry.(progress := -1) }

  /**
   * A local upload with a fresh stamp: the entry is appended, and each callback
   * rewrites that same last entry, leaving everything before it alone.
   */
  lemma LocalUploadLifecycle(files: seq<ImageFile>, stamp: string, file: FileInfo, dataUrl: string, p: int, fileId: string)
    requires FindIndex(files, stamp) == -1
    ensures var e := LocalEntry(stamp, file, dataUrl);
            var added := Upserted(files, e);
            && added == files + [e]
            && Upserted(Upserted(added, UploadProgressed(e, p)), UploadSucceeded(e, fileId)) == files + [UploadSucceeded(e, fileId)]
            && Upserted(added, UploadFailed(e)) == files + [UploadFailed(e)]
  {
    var e := LocalEntry(stamp, file, dataUrl);
    var added := Upserted(files, e);
    assert added == files + [e];
    assert FindIndex(added, stamp) == |files|;
    var progressed := Upserted(added, UploadProgressed(e, p));
    assert progressed == files + [UploadProgressed(e, p)];
    assert FindIndex(progressed, stamp) == |files|;
  }

  // ---------------------------------------------------------------------
  // The uploader switch

  /** The `disabled` memo of `useClipboardUploader` and `useDraggableUploader`. */
  predicate UploaderDisabled(config: Option<VisionSettings>, fileCount: int)
  {
    || config.None?
    || !config.value.enabled
    || LocalFile !in config.value.transferMethods
    || fileCount >= config.value.numberLimits
  }

  /** The `limit` memo: the configured size in MB, 0 (no limit) when missing. */
  function SizeLimit(config: Option<VisionSettings>): int
  {
    if config.None? || config.value.imageFileSizeLimit.None? then 0 else config.value.imageFileSizeLimit.value
  }

  /**
   * An uploader that is not disabled lets one more new file in without passing
   * `number_limits`, and one more file can only disable it.
   */
  lemma UploadStaysWithinLimit(config: Option<VisionSettings>, files: seq<ImageFile>, entry: ImageFile)
    requires !UploaderDisabled(config, |files|)
    ensures |Upserted(files, entry)| <= config.value.numberLimits
    ensures UploaderDisabled(config, |files| + 1) <==> |files| + 1 == config.value.numberLimits
  {
  }

  // ---------------------------------------------------------------------
  // The list, as `useImageFiles` holds it

  class ImageFileList {
    var files: seq<ImageFile>

    constructor()
      ensures files == []
    {
      files := [];
    }

    /** The `files` the hook exposes. */
    function VisibleFiles(): (r: seq<ImageFile>)
      reads this
      ensures forall f :: f in r <==> f in files && f.deleted != Some(true)
    {
      Visible(files)
    }

    method Upload(imageFile: ImageFile)
      modifies this
      ensures files == Upserted(old(files), imageFile)
    {
      var index := FindIndex(files, imageFile.id);
      if index > -1 {
        files := files[..index] + [Merge(files[index], imageFile)] + files[index + 1..];
      } else {
        files := files + [imageFile];
      }
    }

    method Remove(imageFileId: string)
      modifies this
      ensures files == Removed(old(files), imageFileId)
    {
      files := Removed(files, imageFileId);
    }

    method ImageLinkLoadError(imageFileId: string)
      modifies this
      ensures files == WithProgress(old(files), imageFileId, -1)
    {
      var index := FindIndex(files, imageFileId);
      if index > -1 {
        files := files[..index] + [files[index].(progress := -1)] + files[index + 1..];
      }
    }

    method ImageLinkLoadSuccess(imageFileId: string)
      modifies this
      ensures files == WithProgress(old(files), imageFileId, 100)
    {
      var index := FindIndex(files, imageFileId);
      if index > -1 {
        files := files[..index] + [files[index].(progress := 100)] + files[index + 1..];
      }
    }

    method Clear()
      modifies this
      ensures files == []
    {
      files := [];
    }
  }
}
