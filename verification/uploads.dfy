/** Uploaded images on disk: which files `DeleteUploadedFiles` removes for a
    list of image URLs, and which uploads `SaveUploadedFiles` accepts and
    under what URL it stores them. The disk is a value: the set of files in
    it and the set of paths whose removal fails for a reason other than
    "does not exist" (permissions, a non-empty directory). */
module Uploads {
  import opened Basics
  import Numbers

  const UploadDir := "/root/uploads"
  /** Only image URLs containing this are files the backend owns. */
  const UploadMarker := "/uploads/"
  /** Saved files are served under this URL prefix. */
  const UrlPrefix := "/uploads/"
  const MaxImageBytes := 5 * 1024 * 1024

  datatype Disk = Disk(files: set<string>, stuck: set<string>)

  /** `path` with every trailing '/' removed. */
  function StripTrailingSlashes(path: string): (r: string)
    ensures IsPrefixSeq(r, path)
    ensures r == [] || r[|r| - 1] != '/'
    decreases |path|
  {
    if |path| > 0 && path[|path| - 1] == '/' then StripTrailingSlashes(path[..|path| - 1]) else path
  }

  /** The part of `path` after its last '/'. */
  function LastElement(path: string): (r: string)
    ensures '/' !in r
    ensures |path| > 0 && path[|path| - 1] != '/' ==> r != []
    ensures |r| <= |path| && r == path[|path| - |r|..]
    decreases |path|
  {
    if |path| == 0 || path[|path| - 1] == '/' then ""
    else LastElement(path[..|path| - 1]) + [path[|path| - 1]]
  }

  /** `filepath.Base`: the last element of a path, "." for the empty path
      and "/" for a path of slashes only. */
  function Base(path: string): (r: string)
    ensures r != []
    ensures r == "/" || '/' !in r
  {
    if path == "" then "."
    else
      var p := StripTrailingSlashes(path);
      if p == "" then "/" else LastElement(p)
  }

  /** `filepath.Join(UploadDir, name)` for a name without '/', or "/".
      Join cleans the result, so "." and ".." are resolved. */
  function JoinUploadDir(name: string): (path: string)
    requires name == "/" || '/' !in name
  {
    if name == "" || name == "/" || name == "." then UploadDir
    else if name == ".." then "/root"
    else UploadDir + "/" + name
  }

  /** The path `DeleteUploadedFiles` removes for an owned image URL. */
  function DeleteTarget(url: string): (path: string)
    ensures var b := Base(url);
      b != "/" && b != "." && b != ".." ==> path == UploadDir + "/" + b
  {
    JoinUploadDir(Base(url))
  }

  /** The paths removed for `urls`, in order: one per URL containing "/uploads/". */
  function Targets(urls: seq<string>): (paths: seq<string>)
    ensures |paths| <= |urls|
  {
    if |urls| == 0 then []
    else TargetOf(urls[0]) + Targets(urls[1..])
  }

  /** The path removed for one URL: none unless it contains "/uploads/". */
  function TargetOf(url: string): (paths: seq<string>)
    ensures paths == [] || paths == [DeleteTarget(url)]
  {
    if Contains(url, UploadMarker) then [DeleteTarget(url)] else []
  }

  /** A path is a target exactly when some URL containing "/uploads/" maps to it. */
  lemma {:induction false} TargetsAreOwnedUrls(urls: seq<string>, p: string)
    ensures p in Targets(urls) <==>
      exists i :: 0 <= i < |urls| && Contains(urls[i], UploadMarker) && p == DeleteTarget(urls[i])
    decreases |urls|
  {
    if |urls| > 0 {
      TargetsAreOwnedUrls(urls[1..], p);
      if p in Targets(urls[1..]) {
        var i :| 0 <= i < |urls[1..]| && Contains(urls[1..][i], UploadMarker) && p == DeleteTarget(urls[1..][i]);
        assert urls[i + 1] == urls[1..][i];
      }
      if exists i :: 0 <= i < |urls| && Contains(urls[i], UploadMarker) && p == DeleteTarget(urls[i]) {
        var i :| 0 <= i < |urls| && Contains(urls[i], UploadMarker) && p == DeleteTarget(urls[i]);
        if i > 0 {
          assert urls[1..][i - 1] == urls[i];
        }
      }
    }
  }

  /** When every URL is an owned one, there is one target per URL, in order. */
  lemma {:induction false} TargetsOfOwnedUrls(urls: seq<string>)
    requires forall i :: 0 <= i < |urls| ==> Contains(urls[i], UploadMarker)
    ensures |Targets(urls)| == |urls|
    ensures forall i :: 0 <= i < |urls| ==> Targets(urls)[i] == DeleteTarget(urls[i])
    decreases |urls|
  {
    if |urls| > 0 {
      assert forall i :: 0 <= i < |urls[1..]| ==> urls[1..][i] == urls[i + 1];
      TargetsOfOwnedUrls(urls[1..]);
      assert Targets(urls) == [DeleteTarget(urls[0])] + Targets(urls[1..]);
    }
  }

  /** The targets of two lists of URLs, one after the other, are the targets
      of the first followed by those of the second: `Targets` keeps order. */
  lemma {:induction false} TargetsOfConcat(a: seq<string>, b: seq<string>)
    ensures Targets(a + b) == Targets(a) + Targets(b)
    decreases |a|
  {
    if |a| == 0 {
      assert a + b == b;
    } else {
      assert (a + b)[0] == a[0];
      assert (a + b)[1..] == a[1..] + b;
      calc {
        Targets(a + b);
        TargetOf(a[0]) + Targets(a[1..] + b);
        { TargetsOfConcat(a[1..], b); }
        TargetOf(a[0]) + (Targets(a[1..]) + Targets(b));
        Targets(a) + Targets(b);
      }
    }
  }

  datatype RemoveOutcome = Removed | NotExist | RemoveFailed

  /** `os.Remove(path)` */
  function Remove(disk: Disk, path: string): (r: (RemoveOutcome, Disk))
  {
    if path in disk.stuck then (RemoveFailed, disk)
    else if path in disk.files then (Removed, disk.(files := disk.files - {path}))
    else (NotExist, disk)
  }

  datatype DeleteReport = DeleteReport(ok: bool, disk: Disk)

  /** `DeleteUploadedFiles(urls)`: removes the target of every owned URL in
      order, treats a missing file as removed, and stops at the first other
      failure. */
  function DeleteUploadedFiles(urls: seq<string>, disk: Disk): (r: DeleteReport)
    ensures r.ok <==> forall p :: p in Targets(urls) ==> p !in disk.stuck
    ensures r.ok ==> forall p :: p in Targets(urls) ==> p !in r.disk.files
    ensures r.disk.files <= disk.files
    ensures forall p :: p in disk.files && p !in Targets(urls) ==> p in r.disk.files
    ensures r.disk.stuck == disk.stuck
    decreases |urls|
  {
    if |urls| == 0 then DeleteReport(true, disk)
    else if !Contains(urls[0], UploadMarker) then
      assert Targets(urls) == Targets(urls[1..]);
      DeleteUploadedFiles(urls[1..], disk)
    else
      var target := DeleteTarget(urls[0]);
      var (outcome, disk1) := Remove(disk, target);
      assert Targets(urls) == [target] + Targets(urls[1..]);
      assert target in Targets(urls);
      if outcome == RemoveFailed then
        assert target in disk.stuck;
        DeleteReport(false, disk)
      else
        assert target !in disk1.files && disk1.files <= disk.files && disk1.stuck == disk.stuck;
        assert disk1.files == disk.files - {target};
        DeleteUploadedFiles(urls[1..], disk1)
  }

  /** Nothing but owned URLs is looked at: foreign URLs can be dropped from
      the list without changing the outcome. */
  lemma {:induction false} ForeignUrlsIgnored(urls: seq<string>, url: string, disk: Disk)
    requires !Contains(url, UploadMarker)
    ensures DeleteUploadedFiles(urls + [url], disk) == DeleteUploadedFiles(urls, disk)
    decreases |urls|
  {
    if |urls| == 0 {
      assert [url][1..] == [];
    } else {
      assert (urls + [url])[1..] == urls[1..] + [url];
      var (outcome, disk1) := Remove(disk, DeleteTarget(urls[0]));
      ForeignUrlsIgnored(urls[1..], url, disk);
      ForeignUrlsIgnored(urls[1..], url, disk1);
    }
  }

  /** Every owned URL of a list has its file among the list's targets. */
  lemma {:induction false} TargetOfOwnedUrl(urls: seq<string>, url: string)
    requires url in urls && Contains(url, UploadMarker)
    ensures DeleteTarget(url) in Targets(urls)
    decreases |urls|
  {
    if urls[0] != url {
      TargetOfOwnedUrl(urls[1..], url);
    }
  }

  /** `filepath.Ext`: the suffix from the final '.' of the last element, or "". */
  function Ext(path: string): (e: string)
    ensures e == [] || (e[0] == '.' && '/' !in e && '.' !in e[1..])
    ensures |e| <= |path| && (e == [] || e == path[|path| - |e|..])
    decreases |path|
  {
    if |path| == 0 then ""
    else
      var c := path[|path| - 1];
      if c == '/' then ""
      else if c == '.' then "."
      else
        var e := Ext(path[..|path| - 1]);
        if e == "" then "" else e + [c]
  }

  /** One file of a multipart upload. The I/O errors the backend can meet
      (opening the upload; creating the directory or the file, copying) are
      given as the text of the error, when there is one. */
  datatype Upload = Upload(
    filename: string,
    contentType: string,
    size: int,
    openError: Option<string>,
    writeError: Option<string>)

  datatype SaveError =
    | OpenFailed(text: string)
    | InvalidFileType(contentType: string)
    | FileTooLarge(size: int)
    | WriteFailed(text: string)

  /** The error's text as `err.Error()` renders it. */
  function SaveErrorText(e: SaveError): string {
    match e
    case OpenFailed(t) => t
    case InvalidFileType(ct) => "invalid file type: " + ct
    case FileTooLarge(n) => "file too large: " + Numbers.IntToString(n) + " bytes"
    case WriteFailed(t) => t
  }

  /** The first check an upload fails, in the order the backend makes them. */
  function UploadError(f: Upload): Option<SaveError> {
    if f.openError.Some? then Some(OpenFailed(f.openError.value))
    else if !IsPrefix("image/", f.contentType) then Some(InvalidFileType(f.contentType))
    else if f.size > MaxImageBytes then Some(FileTooLarge(f.size))
    else if f.writeError.Some? then Some(WriteFailed(f.writeError.value))
    else None
  }

  /** The name a file is stored under: a fresh UUID (the k-th one generated)
      followed by the upload's extension. */
  function StoredName(f: Upload, uuid: nat -> string, k: nat): string {
    uuid(k) + Ext(f.filename)
  }

  datatype SaveReport = SaveReport(result: Result<seq<string>, SaveError>, disk: Disk)

  /** How many leading files pass every check. */
  function AcceptedPrefix(files: seq<Upload>): (n: nat)
    ensures n <= |files|
    ensures forall i :: 0 <= i < n ==> UploadError(files[i]).None?
    ensures n < |files| ==> UploadError(files[n]).Some?
  {
    if |files| == 0 || UploadError(files[0]).Some? then 0 else 1 + AcceptedPrefix(files[1..])
  }

  /** The disk paths of the first j files, when the k-th UUID names the first. */
  function Written(files: seq<Upload>, uuid: nat -> string, k: nat, j: nat): set<string>
    requires j <= |files|
  {
    if j == 0 then {}
    else {UploadDir + "/" + StoredName(files[0], uuid, k)} + Written(files[1..], uuid, k + 1, j - 1)
  }

  /** `SaveUploadedFiles` from the file that gets the k-th UUID onwards. */
  function SaveFrom(files: seq<Upload>, uuid: nat -> string, k: nat, disk: Disk): (r: SaveReport)
    ensures r.result.Ok? <==> AcceptedPrefix(files) == |files|
    ensures r.result.Ok? ==>
      && |r.result.value| == |files|
      && (forall i :: 0 <= i < |files| ==> r.result.value[i] == UrlPrefix + StoredName(files[i], uuid, k + i))
    ensures r.result.Err? ==> Some(r.result.error) == UploadError(files[AcceptedPrefix(files)])
    ensures r.disk.files == disk.files + Written(files, uuid, k, AcceptedPrefix(files))
    ensures r.disk.stuck == disk.stuck
    decreases |files|
  {
    if |files| == 0 then SaveReport(Ok([]), disk)
    else
      match UploadError(files[0])
      case Some(e) => SaveReport(Err(e), disk)
      case None =>
        var name := StoredName(files[0], uuid, k);
        var disk1 := disk.(files := disk.files + {UploadDir + "/" + name});
        var rest := SaveFrom(files[1..], uuid, k + 1, disk1);
        var n := AcceptedPrefix(files[1..]);
        assert AcceptedPrefix(files) == 1 + n;
        assert Written(files, uuid, k, 1 + n) == {UploadDir + "/" + name} + Written(files[1..], uuid, k + 1, n);
        match rest.result
        case Ok(paths) =>
          var out := [UrlPrefix + name] + paths;
          UrlsShift(files, uuid, k, name, paths);
          SaveReport(Ok(out), rest.disk)
        case Err(e) =>
          assert files[1..][n] == files[1 + n];
          SaveReport(Err(e), rest.disk)
  }

  /** The URL list of the files after the first, behind the first file's URL. */
  lemma UrlsShift(files: seq<Upload>, uuid: nat -> string, k: nat, name: string, paths: seq<string>)
    requires |files| > 0 && name == StoredName(files[0], uuid, k)
    requires |paths| == |files| - 1
    requires forall i :: 0 <= i < |files| - 1 ==> paths[i] == UrlPrefix + StoredName(files[1..][i], uuid, k + 1 + i)
    ensures forall i :: 0 <= i < |files| ==> ([UrlPrefix + name] + paths)[i] == UrlPrefix + StoredName(files[i], uuid, k + i)
  {
    var out := [UrlPrefix + name] + paths;
    forall i | 0 < i < |files| ensures out[i] == UrlPrefix + StoredName(files[i], uuid, k + i) {
      assert out[i] == paths[i - 1];
      assert files[1..][i - 1] == files[i];
      assert k + 1 + (i - 1) == k + i;
    }
  }

  /** `SaveUploadedFiles(files)`: every file must open, declare an image
      content type and be at most 5 MiB; on success it returns, in input
      order, one "/uploads/<uuid><ext>" URL per file. On the first rejected
      file it stops with that file's error, and the files already written
      stay on disk. */
  function SaveUploadedFiles(files: seq<Upload>, uuid: nat -> string, disk: Disk): (r: SaveReport)
    ensures r.result.Ok? <==> forall i :: 0 <= i < |files| ==> UploadError(files[i]).None?
    ensures r.result.Ok? ==>
      && |r.result.value| == |files|
      && (forall i :: 0 <= i < |files| ==> r.result.value[i] == UrlPrefix + StoredName(files[i], uuid, i))
    ensures r.result.Err? ==>
      var j := AcceptedPrefix(files);
      j < |files| && Some(r.result.error) == UploadError(files[j])
    ensures r.disk.files == disk.files + Written(files, uuid, 0, AcceptedPrefix(files))
    ensures r.disk.stuck == disk.stuck
  {
    SaveFrom(files, uuid, 0, disk)
  }

  /** A file that is not an image, or is larger than 5 MiB, is refused. */
  lemma SaveRejects(files: seq<Upload>, uuid: nat -> string, disk: Disk, i: int)
    requires 0 <= i < |files| && files[i].openError.None?
    requires !IsPrefix("image/", files[i].contentType) || files[i].size > MaxImageBytes
    ensures SaveUploadedFiles(files, uuid, disk).result.Err?
  {
  }
}
