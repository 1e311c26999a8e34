/** `POST /api/storage/upload` (server/api/storage/upload.post.ts): accept one image
    from a multipart form, check its type and size, and store it under a generated
    name. The random part of the name (`Date.now()` and `Math.random()`) is the
    parameter `stamp`; the file system is the map `Storage.files`. */
module Upload {
  import opened Common
  import opened Strings

  /** One part of a multipart form. */
  datatype FormPart = FormPart(
    name: Option<string>,
    filename: Option<string>,
    mimeType: Option<string>,
    data: seq<bv8>)

  /** What the handler writes and answers: the stored name, its bytes and the URL. */
  datatype Stored = Stored(filename: string, data: seq<bv8>, url: string)

  const NoForm := HttpError(400, "No file uploaded")
  const NoFile := HttpError(400, "No file found in request")
  const BadType := HttpError(400, "Invalid file type. Only JPG, PNG and GIF are allowed")
  const TooLarge := HttpError(400, "File size exceeds 2MB limit")

  const AllowedTypes: seq<string> := ["image/jpeg", "image/png", "image/gif"]
  /** 2 MiB. */
  const MaxSize := 2 * 1024 * 1024
  const DefaultExtension := "jpg"

  /** `file.type || ''`: an absent type reads as the empty string. */
  function TypeOf(part: FormPart): string {
    if part.mimeType.Some? then part.mimeType.value else ""
  }

  predicate IsFilePart(part: FormPart) {
    part.name == Some("file")
  }

  /** `f` is the part `form.find((f) => f.name === 'file')` returns. */
  predicate FirstFilePart(form: seq<FormPart>, f: FormPart) {
    exists i :: 0 <= i < |form| && form[i] == f && IsFilePart(f)
      && forall j :: 0 <= j < i ==> !IsFilePart(form[j])
  }

  /** The checks in the handler's order: form, file part, type, size. On success the
      accepted part is the first part named "file". */
  function Validate(form: Option<seq<FormPart>>): (r: Result<FormPart, HttpError>)
    ensures form.None? ==> r == Failure(NoForm)
    ensures form.Some? && (forall p :: p in form.value ==> !IsFilePart(p)) ==> r == Failure(NoFile)
    ensures forall f :: form.Some? && FirstFilePart(form.value, f) ==>
      && (TypeOf(f) !in AllowedTypes ==> r == Failure(BadType))
      && (TypeOf(f) in AllowedTypes && |f.data| > MaxSize ==> r == Failure(TooLarge))
      && (TypeOf(f) in AllowedTypes && |f.data| <= MaxSize ==> r == Success(f))
    ensures r.Success? ==> form.Some? && FirstFilePart(form.value, r.value)
  {
    if form.None? then Failure(NoForm)
    else
      match FirstIndex(form.value, IsFilePart)
      case None =>
        assert forall p :: p in form.value ==> !IsFilePart(p);
        Failure(NoFile)
      case Some(i) =>
        var file := form.value[i];
        assert file in form.value;
        if TypeOf(file) !in AllowedTypes then Failure(BadType)
        else if |file.data| > MaxSize then Failure(TooLarge)
        else Success(file)
  }

  /** The extension of the stored name: the last piece of `filename.split('.')` when
      the client sent a non-empty name with more than one piece, otherwise "jpg". */
  function Extension(filename: Option<string>): (r: string)
    ensures filename.Some? && '.' in filename.value ==>
      && LastIndex(filename.value, '.').Some?
      && r == filename.value[LastIndex(filename.value, '.').value + 1..]
    ensures filename.None? || '.' !in filename.value ==> r == DefaultExtension
    ensures '.' !in r
  {
    if filename.Some? && filename.value != "" then
      var parts := SplitOn(filename.value, '.');
      SplitLastPiece(filename.value, '.');
      if |parts| > 1 then parts[|parts| - 1] else DefaultExtension
    else DefaultExtension
  }

  /** `${stamp}.${extension}`. */
  function StoredName(stamp: string, file: FormPart): string {
    stamp + "." + Extension(file.filename)
  }

  /** The whole handler as a value: the error, or what is stored and returned. */
  function Upload(form: Option<seq<FormPart>>, stamp: string): (r: Result<Stored, HttpError>)
    ensures r.Success? <==> Validate(form).Success?
    ensures r.Failure? ==> r == Failure(Validate(form).error)
    ensures r.Success? ==>
      var ext := Extension(Validate(form).value.filename);
      && r.value.filename == stamp + "." + ext
      && r.value.url == "/uploads/" + r.value.filename
      && r.value.data == Validate(form).value.data
      && |r.value.data| <= MaxSize
  {
    match Validate(form)
    case Failure(e) => Failure(e)
    case Success(file) =>
      var filename := StoredName(stamp, file);
      Success(Stored(filename, file.data, "/uploads/" + filename))
  }

  /** A name ending in "." + `ext`, where `ext` has no dot, gives `ext` as the
      extension; in particular "a." gives the empty extension. */
  lemma ExtensionAfterLastDot(base: string, ext: string)
    requires '.' !in ext
    ensures Extension(Some(base + "." + ext)) == ext
  {
    var s := base + "." + ext;
    assert s[|base|] == '.';
    var j := LastIndex(s, '.').value;
    assert forall k :: |base| < k < |s| ==> s[k] == ext[k - |base| - 1];
    assert j == |base|;
    assert s[j + 1..] == ext;
  }

  /** The size bound is inclusive: an allowed file part passes exactly when it
      holds at most 2 MiB, and a larger one gives the size error. */
  lemma SizeBoundary(part: FormPart, rest: seq<FormPart>)
    requires IsFilePart(part) && TypeOf(part) in AllowedTypes
    ensures Validate(Some([part] + rest)).Success? <==> |part.data| <= MaxSize
    ensures |part.data| > MaxSize ==> Validate(Some([part] + rest)) == Failure(TooLarge)
  {
    var form := [part] + rest;
    assert form[0] == part;
    assert FirstFilePart(form, part);
  }

  /** The upload directory; file names map to their bytes. */
  class Storage {
    var files: map<string, seq<bv8>>

    constructor ()
      ensures files == map[]
    {
      files := map[];
    }

    /** The handler: the checks, then one write under the generated name. */
    method Handle(form: Option<seq<FormPart>>, stamp: string) returns (r: Result<string, HttpError>)
      modifies this
      ensures Upload(form, stamp).Failure? ==>
        r == Failure(Upload(form, stamp).error) && files == old(files)
      ensures Upload(form, stamp).Success? ==>
        var stored := Upload(form, stamp).value;
        r == Success(stored.url) && files == old(files)[stored.filename := stored.data]
    {
      var checked := Validate(form);
      if checked.Failure? {
        return Failure(checked.error);
      }
      var file := checked.value;
      var filename := StoredName(stamp, file);
      files := files[filename := file.data];
      r := Success("/uploads/" + filename);
    }
  }
}
