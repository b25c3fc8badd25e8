/** The image routes: `GET /images/:fileName` streams a file from the uploads
    directory only when the name passes `^\w+\.jpg$`; `POST /images` stores the
    body under a generated name and answers with its URL. */
module Images {
  import opened Wrappers
  import opened Ascii

  const JpgSuffix: string := ".jpg"
  const ImagesPath: string := "/images/"

  /** `/^\w+\.jpg$/`: one or more word characters, then `.jpg` in lower case,
      then the end of the name. */
  predicate IsServableName(name: string): (b: bool)
    ensures b <==> |name| > |JpgSuffix| && IsWord(name[..|name| - |JpgSuffix|])
                   && name[|name| - |JpgSuffix|..] == JpgSuffix
  {
    |name| > |JpgSuffix|
    && (forall i :: 0 <= i < |name| - |JpgSuffix| ==> IsWordChar(name[i]))
    && name[|name| - |JpgSuffix|..] == JpgSuffix
  }

  /** What the GET handler does: hand the request on with `next()`, or open
      the named file inside the uploads directory. */
  datatype GetAction = Next | ReadUpload(fileName: string)

  function GetImage(fileNameParam: Option<string>): (a: GetAction)
    ensures a.ReadUpload? <==> IsServableName(fileNameParam.GetOr(""))
    ensures a.ReadUpload? ==> fileNameParam == Some(a.fileName)
  {
    var fileName := fileNameParam.GetOr("");
    if IsServableName(fileName) then ReadUpload(fileName) else Next
  }

  /** The name an upload is stored under: `createId() + '.jpg'`. */
  function UploadFileName(id: string): (name: string)
    ensures |name| == |id| + |JpgSuffix| && name[..|id|] == id
    ensures name[|id|..] == JpgSuffix
  {
    id + JpgSuffix
  }

  /** The URL the POST handler answers with. */
  function UploadUrl(id: string): (url: string)
    ensures |url| == |ImagesPath| + |UploadFileName(id)|
    ensures url[..|ImagesPath|] == ImagesPath && url[|ImagesPath|..] == UploadFileName(id)
  {
    ImagesPath + UploadFileName(id)
  }

  /** A stored upload can be fetched back through its URL exactly when the
      generated id is a non-empty run of word characters. */
  lemma {:induction false} UploadServableIffWordId(id: string)
    ensures IsServableName(UploadFileName(id)) <==> IsWord(id)
    ensures GetImage(Some(UploadUrl(id)[|ImagesPath|..])) ==
      (if IsWord(id) then ReadUpload(UploadFileName(id)) else Next)
  {
    var name := UploadFileName(id);
    assert name[|name| - |JpgSuffix|..] == JpgSuffix;
    assert forall i :: 0 <= i < |id| ==> name[i] == id[i];
  }

  /** A served name is a single path segment that cannot climb out of the
      uploads directory: no `/` or `\`, not `.` or `..`, and its only dot is
      the one of the suffix. */
  lemma ServableNameStaysInUploads(name: string)
    requires IsServableName(name)
    ensures '/' !in name && '\\' !in name
    ensures name != "." && name != ".."
    ensures forall i :: 0 <= i < |name| && name[i] == '.' ==> i == |name| - |JpgSuffix|
  {
    var n := |name|;
    assert name[n - 4..] == ".jpg";
    assert name[n - 3] == 'j' && name[n - 2] == 'p' && name[n - 1] == 'g';
  }

  /** The check is case-sensitive on the suffix, needs a stem, and a missing
      parameter falls through to `next()`. */
  lemma RejectedNames()
    ensures !IsServableName("a.JPG")
    ensures !IsServableName(".jpg")
    ensures !IsServableName("../a.jpg")
    ensures !IsServableName("a.b.jpg")
    ensures IsServableName("a_1.jpg")
    ensures GetImage(None) == Next
  {
    assert "a.JPG"[1..] != JpgSuffix by { assert "a.JPG"[1..][1] == 'J'; }
    assert !IsWordChar("../a.jpg"[0]);
    assert !IsWordChar("a.b.jpg"[1]);
    assert "a_1.jpg"[3..] == JpgSuffix;
  }
}
