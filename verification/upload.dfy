/** The image checks shared by the two upload paths (service pictures and
    profile avatars): the file must declare an `image/` type and stay within a
    size limit, and its storage name keeps the original file-name extension. */
module Upload {
  import opened Wrappers
  import opened Text

  /** The part of a browser `File` the upload code reads. */
  datatype File = File(mimeType: string, size: nat, name: string)

  const NotAnImage := "Please upload an image file"

  /** `name.split('.').pop()`: the text after the last dot, or the whole name
      when it has no dot. */
  function Extension(name: string): (ext: string)
    ensures '.' !in ext
    ensures |ext| <= |name| && ext == name[|name| - |ext|..]
    ensures '.' !in name ==> ext == name
    ensures '.' in name ==> |ext| < |name| && name[|name| - |ext| - 1] == '.'
  {
    LastSegment(name, '.')
  }

  /** A storage name ending in a dot and an extension keeps that extension. */
  lemma ExtensionAfterDot(stem: string, ext: string)
    requires '.' !in ext
    ensures Extension(stem + "." + ext) == ext
  {
    assert stem + "." + ext == stem + ['.'] + ext;
    LastSegmentAfter(stem, '.', ext);
  }

  /** The two file checks, in order: the type first, then the size. The
      result is the error message, or nothing when the file is accepted. */
  function CheckImage(file: File, maxBytes: nat, tooLarge: string): (error: Option<string>)
    ensures error.None? <==> StartsWith(file.mimeType, "image/") && file.size <= maxBytes
    ensures !StartsWith(file.mimeType, "image/") ==> error == Some(NotAnImage)
    ensures StartsWith(file.mimeType, "image/") && file.size > maxBytes ==> error == Some(tooLarge)
  {
    if !StartsWith(file.mimeType, "image/") then Some(NotAnImage)
    else if file.size > maxBytes then Some(tooLarge)
    else None
  }
}
