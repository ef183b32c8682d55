/** Where the backend serves stored files: `http://localhost:3000/uploads/{storedName}`. */
module Uploads {

  const UploadsPrefix: string := "http://localhost:3000/uploads/"

  /** The static asset URL of a stored file name (the name is inserted as it is). */
  function AssetUrl(storedName: string): (url: string)
    ensures |url| == |UploadsPrefix| + |storedName|
    ensures url[..|UploadsPrefix|] == UploadsPrefix && url[|UploadsPrefix|..] == storedName
  {
    UploadsPrefix + storedName
  }

  /** Reading the stored name back from an asset URL. */
  function StoredNameOf(url: string): (name: string)
    requires |UploadsPrefix| <= |url| && url[..|UploadsPrefix|] == UploadsPrefix
  {
    url[|UploadsPrefix|..]
  }

  /** Every stored name has its own URL: the name can be read back from it. */
  lemma AssetUrlRoundTrip(storedName: string)
    ensures StoredNameOf(AssetUrl(storedName)) == storedName
  {
  }
}
