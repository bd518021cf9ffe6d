/** The upload's file filter: a file is accepted only when its mimetype
    begins with `image/`. */
module FileFilter {

  const ImagePrefix: string := "image/"

  /** Whether `s` begins with `prefix`, compared character by character. */
  function StartsWith(s: string, prefix: string): (r: bool)
    ensures r <==> prefix <= s
  {
    if |prefix| == 0 then true
    else if |s| == 0 then false
    else s[0] == prefix[0] && StartsWith(s[1..], prefix[1..])
  }

  /** Whether the filter lets a file with this mimetype through. */
  function AcceptsFile(mimetype: string): (r: bool)
    ensures r <==> |mimetype| >= |ImagePrefix| && mimetype[..|ImagePrefix|] == ImagePrefix
    ensures r ==> mimetype == ImagePrefix + mimetype[|ImagePrefix|..]
  {
    StartsWith(mimetype, ImagePrefix)
  }

  /** The comparison is case-sensitive and needs the slash; any subtype passes. */
  lemma FilterExamples()
    ensures AcceptsFile("image/png") && AcceptsFile("image/")
    ensures !AcceptsFile("text/plain") && !AcceptsFile("image") && !AcceptsFile("IMAGE/PNG")
  {
    assert "image/" <= "image/png";
    assert "text/plain"[0] != ImagePrefix[0];
    assert "IMAGE/PNG"[0] != ImagePrefix[0];
  }
}
