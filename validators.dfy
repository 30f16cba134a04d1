/** The field checks that decide whether an optional URL is kept (`isValidUrl`, `isValidImageUrl`). */
module Validators {
  import opened Text

  /**
   * `new URL(u)` succeeds with protocol `http:` or `https:`. The WHATWG URL parser is not
   * modelled: the scheme, in any letter case, followed by `//` and at least one more character.
   */
  predicate IsValidUrl(u: string) {
    var l := ToLower(u);
    (StartsWith(l, "http://") && |l| > 7) || (StartsWith(l, "https://") && |l| > 8)
  }

  /** An image link is kept only if present, not inline image data, not a Google Drive page, and a web URL. */
  predicate IsValidImageUrl(u: string)
    ensures IsValidImageUrl(u) ==>
      && IsValidUrl(u) && !StartsWith(u, "data:image") && !Contains(u, "drive.google.com")
  {
    if u == [] then false
    else if StartsWith(u, "data:image") then false
    else if Contains(u, "drive.google.com") then false
    else IsValidUrl(u)
  }

  /** The rejections come first; whatever passes them is judged by the URL check alone. */
  lemma ImageUrlRules(u: string)
    ensures u == [] ==> !IsValidImageUrl(u)
    ensures StartsWith(u, "data:image") ==> !IsValidImageUrl(u)
    ensures Contains(u, "drive.google.com") ==> !IsValidImageUrl(u)
    ensures u != [] && !StartsWith(u, "data:image") && !Contains(u, "drive.google.com")
            ==> (IsValidImageUrl(u) <==> IsValidUrl(u))
  {
  }

  /** A Drive link anywhere in the text is refused even when it is a well-formed web URL. */
  lemma DriveLinkRefused(host: string, path: string)
    requires host == "https://"
    ensures IsValidUrl(host + "drive.google.com" + path)
    ensures !IsValidImageUrl(host + "drive.google.com" + path)
  {
    var u := host + "drive.google.com" + path;
    assert ToLower(u)[..8] == "https://";
    assert u[8..8 + 16] == "drive.google.com";
    ContainsAt(u, "drive.google.com");
    assert OccursAt(u, "drive.google.com", 8);
  }

  /** A plain web link to an image is kept. */
  lemma WebImageKept(u: string)
    requires u == "https://x.com/a.jpg"
    ensures IsValidImageUrl(u)
  {
    assert ToLower(u)[..8] == "https://";
    assert u[0] == 'h' && "data:image"[0] == 'd';
    assert !StartsWith(u, "data:image") by { assert u[..10][0] != "data:image"[0]; }
    assert 'v' !in u && 'v' in "drive.google.com";
    if Contains(u, "drive.google.com") {
      ContainsChars(u, "drive.google.com", 'v');
    }
  }

  /** Inline image data is refused. */
  lemma InlineImageRefused()
    ensures !IsValidImageUrl("data:image/png;base64,abc")
  {
  }
}
