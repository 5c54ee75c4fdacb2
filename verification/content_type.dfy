/** The `Content-Type` that `fetch_image` sends back, chosen from the URL's extension. */
module ContentTypes {
  import opened Text

  /** The answer when no known extension matches. */
  const DefaultType: string := "image/jpeg"

  /**
   * The first of `.png`, `.gif`, `.webp`, `.bmp` that ends the lower-cased URL
   * names the type; otherwise JPEG. The four suffixes exclude each other, so
   * each type is chosen exactly when its extension ends the URL.
   */
  function ContentTypeFor(url: string): (r: string)
    ensures r == "image/png" <==> EndsWith(Lower(url), ".png")
    ensures r == "image/gif" <==> EndsWith(Lower(url), ".gif")
    ensures r == "image/webp" <==> EndsWith(Lower(url), ".webp")
    ensures r == "image/bmp" <==> EndsWith(Lower(url), ".bmp")
    ensures r == DefaultType <==>
              !EndsWith(Lower(url), ".png") && !EndsWith(Lower(url), ".gif")
              && !EndsWith(Lower(url), ".webp") && !EndsWith(Lower(url), ".bmp")
  {
    var lower := Lower(url);
    SuffixesExclusive(lower);
    if EndsWith(lower, ".png") then "image/png"
    else if EndsWith(lower, ".gif") then "image/gif"
    else if EndsWith(lower, ".webp") then "image/webp"
    else if EndsWith(lower, ".bmp") then "image/bmp"
    else DefaultType
  }

  /** No string ends with two of the four known extensions. */
  lemma SuffixesExclusive(s: string)
    ensures !(EndsWith(s, ".png") && EndsWith(s, ".gif"))
    ensures !(EndsWith(s, ".png") && EndsWith(s, ".webp"))
    ensures !(EndsWith(s, ".png") && EndsWith(s, ".bmp"))
    ensures !(EndsWith(s, ".gif") && EndsWith(s, ".webp"))
    ensures !(EndsWith(s, ".gif") && EndsWith(s, ".bmp"))
    ensures !(EndsWith(s, ".webp") && EndsWith(s, ".bmp"))
  {
    if EndsWith(s, ".webp") {
      if EndsWith(s, ".png") {
        SuffixesNest(s, ".png", ".webp");
      }
      if EndsWith(s, ".gif") {
        SuffixesNest(s, ".gif", ".webp");
      }
      if EndsWith(s, ".bmp") {
        SuffixesNest(s, ".bmp", ".webp");
      }
    }
  }

  /** The choice ignores letter case in the URL. */
  lemma ContentTypeIgnoresCase(url: string)
    ensures ContentTypeFor(Lower(url)) == ContentTypeFor(url)
  {
    LowerIdempotent(url);
  }

  /** The choice depends only on the lower-cased extension, whatever precedes it. */
  lemma ExtensionDecides(stem: string, ext: string)
    ensures ContentTypeFor(stem + ext) == ContentTypeFor(Lower(stem) + Lower(ext))
  {
    LowerAppend(stem, ext);
    LowerIdempotent(stem + ext);
  }

  /** An extension spelling `.png` in any letter case is served as PNG, whatever precedes it. */
  lemma PngInAnyCase(stem: string, ext: string)
    ensures Lower(ext) == ".png" ==> ContentTypeFor(stem + ext) == "image/png"
  {
    LowerAppend(stem, ext);
    EndsWithAppend(Lower(stem), Lower(ext));
  }

  /** A URL ending in upper-case `.PNG` is served as PNG. */
  lemma UpperCasePngIsRecognised(stem: string)
    ensures ContentTypeFor(stem + ".PNG") == "image/png"
  {
    var ext := Lower(".PNG");
    assert ext[0] == '.' && ext[1] == 'p' && ext[2] == 'n' && ext[3] == 'g';
    assert ext == ".png";
    LowerAppend(stem, ".PNG");
    EndsWithAppend(Lower(stem), ext);
  }
}
