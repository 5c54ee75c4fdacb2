/** `_parse_s3_url`: splitting an object-storage URL into bucket and key. */
module S3Urls {
  import opened Wrappers
  import opened Text

  const Scheme: string := "s3://"

  /** The position of the first `c` in `s`, if any. */
  function IndexOf(s: string, c: char): (r: Option<nat>)
    ensures r.None? <==> c !in s
    ensures r.Some? ==> r.value < |s| && s[r.value] == c && c !in s[..r.value]
  {
    if |s| == 0 then None
    else if s[0] == c then Some(0)
    else
      match IndexOf(s[1..], c)
      case None => None
      case Some(i) =>
        assert s[..i + 1] == [s[0]] + s[1..][..i];
        Some(i + 1)
  }

  /**
   * `without_scheme.split("/", 1)` keeping the result only when it has two
   * parts: the text before the first `/` and everything after it.
   */
  function SplitAtFirstSlash(rest: string): (r: Option<(string, string)>)
    ensures r.Some? <==> '/' in rest
    ensures r.Some? ==> '/' !in r.value.0 && r.value.0 + "/" + r.value.1 == rest
  {
    match IndexOf(rest, '/')
    case None => None
    case Some(i) =>
      assert rest == rest[..i] + "/" + rest[i + 1..];
      Some((rest[..i], rest[i + 1..]))
  }

  /**
   * The `s3://bucket/key` branch is modelled; for any other URL the answer is
   * whatever `matchHttps` (the virtual-hosted and path-style patterns) gives.
   */
  function ParseS3Url(url: string, matchHttps: string -> Option<(string, string)>): (r: Option<(string, string)>)
    ensures StartsWith(url, Scheme) ==> (r.Some? <==> '/' in url[|Scheme|..])
    ensures StartsWith(url, Scheme) && r.Some? ==>
              '/' !in r.value.0 && Scheme + r.value.0 + "/" + r.value.1 == url
    ensures !StartsWith(url, Scheme) ==> r == matchHttps(url)
  {
    if StartsWith(url, Scheme) then
      var r := SplitAtFirstSlash(url[|Scheme|..]);
      assert url == Scheme + url[|Scheme|..];
      assert r.Some? ==> Scheme + r.value.0 + "/" + r.value.1 == Scheme + (r.value.0 + "/" + r.value.1);
      r
    else matchHttps(url)
  }

  /** Formatting a bucket and key as an `s3://` URL and parsing it gives them back. */
  lemma S3UrlRoundTrip(bucket: string, key: string, matchHttps: string -> Option<(string, string)>)
    requires '/' !in bucket
    ensures ParseS3Url(Scheme + bucket + "/" + key, matchHttps) == Some((bucket, key))
  {
    var url := Scheme + bucket + "/" + key;
    var rest := bucket + "/" + key;
    assert url[..|Scheme|] == Scheme;
    assert url[|Scheme|..] == rest;
    assert rest[|bucket|] == '/';
    assert rest[..|bucket|] == bucket;
    var i := IndexOf(rest, '/');
    assert forall t :: 0 <= t < |bucket| ==> rest[t] == bucket[t];
    assert i.value <= |bucket| ==> rest[..i.value] == bucket[..i.value];
    assert i == Some(|bucket|);
    assert rest[|bucket| + 1..] == key;
  }
}
