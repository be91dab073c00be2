/** `data:` URIs with base64-encoded data, following the syntax of section 3 of RFC 2397:
    `data:` [mediatype] `;base64` `,` data. */
module DataUri {
  import opened Wrappers

  const Scheme: string := "data:"
  const Base64Marker: string := ";base64"

  /** The URI that carries `data` (already base64 text) with media type `mediatype`. */
  function Build(mediatype: string, data: string): (uri: string)
    ensures |uri| == |mediatype| + |data| + 13
  {
    Scheme + mediatype + Base64Marker + "," + data
  }

  /** The two fields a base64 `data:` URI is made of. */
  datatype Parts = Parts(mediatype: string, data: string)

  /** The position of the last occurrence of `c` in `s`. */
  function LastIndexOf(s: string, c: char): (r: Option<nat>)
    ensures r.None? <==> c !in s
    ensures r.Some? ==> r.value < |s| && s[r.value] == c && c !in s[r.value + 1..]
  {
    if s == [] then None
    else if s[|s| - 1] == c then Some(|s| - 1)
    else
      var r := LastIndexOf(s[..|s| - 1], c);
      assert s == s[..|s| - 1] + [s[|s| - 1]];
      r
  }

  /** Reads a base64 `data:` URI back into its media type and data. The data of such a
      URI is base64 text, which has no comma, so the URI is split at its last comma;
      anything that is not of the form `data:<mediatype>;base64,<data>` is refused. */
  function Parse(uri: string): (r: Option<Parts>)
    ensures r.Some? ==> Build(r.value.mediatype, r.value.data) == uri && ',' !in r.value.data
  {
    if |uri| < |Scheme| || uri[..|Scheme|] != Scheme then None
    else match LastIndexOf(uri, ',')
      case None => None
      case Some(k) =>
        if k < |Scheme| + |Base64Marker| || uri[k - |Base64Marker|..k] != Base64Marker then None
        else
          var parts := Parts(uri[|Scheme|..k - |Base64Marker|], uri[k + 1..]);
          assert uri == uri[..|Scheme|] + parts.mediatype + uri[k - |Base64Marker|..k] + [uri[k]] + parts.data;
          Some(parts)
  }

  /** A URI built from a media type and comma-free data parses back to exactly those two,
      whatever characters the media type holds. */
  lemma ParseBuild(mediatype: string, data: string)
    requires ',' !in data
    ensures Parse(Build(mediatype, data)) == Some(Parts(mediatype, data))
  {
    var uri := Build(mediatype, data);
    var k := |uri| - |data| - 1;
    assert uri[k] == ',' && uri[k + 1..] == data;
    assert LastIndexOf(uri, ',') == Some(k);
    assert uri[..|Scheme|] == Scheme;
    assert uri[k - |Base64Marker|..k] == Base64Marker;
    assert uri[|Scheme|..k - |Base64Marker|] == mediatype;
  }
}
