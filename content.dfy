// The text a `text/plain` part contributes to the body: its payload decoded
// in its declared charset, or, when Python has no codec of that name, the
// decode_content fallback on the transfer-encoding name.

module Content {
  import opened Strings
  import opened Runtime
  import opened Mime

  /** An element of the body list: normally text, but decode_content hands
      back the payload bytes themselves for 7bit, 8bit and absent encodings. */
  datatype Fragment = Text(text: string) | Bytes(data: seq<byte>)

  const Base64Marker: string := "[BASE64 ENCODED BINARY CONTENT - NOT DISPLAYED]"

  function UnknownEncodingMarker(name: string): string
  {
    "[UNKNOWN ENCODING: " + name + "]"
  }

  predicate PassesThrough(encoding: Option<string>)
  {
    encoding == None || encoding == Some("7bit") || encoding == Some("8bit")
  }

  /** decode_content: a dispatch on the exact transfer-encoding name. */
  function DecodeContent(lib: Library, content: seq<byte>, encoding: Option<string>): (r: Fragment)
    ensures r.Bytes? <==> PassesThrough(encoding)
    ensures r.Bytes? ==> r.data == content
    ensures encoding == Some("base64") ==>
      r == if lib.b64decode(content).None? then Text(Base64Marker)
           else Text(lib.utf8(lib.b64decode(content).value))
    ensures encoding == Some("quoted-printable") ==> r == Text(lib.utf8(lib.qpDecode(content)))
    ensures (encoding.Some? && !PassesThrough(encoding)
             && encoding.value != "base64" && encoding.value != "quoted-printable") ==>
            r == Text(UnknownEncodingMarker(encoding.value))
  {
    if encoding == Some("base64") then
      match lib.b64decode(content)
      case Some(bytes) => Text(lib.utf8(bytes))
      case None => Text(Base64Marker)
    else if encoding == Some("quoted-printable") then
      Text(lib.utf8(lib.qpDecode(content)))
    else if PassesThrough(encoding) then
      Bytes(content)
    else
      Text(UnknownEncodingMarker(encoding.value))
  }

  /** `get_content_charset() or 'utf-8'`. */
  function CharsetOrUtf8(charset: Option<string>): (r: string)
    ensures r != ""
    ensures Truthy(charset) ==> r == charset.value
    ensures !Truthy(charset) ==> r == "utf-8"
  {
    if Truthy(charset) then charset.value else "utf-8"
  }

  /** The fragment the walk appends for a `text/plain` part: `content.decode(charset,
      errors='replace')` when that does not raise, and decode_content on the
      same bytes when it raises anything at all (the `except` is bare). */
  function PlainText(lib: Library, p: Part): (r: Fragment)
    requires p.body.Leaf?
    ensures lib.knownCharset(CharsetOrUtf8(p.charset)) ==>
      r == Text(lib.decodeCharset(CharsetOrUtf8(p.charset), p.body.decoded))
    ensures !lib.knownCharset(CharsetOrUtf8(p.charset)) ==>
      r == DecodeContent(lib, p.body.decoded, p.transferEncoding)
    ensures r.Bytes? <==> !lib.knownCharset(CharsetOrUtf8(p.charset)) && PassesThrough(p.transferEncoding)
  {
    var charset := CharsetOrUtf8(p.charset);
    if lib.knownCharset(charset) then Text(lib.decodeCharset(charset, p.body.decoded))
    else DecodeContent(lib, p.body.decoded, p.transferEncoding)
  }
}
