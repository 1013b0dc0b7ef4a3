// The parsed message as the converter sees it: a tree of parts whose fields
// are what the `email.message.Message` accessors return, and the top-level
// header list that `msg[name]` and `name in msg` search.

module Mime {
  import opened Strings

  /** A part's payload: `get_payload()` is a string for a leaf and a list of
      parts when `is_multipart()` holds. A leaf also carries what
      `get_payload(decode=True)` returns, its transfer encoding undone. */
  datatype Body =
    | Leaf(raw: string, decoded: seq<byte>)
    | Multi(children: seq<Part>)

  datatype Part = Part(
    /** `get_content_type()`: lower-case "maintype/subtype" */
    contentType: string,
    /** `str(get('Content-Disposition', ''))`: the raw header text */
    dispositionHeader: string,
    /** `get_content_disposition()`: its lower-cased main value */
    disposition: Option<string>,
    /** `get_filename()` */
    filename: Option<string>,
    /** `get_content_charset()` */
    charset: Option<string>,
    /** `get('Content-Transfer-Encoding')`: the header text as written */
    transferEncoding: Option<string>,
    body: Body)

  /** `len(part.get_payload(decode=False))`: the characters of an undecoded
      leaf payload, or the number of sub-parts of a multipart one. */
  function RawSize(p: Part): nat
  {
    match p.body
    case Leaf(raw, _) => |raw|
    case Multi(children) => |children|
  }

  /** `part.get_payload(decode=True)`: `None` for a multipart part. */
  function DecodedPayload(p: Part): Option<seq<byte>>
  {
    match p.body
    case Leaf(_, decoded) => Some(decoded)
    case Multi(_) => None
  }

  /** What the parser guarantees of the trees it builds and the walk relies
      on: a `text/plain` part holds a leaf payload. (Multipart payloads come
      only from "multipart/..." and "message/..." types.) */
  ghost predicate Parsed(p: Part)
    decreases p
  {
    && (p.contentType == "text/plain" ==> p.body.Leaf?)
    && (p.body.Multi? ==> forall c :: c in p.body.children ==> Parsed(c))
  }

  /** A message: its top-level headers in file order, and its root part. */
  datatype Message = Message(headers: seq<(string, string)>, root: Part)

  predicate SameName(a: string, b: string)
  {
    LowerAscii(a) == LowerAscii(b)
  }

  /** `msg[name]`, with `name in msg` as `.Some?`: the value of the first
      header whose name matches ignoring case, or `None`. */
  function GetHeader(headers: seq<(string, string)>, name: string): (r: Option<string>)
    ensures r.None? <==> forall i :: 0 <= i < |headers| ==> !SameName(headers[i].0, name)
    ensures r.Some? ==>
      exists i :: && 0 <= i < |headers| && SameName(headers[i].0, name)
                  && r.value == headers[i].1
                  && forall j :: 0 <= j < i ==> !SameName(headers[j].0, name)
  {
    if headers == [] then None
    else if SameName(headers[0].0, name) then Some(headers[0].1)
    else
      var r := GetHeader(headers[1..], name);
      assert forall i :: 1 <= i < |headers| ==> headers[i] == headers[1..][i - 1];
      r
  }
}
