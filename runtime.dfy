// The parts of Python's library that the converter calls but that this model
// does not re-implement: RFC 2047 header splitting, the charset codecs,
// base64, quoted-printable and the MIME-type-to-extension table. Each is a
// field of `Library`, a record of total functions that every operation takes
// as a parameter, so every fact proved holds whatever those functions do.

module Runtime {
  import opened Strings

  /** One element of the list `email.header.decode_header` returns: a run of
      unencoded text (a `str` when the value holds no encoded-word), or a run
      of bytes with the charset its encoded-word declared (`None` for the
      plain runs between encoded-words). */
  datatype Segment = Plain(text: string) | Encoded(data: seq<byte>, charset: Option<string>)

  datatype Library = Library(
    /** `email.header.decode_header(value)` */
    decodeHeader: string -> seq<Segment>,
    /** whether `bytes.decode(charset, errors='replace')` returns without
        raising (decided by the charset name alone) */
    knownCharset: string -> bool,
    /** `data.decode(charset, errors='replace')` for a known charset */
    decodeCharset: (string, seq<byte>) -> string,
    /** `data.decode('utf-8', errors='replace')` */
    utf8: seq<byte> -> string,
    /** `base64.b64decode(data)`, `None` when it raises */
    b64decode: seq<byte> -> Option<seq<byte>>,
    /** `quopri.decodestring(data)` */
    qpDecode: seq<byte> -> seq<byte>,
    /** `mimetypes.guess_extension(content_type)` */
    guessExtension: string -> Option<string>)
}
