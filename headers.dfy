// decode_header_value: a header value, already split by the library into
// encoded-word and plain runs, decoded run by run and joined with one space.

module Headers {
  import opened Strings
  import opened Runtime

  /** The text of one run: a `str` run as it is; a bytes run in its declared
      charset when there is one and Python knows it, in UTF-8 otherwise. */
  function SegmentText(lib: Library, seg: Segment): (r: string)
    ensures seg.Plain? ==> r == seg.text
    ensures seg.Encoded? && Truthy(seg.charset) && lib.knownCharset(seg.charset.value) ==>
      r == lib.decodeCharset(seg.charset.value, seg.data)
    ensures seg.Encoded? && !(Truthy(seg.charset) && lib.knownCharset(seg.charset.value)) ==>
      r == lib.utf8(seg.data)
  {
    match seg
    case Plain(text) => text
    case Encoded(data, charset) =>
      if Truthy(charset) && lib.knownCharset(charset.value) then lib.decodeCharset(charset.value, data)
      else lib.utf8(data)
  }

  /** The decoded runs, one per input run and in the same order. */
  function SegmentTexts(lib: Library, segs: seq<Segment>): (r: seq<string>)
    ensures |r| == |segs|
    ensures forall k :: 0 <= k < |segs| ==> r[k] == SegmentText(lib, segs[k])
  {
    if segs == [] then [] else SegmentTexts(lib, segs[..|segs| - 1]) + [SegmentText(lib, segs[|segs| - 1])]
  }

  /** What `decode_header_value` returns for `value` (`None` for a missing header). */
  function HeaderText(lib: Library, value: Option<string>): string
  {
    if value.None? then "" else Join(SegmentTexts(lib, lib.decodeHeader(value.value)), " ")
  }

  /** decode_header_value: accumulates the decoded runs, then joins them with
      single spaces. */
  method DecodeHeaderValue(lib: Library, value: Option<string>) returns (r: string)
    ensures r == HeaderText(lib, value)
  {
    if value.None? {
      return "";
    }
    var segs := lib.decodeHeader(value.value);
    var decodedParts: seq<string> := [];
    for i := 0 to |segs|
      invariant decodedParts == SegmentTexts(lib, segs[..i])
    {
      assert segs[..i + 1][..i] == segs[..i];
      decodedParts := decodedParts + [SegmentText(lib, segs[i])];
    }
    assert segs[..|segs|] == segs;
    r := Join(decodedParts, " ");
  }

  /** A missing header decodes to the empty string, not an error. */
  lemma HeaderTextMissing(lib: Library)
    ensures HeaderText(lib, None) == ""
  {
  }

  /** A value without encoded-words, which the library returns as a single
      `str` run, comes back unchanged. */
  lemma HeaderTextUnencoded(lib: Library, v: string)
    requires lib.decodeHeader(v) == [Plain(v)]
    ensures HeaderText(lib, Some(v)) == v
  {
  }

  /** The result is the decoded runs in order, separated by single spaces:
      when no decoded run contains a space, splitting the result on spaces
      gives back exactly one piece per run. */
  lemma HeaderTextPieces(lib: Library, v: string)
    requires |lib.decodeHeader(v)| > 0
    requires forall k :: 0 <= k < |lib.decodeHeader(v)| ==> ' ' !in SegmentText(lib, lib.decodeHeader(v)[k])
    ensures Split(HeaderText(lib, Some(v)), ' ') == SegmentTexts(lib, lib.decodeHeader(v))
  {
    SplitJoin(SegmentTexts(lib, lib.decodeHeader(v)), ' ');
  }

  /** The result's length: the decoded runs plus one space between neighbours. */
  lemma HeaderTextLength(lib: Library, v: string)
    requires |lib.decodeHeader(v)| > 0
    ensures |HeaderText(lib, Some(v))|
      == SumLengths(SegmentTexts(lib, lib.decodeHeader(v))) + |lib.decodeHeader(v)| - 1
  {
    JoinLength(SegmentTexts(lib, lib.decodeHeader(v)), " ");
  }
}
