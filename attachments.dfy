// get_attachment_info and extract_attachment: which parts are described as
// attachments, the description line with its size in kilobytes, and the
// record of an attachment saved to disk.

module Attachments {
  import opened Strings
  import opened Runtime
  import opened Mime
  import opened Filenames
  import opened Headers

  /** `Path(attachments_dir) / unique_filename`, kept as its two halves. */
  datatype SavedPath = SavedPath(dir: string, name: string)

  /** The dictionary extract_attachment returns. */
  datatype Record = Record(
    filename: string,
    originalFilename: string,
    size: nat,
    contentType: string,
    path: SavedPath)

  /** What get_attachment_info returns: the description line and the record
      of the saved file, if one was saved. */
  datatype Attachment = Attachment(infoText: string, extracted: Option<Record>)

  /** The arguments the walk passes to get_attachment_info: `attachments_dir`,
      `email_name` (the message file's name) and `extract`. */
  datatype Config = Config(attachmentsDir: Option<string>, emailName: string, extract: bool)

  /** `extract and attachments_dir and email_name`. */
  predicate Extracting(cfg: Config)
  {
    cfg.extract && Truthy(cfg.attachmentsDir) && cfg.emailName != ""
  }

  const AttachmentDispositions: seq<Option<string>> := [Some("attachment"), Some("inline")]
  const StructuralTypes: seq<string> := ["multipart/alternative", "multipart/related", "multipart/mixed"]

  /** `size/1024` formatted with `:.1f`, as a count of tenths: the nearest
      whole number of tenths of a kilobyte, ties to the even one. */
  function KbTenths(size: nat): (t: nat)
  {
    var q := size * 10 / 1024;
    var rem := size * 10 % 1024;
    if 2 * rem > 1024 || (2 * rem == 1024 && q % 2 == 1) then q + 1 else q
  }

  /** `f"{size/1024:.1f}"`. */
  function KbText(size: nat): string
  {
    var t := KbTenths(size);
    NatToString(t / 10) + "." + [DigitChar(t % 10)]
  }

  /** The tenths shown are a nearest whole number of tenths to size/1024,
      and the even one of two equally near. */
  lemma KbTenthsNearest(size: nat)
    ensures var t := KbTenths(size);
      && -512 <= 10 * size - 1024 * t <= 512
      && (10 * size - 1024 * t == 512 ==> t % 2 == 0)
      && (10 * size - 1024 * t == -512 ==> t % 2 == 0)
  {
  }

  /** The shown text reads back as the tenths it was made from: its digits
      before the point are t / 10 and the one after is t % 10. */
  lemma {:induction false} KbTextReadsBack(size: nat)
    ensures var s := KbText(size);
      && |s| >= 3 && s[|s| - 2] == '.'
      && (forall k :: 0 <= k < |s| && k != |s| - 2 ==> '0' <= s[k] <= '9')
      && (|s| == 3 || s[0] != '0')
      && 10 * ParseNat(s[..|s| - 2]) + DigitValue(s[|s| - 1]) == KbTenths(size)
  {
    var t := KbTenths(size);
    var s := KbText(size);
    assert s[..|s| - 2] == NatToString(t / 10);
    ParseNatToString(t / 10);
  }

  /** The description line: `f"[ATTACHMENT: {filename} ({content_type}, ~{size/1024:.1f} KB)]"`. */
  function DescriptionLine(name: string, contentType: string, size: nat): string
  {
    "[ATTACHMENT: " + name + " (" + contentType + ", ~" + KbText(size) + " KB)]"
  }

  /** The file name extract_attachment works with: the declared one, or the
      synthesized `unnamed_attachment_<type>` one, header-decoded and sanitized. */
  function ExtractedName(lib: Library, p: Part): string
  {
    var name := if Truthy(p.filename) then p.filename.value
                else SynthesizedName(p.contentType, ExtensionOrBin(lib.guessExtension(p.contentType)));
    Sanitized(HeaderText(lib, Some(name)))
  }

  /** extract_attachment (its file write is recorded by the walk): no record
      for a missing or empty decoded payload, otherwise the record of the
      file saved under the message's prefix. */
  function ExtractAttachment(lib: Library, p: Part, dir: string, emailName: string): (r: Option<Record>)
    ensures r.Some? <==> DecodedPayload(p).Some? && DecodedPayload(p).value != []
    ensures r.Some? ==>
      && r.value.originalFilename == ExtractedName(lib, p)
      && r.value.filename == EmailPrefix(emailName) + "_" + r.value.originalFilename
      && r.value.size == |DecodedPayload(p).value|
      && r.value.contentType == p.contentType
      && r.value.path == SavedPath(dir, r.value.filename)
    ensures r.Some? ==> forall k :: 0 <= k < |r.value.originalFilename| ==>
      r.value.originalFilename[k] !in InvalidChars
  {
    var filename := ExtractedName(lib, p);
    SanitizedIsClean(HeaderText(lib, Some(if Truthy(p.filename) then p.filename.value
      else SynthesizedName(p.contentType, ExtensionOrBin(lib.guessExtension(p.contentType))))));
    var uniqueFilename := UniqueName(emailName, filename);
    match DecodedPayload(p)
    case Some(payload) =>
      if payload != [] then
        Some(Record(uniqueFilename, filename, |payload|, p.contentType, SavedPath(dir, uniqueFilename)))
      else None
    case None => None
  }

  /** The first test of get_attachment_info: a declared file name, or a
      parsed disposition of "attachment" or "inline". */
  predicate LooksAttached(p: Part)
  {
    Truthy(p.filename) || p.disposition in AttachmentDispositions
  }

  /** get_attachment_info. */
  function AttachmentInfo(lib: Library, cfg: Config, p: Part): (r: Option<Attachment>)
    ensures r.Some? <==> LooksAttached(p) && p.contentType !in StructuralTypes
    ensures r.Some? ==>
      var shown := if Truthy(p.filename) then HeaderText(lib, p.filename)
                   else DescribedUnnamed(ExtensionOrBin(lib.guessExtension(p.contentType)));
      && (r.value.extracted.Some? ==>
            r.value.infoText == DescriptionLine(shown, p.contentType, RawSize(p))
                                + " - Saved as: " + r.value.extracted.value.filename)
      && (r.value.extracted.None? ==>
            r.value.infoText == DescriptionLine(shown, p.contentType, RawSize(p)))
    ensures r.Some? ==> (r.value.extracted.Some? <==>
      Extracting(cfg) && DecodedPayload(p).Some? && DecodedPayload(p).value != [])
    ensures r.Some? && r.value.extracted.Some? ==>
      r.value.extracted == ExtractAttachment(lib, p, cfg.attachmentsDir.value, cfg.emailName)
  {
    if LooksAttached(p) then
      if p.contentType in StructuralTypes then None
      else
        var filename := if Truthy(p.filename) then HeaderText(lib, p.filename)
                        else DescribedUnnamed(ExtensionOrBin(lib.guessExtension(p.contentType)));
        var size := RawSize(p);
        var extractedInfo :=
          if Extracting(cfg) then ExtractAttachment(lib, p, cfg.attachmentsDir.value, cfg.emailName)
          else None;
        var info := DescriptionLine(filename, p.contentType, size);
        var info := if extractedInfo.Some? then info + " - Saved as: " + extractedInfo.value.filename else info;
        Some(Attachment(info, extractedInfo))
    else
      None
  }

  /** Every description line opens with "[ATTACHMENT: ". */
  lemma AttachmentInfoOpens(lib: Library, cfg: Config, p: Part)
    requires AttachmentInfo(lib, cfg, p).Some?
    ensures "[ATTACHMENT: " <= AttachmentInfo(lib, cfg, p).value.infoText
  {
  }

  /** The same attachment described with and without extraction: the size
      shown is that of the undecoded payload either way, and the saved line
      only appends " - Saved as: <unique name>". */
  lemma SavedSuffixOnly(lib: Library, cfg: Config, p: Part)
    requires AttachmentInfo(lib, cfg, p).Some?
    requires AttachmentInfo(lib, cfg, p).value.extracted.Some?
    ensures AttachmentInfo(lib, cfg.(extract := false), p).value.infoText
            + " - Saved as: " + EmailPrefix(cfg.emailName) + "_" + ExtractedName(lib, p)
            == AttachmentInfo(lib, cfg, p).value.infoText
  {
  }
}
