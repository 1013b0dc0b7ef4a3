// process_eml_file: the banner, the selected headers, the walk of the part
// tree, and the BODY and ATTACHMENTS sections, joined with newlines into the
// text written to the output file.

module Report {
  import opened Strings
  import opened Runtime
  import opened Mime
  import opened Content
  import opened Headers
  import opened Attachments
  import opened Walk

  const Rule: string := Repeat('=', 80)
  const Divider: string := Repeat('-', 80)
  const ImportantHeaders: seq<string> := ["From", "To", "Cc", "Bcc", "Subject", "Date"]

  function Banner(emlName: string): seq<string>
  {
    [Rule, "EMAIL: " + emlName, Rule, ""]
  }

  /** `f"{header}: {decoded_value}"` for each of `names` present in the
      message, in the order of `names`. */
  function HeaderLines(lib: Library, headers: seq<(string, string)>, names: seq<string>): seq<string>
  {
    if names == [] then []
    else HeaderLines(lib, headers, names[..|names| - 1]) + HeaderLine(lib, headers, names[|names| - 1])
  }

  /** The line for one header name: none when the message lacks it. */
  function HeaderLine(lib: Library, headers: seq<(string, string)>, name: string): seq<string>
  {
    match GetHeader(headers, name)
    case None => []
    case Some(v) => [name + ": " + HeaderText(lib, Some(v))]
  }

  lemma HeaderLinesSnoc(lib: Library, headers: seq<(string, string)>, names: seq<string>, i: nat)
    requires i < |names|
    ensures HeaderLines(lib, headers, names[..i + 1])
         == HeaderLines(lib, headers, names[..i]) + HeaderLine(lib, headers, names[i])
  {
    assert names[..i + 1][..i] == names[..i];
  }

  function Texts(xs: seq<string>): (r: seq<Fragment>)
    ensures |r| == |xs| && forall k :: 0 <= k < |xs| ==> r[k] == Text(xs[k])
  {
    if xs == [] then [] else [Text(xs[0])] + Texts(xs[1..])
  }

  /** The lines before the walk's output: banner, headers, divider. */
  function HeadLines(lib: Library, msg: Message, emlName: string): seq<string>
  {
    Banner(emlName) + HeaderLines(lib, msg.headers, ImportantHeaders) + ["", Divider, ""]
  }

  /** The BODY section if there is a body fragment, then the ATTACHMENTS
      section if there is a description line. */
  function Sections(r: Rendered): seq<Fragment>
  {
    BodyBlock(r.body) + InfoBlock(r.infos)
  }

  /** "BODY:", a blank line and the fragments, or nothing without fragments. */
  function BodyBlock(body: seq<Fragment>): seq<Fragment>
  {
    if body != [] then [Text("BODY:"), Text("")] + body else []
  }

  /** A blank line, the divider, "ATTACHMENTS:" and the description lines,
      or nothing without description lines. */
  function InfoBlock(infos: seq<string>): seq<Fragment>
  {
    if infos != [] then [Text(""), Text(Divider), Text("ATTACHMENTS:")] + Texts(infos) else []
  }

  /** The list `output` that process_eml_file builds around the walk's lists. */
  function ReportLines(lib: Library, msg: Message, emlName: string, r: Rendered): seq<Fragment>
  {
    Texts(HeadLines(lib, msg, emlName)) + Sections(r)
  }

  predicate AllText(lines: seq<Fragment>)
  {
    forall k :: 0 <= k < |lines| ==> lines[k].Text?
  }

  function Strs(lines: seq<Fragment>): (r: seq<string>)
    requires AllText(lines)
    ensures |r| == |lines| && forall k :: 0 <= k < |lines| ==> Text(r[k]) == lines[k]
  {
    if lines == [] then [] else [lines[0].text] + Strs(lines[1..])
  }

  /** `'\n'.join(output)`, which raises `TypeError` (here `None`) when an
      element is bytes rather than text. */
  function JoinLines(lines: seq<Fragment>): (r: Option<string>)
    ensures r.Some? <==> AllText(lines)
  {
    if AllText(lines) then Some(Join(Strs(lines), "\n")) else None
  }

  /** What process_eml_file hands back when it completes. */
  datatype Converted = Converted(text: string, extracted: seq<Record>)

  /** The walk's configuration for one file: the message file's name is the
      `email_name` used for the saved-name prefix. */
  function WalkConfig(emlName: string, attachmentsDir: Option<string>, extract: bool): Config
  {
    Config(attachmentsDir, emlName, extract)
  }

  /** The text written and the records returned, or `None` where the join raises. */
  function Conversion(lib: Library, msg: Message, emlName: string, cfg: Config): Option<Converted>
    requires Parsed(msg.root)
  {
    var r := WalkMessage(lib, cfg, msg.root);
    match JoinLines(ReportLines(lib, msg, emlName, r))
    case None => None
    case Some(text) => Some(Converted(text, r.records))
  }

  lemma {:induction false} TextsConcat(a: seq<string>, b: seq<string>)
    ensures Texts(a + b) == Texts(a) + Texts(b)
  {
  }

  /** The header loop of process_eml_file: one line per important header
      present in the message, appended in the fixed order. */
  method AppendHeaders(lib: Library, headers: seq<(string, string)>, names: seq<string>, output: seq<Fragment>)
    returns (out: seq<Fragment>)
    ensures out == output + Texts(HeaderLines(lib, headers, names))
  {
    out := output;
    for i := 0 to |names|
      invariant out == output + Texts(HeaderLines(lib, headers, names[..i]))
    {
      HeaderLinesSnoc(lib, headers, names, i);
      TextsConcat(HeaderLines(lib, headers, names[..i]), HeaderLine(lib, headers, names[i]));
      out := AppendHeader(lib, headers, names[i], out);
    }
    assert names[..|names|] == names;
  }

  /** One turn of the header loop: the line for `header` if the message has it. */
  method AppendHeader(lib: Library, headers: seq<(string, string)>, header: string, output: seq<Fragment>)
    returns (out: seq<Fragment>)
    ensures out == output + Texts(HeaderLine(lib, headers, header))
  {
    out := output;
    var value := GetHeader(headers, header);
    if value.Some? {
      var decodedValue := DecodeHeaderValue(lib, value);
      out := out + [Text(header + ": " + decodedValue)];
    }
  }

  /** The banner and header lines process_eml_file appends before the walk. */
  method AppendHead(lib: Library, msg: Message, emlName: string) returns (output: seq<Fragment>)
    ensures output == Texts(HeadLines(lib, msg, emlName))
  {
    output := [];
    output := output + [Text(Rule)];
    output := output + [Text("EMAIL: " + emlName)];
    output := output + [Text(Rule)];
    output := output + [Text("")];
    assert output == Texts(Banner(emlName));
    output := AppendHeaders(lib, msg.headers, ImportantHeaders, output);
    output := output + [Text(""), Text(Divider), Text("")];
    TextsConcat(Banner(emlName), HeaderLines(lib, msg.headers, ImportantHeaders));
    TextsConcat(Banner(emlName) + HeaderLines(lib, msg.headers, ImportantHeaders), ["", Divider, ""]);
  }

  /** The BODY and ATTACHMENTS sections process_eml_file appends after the walk. */
  method AppendSections(output: seq<Fragment>, bodyText: seq<Fragment>, attachmentInfo: seq<string>)
    returns (out: seq<Fragment>)
    ensures out == output + Sections(Rendered(bodyText, attachmentInfo, [], []))
  {
    var body := [];
    if bodyText != [] {
      body := [Text("BODY:"), Text("")];
      body := body + bodyText;
    }
    var info := [];
    if attachmentInfo != [] {
      info := [Text(""), Text(Divider), Text("ATTACHMENTS:")];
      info := info + Texts(attachmentInfo);
    }
    assert body == BodyBlock(bodyText) && info == InfoBlock(attachmentInfo);
    out := output + (body + info);
  }

  /** process_eml_file, for an already parsed message. `written` lists the
      attachment files saved during the walk, which happen even when the
      final join raises. */
  method ProcessEmlFile(lib: Library, msg: Message, emlName: string,
                        attachmentsDir: Option<string>, extractAttachments: bool)
    returns (result: Option<Converted>, written: seq<FileWrite>)
    requires Parsed(msg.root)
    ensures var cfg := WalkConfig(emlName, attachmentsDir, extractAttachments);
      && written == WalkMessage(lib, cfg, msg.root).writes
      && result == Conversion(lib, msg, emlName, cfg)
  {
    var cfg := WalkConfig(emlName, attachmentsDir, extractAttachments);
    var output := AppendHead(lib, msg, emlName);
    var walked := RunWalk(lib, cfg, msg.root);
    output := AppendSections(output, walked.body, walked.infos);
    assert Sections(Rendered(walked.body, walked.infos, [], [])) == Sections(walked);
    written := walked.writes;
    var text := JoinLines(output);
    result := if text.Some? then Some(Converted(text.value, walked.records)) else None;
  }

  /** The three lists of process_eml_file and the files written, after the
      walk from the root. */
  method RunWalk(lib: Library, cfg: Config, root: Part) returns (walked: Rendered)
    requires Parsed(root)
    ensures walked == WalkMessage(lib, cfg, root)
  {
    var walker := new Walker(lib, cfg);
    walker.ExtractMessage(root);
    ThenNothing(WalkMessage(lib, cfg, root));
    walked := Rendered(walker.bodyText, walker.attachmentInfo, walker.extractedAttachments, walker.written);
  }

  // ---------------------------------------------------------------------
  // What the written text says.

  /** Every header line is "<name>: <decoded value>" for a listed name the
      message has; `k` is that name's position. */
  lemma {:induction false} HeaderLineNamed(lib: Library, headers: seq<(string, string)>, names: seq<string>, i: nat)
    returns (k: nat)
    requires i < |HeaderLines(lib, headers, names)|
    ensures k < |names| && GetHeader(headers, names[k]).Some?
    ensures HeaderLines(lib, headers, names)[i] == names[k] + ": " + HeaderText(lib, GetHeader(headers, names[k]))
  {
    var init := names[..|names| - 1];
    var before := HeaderLines(lib, headers, init);
    if i < |before| {
      k := HeaderLineNamed(lib, headers, init, i);
      assert names[k] == init[k];
    } else {
      k := |names| - 1;
    }
  }

  /** A listed header the message has gets its line. */
  lemma {:induction false} HeaderLinesComplete(lib: Library, headers: seq<(string, string)>, names: seq<string>, k: nat)
    requires k < |names| && GetHeader(headers, names[k]).Some?
    ensures names[k] + ": " + HeaderText(lib, GetHeader(headers, names[k])) in HeaderLines(lib, headers, names)
  {
    var init := names[..|names| - 1];
    if k < |names| - 1 {
      assert init[k] == names[k];
      HeaderLinesComplete(lib, headers, init, k);
    }
  }

  /** Names told apart by their first letter. */
  predicate DistinctInitials(names: seq<string>)
  {
    && (forall j :: 0 <= j < |names| ==> names[j] != [])
    && (forall j, k :: 0 <= j < k < |names| ==> names[j][0] != names[k][0])
  }

  lemma ImportantHeadersInitials()
    ensures DistinctInitials(ImportantHeaders)
  {
  }

  /** For names with distinct initials, the line for a name appears exactly
      when the message has that header, and it shows the decoded value. */
  lemma HeaderPresence(lib: Library, headers: seq<(string, string)>, names: seq<string>, k: nat)
    requires DistinctInitials(names) && k < |names|
    ensures var lines := HeaderLines(lib, headers, names);
      (exists i :: 0 <= i < |lines| && names[k] + ": " <= lines[i]) <==> GetHeader(headers, names[k]).Some?
    ensures GetHeader(headers, names[k]).Some? ==>
      names[k] + ": " + HeaderText(lib, GetHeader(headers, names[k])) in HeaderLines(lib, headers, names)
  {
    var name := names[k];
    var lines := HeaderLines(lib, headers, names);
    if GetHeader(headers, name).Some? {
      HeaderLinesComplete(lib, headers, names, k);
      var line := name + ": " + HeaderText(lib, GetHeader(headers, name));
      var i :| 0 <= i < |lines| && lines[i] == line;
      assert name + ": " <= lines[i];
    }
    if exists i :: 0 <= i < |lines| && name + ": " <= lines[i] {
      var i :| 0 <= i < |lines| && name + ": " <= lines[i];
      var j := HeaderLineNamed(lib, headers, names, i);
      assert lines[i][0] == name[0];
      assert lines[i][0] == names[j][0];
    }
  }

  /** A line for each of From, To, Cc, Bcc, Subject and Date appears exactly
      when the message has that header, and it shows the decoded value. */
  lemma ReportHeaderPresence(lib: Library, headers: seq<(string, string)>, k: nat)
    requires k < |ImportantHeaders|
    ensures var lines := HeaderLines(lib, headers, ImportantHeaders);
      (exists i :: 0 <= i < |lines| && ImportantHeaders[k] + ": " <= lines[i])
      <==> GetHeader(headers, ImportantHeaders[k]).Some?
    ensures GetHeader(headers, ImportantHeaders[k]).Some? ==>
      ImportantHeaders[k] + ": " + HeaderText(lib, GetHeader(headers, ImportantHeaders[k]))
        in HeaderLines(lib, headers, ImportantHeaders)
  {
    ImportantHeadersInitials();
    HeaderPresence(lib, headers, ImportantHeaders, k);
  }

  /** The number of listed headers the message has. */
  function CountPresent(headers: seq<(string, string)>, names: seq<string>): nat
  {
    if names == [] then 0
    else CountPresent(headers, names[..|names| - 1]) + (if GetHeader(headers, names[|names| - 1]).Some? then 1 else 0)
  }

  /** One header line per listed header present, no more. */
  lemma {:induction false} HeaderLinesCount(lib: Library, headers: seq<(string, string)>, names: seq<string>)
    ensures |HeaderLines(lib, headers, names)| == CountPresent(headers, names)
  {
    if names != [] {
      HeaderLinesCount(lib, headers, names[..|names| - 1]);
    }
  }

  /** The text opens with 80 '=', "EMAIL: <name>", 80 '=' and a blank line. */
  lemma ReportOpens(lib: Library, msg: Message, emlName: string, r: Rendered)
    ensures |ReportLines(lib, msg, emlName, r)| >= 7
    ensures ReportLines(lib, msg, emlName, r)[..4]
         == [Text(Repeat('=', 80)), Text("EMAIL: " + emlName), Text(Repeat('=', 80)), Text("")]
  {
    var head := HeadLines(lib, msg, emlName);
    var banner := Banner(emlName);
    assert head[..4] == banner;
    HeadTexts(head, Sections(r), 4);
  }

  /** The first `n` lines come from the first `n` strings of the head. */
  lemma HeadTexts(head: seq<string>, rest: seq<Fragment>, n: nat)
    requires n <= |head|
    ensures (Texts(head) + rest)[..n] == Texts(head[..n])
  {
    var a := (Texts(head) + rest)[..n];
    var b := Texts(head[..n]);
    assert |a| == |b|;
    forall k | 0 <= k < n ensures a[k] == b[k] {
      assert a[k] == Texts(head)[k] == Text(head[k]);
    }
  }

  /** Every header line holds a space, after "<name>:". */
  lemma HeaderLineHasSpace(lib: Library, headers: seq<(string, string)>, names: seq<string>, i: nat)
    requires i < |HeaderLines(lib, headers, names)|
    ensures ' ' in HeaderLines(lib, headers, names)[i]
  {
    var j := HeaderLineNamed(lib, headers, names, i);
    var line := HeaderLines(lib, headers, names)[i];
    assert line[|names[j]| + 1] == ' ';
  }

  /** A line that is empty, holds a space, or opens with '=', '-' or 'E' is
      neither section title. */
  lemma NotSectionTitle(line: string)
    requires line == [] || ' ' in line || line[0] == '=' || line[0] == '-' || line[0] == 'E'
    ensures line != "BODY:" && line != "ATTACHMENTS:"
  {
    assert ' ' !in "BODY:" && ' ' !in "ATTACHMENTS:";
  }

  /** No line of a head built around lines that each hold a space is
      "BODY:" or "ATTACHMENTS:". */
  lemma HeadShapeNoTitle(emlName: string, hl: seq<string>, k: nat)
    requires forall i :: 0 <= i < |hl| ==> ' ' in hl[i]
    requires k < |Banner(emlName) + hl + ["", Divider, ""]|
    ensures (Banner(emlName) + hl + ["", Divider, ""])[k] != "BODY:"
    ensures (Banner(emlName) + hl + ["", Divider, ""])[k] != "ATTACHMENTS:"
  {
    var head := Banner(emlName) + hl + ["", Divider, ""];
    if k < 4 {
      var line := Banner(emlName)[k];
      assert head[k] == line;
      assert line == [] || line[0] == '=' || line[0] == 'E';
      NotSectionTitle(line);
    } else if k < 4 + |hl| {
      assert head[k] == hl[k - 4];
      NotSectionTitle(hl[k - 4]);
    } else {
      var line := ["", Divider, ""][k - 4 - |hl|];
      assert head[k] == line;
      assert line == [] || line[0] == '-';
      NotSectionTitle(line);
    }
  }

  /** No line before the sections is "BODY:" or "ATTACHMENTS:". */
  lemma HeadHasNoSectionTitle(lib: Library, msg: Message, emlName: string, k: nat)
    requires k < |HeadLines(lib, msg, emlName)|
    ensures HeadLines(lib, msg, emlName)[k] != "BODY:"
    ensures HeadLines(lib, msg, emlName)[k] != "ATTACHMENTS:"
  {
    var hl := HeaderLines(lib, msg.headers, ImportantHeaders);
    forall i | 0 <= i < |hl| ensures ' ' in hl[i] {
      HeaderLineHasSpace(lib, msg.headers, ImportantHeaders, i);
    }
    HeadShapeNoTitle(emlName, hl, k);
  }

  /** Neither section title is a line of the head. */
  lemma HeadHasNoTitle(lib: Library, msg: Message, emlName: string, title: string)
    requires title == "BODY:" || title == "ATTACHMENTS:"
    ensures Text(title) !in Texts(HeadLines(lib, msg, emlName))
  {
    var head := Texts(HeadLines(lib, msg, emlName));
    forall k | 0 <= k < |head| ensures head[k] != Text(title) {
      HeadHasNoSectionTitle(lib, msg, emlName, k);
    }
  }

  lemma NotInConcat<T>(a: seq<T>, b: seq<T>, x: T)
    requires x !in a && x !in b
    ensures x !in a + b
  {
  }

  /** The sections hold "BODY:" exactly when there is a body fragment, given
      description lines that open with "[ATTACHMENT: ". */
  lemma SectionsBody(r: Rendered)
    requires forall i :: 0 <= i < |r.infos| ==> "[ATTACHMENT: " <= r.infos[i]
    ensures Text("BODY:") in Sections(r) <==> r.body != []
  {
    if r.body != [] {
      assert Sections(r)[0] == Text("BODY:");
    } else {
      assert Sections(r) == InfoBlock(r.infos);
      InfoBlockHasNoBody(r.infos);
    }
  }

  /** The attachments section holds no "BODY:" line. */
  lemma InfoBlockHasNoBody(infos: seq<string>)
    requires forall i :: 0 <= i < |infos| ==> "[ATTACHMENT: " <= infos[i]
    ensures Text("BODY:") !in InfoBlock(infos)
  {
    if infos != [] {
      var lines := Texts(infos);
      forall k | 0 <= k < |lines| ensures lines[k] != Text("BODY:") {
        assert lines[k] == Text(infos[k]) && infos[k][0] == '[';
      }
      assert Divider[0] == '-';
      NotInConcat([Text(""), Text(Divider), Text("ATTACHMENTS:")], lines, Text("BODY:"));
    }
  }

  /** "BODY:" is a line of the text exactly when the walk found a body
      fragment (given description lines that open with "[ATTACHMENT: ", as
      every one the walk makes does). */
  lemma ReportBodySection(lib: Library, msg: Message, emlName: string, r: Rendered)
    requires forall i :: 0 <= i < |r.infos| ==> "[ATTACHMENT: " <= r.infos[i]
    ensures Text("BODY:") in ReportLines(lib, msg, emlName, r) <==> r.body != []
  {
    var head := Texts(HeadLines(lib, msg, emlName));
    SectionsBody(r);
    HeadHasNoTitle(lib, msg, emlName, "BODY:");
    if r.body != [] {
      assert Text("BODY:") in head + Sections(r);
    } else {
      NotInConcat(head, Sections(r), Text("BODY:"));
    }
  }

  lemma SuffixOfConcat<T>(a: seq<T>, b: seq<T>, n: nat)
    requires n <= |b|
    ensures (a + b)[|a + b| - n..] == b[|b| - n..]
  {
  }

  /** With a description line, the text ends with "ATTACHMENTS:" and the
      lines in order. */
  lemma ReportAttachmentSection(lib: Library, msg: Message, emlName: string, r: Rendered)
    requires r.infos != []
    ensures var lines := ReportLines(lib, msg, emlName, r);
      |lines| > |r.infos| && lines[|lines| - |r.infos| - 1..] == [Text("ATTACHMENTS:")] + Texts(r.infos)
  {
    LinesEnd(Texts(HeadLines(lib, msg, emlName)), r);
  }

  /** Whatever comes before them, the sections end the text. */
  lemma LinesEnd(head: seq<Fragment>, r: Rendered)
    requires r.infos != []
    ensures var lines := head + Sections(r);
      |lines| > |r.infos| && lines[|lines| - |r.infos| - 1..] == [Text("ATTACHMENTS:")] + Texts(r.infos)
  {
    SectionsEnd(r);
    SuffixOfConcat(head, Sections(r), |r.infos| + 1);
  }

  /** With a description line, the sections end with "ATTACHMENTS:" and the
      lines in order. */
  lemma SectionsEnd(r: Rendered)
    requires r.infos != []
    ensures |Sections(r)| > |r.infos|
    ensures Sections(r)[|Sections(r)| - |r.infos| - 1..] == [Text("ATTACHMENTS:")] + Texts(r.infos)
  {
    var n := |r.infos| + 1;
    var block := InfoBlock(r.infos);
    assert block[|block| - n..] == [Text("ATTACHMENTS:")] + Texts(r.infos);
    SuffixOfConcat(BodyBlock(r.body), block, n);
  }

  /** Without a description line, "ATTACHMENTS:" appears only if a body
      fragment is that very text. */
  lemma ReportNoAttachmentSection(lib: Library, msg: Message, emlName: string, r: Rendered)
    requires r.infos == [] && Text("ATTACHMENTS:") !in r.body
    ensures Text("ATTACHMENTS:") !in ReportLines(lib, msg, emlName, r)
  {
    assert Sections(r) == BodyBlock(r.body);
    if r.body != [] {
      NotInConcat([Text("BODY:"), Text("")], r.body, Text("ATTACHMENTS:"));
    }
    HeadHasNoTitle(lib, msg, emlName, "ATTACHMENTS:");
    NotInConcat(Texts(HeadLines(lib, msg, emlName)), Sections(r), Text("ATTACHMENTS:"));
  }

  lemma AllTextConcat(a: seq<Fragment>, b: seq<Fragment>)
    ensures AllText(a + b) <==> AllText(a) && AllText(b)
  {
    if AllText(a) && AllText(b) {
      forall k | 0 <= k < |a + b| ensures (a + b)[k].Text? {
        if k >= |a| { assert (a + b)[k] == b[k - |a|]; }
      }
    }
    if AllText(a + b) {
      forall k | 0 <= k < |a| ensures a[k].Text? {
        assert (a + b)[k] == a[k];
      }
      forall k | 0 <= k < |b| ensures b[k].Text? {
        assert (a + b)[|a| + k] == b[k];
      }
    }
  }

  /** The sections are all text exactly when the body holds no bytes. */
  lemma SectionsAllText(r: Rendered)
    ensures AllText(Sections(r)) <==> !HasBytes(r.body)
  {
    AllTextConcat(BodyBlock(r.body), InfoBlock(r.infos));
    if r.body != [] {
      AllTextConcat([Text("BODY:"), Text("")], r.body);
    }
    if r.infos != [] {
      AllTextConcat([Text(""), Text(Divider), Text("ATTACHMENTS:")], Texts(r.infos));
    }
  }

  /** Every line but the body fragments is text. */
  lemma ReportAllText(lib: Library, msg: Message, emlName: string, r: Rendered)
    ensures AllText(ReportLines(lib, msg, emlName, r)) <==> !HasBytes(r.body)
  {
    AllTextConcat(Texts(HeadLines(lib, msg, emlName)), Sections(r));
    SectionsAllText(r);
  }

  /** The join succeeds, and the text is written, exactly when no visited
      `text/plain` part falls through to decode_content's unchanged bytes;
      the records returned are then the walk's, in order. */
  lemma ConversionSucceeds(lib: Library, msg: Message, emlName: string, cfg: Config)
    requires Parsed(msg.root)
    ensures Conversion(lib, msg, emlName, cfg).None? <==> SomeRawPlain(lib, VisitedMessage(msg.root))
    ensures Conversion(lib, msg, emlName, cfg).Some? ==>
      Conversion(lib, msg, emlName, cfg).value.extracted == WalkMessage(lib, cfg, msg.root).records
  {
    var r := WalkMessage(lib, cfg, msg.root);
    WalkMessageHasBytes(lib, cfg, msg.root);
    ReportAllText(lib, msg, emlName, r);
  }

  /** When no line holds a newline, splitting the joined text on newlines
      gives the lines back. */
  lemma JoinLinesSplit(lines: seq<Fragment>)
    requires |lines| > 0 && AllText(lines)
    requires forall k :: 0 <= k < |lines| ==> '\n' !in lines[k].text
    ensures JoinLines(lines).Some? && Split(JoinLines(lines).value, '\n') == Strs(lines)
  {
    var xs := Strs(lines);
    assert forall k :: 0 <= k < |xs| ==> Text(xs[k]) == lines[k];
    SplitJoin(xs, '\n');
  }

  /** The written text, split on newlines, is the report's lines when none
      of them holds a newline. */
  lemma ConversionLines(lib: Library, msg: Message, emlName: string, cfg: Config)
    requires Parsed(msg.root)
    requires var lines := ReportLines(lib, msg, emlName, WalkMessage(lib, cfg, msg.root));
      AllText(lines) && forall k :: 0 <= k < |lines| ==> '\n' !in lines[k].text
    ensures Conversion(lib, msg, emlName, cfg).Some?
    ensures Split(Conversion(lib, msg, emlName, cfg).value.text, '\n')
         == Strs(ReportLines(lib, msg, emlName, WalkMessage(lib, cfg, msg.root)))
  {
    var lines := ReportLines(lib, msg, emlName, WalkMessage(lib, cfg, msg.root));
    ReportOpens(lib, msg, emlName, WalkMessage(lib, cfg, msg.root));
    JoinLinesSplit(lines);
  }
}
