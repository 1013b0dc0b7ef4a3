// The nested extract_parts of process_eml_file: a depth-first, pre-order walk
// of the part tree that appends body fragments, attachment description lines
// and saved-attachment records to lists shared across the recursion.

module Walk {
  import opened Strings
  import opened Mime
  import opened Runtime
  import opened Content
  import opened Filenames
  import opened Attachments

  const HtmlMarker: string := "\n[HTML CONTENT AVAILABLE BUT NOT DISPLAYED]\n"

  /** An attachment file written to disk: where, and the bytes. */
  datatype FileWrite = FileWrite(path: SavedPath, data: seq<byte>)

  /** What a walk adds to the shared lists `body_text`, `attachment_info`
      and `extracted_attachments`, and the files it writes, in order. */
  datatype Rendered = Rendered(
    body: seq<Fragment>,
    infos: seq<string>,
    records: seq<Record>,
    writes: seq<FileWrite>)

  const Nothing: Rendered := Rendered([], [], [], [])

  /** `a` followed by `b`, list by list. */
  function Then(a: Rendered, b: Rendered): Rendered
  {
    Rendered(a.body + b.body, a.infos + b.infos, a.records + b.records, a.writes + b.writes)
  }

  /** The walk's attachment test: "attachment" or "inline" anywhere in the raw
      Content-Disposition text, or a declared file name on a part that is not
      `multipart/mixed` or `multipart/alternative`. */
  predicate TakesAttachmentBranch(p: Part)
  {
    || Contains(p.dispositionHeader, "attachment")
    || Contains(p.dispositionHeader, "inline")
    || (Truthy(p.filename) && p.contentType != "multipart/mixed" && p.contentType != "multipart/alternative")
  }

  /** What a part in the attachment branch adds: get_attachment_info's line
      if it returns one, and its record and file write if it saved one. */
  function AttachmentOutcome(lib: Library, cfg: Config, p: Part): Rendered
  {
    match AttachmentInfo(lib, cfg, p)
    case None => Nothing
    case Some(a) =>
      match a.extracted
      case None => Rendered([], [a.infoText], [], [])
      case Some(rec) => Rendered([], [a.infoText], [rec], [FileWrite(rec.path, DecodedPayload(p).value)])
  }

  /** A saved record agrees with the file written for it and with the naming rule. */
  ghost predicate SavedAs(cfg: Config, rec: Record, w: FileWrite)
  {
    && Extracting(cfg)
    && rec.path == w.path
    && rec.size == |w.data| > 0
    && rec.filename == EmailPrefix(cfg.emailName) + "_" + rec.originalFilename
    && rec.path == SavedPath(cfg.attachmentsDir.value, rec.filename)
    && (forall k :: 0 <= k < |rec.originalFilename| ==> rec.originalFilename[k] !in InvalidChars)
  }

  /** What every walk's output satisfies: each record has a description line
      (so no more records than lines), each record has its file write, each
      line is an attachment description. */
  ghost predicate Consistent(cfg: Config, r: Rendered)
  {
    && |r.records| <= |r.infos|
    && |r.writes| == |r.records|
    && (forall i :: 0 <= i < |r.infos| ==> "[ATTACHMENT: " <= r.infos[i])
    && (forall i :: 0 <= i < |r.records| ==> SavedAs(cfg, r.records[i], r.writes[i]))
  }

  lemma ThenConsistent(cfg: Config, a: Rendered, b: Rendered)
    requires Consistent(cfg, a) && Consistent(cfg, b)
    ensures Consistent(cfg, Then(a, b))
  {
    var c := Then(a, b);
    forall i | 0 <= i < |c.infos| ensures "[ATTACHMENT: " <= c.infos[i] {
      if i >= |a.infos| { assert c.infos[i] == b.infos[i - |a.infos|]; }
    }
    forall i | 0 <= i < |c.records| ensures SavedAs(cfg, c.records[i], c.writes[i]) {
      if i >= |a.records| {
        assert c.records[i] == b.records[i - |a.records|];
        assert c.writes[i] == b.writes[i - |a.records|];
      }
    }
  }

  lemma AttachmentOutcomeConsistent(lib: Library, cfg: Config, p: Part)
    ensures Consistent(cfg, AttachmentOutcome(lib, cfg, p))
    ensures |AttachmentOutcome(lib, cfg, p).infos| <= 1
  {
    var info := AttachmentInfo(lib, cfg, p);
    if info.Some? {
      AttachmentInfoOpens(lib, cfg, p);
      var a := info.value;
      if a.extracted.Some? {
        var rec := a.extracted.value;
        assert rec == ExtractAttachment(lib, p, cfg.attachmentsDir.value, cfg.emailName).value;
        assert SavedAs(cfg, rec, FileWrite(rec.path, DecodedPayload(p).value));
        assert AttachmentOutcome(lib, cfg, p)
            == Rendered([], [a.infoText], [rec], [FileWrite(rec.path, DecodedPayload(p).value)]);
      } else {
        assert AttachmentOutcome(lib, cfg, p) == Rendered([], [a.infoText], [], []);
      }
    } else {
      assert AttachmentOutcome(lib, cfg, p) == Nothing;
    }
  }

  /** extract_parts on one part, as the lists it appends. */
  function Walk(lib: Library, cfg: Config, p: Part): (r: Rendered)
    requires Parsed(p)
    ensures Consistent(cfg, r)
    ensures TakesAttachmentBranch(p) ==>
      && r.body == []
      && |r.infos| <= 1
      && (r.infos == [] <==> AttachmentInfo(lib, cfg, p).None?)
    decreases p
  {
    if TakesAttachmentBranch(p) then
      AttachmentOutcomeConsistent(lib, cfg, p);
      AttachmentOutcome(lib, cfg, p)
    else if p.contentType == "text/plain" then
      Rendered([PlainText(lib, p)], [], [], [])
    else if p.contentType == "text/html" then
      Rendered([Text(HtmlMarker)], [], [], [])
    else if p.body.Multi? then
      WalkAll(lib, cfg, p.body.children)
    else
      Nothing
  }

  /** extract_parts on each of `ps` in turn. */
  function WalkAll(lib: Library, cfg: Config, ps: seq<Part>): (r: Rendered)
    requires forall c :: c in ps ==> Parsed(c)
    ensures Consistent(cfg, r)
    decreases ps
  {
    if ps == [] then Nothing
    else
      var a := WalkAll(lib, cfg, ps[..|ps| - 1]);
      var b := Walk(lib, cfg, ps[|ps| - 1]);
      ThenConsistent(cfg, a, b);
      Then(a, b)
  }

  lemma ThenAssoc(a: Rendered, b: Rendered, c: Rendered)
    ensures Then(Then(a, b), c) == Then(a, Then(b, c))
  {
  }

  lemma ThenNothing(a: Rendered)
    ensures Then(Nothing, a) == a && Then(a, Nothing) == a
  {
  }

  lemma WalkAllSnoc(lib: Library, cfg: Config, ps: seq<Part>, i: nat)
    requires forall c :: c in ps ==> Parsed(c)
    requires i < |ps|
    ensures WalkAll(lib, cfg, ps[..i + 1]) == Then(WalkAll(lib, cfg, ps[..i]), Walk(lib, cfg, ps[i]))
  {
    assert ps[..i + 1][..i] == ps[..i];
  }

  /** The start of the walk: a multipart message is walked through its
      children, so the root itself is never described as an attachment; any
      other message is walked as a single part. */
  function WalkMessage(lib: Library, cfg: Config, root: Part): (r: Rendered)
    requires Parsed(root)
    ensures Consistent(cfg, r)
  {
    if root.body.Multi? then WalkAll(lib, cfg, root.body.children) else Walk(lib, cfg, root)
  }

  /** The local lists of process_eml_file that the nested extract_parts
      appends to, with the arguments it passes on to get_attachment_info. */
  class Walker {
    const lib: Library
    const cfg: Config
    var bodyText: seq<Fragment>
    var attachmentInfo: seq<string>
    var extractedAttachments: seq<Record>
    var written: seq<FileWrite>

    function State(): Rendered
      reads this
    {
      Rendered(bodyText, attachmentInfo, extractedAttachments, written)
    }

    constructor (lib: Library, cfg: Config)
      ensures this.lib == lib && this.cfg == cfg
      ensures State() == Nothing
    {
      this.lib := lib;
      this.cfg := cfg;
      bodyText, attachmentInfo, extractedAttachments, written := [], [], [], [];
    }

    /** extract_parts. */
    method ExtractParts(p: Part)
      requires Parsed(p)
      modifies this
      ensures State() == Then(old(State()), Walk(lib, cfg, p))
      decreases p
    {
      if TakesAttachmentBranch(p) {
        AppendAttachment(p);
        return;
      }
      if p.contentType == "text/plain" {
        bodyText := bodyText + [PlainText(lib, p)];
      } else if p.contentType == "text/html" {
        bodyText := bodyText + [Text(HtmlMarker)];
      } else if p.body.Multi? {
        ExtractChildren(p.body.children);
      }
    }

    /** The attachment branch of extract_parts: append get_attachment_info's
        line, and its saved record, when it gives them. */
    method AppendAttachment(p: Part)
      modifies this
      ensures State() == Then(old(State()), AttachmentOutcome(lib, cfg, p))
    {
      var attachment := AttachmentInfo(lib, cfg, p);
      if attachment.Some? {
        attachmentInfo := attachmentInfo + [attachment.value.infoText];
        if attachment.value.extracted.Some? {
          var rec := attachment.value.extracted.value;
          written := written + [FileWrite(rec.path, DecodedPayload(p).value)];
          extractedAttachments := extractedAttachments + [rec];
        }
      }
    }

    /** `for part in ...get_payload(): extract_parts(part)`. */
    method ExtractChildren(children: seq<Part>)
      requires forall c :: c in children ==> Parsed(c)
      modifies this
      ensures State() == Then(old(State()), WalkAll(lib, cfg, children))
      decreases children
    {
      for i := 0 to |children|
        invariant State() == Then(old(State()), WalkAll(lib, cfg, children[..i]))
      {
        ExtractParts(children[i]);
        WalkAllSnoc(lib, cfg, children, i);
        ThenAssoc(old(State()), WalkAll(lib, cfg, children[..i]), Walk(lib, cfg, children[i]));
      }
      assert children[..|children|] == children;
    }

    /** The start of the walk in process_eml_file. */
    method ExtractMessage(root: Part)
      requires Parsed(root)
      modifies this
      ensures State() == Then(old(State()), WalkMessage(lib, cfg, root))
    {
      if root.body.Multi? {
        ExtractChildren(root.body.children);
      } else {
        ExtractParts(root);
      }
    }
  }

  // ---------------------------------------------------------------------
  // The walk as a flat pre-order listing of the parts it visits.

  /** What a visited part adds by itself, apart from its children. */
  function Own(lib: Library, cfg: Config, p: Part): Rendered
    requires PlainIsLeaf(p)
  {
    if TakesAttachmentBranch(p) then AttachmentOutcome(lib, cfg, p)
    else if p.contentType == "text/plain" then Rendered([PlainText(lib, p)], [], [], [])
    else if p.contentType == "text/html" then Rendered([Text(HtmlMarker)], [], [], [])
    else Nothing
  }

  /** Whether the walk goes on into a part's children. */
  predicate Descends(p: Part)
  {
    && !TakesAttachmentBranch(p)
    && p.contentType != "text/plain"
    && p.contentType != "text/html"
    && p.body.Multi?
  }

  predicate PlainIsLeaf(p: Part)
  {
    p.contentType == "text/plain" ==> p.body.Leaf?
  }

  /** The parts extract_parts is called on, in call order: the part first,
      then, if it descends, the parts visited under each child in turn. */
  function Visited(p: Part): (r: seq<Part>)
    requires Parsed(p)
    ensures |r| > 0 && r[0] == p
    ensures forall k :: 0 <= k < |r| ==> PlainIsLeaf(r[k])
    decreases p
  {
    [p] + (if Descends(p) then VisitedAll(p.body.children) else [])
  }

  function VisitedAll(ps: seq<Part>): (r: seq<Part>)
    requires forall c :: c in ps ==> Parsed(c)
    ensures forall k :: 0 <= k < |r| ==> PlainIsLeaf(r[k])
    decreases ps
  {
    if ps == [] then [] else VisitedAll(ps[..|ps| - 1]) + Visited(ps[|ps| - 1])
  }

  /** The parts' own contributions, one after another. */
  function Collect(lib: Library, cfg: Config, qs: seq<Part>): Rendered
    requires forall k :: 0 <= k < |qs| ==> PlainIsLeaf(qs[k])
  {
    if qs == [] then Nothing else Then(Collect(lib, cfg, qs[..|qs| - 1]), Own(lib, cfg, qs[|qs| - 1]))
  }

  lemma {:induction false} CollectConcat(lib: Library, cfg: Config, a: seq<Part>, b: seq<Part>)
    requires forall k :: 0 <= k < |a| ==> PlainIsLeaf(a[k])
    requires forall k :: 0 <= k < |b| ==> PlainIsLeaf(b[k])
    ensures forall k :: 0 <= k < |a + b| ==> PlainIsLeaf((a + b)[k])
    ensures Collect(lib, cfg, a + b) == Then(Collect(lib, cfg, a), Collect(lib, cfg, b))
    decreases |b|
  {
    assert forall k :: 0 <= k < |a + b| ==> PlainIsLeaf((a + b)[k]) by {
      forall k | 0 <= k < |a + b| ensures PlainIsLeaf((a + b)[k]) {
        if k >= |a| { assert (a + b)[k] == b[k - |a|]; }
      }
    }
    if b != [] {
      var b' := b[..|b| - 1];
      var last := b[|b| - 1];
      assert (a + b)[..|a + b| - 1] == a + b';
      assert (a + b)[|a + b| - 1] == last;
      CollectConcat(lib, cfg, a, b');
      calc {
        Collect(lib, cfg, a + b);
        Then(Collect(lib, cfg, a + b'), Own(lib, cfg, last));
        Then(Then(Collect(lib, cfg, a), Collect(lib, cfg, b')), Own(lib, cfg, last));
        { ThenAssoc(Collect(lib, cfg, a), Collect(lib, cfg, b'), Own(lib, cfg, last)); }
        Then(Collect(lib, cfg, a), Then(Collect(lib, cfg, b'), Own(lib, cfg, last)));
      }
    } else {
      assert a + b == a;
      ThenNothing(Collect(lib, cfg, a));
    }
  }

  /** One step of extract_parts: a part that descends walks its children,
      any other adds only its own contribution. */
  lemma WalkStep(lib: Library, cfg: Config, p: Part)
    requires Parsed(p)
    ensures Descends(p) ==> Own(lib, cfg, p) == Nothing && Walk(lib, cfg, p) == WalkAll(lib, cfg, p.body.children)
    ensures !Descends(p) ==> Walk(lib, cfg, p) == Own(lib, cfg, p)
  {
  }

  /** The walk is the pre-order listing of the parts it visits, each adding
      only its own contribution: the lists extract_parts builds are the
      visited parts' body fragments, description lines, records and writes,
      in visiting order. */
  lemma {:induction false} WalkIsPreOrder(lib: Library, cfg: Config, p: Part)
    requires Parsed(p)
    ensures Walk(lib, cfg, p) == Collect(lib, cfg, Visited(p))
    decreases p
  {
    var v := Visited(p);
    assert [p][..0] == [];
    assert Collect(lib, cfg, [p]) == Then(Nothing, Own(lib, cfg, p));
    ThenNothing(Own(lib, cfg, p));
    WalkStep(lib, cfg, p);
    if Descends(p) {
      var rest := VisitedAll(p.body.children);
      assert v == [p] + rest;
      WalkAllIsPreOrder(lib, cfg, p.body.children);
      CollectConcat(lib, cfg, [p], rest);
      ThenNothing(Collect(lib, cfg, rest));
    } else {
      assert v == [p];
    }
  }

  lemma {:induction false} WalkAllIsPreOrder(lib: Library, cfg: Config, ps: seq<Part>)
    requires forall c :: c in ps ==> Parsed(c)
    ensures WalkAll(lib, cfg, ps) == Collect(lib, cfg, VisitedAll(ps))
    decreases ps
  {
    if ps != [] {
      var init := ps[..|ps| - 1];
      var last := ps[|ps| - 1];
      WalkAllIsPreOrder(lib, cfg, init);
      WalkIsPreOrder(lib, cfg, last);
      CollectConcat(lib, cfg, VisitedAll(init), Visited(last));
    }
  }

  /** Whether a visited part adds a description line. */
  predicate Described(lib: Library, cfg: Config, q: Part)
  {
    TakesAttachmentBranch(q) && AttachmentInfo(lib, cfg, q).Some?
  }

  function CountDescribed(lib: Library, cfg: Config, qs: seq<Part>): nat
  {
    if qs == [] then 0
    else CountDescribed(lib, cfg, qs[..|qs| - 1]) + (if Described(lib, cfg, qs[|qs| - 1]) then 1 else 0)
  }

  lemma {:induction false} CollectInfosCount(lib: Library, cfg: Config, qs: seq<Part>)
    requires forall k :: 0 <= k < |qs| ==> PlainIsLeaf(qs[k])
    ensures |Collect(lib, cfg, qs).infos| == CountDescribed(lib, cfg, qs)
  {
    if qs != [] {
      CollectInfosCount(lib, cfg, qs[..|qs| - 1]);
    }
  }

  /** There is one description line for each visited part that takes the
      attachment branch and for which get_attachment_info returns a value. */
  lemma WalkDescriptionCount(lib: Library, cfg: Config, p: Part)
    requires Parsed(p)
    ensures |Walk(lib, cfg, p).infos| == CountDescribed(lib, cfg, Visited(p))
  {
    WalkIsPreOrder(lib, cfg, p);
    CollectInfosCount(lib, cfg, Visited(p));
  }

  /** A `multipart/related` part with a declared file name takes the
      attachment branch, gets no description line, and none of its
      sub-parts is visited. */
  lemma RelatedWithFilenameVanishes(lib: Library, cfg: Config, p: Part)
    requires Parsed(p)
    requires p.contentType == "multipart/related" && Truthy(p.filename)
    ensures Walk(lib, cfg, p) == Nothing
    ensures Visited(p) == [p]
  {
  }

  /** A part that is not in the attachment branch: an HTML part adds exactly
      the placeholder; a multipart part adds nothing itself and walks its
      children in order; any other non-text part adds nothing. */
  lemma WalkNonAttachment(lib: Library, cfg: Config, p: Part)
    requires Parsed(p) && !TakesAttachmentBranch(p)
    ensures p.contentType == "text/html" ==> Walk(lib, cfg, p) == Rendered([Text(HtmlMarker)], [], [], [])
    ensures p.contentType == "text/plain" ==> Walk(lib, cfg, p) == Rendered([PlainText(lib, p)], [], [], [])
    ensures Descends(p) ==> Walk(lib, cfg, p) == WalkAll(lib, cfg, p.body.children)
    ensures p.contentType != "text/plain" && p.contentType != "text/html" && p.body.Leaf? ==>
      Walk(lib, cfg, p) == Nothing
  {
  }

  /** The parts the walk starts from the root and visits, in call order. */
  function VisitedMessage(root: Part): (r: seq<Part>)
    requires Parsed(root)
    ensures forall k :: 0 <= k < |r| ==> PlainIsLeaf(r[k])
  {
    if root.body.Multi? then VisitedAll(root.body.children) else Visited(root)
  }

  lemma WalkMessageIsPreOrder(lib: Library, cfg: Config, root: Part)
    requires Parsed(root)
    ensures WalkMessage(lib, cfg, root) == Collect(lib, cfg, VisitedMessage(root))
  {
    if root.body.Multi? {
      WalkAllIsPreOrder(lib, cfg, root.body.children);
    } else {
      WalkIsPreOrder(lib, cfg, root);
    }
  }

  /** A visited `text/plain` part whose charset Python does not know and
      whose transfer encoding is 7bit, 8bit or absent: decode_content hands
      its bytes back unchanged. */
  predicate RawPlain(lib: Library, q: Part)
  {
    && !TakesAttachmentBranch(q)
    && q.contentType == "text/plain"
    && q.body.Leaf?
    && !lib.knownCharset(CharsetOrUtf8(q.charset))
    && PassesThrough(q.transferEncoding)
  }

  predicate HasBytes(body: seq<Fragment>)
  {
    exists k :: 0 <= k < |body| && body[k].Bytes?
  }

  lemma OwnHasBytes(lib: Library, cfg: Config, q: Part)
    requires PlainIsLeaf(q)
    ensures HasBytes(Own(lib, cfg, q).body) <==> RawPlain(lib, q)
  {
    var body := Own(lib, cfg, q).body;
    if TakesAttachmentBranch(q) {
      assert body == [];
    } else if q.contentType == "text/plain" {
      assert body == [PlainText(lib, q)];
      assert HasBytes(body) <==> body[0].Bytes?;
    } else if q.contentType == "text/html" {
      assert body == [Text(HtmlMarker)];
    } else {
      assert body == [];
    }
  }

  lemma HasBytesConcat(a: seq<Fragment>, b: seq<Fragment>)
    ensures HasBytes(a + b) <==> HasBytes(a) || HasBytes(b)
  {
    if HasBytes(a + b) {
      var k :| 0 <= k < |a + b| && (a + b)[k].Bytes?;
      if k < |a| { assert a[k].Bytes?; } else { assert b[k - |a|].Bytes?; }
    }
    if HasBytes(a) {
      var k :| 0 <= k < |a| && a[k].Bytes?;
      assert (a + b)[k].Bytes?;
    }
    if HasBytes(b) {
      var k :| 0 <= k < |b| && b[k].Bytes?;
      assert (a + b)[|a| + k].Bytes?;
    }
  }

  predicate SomeRawPlain(lib: Library, qs: seq<Part>)
  {
    exists k :: 0 <= k < |qs| && RawPlain(lib, qs[k])
  }

  lemma SomeRawPlainSnoc(lib: Library, qs: seq<Part>)
    requires qs != []
    ensures SomeRawPlain(lib, qs) <==> SomeRawPlain(lib, qs[..|qs| - 1]) || RawPlain(lib, qs[|qs| - 1])
  {
    var init := qs[..|qs| - 1];
    if SomeRawPlain(lib, init) {
      var k :| 0 <= k < |init| && RawPlain(lib, init[k]);
      assert qs[k] == init[k];
    }
    if SomeRawPlain(lib, qs) {
      var k :| 0 <= k < |qs| && RawPlain(lib, qs[k]);
      if k < |init| { assert init[k] == qs[k]; }
    }
  }

  lemma {:induction false} CollectHasBytes(lib: Library, cfg: Config, qs: seq<Part>)
    requires forall k :: 0 <= k < |qs| ==> PlainIsLeaf(qs[k])
    ensures HasBytes(Collect(lib, cfg, qs).body) <==> SomeRawPlain(lib, qs)
  {
    if qs != [] {
      var init := qs[..|qs| - 1];
      var last := qs[|qs| - 1];
      CollectHasBytes(lib, cfg, init);
      OwnHasBytes(lib, cfg, last);
      HasBytesConcat(Collect(lib, cfg, init).body, Own(lib, cfg, last).body);
      SomeRawPlainSnoc(lib, qs);
    }
  }

  /** The body the walk collects holds bytes exactly when it visits a
      `text/plain` part that decode_content passes through undecoded. */
  lemma WalkMessageHasBytes(lib: Library, cfg: Config, root: Part)
    requires Parsed(root)
    ensures HasBytes(WalkMessage(lib, cfg, root).body) <==> SomeRawPlain(lib, VisitedMessage(root))
  {
    WalkMessageIsPreOrder(lib, cfg, root);
    CollectHasBytes(lib, cfg, VisitedMessage(root));
  }
}
