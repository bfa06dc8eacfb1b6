/** `encode_handoff_document` and the version-gated `decode_handoff_document` of
    crates/mux_ipc/src/handoff.rs. */
module HandoffCodec {
  import opened Integers
  import opened Wrappers
  import opened Bincode
  import opened LittleEndian
  import opened Codecs
  import opened Handoff
  import opened HandoffLayout
  import Utf8

  /** The document layouts of the four schema versions. The gate is proved for any lawful four; the
      ones of this build are THIS_BUILD. */
  datatype Layouts = Layouts(
    v1: Codec<Document<PaneV1>>, v2: Codec<Document<PaneV2>>, v3: Codec<Document<PaneV3>>, v4: Codec<Document<Pane>>)

  const THIS_BUILD := Layouts(DocumentOf(PANE_V1), DocumentOf(PANE_V2), DocumentOf(PANE_V3), DocumentOf(PANE))

  /** A bijective layout whose leading four bytes are the schema version. */
  ghost predicate Versioned<P(!new)>(c: Codec<Document<P>>) {
    Lawful(c) && forall d: Document<P>, rest: seq<byte> :: DecodeVersion(EncodeAs(c, d) + rest) == Some(d.schemaVersion)
  }

  ghost predicate AllLawful(l: Layouts) {
    Versioned(l.v1) && Versioned(l.v2) && Versioned(l.v3) && Versioned(l.v4)
  }

  datatype Outcome =
    | Ok(document: Document<Pane>)
    | UnsupportedVersion(found: u32, lowest: u32, highest: u32)
    | Malformed

  predicate Supported(version: int) { 1 <= version <= SCHEMA_VERSION }

  /** The bytes of a document of any version, by its layout. */
  function EncodeAs<P(!new)>(c: Codec<Document<P>>, d: Document<P>): seq<byte>
    requires Lawful(c)
  {
    Encode(c.shape, c.to(d))
  }

  /** A document of any version from the front of the bytes; what follows it is ignored. */
  function DecodeAs<P>(c: Codec<Document<P>>, b: seq<byte>): Option<Document<P>> {
    var (v, _) :- Decode(c.shape, b);
    Some(c.from(v))
  }

  function EncodeDocument(l: Layouts, d: Document<Pane>): seq<byte>
    requires Lawful(l.v4)
  {
    EncodeAs(l.v4, d)
  }

  function DecodeVersion(b: seq<byte>): Option<u32> {
    var (v, _) :- Decode(U32.shape, b);
    Some(U32.from(v))
  }

  function Upgraded<P>(d: Option<Document<P>>, upgrade: Document<P> -> Document<Pane>): Outcome {
    if d.None? then Malformed else Ok(upgrade(d.value))
  }

  function DecodeDocument(l: Layouts, b: seq<byte>): Outcome {
    match DecodeVersion(b)
    case None => Malformed
    case Some(version) =>
      if !Supported(version) then UnsupportedVersion(version, 1, SCHEMA_VERSION)
      else if version == 1 then Upgraded(DecodeAs(l.v1, b), FromV1)
      else if version == 2 then Upgraded(DecodeAs(l.v2, b), FromV2)
      else if version == 3 then Upgraded(DecodeAs(l.v3, b), FromV3)
      else Upgraded(DecodeAs(l.v4, b), d => d)
  }

  // ----- one version -----

  lemma {:induction false} DecodeEncodeAs<P(!new)>(c: Codec<Document<P>>, d: Document<P>, rest: seq<byte>)
    requires Lawful(c)
    ensures DecodeAs(c, EncodeAs(c, d) + rest) == Some(d)
  {
    RoundTrip(c.shape, c.to(d), rest);
  }

  /** Whatever decodes is an encoding of the result followed by ignored bytes. */
  lemma {:induction false} EncodeDecodeAs<P(!new)>(c: Codec<Document<P>>, b: seq<byte>, d: Document<P>)
    returns (rest: seq<byte>)
    requires Lawful(c) && DecodeAs(c, b) == Some(d)
    ensures b == EncodeAs(c, d) + rest
  {
    Canonical(c.shape, b);
    rest := Decode(c.shape, b).value.1;
  }

  lemma {:induction false} PrefixFailsAs<P(!new)>(c: Codec<Document<P>>, d: Document<P>, p: seq<byte>, q: seq<byte>)
    requires Lawful(c) && EncodeAs(c, d) == p + q && q != []
    ensures DecodeAs(c, p) == None
  {
    NoPrefixDecodes(c.shape, c.to(d), p, q);
  }

  // ----- the leading version -----

  /** The version is the first four bytes, lowest first, whatever follows them. */
  lemma {:induction false} VersionLeads(b: seq<byte>)
    ensures if |b| < 4 then DecodeVersion(b) == None
            else 0 <= Weighed(b[0], b[1], b[2], b[3]) < LIMIT32
                 && DecodeVersion(b) == Some(Weighed(b[0], b[1], b[2], b[3]))
  {
    if |b| >= 4 {
      ToFrom(b[..4]);
      FromFour(b[..4]);
      Widths();
    }
  }

  lemma {:induction false} EncodedVersion<P(!new)>(pane: Codec<P>, d: Document<P>, rest: seq<byte>)
    requires Lawful(pane) && Lawful(DocumentOf(pane))
    ensures DecodeVersion(EncodeAs(DocumentOf(pane), d) + rest) == Some(d.schemaVersion)
  {
    DocumentLawful(pane);
    PartsLawful();
    FirstFieldLeads(U32, AfterVersion(pane), MakeDocument<P>, DocumentParts<P>, d, rest);
  }

  /** With any lawful pane layout a document leads with its version. */
  lemma {:induction false} DocumentVersioned<P(!new)>(pane: Codec<P>)
    requires Lawful(pane)
    ensures Versioned(DocumentOf(pane))
  {
    DocumentLawful(pane);
    forall d: Document<P>, rest: seq<byte>
      ensures DecodeVersion(EncodeAs(DocumentOf(pane), d) + rest) == Some(d.schemaVersion)
    {
      EncodedVersion(pane, d, rest);
    }
  }

  /** The layouts of this build are bijections that lead with the version. */
  lemma {:induction false} ThisBuildIsLawful()
    ensures AllLawful(THIS_BUILD)
  {
    PanesLawful();
    DocumentVersioned(PANE_V1);
    DocumentVersioned(PANE_V2);
    DocumentVersioned(PANE_V3);
    DocumentVersioned(PANE);
  }

  // ----- the gate -----

  /** `b` is exactly an encoded document of schema version `version`. */
  ghost predicate EncodesAs<P(!new)>(c: Codec<Document<P>>, version: int, b: seq<byte>, e: Document<P>) {
    Versioned(c) && e.schemaVersion == version && b == EncodeAs(c, e)
  }

  /** `b` is an encoded document of a supported version and `d` is its upgrade. */
  ghost predicate Encodes(l: Layouts, b: seq<byte>, d: Document<Pane>) {
    || (exists e :: EncodesAs(l.v1, 1, b, e) && d == FromV1(e))
    || (exists e :: EncodesAs(l.v2, 2, b, e) && d == FromV2(e))
    || (exists e :: EncodesAs(l.v3, 3, b, e) && d == FromV3(e))
    || EncodesAs(l.v4, SCHEMA_VERSION, b, d)
  }

  lemma {:induction false} LeadAndBody<P(!new)>(c: Codec<Document<P>>, version: int, b: seq<byte>, e: Document<P>,
                                                rest: seq<byte>)
    requires EncodesAs(c, version, b, e)
    ensures DecodeVersion(b + rest) == Some(version) && DecodeAs(c, b + rest) == Some(e)
  {
    assert DecodeVersion(EncodeAs(c, e) + rest) == Some(e.schemaVersion);
    DecodeEncodeAs(c, e, rest);
  }

  lemma {:induction false} EncodedV1Decodes(l: Layouts, b: seq<byte>, e: Document<PaneV1>, rest: seq<byte>)
    requires EncodesAs(l.v1, 1, b, e)
    ensures DecodeDocument(l, b + rest) == Ok(FromV1(e))
  {
    LeadAndBody(l.v1, 1, b, e, rest);
  }

  lemma {:induction false} EncodedV2Decodes(l: Layouts, b: seq<byte>, e: Document<PaneV2>, rest: seq<byte>)
    requires EncodesAs(l.v2, 2, b, e)
    ensures DecodeDocument(l, b + rest) == Ok(FromV2(e))
  {
    LeadAndBody(l.v2, 2, b, e, rest);
  }

  lemma {:induction false} EncodedV3Decodes(l: Layouts, b: seq<byte>, e: Document<PaneV3>, rest: seq<byte>)
    requires EncodesAs(l.v3, 3, b, e)
    ensures DecodeDocument(l, b + rest) == Ok(FromV3(e))
  {
    LeadAndBody(l.v3, 3, b, e, rest);
  }

  lemma {:induction false} EncodedV4Decodes(l: Layouts, b: seq<byte>, e: Document<Pane>, rest: seq<byte>)
    requires EncodesAs(l.v4, SCHEMA_VERSION, b, e)
    ensures DecodeDocument(l, b + rest) == Ok(e)
  {
    LeadAndBody(l.v4, SCHEMA_VERSION, b, e, rest);
  }

  /** An encoded document of any supported version decodes to its upgrade, whatever bytes follow. */
  lemma {:induction false} EncodedDecodes(l: Layouts, b: seq<byte>, d: Document<Pane>, rest: seq<byte>)
    requires Encodes(l, b, d)
    ensures DecodeDocument(l, b + rest) == Ok(d)
  {
    if e :| EncodesAs(l.v1, 1, b, e) && d == FromV1(e) {
      EncodedV1Decodes(l, b, e, rest);
    } else if e :| EncodesAs(l.v2, 2, b, e) && d == FromV2(e) {
      EncodedV2Decodes(l, b, e, rest);
    } else if e :| EncodesAs(l.v3, 3, b, e) && d == FromV3(e) {
      EncodedV3Decodes(l, b, e, rest);
    } else {
      EncodedV4Decodes(l, b, d, rest);
    }
  }

  /** What decodes as one version starts with an encoding that carries the leading version. */
  lemma {:induction false} DecodedStarts<P(!new)>(c: Codec<Document<P>>, version: int, b: seq<byte>, e: Document<P>)
    returns (n: nat)
    requires Versioned(c) && DecodeAs(c, b) == Some(e) && DecodeVersion(b) == Some(version)
    ensures n <= |b| && EncodesAs(c, version, b[..n], e)
  {
    var rest := EncodeDecodeAs(c, b, e);
    assert DecodeVersion(EncodeAs(c, e) + rest) == Some(e.schemaVersion);
    n := |b| - |rest|;
    assert b[..n] == EncodeAs(c, e);
  }

  lemma {:induction false} DecodedV1Starts(l: Layouts, b: seq<byte>, e: Document<PaneV1>) returns (n: nat)
    requires Versioned(l.v1) && DecodeVersion(b) == Some(1) && DecodeAs(l.v1, b) == Some(e)
    ensures n <= |b| && Encodes(l, b[..n], FromV1(e))
  {
    n := DecodedStarts(l.v1, 1, b, e);
  }

  lemma {:induction false} DecodedV2Starts(l: Layouts, b: seq<byte>, e: Document<PaneV2>) returns (n: nat)
    requires Versioned(l.v2) && DecodeVersion(b) == Some(2) && DecodeAs(l.v2, b) == Some(e)
    ensures n <= |b| && Encodes(l, b[..n], FromV2(e))
  {
    n := DecodedStarts(l.v2, 2, b, e);
  }

  lemma {:induction false} DecodedV3Starts(l: Layouts, b: seq<byte>, e: Document<PaneV3>) returns (n: nat)
    requires Versioned(l.v3) && DecodeVersion(b) == Some(3) && DecodeAs(l.v3, b) == Some(e)
    ensures n <= |b| && Encodes(l, b[..n], FromV3(e))
  {
    n := DecodedStarts(l.v3, 3, b, e);
  }

  lemma {:induction false} DecodedV4Starts(l: Layouts, b: seq<byte>, e: Document<Pane>) returns (n: nat)
    requires Versioned(l.v4) && DecodeVersion(b) == Some(SCHEMA_VERSION) && DecodeAs(l.v4, b) == Some(e)
    ensures n <= |b| && Encodes(l, b[..n], e)
  {
    n := DecodedStarts(l.v4, SCHEMA_VERSION, b, e);
  }

  lemma {:induction false} DecodedEncodes(l: Layouts, b: seq<byte>, d: Document<Pane>) returns (n: nat)
    requires AllLawful(l) && DecodeDocument(l, b) == Ok(d)
    ensures n <= |b| && Encodes(l, b[..n], d)
  {
    var version := DecodeVersion(b).value;
    if version == 1 {
      n := DecodedV1Starts(l, b, DecodeAs(l.v1, b).value);
    } else if version == 2 {
      n := DecodedV2Starts(l, b, DecodeAs(l.v2, b).value);
    } else if version == 3 {
      n := DecodedV3Starts(l, b, DecodeAs(l.v3, b).value);
    } else {
      n := DecodedV4Starts(l, b, d);
    }
  }

  /** Decoding succeeds exactly on the bytes that start with an encoded document of a supported
      version, and yields its upgrade. */
  lemma {:induction false} DecodesExactly(l: Layouts, b: seq<byte>, d: Document<Pane>)
    requires AllLawful(l)
    ensures DecodeDocument(l, b) == Ok(d) <==> exists n: nat :: n <= |b| && Encodes(l, b[..n], d)
  {
    if DecodeDocument(l, b) == Ok(d) {
      var n := DecodedEncodes(l, b, d);
    }
    if n: nat :| n <= |b| && Encodes(l, b[..n], d) {
      assert b == b[..n] + b[n..];
      EncodedDecodes(l, b[..n], d, b[n..]);
    }
  }

  /** A successful decode always yields the current version. */
  lemma {:induction false} SuccessIsCurrent(l: Layouts, b: seq<byte>, d: Document<Pane>)
    requires AllLawful(l) && DecodeDocument(l, b) == Ok(d)
    ensures d.schemaVersion == SCHEMA_VERSION
  {
    var n := DecodedEncodes(l, b, d);
  }

  /** A document encoded by this build is read back exactly when its version field is the current
      one, whatever bytes follow it. */
  lemma {:induction false} CurrentRoundTrip(l: Layouts, d: Document<Pane>, rest: seq<byte>)
    requires AllLawful(l)
    ensures DecodeDocument(l, EncodeDocument(l, d) + rest) == Ok(d) <==> d.schemaVersion == SCHEMA_VERSION
  {
    if d.schemaVersion == SCHEMA_VERSION {
      EncodedV4Decodes(l, EncodeDocument(l, d), d, rest);
    } else if DecodeDocument(l, EncodeDocument(l, d) + rest) == Ok(d) {
      SuccessIsCurrent(l, EncodeDocument(l, d) + rest, d);
    }
  }

  /** An out-of-range leading version is reported as such whatever follows, and nothing else is. */
  lemma {:induction false} UnsupportedExactly(l: Layouts, b: seq<byte>)
    ensures DecodeDocument(l, b).UnsupportedVersion? <==>
      |b| >= 4 && !(1 <= Weighed(b[0], b[1], b[2], b[3]) <= 4)
    ensures DecodeDocument(l, b).UnsupportedVersion? ==>
      var r := DecodeDocument(l, b);
      r.found == Weighed(b[0], b[1], b[2], b[3]) && r.lowest == 1 && r.highest == 4
  {
    VersionLeads(b);
  }

  /** Cutting bytes short keeps their leading version or leaves none. */
  lemma {:induction false} CutVersion(p: seq<byte>, q: seq<byte>)
    ensures DecodeVersion(p) == None || DecodeVersion(p) == DecodeVersion(p + q)
  {
    VersionLeads(p);
    VersionLeads(p + q);
    assert |p| >= 4 ==> (p + q)[..4] == p[..4];
  }

  lemma {:induction false} PrefixFails<P(!new)>(c: Codec<Document<P>>, version: int, e: Document<P>,
                                                p: seq<byte>, q: seq<byte>)
    requires EncodesAs(c, version, p + q, e) && q != []
    ensures DecodeAs(c, p) == None
    ensures DecodeVersion(p) == None || DecodeVersion(p) == Some(version)
  {
    PrefixFailsAs(c, e, p, q);
    LeadAndBody(c, version, p + q, e, []);
    assert p + q + [] == p + q;
    CutVersion(p, q);
  }

  lemma {:induction false} PrefixMalformedV1(l: Layouts, e: Document<PaneV1>, p: seq<byte>, q: seq<byte>)
    requires EncodesAs(l.v1, 1, p + q, e) && q != []
    ensures DecodeDocument(l, p) == Malformed
  {
    PrefixFails(l.v1, 1, e, p, q);
  }

  lemma {:induction false} PrefixMalformedV2(l: Layouts, e: Document<PaneV2>, p: seq<byte>, q: seq<byte>)
    requires EncodesAs(l.v2, 2, p + q, e) && q != []
    ensures DecodeDocument(l, p) == Malformed
  {
    PrefixFails(l.v2, 2, e, p, q);
  }

  lemma {:induction false} PrefixMalformedV3(l: Layouts, e: Document<PaneV3>, p: seq<byte>, q: seq<byte>)
    requires EncodesAs(l.v3, 3, p + q, e) && q != []
    ensures DecodeDocument(l, p) == Malformed
  {
    PrefixFails(l.v3, 3, e, p, q);
  }

  lemma {:induction false} PrefixMalformedV4(l: Layouts, e: Document<Pane>, p: seq<byte>, q: seq<byte>)
    requires EncodesAs(l.v4, SCHEMA_VERSION, p + q, e) && q != []
    ensures DecodeDocument(l, p) == Malformed
  {
    PrefixFails(l.v4, SCHEMA_VERSION, e, p, q);
  }

  /** Every strict prefix of an encoded document of a supported version is malformed. */
  lemma {:induction false} PrefixMalformed(l: Layouts, d: Document<Pane>, p: seq<byte>, q: seq<byte>)
    requires Encodes(l, p + q, d) && q != []
    ensures DecodeDocument(l, p) == Malformed
  {
    if e :| EncodesAs(l.v1, 1, p + q, e) && d == FromV1(e) {
      PrefixMalformedV1(l, e, p, q);
    } else if e :| EncodesAs(l.v2, 2, p + q, e) && d == FromV2(e) {
      PrefixMalformedV2(l, e, p, q);
    } else if e :| EncodesAs(l.v3, 3, p + q, e) && d == FromV3(e) {
      PrefixMalformedV3(l, e, p, q);
    } else {
      PrefixMalformedV4(l, d, p, q);
    }
  }

  // ----- this build -----

  /** The program's own decoder accepts exactly what its four layouts encode, yields the upgrade, reads
      back what it encodes at version 4, and refuses every strict prefix. */
  lemma {:induction false} ThisBuild(b: seq<byte>, d: Document<Pane>, rest: seq<byte>, p: seq<byte>, q: seq<byte>)
    ensures DecodeDocument(THIS_BUILD, b) == Ok(d) <==> exists n: nat :: n <= |b| && Encodes(THIS_BUILD, b[..n], d)
    ensures Lawful(THIS_BUILD.v4)
    ensures DecodeDocument(THIS_BUILD, EncodeDocument(THIS_BUILD, d) + rest) == Ok(d)
            <==> d.schemaVersion == SCHEMA_VERSION
    ensures Encodes(THIS_BUILD, p + q, d) && q != [] ==> DecodeDocument(THIS_BUILD, p) == Malformed
  {
    ThisBuildIsLawful();
    DecodesExactly(THIS_BUILD, b, d);
    CurrentRoundTrip(THIS_BUILD, d, rest);
    if Encodes(THIS_BUILD, p + q, d) && q != [] {
      PrefixMalformed(THIS_BUILD, d, p, q);
    }
  }

  // ----- what an upgrade keeps and adds -----

  /** The same tree in the same order, with `f` of each pane. */
  ghost predicate SameTree<P, Q>(d: Document<P>, e: Document<Q>, f: P -> Q) {
    && e.incarnation == d.incarnation && e.listenFd == d.listenFd
    && e.nextSessionId == d.nextSessionId && e.nextPaneId == d.nextPaneId
    && |e.sessions| == |d.sessions|
    && forall i :: 0 <= i < |d.sessions| ==> SameSession(d.sessions[i], e.sessions[i], f)
  }

  ghost predicate SameSession<P, Q>(s: Session<P>, t: Session<Q>, f: P -> Q) {
    && t.id == s.id && t.name == s.name && t.windowOrder == s.windowOrder
    && t.activeWindowId == s.activeWindowId && t.nextWindowId == s.nextWindowId
    && |t.windows| == |s.windows|
    && forall i :: 0 <= i < |s.windows| ==> SameWindow(s.windows[i], t.windows[i], f)
  }

  ghost predicate SameWindow<P, Q>(w: Window<P>, x: Window<Q>, f: P -> Q) {
    && x.id == w.id && x.name == w.name && x.activePaneId == w.activePaneId && x.nextPaneId == w.nextPaneId
    && |x.panes| == |w.panes|
    && forall i :: 0 <= i < |w.panes| ==> x.panes[i] == f(w.panes[i])
  }

  lemma {:induction false} UpgradeKeepsTree<P, Q>(f: P -> Q, version: u32, d: Document<P>)
    ensures SameTree(d, UpgradeDocument(f, version, d), f)
  {
  }

  lemma {:induction false} TreesCompose<P, Q, R>(d: Document<P>, e: Document<Q>, g: Document<R>,
                                                f: P -> Q, h: Q -> R, k: P -> R)
    requires SameTree(d, e, f) && SameTree(e, g, h) && forall p :: k(p) == h(f(p))
    ensures SameTree(d, g, k)
  {
    forall i | 0 <= i < |d.sessions| ensures SameSession(d.sessions[i], g.sessions[i], k) {
      var s, t, u := d.sessions[i], e.sessions[i], g.sessions[i];
      assert SameSession(s, t, f) && SameSession(t, u, h);
      forall j | 0 <= j < |s.windows| ensures SameWindow(s.windows[j], u.windows[j], k) {
        assert SameWindow(s.windows[j], t.windows[j], f) && SameWindow(t.windows[j], u.windows[j], h);
      }
    }
  }

  function PaneV3FromV1(p: PaneV1): PaneV3 { UpgradePane2(UpgradePane1(p)) }

  function PaneFromV1(p: PaneV1): Pane { UpgradePane3(PaneV3FromV1(p)) }

  /** The whole chain keeps the tree and the order of a version-1 document. */
  lemma {:induction false} ChainKeepsTree(d: Document<PaneV1>)
    ensures SameTree(d, FromV1(d), PaneFromV1)
  {
    var d2 := UpgradeDocument(UpgradePane1, 2, d);
    var d3 := UpgradeDocument(UpgradePane2, 3, d2);
    UpgradeKeepsTree(UpgradePane1, 2, d);
    UpgradeKeepsTree(UpgradePane2, 3, d2);
    UpgradeKeepsTree(UpgradePane3, SCHEMA_VERSION, d3);
    TreesCompose(d, d2, d3, UpgradePane1, UpgradePane2, PaneV3FromV1);
    TreesCompose(d, d3, FromV1(d), PaneV3FromV1, UpgradePane3, PaneFromV1);
  }

  const NO_LATCH := Struct(Flag(false), Struct(Flag(false), Number(0)))
  const NO_SCREEN := Struct(Flag(false), Items([]))
  const NO_RECORDS := Items([])

  /** On the wire, an upgraded pane is the old pane's fields followed by the documented defaults. */
  lemma {:induction false} UpgradeAppendsLatch(p: PaneV1)
    ensures PANE_V2.to(UpgradePane1(p)) == Struct(PANE_V1.to(p), NO_LATCH)
  {
    assert PaneV2Parts(UpgradePane1(p)) == And(p, And(false, And(false, 0)));
  }

  lemma {:induction false} UpgradeAppendsScreen(p: PaneV2)
    ensures PANE_V3.to(UpgradePane2(p)) == Struct(PANE_V2.to(p), NO_SCREEN)
  {
    var dump: Vec<byte> := [];
    assert PaneV3Parts(UpgradePane2(p)) == And(p, And(false, dump));
    assert Map(BYTE.to, dump) == [];
  }

  lemma {:induction false} UpgradeAppendsRecords(p: PaneV3)
    ensures PANE.to(UpgradePane3(p)) == Struct(PANE_V3.to(p), NO_RECORDS)
  {
    var records: Vec<ProgramRecord> := [];
    assert PaneParts(UpgradePane3(p)) == And(p, records);
    assert Map(RECORD.to, records) == [];
  }
}
