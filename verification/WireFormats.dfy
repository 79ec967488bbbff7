/**
 The bytes on the wire, in numbers: where each field of a structure is, which of its bytes is the most
 significant one, which lengths a type demands, and what is rejected.  For each format one lemma is about
 the parser and one about the encoding.
 */
module WireFormats {
  import opened TrunnelBytes
  import LS = LinkSpecifiers
  import EC = ExtendCells
  import CX = CertExtensions
  import ED = Ed25519Certs
  import CC = CertsCells
  import HC = HandshakeCells
  import AC = Auth1Cells
  import PW = Pwboxes
  import NC = NetinfoCells
  import SC = SendmeCells

  // ---------- lists ----------

  /** Where the elements of a parsed list are: one begins where the one before ends. */
  lemma {:induction false} ListPlaces<T(!new)>(p: (bytes, nat) -> Parsed<T>, b: bytes, at: nat, n: nat, done: seq<T>)
      returns (ps: seq<nat>)
    requires Many(p, b, at, n, done).Ok?
    ensures var r := Many(p, b, at, n, done);
            && |r.v| == |done| + n && r.v[..|done|] == done && |ps| == n + 1 && ps[0] == at && ps[n] == r.end
            && forall i :: 0 <= i < n ==> p(b, ps[i]) == Ok(r.v[|done| + i], ps[i + 1])
    decreases n
  {
    if n == 0 {
      ps := [at];
    } else {
      var q := p(b, at);
      var rest := ListPlaces(p, b, q.end, n - 1, done + [q.v]);
      ps := [at] + rest;
      var r := Many(p, b, at, n, done);
      assert r.v[|done|] == (done + [q.v])[|done|];
      assert r.v[..|done|] == r.v[..|done| + 1][..|done|];
      forall i | 0 <= i < n ensures p(b, ps[i]) == Ok(r.v[|done| + i], ps[i + 1]) {
        if i > 0 { assert p(b, rest[i - 1]) == Ok(r.v[|done + [q.v]| + (i - 1)], rest[i]); }
      }
    }
  }

  // ---------- link_specifier ----------

  lemma ParsedSpecifier(b: bytes, at: nat)
    ensures var r := LS.Parse(b, at);
            && (r == Truncated <==> |b| < at + 2 || |b| < at + 2 + b[at + 1])
            && (r == Invalid <==> at + 2 <= |b| && at + 2 + b[at + 1] <= |b|
                                  && ((b[at] == 0 && b[at + 1] != 6) || (b[at] == 1 && b[at + 1] != 18)
                                      || (b[at] == 2 && b[at + 1] != 20) || (b[at] == 3 && b[at + 1] != 32)))
            && (r.Ok? ==>
                  var o := r.v;
                  && at + 2 <= |b| && r.end == at + 2 + b[at + 1] <= |b|
                  && o.lsType == b[at] && o.lsLen == b[at + 1] && !o.error
                  && (b[at] == 0 ==>
                        && r.end == at + 8 && o.ipv4Addr == (b[at + 2] as int) * 0x100_0000 + (b[at + 3] as int) * 0x1_0000 + (b[at + 4] as int) * 0x100 + b[at + 5]
                        && o.ipv4Port == (b[at + 6] as int) * 0x100 + b[at + 7])
                  && (b[at] == 1 ==>
                        r.end == at + 20 && o.ipv6Addr == b[at + 2..at + 18] && o.ipv6Port == (b[at + 18] as int) * 0x100 + b[at + 19])
                  && (b[at] == 2 ==> r.end == at + 22 && o.legacyId == b[at + 2..at + 22])
                  && (b[at] == 3 ==> r.end == at + 34 && o.ed25519Id == b[at + 2..at + 34])
                  && (b[at] > 3 ==> o.unrecognized == b[at + 2..r.end]))
  {
    if at + 2 <= |b| && at + 2 + b[at + 1] <= |b| {
      var s := b[at + 2..at + 2 + b[at + 1]];
      assert |s| >= 6 ==> s[0] == b[at + 2] && s[1] == b[at + 3] && s[2] == b[at + 4] && s[3] == b[at + 5]
                          && s[4] == b[at + 6] && s[5] == b[at + 7];
      assert |s| == 18 ==> s[..16] == b[at + 2..at + 18] && s[16] == b[at + 18] && s[17] == b[at + 19];
    }
  }

  lemma EncodedSpecifier(o: LS.LinkSpecifier)
    ensures LS.Encodable(o) <==> !o.error && (o.lsType <= 3 || |o.unrecognized| < 0x100)
    ensures forall avail: int :: !LS.Encodable(o) ==>
              LS.Result(o, avail) == if !o.error && avail < 2 + |o.unrecognized| then -2 else -1
    ensures LS.Encodable(o) ==>
              var w := LS.Encode(o);
              && 2 <= |w| && w[0] == o.lsType && w[1] == |w| - 2
              && (o.lsType == 0 ==>
                    && |w| == 8 && (w[2] as int) * 0x100_0000 + (w[3] as int) * 0x1_0000 + (w[4] as int) * 0x100 + w[5] == o.ipv4Addr
                    && (w[6] as int) * 0x100 + w[7] == o.ipv4Port)
              && (o.lsType == 1 ==> |w| == 20 && w[2..18] == o.ipv6Addr && (w[18] as int) * 0x100 + w[19] == o.ipv6Port)
              && (o.lsType == 2 ==> |w| == 22 && w[2..] == o.legacyId)
              && (o.lsType == 3 ==> |w| == 34 && w[2..] == o.ed25519Id)
              && (o.lsType > 3 ==> w[2..] == o.unrecognized)
  {
    var w := LS.Encode(o);
    assert w[2..] == LS.Body(o);
  }

  // ---------- create2_cell_body, link_specifier_list and extend2_cell_body ----------

  lemma ParsedCreate2(b: bytes, at: nat)
    ensures var r := EC.ParseCreate2(b, at);
            && r != Invalid
            && (r == Truncated <==> |b| < at + 4 || |b| < at + 4 + (b[at + 2] as int) * 0x100 + b[at + 3])
            && (r.Ok? ==>
                  && at + 4 <= r.end <= |b| && !r.v.error
                  && r.v.handshakeType == (b[at] as int) * 0x100 + b[at + 1]
                  && r.v.handshakeLen == r.end - at - 4 == (b[at + 2] as int) * 0x100 + b[at + 3]
                  && r.v.handshakeData == b[at + 4..r.end])
  {
  }

  lemma EncodedCreate2(o: EC.Create2)
    ensures EC.Create2Ok(o) <==> !o.error && |o.handshakeData| == o.handshakeLen
    ensures forall avail: int :: !EC.Create2Ok(o) ==> EC.Create2Result(o, avail) == -1
    ensures var w := EC.EncodeCreate2(o);
            && 4 <= |w| && (w[0] as int) * 0x100 + w[1] == o.handshakeType
            && (w[2] as int) * 0x100 + w[3] == o.handshakeLen && w[4..] == o.handshakeData
  {
  }

  /** The count, the specifiers one after the other, and the handshake. */
  lemma ParsedExtend2(b: bytes, at: nat) returns (ps: seq<nat>)
    requires EC.ParseExtend2(b, at).Ok?
    ensures var r := EC.ParseExtend2(b, at);
            && at < |b| && r.v.nSpec == b[at] == |r.v.ls| && !r.v.error && |ps| == |r.v.ls| + 1 && ps[0] == at + 1
            && (forall i :: 0 <= i < |r.v.ls| ==> LS.Parse(b, ps[i]) == Ok(r.v.ls[i], ps[i + 1]))
            && r.v.create2.Some? && EC.ParseCreate2(b, ps[|r.v.ls|]) == Ok(r.v.create2.v, r.end)
  {
    ps := ListPlaces(LS.Parse, b, at + 1, b[at], []);
  }

  lemma EncodedExtend2(o: EC.Extend2) returns (ps: seq<nat>)
    requires EC.Extend2Encodable(o)
    ensures !o.error && |o.ls| == o.nSpec && o.create2.Some?
    ensures forall i :: 0 <= i < |o.ls| ==> LS.Encodable(o.ls[i])
    ensures var w := EC.EncodeExtend2(o);
            && 1 <= |w| && w[0] == |o.ls| && |ps| == |o.ls| + 1 && ps[0] == 1
            && (forall i {:trigger o.ls[i]} :: 0 <= i < |o.ls| ==> ps[i] <= ps[i + 1] <= |w| && w[ps[i]..ps[i + 1]] == LS.Encode(o.ls[i]))
            && ps[|o.ls|] <= |w| && w[ps[|o.ls|]..] == EC.EncodeCreate2(o.create2.v)
  {
    hide LS.Parse, LS.Encode, LS.Normal;
    var w := EC.EncodeExtend2(o);
    EC.Extend2RoundTrip(o, []);
    assert w + [] == w;
    ps := ParsedExtend2(w, 0);
    var r := EC.ParseExtend2(w, 0);
    LS.ReadsBack(w);
    forall i {:trigger o.ls[i]} | 0 <= i < |o.ls| ensures ps[i] <= ps[i + 1] <= |w| && w[ps[i]..ps[i + 1]] == LS.Encode(o.ls[i]) {
      assert LS.Parse(w, ps[i]) == Ok(r.v.ls[i], ps[i + 1]);
      assert Reads(LS.Parse(w, ps[i]), LS.Encode, LS.Encodable, w, ps[i]);
      LS.NormalEncodes(o.ls[i]);
    }
    EC.Create2Reads(w);
    assert Reads(EC.ParseCreate2(w, ps[|o.ls|]), EC.EncodeCreate2, EC.Create2Ok, w, ps[|o.ls|]);
  }

  lemma ParsedList(b: bytes, at: nat) returns (ps: seq<nat>)
    requires EC.ParseList(b, at).Ok?
    ensures var r := EC.ParseList(b, at);
            && at < |b| && r.v.nSpec == b[at] == |r.v.spec| && !r.v.error && |ps| == |r.v.spec| + 1 && ps[0] == at + 1
            && (forall i :: 0 <= i < |r.v.spec| ==> LS.Parse(b, ps[i]) == Ok(r.v.spec[i], ps[i + 1]))
            && ps[|r.v.spec|] == r.end
  {
    ps := ListPlaces(LS.Parse, b, at + 1, b[at], []);
  }

  // ---------- ed25519_cert_extension and ed25519_cert ----------

  lemma ParsedExtension(b: bytes, at: nat)
    ensures var r := CX.Parse(b, at);
            && (r == Truncated <==> |b| < at + 4 || |b| < at + 4 + (b[at] as int) * 0x100 + b[at + 1])
            && (r == Invalid <==> at + 4 <= |b| && at + 4 + (b[at] as int) * 0x100 + b[at + 1] <= |b|
                                  && b[at + 2] == 4 && (b[at] as int) * 0x100 + b[at + 1] != 32)
            && (r.Ok? ==>
                  && at + 4 <= r.end == at + 4 + (b[at] as int) * 0x100 + b[at + 1] <= |b|
                  && r.v.extLength == r.end - at - 4 && r.v.extType == b[at + 2] && r.v.extFlags == b[at + 3] && !r.v.error
                  && (if b[at + 2] == 4 then r.end == at + 36 && r.v.signingKey == b[at + 4..at + 36]
                      else r.v.unparsed == b[at + 4..r.end]))
  {
  }

  lemma EncodedExtension(o: CX.Extension)
    ensures CX.Encodable(o) <==> !o.error && (o.extType == 4 || |o.unparsed| < 0x1_0000)
    ensures forall avail: int :: !CX.Encodable(o) ==>
              CX.Result(o, avail) == if !o.error && avail < 4 + |o.unparsed| then -2 else -1
    ensures CX.Encodable(o) ==>
              var w := CX.Encode(o);
              && 4 <= |w| && (w[0] as int) * 0x100 + w[1] == |w| - 4 && w[2] == o.extType && w[3] == o.extFlags
              && (if o.extType == 4 then |w| == 36 && w[4..] == o.signingKey else w[4..] == o.unparsed)
  {
    var w := CX.Encode(o);
    assert w[4..] == CX.Body(o);
  }

  lemma ParsedCert(b: bytes, at: nat)
    ensures at < |b| && b[at] != 1 ==> ED.Parse(b, at) == Invalid
    ensures |b| <= at || (b[at] == 1 && |b| < at + 40) ==> ED.Parse(b, at) == Truncated
  {
  }

  lemma ParsedCertFields(b: bytes, at: nat) returns (ps: seq<nat>)
    requires ED.Parse(b, at).Ok?
    ensures var r := ED.Parse(b, at);
            && at + 40 <= |b| && b[at] == 1 == r.v.version && r.v.certType == b[at + 1]
            && r.v.expField == (b[at + 2] as int) * 0x100_0000 + (b[at + 3] as int) * 0x1_0000 + (b[at + 4] as int) * 0x100 + b[at + 5]
            && r.v.certKeyType == b[at + 6] && r.v.certifiedKey == b[at + 7..at + 39]
            && r.v.nExtensions == b[at + 39] == |r.v.ext| && |ps| == |r.v.ext| + 1 && ps[0] == at + 40
            && (forall i :: 0 <= i < |r.v.ext| ==> CX.Parse(b, ps[i]) == Ok(r.v.ext[i], ps[i + 1]))
            && r.end == ps[|r.v.ext|] + 64 <= |b| && r.v.signature == b[ps[|r.v.ext|]..r.end] && !r.v.error
  {
    ps := ListPlaces(CX.Parse, b, at + 40, b[at + 39], []);
  }

  lemma EncodedCert(o: ED.Cert)
    requires ED.Encodable(o)
    ensures !o.error && o.version == 1 && |o.ext| == o.nExtensions
    ensures var w := ED.Encode(o);
            && 104 <= |w| && w[0] == 1 && w[1] == o.certType
            && (w[2] as int) * 0x100_0000 + (w[3] as int) * 0x1_0000 + (w[4] as int) * 0x100 + w[5] == o.expField
            && w[6] == o.certKeyType && w[7..39] == o.certifiedKey && w[39] == |o.ext|
            && w[40..|w| - 64] == EncodeFrom(CX.Encode, o.ext, 0) && w[|w| - 64..] == o.signature
  {
    var w, h, x := ED.Encode(o), ED.Head(o), EncodeFrom(CX.Encode, o.ext, 0);
    assert w == h + (x + o.signature);
    assert w[0..40] == h;
    ED.HeadBytes(w, 0, o);
  }

  // ---------- the CERTS cell ----------

  lemma ParsedCellCert(b: bytes, at: nat)
    ensures var r := CC.ParseCert(b, at);
            && r != Invalid
            && (r == Truncated <==> |b| < at + 3 || |b| < at + 3 + (b[at + 1] as int) * 0x100 + b[at + 2])
            && (r.Ok? ==>
                  && at + 3 <= r.end == at + 3 + (b[at + 1] as int) * 0x100 + b[at + 2] <= |b| && !r.v.error
                  && r.v.certType == b[at] && r.v.certLen == r.end - at - 3 && r.v.body == b[at + 3..r.end])
  {
  }

  lemma EncodedCellCert(o: CC.Cert)
    ensures CC.CertOk(o) <==> !o.error && |o.body| == o.certLen
    ensures forall avail: int :: !CC.CertOk(o) ==> CC.CertResult(o, avail) == -1
    ensures var w := CC.EncodeCert(o);
            3 <= |w| && w[0] == o.certType && (w[1] as int) * 0x100 + w[2] == o.certLen && w[3..] == o.body
  {
  }

  lemma ParsedCertsCell(b: bytes, at: nat) returns (ps: seq<nat>)
    requires CC.Parse(b, at).Ok?
    ensures var r := CC.Parse(b, at);
            && at < |b| && r.v.nCerts == b[at] == |r.v.certs| && !r.v.error && |ps| == |r.v.certs| + 1 && ps[0] == at + 1
            && (forall i :: 0 <= i < |r.v.certs| ==> CC.ParseCert(b, ps[i]) == Ok(r.v.certs[i], ps[i + 1]))
            && ps[|r.v.certs|] == r.end
  {
    ps := ListPlaces(CC.ParseCert, b, at + 1, b[at], []);
  }

  lemma EncodedCertsCell(o: CC.CertsCell)
    requires CC.CheckOk(o)
    ensures !o.error && |o.certs| == o.nCerts && forall i :: 0 <= i < |o.certs| ==> CC.CertOk(o.certs[i])
    ensures var w := CC.Encode(o);
            1 <= |w| && w[0] == |o.certs| && w[1..] == EncodeFrom(CC.EncodeCert, o.certs, 0)
  {
  }

  // ---------- rsa_ed_crosscert and auth_challenge_cell ----------

  lemma ParsedCrosscert(b: bytes, at: nat)
    ensures var r := HC.ParseCrosscert(b, at);
            && r != Invalid && (r == Truncated <==> |b| < at + 37 || |b| < at + 37 + b[at + 36])
            && (r.Ok? ==>
                  && at + 37 <= r.end == at + 37 + b[at + 36] <= |b| && !r.v.error
                  && r.v.edKey == b[at..at + 32] && r.v.sigLen == b[at + 36] && r.v.sig == b[at + 37..r.end]
                  && r.v.expiration == (b[at + 32] as int) * 0x100_0000 + (b[at + 33] as int) * 0x1_0000
                                       + (b[at + 34] as int) * 0x100 + b[at + 35]
                  && r.v.endOfSigned == Some(at + 36))
  {
  }

  lemma EncodedCrosscert(o: HC.Crosscert)
    ensures HC.CrosscertOk(o) <==> !o.error && |o.sig| == o.sigLen
    ensures forall avail: int :: !HC.CrosscertOk(o) ==> HC.CrosscertResult(o, avail) == -1
    ensures var w := HC.EncodeCrosscert(o);
            && 37 <= |w| && w[0..32] == o.edKey && w[36] == o.sigLen && w[37..] == o.sig
            && (w[32] as int) * 0x100_0000 + (w[33] as int) * 0x1_0000 + (w[34] as int) * 0x100 + w[35] == o.expiration
  {
    var w := HC.EncodeCrosscert(o);
    assert w[0..|w|] == w;
    HC.CrosscertAt(w, 0, o);
    assert w[37..] == w[37..37 + |o.sig|];
  }

  lemma {:induction false} MethodsAt(b: bytes, at: nat, n: nat, done: seq<u16>)
    requires Many(HC.ParseMethod, b, at, n, done).Ok?
    ensures var r := Many(HC.ParseMethod, b, at, n, done);
            && r.end == at + 2 * n && (n == 0 || r.end <= |b|) && |r.v| == |done| + n && r.v[..|done|] == done
            && forall i :: |done| <= i < |r.v| ==>
                 0 <= at + 2 * (i - |done|) && at + 2 * (i - |done|) + 2 <= |b|
                 && r.v[i] == (b[at + 2 * (i - |done|)] as int) * 0x100 + b[at + 2 * (i - |done|) + 1]
    decreases n
  {
    if n != 0 {
      var x := HC.ParseMethod(b, at).v;
      MethodsAt(b, at + 2, n - 1, done + [x]);
      var r := Many(HC.ParseMethod, b, at, n, done);
      assert r.v[|done|] == (done + [x])[|done|];
      assert r.v[..|done|] == r.v[..|done| + 1][..|done|];
    }
  }

  lemma ParsedChallenge(b: bytes, at: nat)
    ensures var r := HC.ParseChallenge(b, at);
            && r != Invalid
            && (r == Truncated <==> |b| < at + 34 || |b| < at + 34 + 2 * ((b[at + 32] as int) * 0x100 + b[at + 33]))
            && (r.Ok? ==>
                  && at + 34 <= r.end == at + 34 + 2 * |r.v.methods| <= |b| && !r.v.error
                  && r.v.challenge == b[at..at + 32]
                  && r.v.nMethods == |r.v.methods| == (b[at + 32] as int) * 0x100 + b[at + 33]
                  && forall i :: 0 <= i < |r.v.methods| ==>
                       r.v.methods[i] == (b[at + 34 + 2 * i] as int) * 0x100 + b[at + 34 + 2 * i + 1])
  {
    if at + 34 <= |b| {
      HC.MethodsVerdict(b, at + 34, Get16(b, at + 32), []);
      if HC.ParseChallenge(b, at).Ok? { MethodsAt(b, at + 34, Get16(b, at + 32), []); }
    }
  }

  lemma EncodedChallenge(o: HC.Challenge)
    requires HC.ChallengeOk(o)
    ensures !o.error && |o.methods| == o.nMethods
    ensures var w := HC.EncodeChallenge(o);
            && |w| == 34 + 2 * |o.methods| && w[0..32] == o.challenge && (w[32] as int) * 0x100 + w[33] == |o.methods|
            && forall i :: 0 <= i < |o.methods| ==> (w[34 + 2 * i] as int) * 0x100 + w[34 + 2 * i + 1] == o.methods[i]
  {
    var w := HC.EncodeChallenge(o);
    HC.ChallengeRoundTrip(o, []);
    assert w + [] == w;
    ParsedChallenge(w, 0);
  }

  // ---------- auth1 ----------

  lemma ParsedAuth1(b: bytes, at: nat, ctx: AC.Context)
    ensures ctx == None ==> AC.Parse(b, at, ctx) == Invalid
    ensures ctx.Some? && |b| < at + 72 ==> AC.Parse(b, at, ctx) == Truncated
    ensures ctx.Some? && ctx.v > 1 && at + 72 <= |b| ==> AC.Parse(b, at, ctx) == Invalid
    ensures ctx == Some(0) && |b| < at + 224 ==> AC.Parse(b, at, ctx) == Truncated
    ensures ctx == Some(1) && |b| < at + 288 ==> AC.Parse(b, at, ctx) == Truncated
    ensures ctx.Some? && ctx.v <= 1 && at + 224 + 64 * ctx.v <= |b| ==>
              var r, e := AC.Parse(b, at, ctx), at + 72 + 64 * ctx.v;
              && r.Ok? && r.end == |b| && !r.v.error
              && r.v.ty == b[at..at + 8] && r.v.cid == b[at + 8..at + 40] && r.v.sid == b[at + 40..at + 72]
              && (ctx.v == 1 ==> r.v.cidEd == b[at + 72..at + 104] && r.v.sidEd == b[at + 104..at + 136])
              && r.v.slog == b[e..e + 32] && r.v.clog == b[e + 32..e + 64] && r.v.scert == b[e + 64..e + 96]
              && r.v.tlssecrets == b[e + 96..e + 128] && r.v.rand == b[e + 128..e + 152] && r.v.sig == b[e + 152..]
              && r.v.endOfFixedPart == Some(e + 128) && r.v.endOfSigned == Some(e + 152)
  {
  }

  lemma EncodedAuth1(o: AC.Auth1, isEd: byte)
    requires isEd <= 1
    ensures forall ctx :: AC.CheckOk(o, ctx) <==> !o.error && (ctx == Some(0) || ctx == Some(1))
    ensures forall ctx, avail: int :: !AC.CheckOk(o, ctx) ==> AC.Result(o, ctx, avail) == -1
    ensures var w, e := AC.Encode(o, isEd), 72 + 64 * isEd;
            && e + 152 <= |w| && w[0..8] == o.ty && w[8..40] == o.cid && w[40..72] == o.sid
            && (isEd == 1 ==> w[72..104] == o.cidEd && w[104..136] == o.sidEd)
            && w[e..e + 32] == o.slog && w[e + 32..e + 64] == o.clog && w[e + 64..e + 96] == o.scert
            && w[e + 96..e + 128] == o.tlssecrets && w[e + 128..e + 152] == o.rand && w[e + 152..] == o.sig
  {
    var w, e := AC.Encode(o, isEd), 72 + 64 * isEd;
    assert w[0..|AC.Signed(o, isEd)|] == AC.Signed(o, isEd);
    AC.SignedAt(w, 0, o, isEd);
    assert w[e + 152..] == o.sig;
  }

  // ---------- pwbox_encoded ----------

  /** The first eight bytes are "TORBOX00" in ASCII. */
  lemma ParsedPwbox(b: bytes, at: nat)
    ensures at + 8 <= |b| && b[at..at + 8] != [0x54, 0x4f, 0x52, 0x42, 0x4f, 0x58, 0x30, 0x30] ==> PW.Parse(b, at) == Invalid
    ensures |b| < at + 4 ==> PW.Parse(b, at) == Truncated
    ensures at + 8 <= |b| && b[at..at + 8] == [0x54, 0x4f, 0x52, 0x42, 0x4f, 0x58, 0x30, 0x30] ==>
              var r := PW.Parse(b, at);
              && (r == Truncated <==> |b| < at + 9 || |b| < at + 57 + b[at + 8])
              && (r.Ok? ==>
                    var d := at + 25 + b[at + 8];
                    && d + 32 <= |b| == r.end && !r.v.error && r.v.headerLen == b[at + 8]
                    && r.v.skeyHeader == b[at + 9..d - 16] && r.v.iv == b[d - 16..d]
                    && r.v.data == b[d..|b| - 32] && r.v.hmac == b[|b| - 32..])
  {
    if at + 8 <= |b| {
      var m: bytes := [0x54, 0x4f, 0x52, 0x42, 0x4f, 0x58, 0x30, 0x30];
      var u := b[at..at + 8];
      assert u == m <==> (u[0] == m[0] && u[1] == m[1] && u[2] == m[2] && u[3] == m[3]
                          && u[4] == m[4] && u[5] == m[5] && u[6] == m[6] && u[7] == m[7]);
    }
  }

  lemma EncodedPwbox(o: PW.Pwbox)
    ensures PW.CheckOk(o) <==> !o.error && o.fixedbytes0 == 0x544f_5242 && o.fixedbytes1 == 0x4f58_3030 && |o.skeyHeader| == o.headerLen
    ensures forall avail: int :: !PW.CheckOk(o) ==> PW.Result(o, avail) == -1
    ensures PW.CheckOk(o) ==>
              var w := PW.Encode(o);
              && |w| == 57 + |o.skeyHeader| + |o.data|
              && w[0..8] == [0x54, 0x4f, 0x52, 0x42, 0x4f, 0x58, 0x30, 0x30] && w[8] == |o.skeyHeader|
              && w[9..9 + |o.skeyHeader|] == o.skeyHeader && w[9 + |o.skeyHeader|..25 + |o.skeyHeader|] == o.iv
              && w[25 + |o.skeyHeader|..|w| - 32] == o.data && w[|w| - 32..] == o.hmac
  {
    if PW.CheckOk(o) {
      var w := PW.Encode(o);
      PW.RoundTrip(o);
      ParsedPwbox(w, 0);
      assert w[0..8] == w[0..4] + w[4..8];
    }
  }

  // ---------- netinfo_addr and netinfo_cell ----------

  lemma ParsedAddr(b: bytes, at: nat)
    ensures var r := NC.ParseAddr(b, at);
            && (r == Truncated <==> |b| < at + 2 || |b| < at + 2 + b[at + 1])
            && (r == Invalid <==> at + 2 <= |b| && at + 2 + b[at + 1] <= |b|
                                  && ((b[at] == 4 && b[at + 1] != 4) || (b[at] == 6 && b[at + 1] != 16)))
            && (r.Ok? ==>
                  && at + 2 <= |b| && r.end == at + 2 + b[at + 1] <= |b| && !r.v.error
                  && r.v.addrType == b[at] && r.v.len == b[at + 1]
                  && (b[at] == 4 ==>
                        && r.end == at + 6
                        && r.v.ipv4 == (b[at + 2] as int) * 0x100_0000 + (b[at + 3] as int) * 0x1_0000
                                       + (b[at + 4] as int) * 0x100 + b[at + 5])
                  && (b[at] == 6 ==> r.end == at + 18 && r.v.ipv6 == b[at + 2..at + 18]))
  {
    if at + 2 <= |b| && at + 2 + b[at + 1] <= |b| {
      var s := b[at + 2..at + 2 + b[at + 1]];
      assert |s| >= 4 ==> s[0] == b[at + 2] && s[1] == b[at + 3] && s[2] == b[at + 4] && s[3] == b[at + 5];
    }
  }

  lemma EncodedAddr(o: NC.Addr)
    ensures var w := NC.EncodeAddr(o);
            && 2 <= |w| && w[0] == o.addrType && w[1] == |w| - 2
            && (o.addrType == 4 ==>
                  && |w| == 6 && (w[2] as int) * 0x100_0000 + (w[3] as int) * 0x1_0000 + (w[4] as int) * 0x100 + w[5] == o.ipv4)
            && (o.addrType == 6 ==> |w| == 18 && w[2..] == o.ipv6)
            && (o.addrType != 4 && o.addrType != 6 ==> |w| == 2)
  {
    assert NC.EncodeAddr(o)[2..] == NC.Body(o);
  }

  lemma ParsedNetinfo(b: bytes, at: nat) returns (mid: nat, ps: seq<nat>)
    requires NC.Parse(b, at).Ok?
    ensures var r := NC.Parse(b, at);
            && at + 4 <= |b| && !r.v.error
            && r.v.timestamp == (b[at] as int) * 0x100_0000 + (b[at + 1] as int) * 0x1_0000 + (b[at + 2] as int) * 0x100 + b[at + 3]
            && r.v.otherAddr.Some? && NC.ParseAddr(b, at + 4) == Ok(r.v.otherAddr.v, mid)
            && mid < |b| && r.v.nMyAddrs == b[mid] == |r.v.myAddrs| && |ps| == |r.v.myAddrs| + 1 && ps[0] == mid + 1
            && (forall i :: 0 <= i < |r.v.myAddrs| ==> NC.ParseAddr(b, ps[i]) == Ok(r.v.myAddrs[i], ps[i + 1]))
            && ps[|r.v.myAddrs|] == r.end
  {
    mid := NC.ParseAddr(b, at + 4).end;
    ps := ListPlaces(NC.ParseAddr, b, mid + 1, b[mid], []);
  }

  lemma EncodedNetinfo(o: NC.Cell)
    requires NC.CheckOk(o)
    ensures !o.error && o.otherAddr.Some? && |o.myAddrs| == o.nMyAddrs
    ensures var w, n := NC.Encode(o), |NC.EncodeAddr(o.otherAddr.v)|;
            && 5 + n <= |w|
            && (w[0] as int) * 0x100_0000 + (w[1] as int) * 0x1_0000 + (w[2] as int) * 0x100 + w[3] == o.timestamp
            && w[4..4 + n] == NC.EncodeAddr(o.otherAddr.v) && w[4 + n] == |o.myAddrs|
            && w[5 + n..] == EncodeFrom(NC.EncodeAddr, o.myAddrs, 0)
  {
    hide NC.EncodeAddr;
  }

  // ---------- sendme_cell ----------

  lemma ParsedSendme(b: bytes, at: nat)
    ensures at < |b| && b[at] > 1 ==> SC.Parse(b, at) == Invalid
    ensures |b| <= at || (b[at] <= 1 && (|b| < at + 3 || |b| < at + 3 + (b[at + 1] as int) * 0x100 + b[at + 2])) ==>
              SC.Parse(b, at) == Truncated
    ensures at + 3 <= |b| && b[at] <= 1 && at + 3 + (b[at + 1] as int) * 0x100 + b[at + 2] <= |b| ==>
              var r, n := SC.Parse(b, at), (b[at + 1] as int) * 0x100 + b[at + 2];
              && (r == Invalid <==> b[at] == 1 && n != 20)
              && (r.Ok? ==> r.end == at + 3 + n && r.v.version == b[at] && r.v.dataLen == n && !r.v.error
                            && (b[at] == 1 ==> r.v.v1Digest == b[at + 3..at + 23]))
  {
  }

  lemma EncodedSendme(o: SC.Cell)
    ensures SC.CheckOk(o) <==> !o.error && (o.version == 0 || o.version == 1)
    ensures forall avail: int :: !SC.CheckOk(o) ==> SC.Result(o, avail) == -1
    ensures SC.CheckOk(o) ==>
              var w := SC.Encode(o);
              && 3 <= |w| && w[0] == o.version && (w[1] as int) * 0x100 + w[2] == |w| - 3
              && (if o.version == 1 then |w| == 23 && w[3..] == o.v1Digest else |w| == 3)
  {
    assert SC.Encode(o)[3..] == SC.Body(o);
  }
}
