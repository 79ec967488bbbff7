/**
 The CERTS cell: a counted list of certificates, each with a type and a length of its own.
 */
module CertsCells {
  import opened TrunnelBytes
  import opened TrunnelBuffers

  // ---------- certs_cell_cert ----------

  datatype Cert = Cert(certType: byte, certLen: u16, body: bytes, error: bool)

  function ParseCert(b: bytes, at: nat): Parsed<Cert> {
    if |b| < at + 3 || |b| < at + 3 + Get16(b, at + 1) then Truncated
    else
      var n := Get16(b, at + 1);
      Ok(Cert(b[at], n, b[at + 3..at + 3 + n], false), at + 3 + n)
  }

  function EncodeCert(o: Cert): bytes {
    [o.certType] + Put16(o.certLen) + o.body
  }

  predicate CertOk(o: Cert) {
    !o.error && |o.body| == o.certLen
  }

  function CertLen(o: Cert): int {
    if !CertOk(o) then -1 else 1 + 2 + |o.body|
  }

  function CertResult(o: Cert, avail: int): int {
    if !CertOk(o) then -1
    else if avail < 3 + |o.body| then -2
    else 3 + |o.body|
  }

  lemma CertAt(b: bytes, at: nat, o: Cert)
    ensures At(b, at, EncodeCert(o))
       <==> && at + 3 + |o.body| <= |b| && b[at] == o.certType && Get16(b, at + 1) == o.certLen
            && b[at + 3..at + 3 + |o.body|] == o.body
  {
    AtCat(b, at, [o.certType] + Put16(o.certLen), o.body);
    AtCat(b, at, [o.certType], Put16(o.certLen));
    AtByte(b, at, o.certType);
    At16(b, at + 1, o.certLen);
  }

  lemma CertFinal(b: bytes, c: bytes)
    requires b <= c
    ensures FinalAll(ParseCert, b, c)
  {
    forall at: nat ensures Final(ParseCert(b, at), ParseCert(c, at)) {
      if at + 3 <= |b| {
        Longer(b, c, at, 1);
        Longer(b, c, at + 1, 2);
        if at + 3 + Get16(b, at + 1) <= |b| { Longer(b, c, at + 3, Get16(b, at + 1)); }
      }
    }
  }

  lemma CertReads(b: bytes)
    ensures ReadsAll(ParseCert, EncodeCert, CertOk, b)
  {
    forall at: nat ensures Reads(ParseCert(b, at), EncodeCert, CertOk, b, at) {
      var r := ParseCert(b, at);
      if r.Ok? { CertAt(b, at, r.v); }
    }
  }

  lemma CertReturns(b: bytes, o: Cert)
    requires CertOk(o)
    ensures Returns(ParseCert, EncodeCert, (x: Cert) => x, b, o)
  {
    hide At;
    forall at: nat | At(b, at, EncodeCert(o)) ensures ParseCert(b, at) == Ok(o, at + |EncodeCert(o)|) {
      CertAt(b, at, o);
    }
  }

  method EncodeCertInto(w: Writer, o: Cert) returns (r: int)
    requires w.Valid()
    modifies w, w.out
    ensures w.Valid() && w.avail == old(w.avail)
    ensures Encoded(r, CertResult(o, old(w.Room())), old(w.done), w.done, EncodeCert(o))
  {
    hide Put16, Patch;
    if o.error || |o.body| != o.certLen { return -1; }
    ghost var d := w.done;
    var start := w.written;
    var ok := w.Put([o.certType]);
    if !ok { return -2; }
    ok := w.Put(Put16(o.certLen));
    if !ok { return -2; }
    ok := w.Put(o.body);
    if !ok { return -2; }
    Regrouped3(d, [o.certType], Put16(o.certLen), o.body);
    return w.written - start;
  }

  method ParseCertFrom(rd: Reader) returns (r: int, o: Cert)
    requires rd.Valid()
    modifies rd
    ensures rd.Valid() && Parses(ParseCert(old(rd.View()), old(rd.ptr)), old(rd.ptr), r, o)
    ensures r >= 0 ==> rd.Ahead(r)
  {
    var lenIn := rd.remaining;
    o := Cert(0, 0, [], false);
    var ok, ty := rd.Take8();
    if !ok { return -2, o; }
    var len;
    ok, len := rd.Take16();
    if !ok { return -2, o; }
    var body;
    ok, body := rd.Take(len);
    if !ok { return -2, o; }
    return lenIn - rd.remaining, Cert(ty, len, body, false);
  }

  // ---------- certs_cell ----------

  datatype CertsCell = CertsCell(nCerts: byte, certs: seq<Cert>, error: bool)

  function Parse(b: bytes, at: nat): Parsed<CertsCell> {
    if |b| < at + 1 then Truncated
    else
      match Many(ParseCert, b, at + 1, b[at], [])
      case Truncated => Truncated
      case Invalid => Invalid
      case Ok(certs, end) => Ok(CertsCell(b[at], certs, false), end)
  }

  function Encode(o: CertsCell): bytes {
    [o.nCerts] + EncodeFrom(EncodeCert, o.certs, 0)
  }

  /** certs_cell_check finds no fault; then the cell is encodable, too. */
  predicate CheckOk(o: CertsCell) {
    !o.error && |o.certs| == o.nCerts && forall i :: 0 <= i < |o.certs| ==> CertOk(o.certs[i])
  }

  /** certs_cell_encoded_len */
  function EncodedLen(o: CertsCell): int {
    if !CheckOk(o) then -1 else 1 + SumLen(CertLen, o.certs, 0)
  }

  function Result(o: CertsCell, avail: int): int {
    if !CheckOk(o) then -1
    else if avail < 1 then -2
    else
      var r := ManyResult(CertResult, o.certs, 0, avail - 1);
      if r < 0 then r else 1 + r
  }

  lemma VerdictFinal(b: bytes, c: bytes, at: nat)
    requires b <= c
    ensures Final(Parse(b, at), Parse(c, at))
  {
    if at + 1 <= |b| {
      CertFinal(b, c);
      ManyFinal(ParseCert, b, c, at + 1, b[at], []);
    }
  }

  lemma {:induction false} NoneInvalid(b: bytes, at: nat, n: nat, done: seq<Cert>)
    ensures Many(ParseCert, b, at, n, done) != Invalid
    decreases n
  {
    if n != 0 && ParseCert(b, at).Ok? {
      NoneInvalid(b, ParseCert(b, at).end, n - 1, done + [ParseCert(b, at).v]);
    }
  }

  /** No input is invalid: it is complete, or more bytes make it so. */
  lemma NeverInvalid(b: bytes, at: nat)
    ensures Parse(b, at) != Invalid
  {
    if at + 1 <= |b| { NoneInvalid(b, at + 1, b[at], []); }
  }

  lemma ReadsBack(b: bytes, at: nat)
    ensures Reads(Parse(b, at), Encode, CheckOk, b, at)
  {
    var r := Parse(b, at);
    if r.Ok? {
      CertReads(b);
      ManyReads(ParseCert, EncodeCert, CertOk, b, at + 1, b[at], []);
      AtCat(b, at, [b[at]], EncodeFrom(EncodeCert, r.v.certs, 0));
    }
  }

  lemma PrefixTruncatedToo(b: bytes, c: bytes)
    requires b <= c && Parse(c, 0).Ok? && |b| < Parse(c, 0).end
    ensures Parse(b, 0) == Truncated
  {
    VerdictFinal(b, c, 0);
    ReadsBack(b, 0);
    PrefixTruncated(Parse(b, 0), Parse(c, 0), b, c);
  }

  lemma RoundTrip(o: CertsCell, rest: bytes)
    requires CheckOk(o)
    ensures Parse(Encode(o) + rest, 0) == Ok(o, |Encode(o)|)
  {
    var b := Encode(o) + rest;
    assert b[0..|Encode(o)|] == Encode(o);
    AtCat(b, 0, [o.nCerts], EncodeFrom(EncodeCert, o.certs, 0));
    AtByte(b, 0, o.nCerts);
    forall k | 0 <= k < |o.certs| ensures Returns(ParseCert, EncodeCert, (x: Cert) => x, b, o.certs[k]) {
      CertReturns(b, o.certs[k]);
    }
    assert Normals((x: Cert) => x, o.certs)[..0] == [];
    ManyReturns(ParseCert, EncodeCert, (x: Cert) => x, b, 1, o.certs, 0);
    assert Normals((x: Cert) => x, o.certs) == o.certs;
  }

  lemma Fits(o: CertsCell, avail: nat)
    requires CheckOk(o)
    ensures FitsOrTruncated(Result(o, avail), |Encode(o)|, avail) && EncodedLen(o) == |Encode(o)|
  {
    SumLenIs(CertLen, EncodeCert, o.certs, 0);
    forall x, a {:trigger CertResult(x, a)} | CertOk(x) && 0 <= a
      ensures FitsOrTruncated(CertResult(x, a), |EncodeCert(x)|, a)
    {
    }
    if 1 <= avail { ManyFits(CertResult, EncodeCert, CertOk, o.certs, 0, avail - 1); }
  }

  /** certs_cell_check */
  method Check(o: CertsCell) returns (ok: bool)
    ensures ok == CheckOk(o)
  {
    if o.error { return false; }
    for i := 0 to |o.certs|
      invariant forall k :: 0 <= k < i ==> CertOk(o.certs[k])
    {
      if !CertOk(o.certs[i]) { return false; }
    }
    return |o.certs| == o.nCerts;
  }

  /** certs_cell_encode */
  method EncodeInto(w: Writer, o: CertsCell) returns (r: int)
    requires w.Valid()
    modifies w, w.out
    ensures w.Valid() && w.avail == old(w.avail)
    ensures Encoded(r, Result(o, old(w.Room())), old(w.done), w.done, Encode(o))
  {
    hide CheckOk, Patch;
    var ok := Check(o);
    if !ok { return -1; }
    ghost var d := w.done;
    var start := w.written;
    ok := w.Put([o.nCerts]);
    if !ok { return -2; }
    r := PutCerts(w, o.certs);
    if r < 0 { return; }
    Regrouped(d, [o.nCerts], EncodeFrom(EncodeCert, o.certs, 0));
    return w.written - start;
  }

  method PutCerts(w: Writer, certs: seq<Cert>) returns (r: int)
    requires w.Valid()
    modifies w, w.out
    ensures w.Valid() && w.avail == old(w.avail)
    ensures Encoded(r, ManyResult(CertResult, certs, 0, old(w.Room())), old(w.done), w.done, EncodeFrom(EncodeCert, certs, 0))
  {
    hide CertResult, EncodeCert, Patch;
    ghost var d, room := w.done, w.Room();
    var start, idx := w.written, 0;
    while idx < |certs|
      invariant 0 <= idx <= |certs| && w.Valid() && w.avail == old(w.avail) && d <= w.done
      invariant w.done + EncodeFrom(EncodeCert, certs, idx) == d + EncodeFrom(EncodeCert, certs, 0)
      invariant ManyResult(CertResult, certs, 0, room)
             == (var q := ManyResult(CertResult, certs, idx, w.Room()); if q < 0 then q else q + w.written - start)
    {
      ghost var done := w.done;
      r := EncodeCertInto(w, certs[idx]);
      if r < 0 { return; }
      Regrouped(done, EncodeCert(certs[idx]), EncodeFrom(EncodeCert, certs, idx + 1));
      idx := idx + 1;
    }
    assert w.done + [] == w.done;
    return w.written - start;
  }

  /** certs_cell_parse */
  method ParseFrom(rd: Reader) returns (r: int, o: CertsCell)
    requires rd.Valid()
    modifies rd
    ensures rd.Valid() && Parses(Parse(old(rd.View()), old(rd.ptr)), old(rd.ptr), r, o)
    ensures r >= 0 ==> rd.Ahead(r)
  {
    hide ParseCert;
    ghost var b, at := rd.View(), rd.ptr;
    var lenIn := rd.remaining;
    o := CertsCell(0, [], false);
    var ok, n := rd.Take8();
    if !ok { return -2, o; }
    o := o.(nCerts := n);
    var idx := 0;
    while idx < n
      invariant 0 <= idx <= n && rd.Valid() && rd.View() == b && at <= rd.ptr && rd.ptr + rd.remaining == at + lenIn
      invariant o.nCerts == n && !o.error
      invariant Many(ParseCert, b, rd.ptr, n - idx, o.certs) == Many(ParseCert, b, at + 1, n, [])
    {
      var q, elt := ParseCertFrom(rd);
      if q < 0 { return q, o; }
      o := o.(certs := o.certs + [elt]);
      idx := idx + 1;
    }
    return lenIn - rd.remaining, o;
  }
}
