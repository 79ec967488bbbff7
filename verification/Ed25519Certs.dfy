/**
 ed25519_cert: a fixed head, a counted list of extensions, and a signature.
 */
module Ed25519Certs {
  import opened TrunnelBytes
  import opened TrunnelBuffers
  import Ext = CertExtensions

  datatype Cert = Cert(
    version: byte, certType: byte, expField: u32, certKeyType: byte, certifiedKey: Bytes32,
    nExtensions: byte, ext: seq<Ext.Extension>, signature: Bytes64,
    error: bool)

  /** The bytes before the extensions. */
  const HEAD: nat := 40

  function Head(o: Cert): (r: bytes)
    ensures |r| == HEAD
  {
    [o.version, o.certType] + Put32(o.expField) + [o.certKeyType] + o.certifiedKey + [o.nExtensions]
  }

  /** The fields of the head read from b. */
  predicate HeadAt(b: bytes, at: nat, o: Cert) {
    && at + HEAD <= |b| && b[at] == o.version && b[at + 1] == o.certType && Get32(b, at + 2) == o.expField
    && b[at + 6] == o.certKeyType && b[at + 7..at + 39] == o.certifiedKey && b[at + 39] == o.nExtensions
  }

  function Parse(b: bytes, at: nat): Parsed<Cert> {
    if |b| < at + 1 then Truncated
    else if b[at] != 1 then Invalid
    else if |b| < at + HEAD then Truncated
    else
      match Many(Ext.Parse, b, at + HEAD, b[at + 39], [])
      case Truncated => Truncated
      case Invalid => Invalid
      case Ok(ext, mid) =>
        if |b| < mid + 64 then Truncated
        else Ok(Cert(b[at], b[at + 1], Get32(b, at + 2), b[at + 6], b[at + 7..at + 39], b[at + 39],
                     ext, b[mid..mid + 64], false), mid + 64)
  }

  function Encode(o: Cert): bytes {
    Head(o) + EncodeFrom(Ext.Encode, o.ext, 0) + o.signature
  }

  /** ed25519_cert_check finds no fault. */
  predicate CheckOk(o: Cert) {
    !o.error && o.version == 1 && |o.ext| == o.nExtensions && forall i :: 0 <= i < |o.ext| ==> !o.ext[i].error
  }

  predicate Encodable(o: Cert) {
    !o.error && o.version == 1 && |o.ext| == o.nExtensions && forall i :: 0 <= i < |o.ext| ==> Ext.Encodable(o.ext[i])
  }

  function Result(o: Cert, avail: int): int {
    if !CheckOk(o) then -1
    else if avail < HEAD then -2
    else
      var r := ManyResult(Ext.Result, o.ext, 0, avail - HEAD);
      if r < 0 then r
      else if avail - HEAD - r < 64 then -2
      else HEAD + r + 64
  }

  /** ed25519_cert_encoded_len */
  function EncodedLen(o: Cert): int {
    if !CheckOk(o) then -1 else 1 + 1 + 4 + 1 + 32 + 1 + SumLen(Ext.EncodedLen, o.ext, 0) + 64
  }

  function Normal(o: Cert): Cert { o.(ext := Normals(Ext.Normal, o.ext)) }

  lemma HeadBytes(b: bytes, at: nat, o: Cert)
    ensures At(b, at, Head(o)) <==> HeadAt(b, at, o)
  {
    var h1, h2, h3, h4 := [o.version, o.certType], Put32(o.expField), [o.certKeyType], o.certifiedKey;
    AtCat(b, at, h1 + h2 + h3 + h4, [o.nExtensions]);
    AtCat(b, at, h1 + h2 + h3, h4);
    AtCat(b, at, h1 + h2, h3);
    AtCat(b, at, h1, h2);
    At32(b, at + 2, o.expField);
    AtByte(b, at + 6, o.certKeyType);
    AtByte(b, at + 39, o.nExtensions);
    if at + HEAD <= |b| { assert b[at..at + 2] == [b[at], b[at + 1]]; }
  }

  // ---------- the laws ----------

  lemma VerdictFinal(b: bytes, c: bytes, at: nat)
    requires b <= c
    ensures Final(Parse(b, at), Parse(c, at))
  {
    if at + HEAD <= |b| {
      Ext.VerdictFinal(b, c);
      ManyFinal(Ext.Parse, b, c, at + HEAD, b[at + 39], []);
      Longer(b, c, at, 1);
      Longer(b, c, at + 1, 1);
      Longer(b, c, at + 2, 4);
      Longer(b, c, at + 6, 1);
      Longer(b, c, at + 7, 32);
      Longer(b, c, at + 39, 1);
      match Many(Ext.Parse, b, at + HEAD, b[at + 39], [])
      case Ok(_, mid) => if mid + 64 <= |b| { Longer(b, c, mid, 64); }
      case _ =>
    }
  }

  lemma ReadsBack(b: bytes, at: nat)
    ensures Reads(Parse(b, at), Encode, Encodable, b, at)
  {
    hide Get32, EncodeFrom, Many;
    var r := Parse(b, at);
    if r.Ok? {
      Ext.ReadsBack(b);
      ManyReads(Ext.Parse, Ext.Encode, Ext.Encodable, b, at + HEAD, b[at + 39], []);
      var exts := EncodeFrom(Ext.Encode, r.v.ext, 0);
      HeadBytes(b, at, r.v);
      AtCat(b, at, Head(r.v), exts);
      AtCat(b, at, Head(r.v) + exts, r.v.signature);
    }
  }

  lemma PrefixTruncatedToo(b: bytes, c: bytes)
    requires b <= c && Parse(c, 0).Ok? && |b| < Parse(c, 0).end
    ensures Parse(b, 0) == Truncated
  {
    VerdictFinal(b, c, 0);
    ReadsBack(b, 0);
    PrefixTruncated(Parse(b, 0), Parse(c, 0), b, c);
  }

  lemma ExtensionsReturn(b: bytes, o: Cert)
    requires Encodable(o) && At(b, HEAD, EncodeFrom(Ext.Encode, o.ext, 0))
    ensures Many(Ext.Parse, b, HEAD, o.nExtensions, [])
         == Ok(Normals(Ext.Normal, o.ext), HEAD + |EncodeFrom(Ext.Encode, o.ext, 0)|)
  {
    hide EncodeFrom, Many, Ext.Parse, Ext.Encode, Returns;
    forall k | 0 <= k < |o.ext| ensures Returns(Ext.Parse, Ext.Encode, Ext.Normal, b, o.ext[k]) {
      Ext.RoundTrip(b, o.ext[k]);
    }
    assert Normals(Ext.Normal, o.ext)[..0] == [];
    ManyReturns(Ext.Parse, Ext.Encode, Ext.Normal, b, HEAD, o.ext, 0);
  }

  lemma RoundTrip(o: Cert, rest: bytes)
    requires Encodable(o)
    ensures Parse(Encode(o) + rest, 0) == Ok(Normal(o), |Encode(o)|)
  {
    hide Get32, EncodeFrom, Many, Put32, Head, Normals, Ext.Encodable;
    var b, exts := Encode(o) + rest, EncodeFrom(Ext.Encode, o.ext, 0);
    assert b[0..|Encode(o)|] == Encode(o);
    AtCat(b, 0, Head(o) + exts, o.signature);
    AtCat(b, 0, Head(o), exts);
    HeadBytes(b, 0, o);
    ExtensionsReturn(b, o);
  }

  lemma Fits(o: Cert, avail: nat)
    requires Encodable(o)
    ensures FitsOrTruncated(Result(o, avail), |Encode(o)|, avail) && EncodedLen(o) == |Encode(o)|
  {
    SumLenIs(Ext.EncodedLen, Ext.Encode, o.ext, 0);
    forall x, a {:trigger Ext.Result(x, a)} | Ext.Encodable(x) && 0 <= a
      ensures FitsOrTruncated(Ext.Result(x, a), |Ext.Encode(x)|, a)
    {
      Ext.Fits(x, a);
    }
    if HEAD <= avail { ManyFits(Ext.Result, Ext.Encode, Ext.Encodable, o.ext, 0, avail - HEAD); }
  }

  // ---------- the code ----------

  /** ed25519_cert_check */
  method Check(o: Cert) returns (ok: bool)
    ensures ok == CheckOk(o)
  {
    if o.error || o.version != 1 { return false; }
    for i := 0 to |o.ext|
      invariant forall k :: 0 <= k < i ==> !o.ext[k].error
    {
      if o.ext[i].error { return false; }
    }
    return |o.ext| == o.nExtensions;
  }

  method PutHead(w: Writer, o: Cert) returns (ok: bool)
    requires w.Valid()
    modifies w, w.out
    ensures w.Valid() && w.avail == old(w.avail) && ok == (HEAD <= old(w.Room()))
    ensures old(w.done) <= w.done && (ok ==> w.done == old(w.done) + Head(o))
  {
    hide Put32, Patch;
    ghost var d := w.done;
    ok := PutTypes(w, o);
    if !ok { return; }
    ok := w.Put([o.certKeyType]);
    if !ok { return; }
    ok := w.Put(o.certifiedKey);
    if !ok { return; }
    ok := w.Put([o.nExtensions]);
    HeadIs(d, o);
  }

  lemma HeadIs(d: bytes, o: Cert)
    ensures d + Head(o)
         == d + ([o.version, o.certType] + Put32(o.expField)) + [o.certKeyType] + o.certifiedKey + [o.nExtensions]
  {
  }

  method PutTypes(w: Writer, o: Cert) returns (ok: bool)
    requires w.Valid()
    modifies w, w.out
    ensures w.Valid() && w.avail == old(w.avail) && ok == (6 <= old(w.Room()))
    ensures old(w.done) <= w.done && (ok ==> w.done == old(w.done) + ([o.version, o.certType] + Put32(o.expField)))
  {
    hide Put32, Patch;
    ok := w.Put([o.version]);
    if !ok { return; }
    ok := w.Put([o.certType]);
    if !ok { return; }
    ok := w.Put(Put32(o.expField));
  }

  /** ed25519_cert_encode */
  method EncodeInto(w: Writer, o: Cert) returns (r: int)
    requires w.Valid()
    modifies w, w.out
    ensures w.Valid() && w.avail == old(w.avail)
    ensures Encoded(r, Result(o, old(w.Room())), old(w.done), w.done, Encode(o))
  {
    hide Head, CheckOk, Patch;
    var ok := Check(o);
    if !ok { return -1; }
    ghost var d := w.done;
    var start := w.written;
    ok := PutHead(w, o);
    if !ok { return -2; }
    r := PutExtensions(w, o.ext);
    if r < 0 { return; }
    ok := w.Put(o.signature);
    if !ok { return -2; }
    Regrouped3(d, Head(o), EncodeFrom(Ext.Encode, o.ext, 0), o.signature);
    return w.written - start;
  }

  method PutExtensions(w: Writer, ext: seq<Ext.Extension>) returns (r: int)
    requires w.Valid()
    modifies w, w.out
    ensures w.Valid() && w.avail == old(w.avail)
    ensures Encoded(r, ManyResult(Ext.Result, ext, 0, old(w.Room())), old(w.done), w.done, EncodeFrom(Ext.Encode, ext, 0))
  {
    hide Ext.Result, Ext.Encode, Patch;
    ghost var d, room := w.done, w.Room();
    var start, idx := w.written, 0;
    while idx < |ext|
      invariant 0 <= idx <= |ext| && w.Valid() && w.avail == old(w.avail) && d <= w.done
      invariant w.done + EncodeFrom(Ext.Encode, ext, idx) == d + EncodeFrom(Ext.Encode, ext, 0)
      invariant ManyResult(Ext.Result, ext, 0, room)
             == (var q := ManyResult(Ext.Result, ext, idx, w.Room()); if q < 0 then q else q + w.written - start)
    {
      ghost var done := w.done;
      r := Ext.EncodeInto(w, ext[idx]);
      if r < 0 { return; }
      Regrouped(done, Ext.Encode(ext[idx]), EncodeFrom(Ext.Encode, ext, idx + 1));
      idx := idx + 1;
    }
    assert w.done + [] == w.done;
    return w.written - start;
  }

  /** ed25519_cert_parse */
  method ParseFrom(rd: Reader) returns (r: int, o: Cert)
    requires rd.Valid()
    modifies rd
    ensures rd.Valid() && Parses(Parse(old(rd.View()), old(rd.ptr)), old(rd.ptr), r, o)
    ensures r >= 0 ==> rd.Ahead(r)
  {
    hide Ext.Parse, Get32;
    ghost var b, at := rd.View(), rd.ptr;
    var lenIn := rd.remaining;
    o := Cert(1, 0, 0, 0, Zeros(32), 0, [], Zeros(64), false);
    r, o := ParseHead(rd, o);
    if r < 0 { return; }
    var ext;
    r, ext := ParseExtensions(rd, o.nExtensions);
    if r < 0 { return; }
    o := o.(ext := ext);
    var ok, sig := rd.Take(64);
    if !ok { return -2, o; }
    o := o.(signature := sig);
    return lenIn - rd.remaining, o;
  }

  method ParseHead(rd: Reader, o0: Cert) returns (r: int, o: Cert)
    requires rd.Valid() && o0.ext == [] && !o0.error
    modifies rd
    ensures rd.Valid() && o.ext == [] && !o.error
    ensures old(rd.remaining) < 1 ==> r == -2
    ensures old(rd.remaining) >= 1 && old(rd.View())[old(rd.ptr)] != 1 ==> r == -1
    ensures old(rd.remaining) >= 1 && old(rd.View())[old(rd.ptr)] == 1 ==> r == if old(rd.remaining) < HEAD then -2 else 0
    ensures r >= 0 ==> rd.Ahead(HEAD) && HeadAt(rd.View(), old(rd.ptr), o)
  {
    o := o0;
    var ok, version := rd.Take8();
    if !ok { return -2, o; }
    o := o.(version := version);
    if version != 1 { return -1, o; }
    var ty;
    ok, ty := rd.Take8();
    if !ok { return -2, o; }
    var exp;
    ok, exp := rd.Take32();
    if !ok { return -2, o; }
    var keyType;
    ok, keyType := rd.Take8();
    if !ok { return -2, o; }
    var key;
    ok, key := rd.Take(32);
    if !ok { return -2, o; }
    var n;
    ok, n := rd.Take8();
    if !ok { return -2, o; }
    return 0, o.(certType := ty, expField := exp, certKeyType := keyType, certifiedKey := key, nExtensions := n);
  }

  method ParseExtensions(rd: Reader, n: byte) returns (r: int, ext: seq<Ext.Extension>)
    requires rd.Valid()
    modifies rd
    ensures rd.Valid() && Parses(Many(Ext.Parse, old(rd.View()), old(rd.ptr), n, []), old(rd.ptr), r, ext)
    ensures r >= 0 ==> rd.Ahead(r)
  {
    hide Ext.Parse;
    ghost var b, at := rd.View(), rd.ptr;
    var lenIn, idx := rd.remaining, 0;
    ext := [];
    while idx < n
      invariant 0 <= idx <= n && rd.Valid() && rd.View() == b && at <= rd.ptr && rd.ptr + rd.remaining == at + lenIn
      invariant Many(Ext.Parse, b, rd.ptr, n - idx, ext) == Many(Ext.Parse, b, at, n, [])
    {
      var q, elt := Ext.ParseFrom(rd);
      if q < 0 { return q, ext; }
      ext := ext + [elt];
      idx := idx + 1;
    }
    return lenIn - rd.remaining, ext;
  }
}
