/**
 ed25519_cert_extension: a length, a type, flags, and a union with that length which the type selects.
 */
module CertExtensions {
  import opened TrunnelBytes
  import opened TrunnelBuffers

  const CERTEXT_SIGNED_WITH_KEY := 4

  datatype Extension = Extension(
    extLength: u16, extType: byte, extFlags: byte,
    signingKey: Bytes32, unparsed: bytes,
    error: bool)

  const FRESH := Extension(0, 0, 0, Zeros(32), [], false)

  function Body(o: Extension): bytes {
    if o.extType == CERTEXT_SIGNED_WITH_KEY then o.signingKey else o.unparsed
  }

  /** The union parsed from exactly the bytes s, after the fields before it. */
  function FromBody(ty: byte, flags: byte, s: bytes): Option<Extension>
    requires |s| < 0x1_0000
  {
    var o := FRESH.(extLength := |s|, extType := ty, extFlags := flags);
    if ty == CERTEXT_SIGNED_WITH_KEY then
      if |s| == 32 then Some(o.(signingKey := s)) else None
    else Some(o.(unparsed := s))
  }

  function Parse(b: bytes, at: nat): Parsed<Extension> {
    if |b| < at + 4 || |b| < at + 4 + Get16(b, at) then Truncated
    else
      var end := at + 4 + Get16(b, at);
      match FromBody(b[at + 2], b[at + 3], b[at + 4..end])
      case None => Invalid
      case Some(o) => Ok(o, end)
  }

  function Encode(o: Extension): bytes {
    Put16(|Body(o)| % 0x1_0000) + [o.extType, o.extFlags] + Body(o)
  }

  predicate Encodable(o: Extension) {
    !o.error && |Body(o)| < 0x1_0000
  }

  function EncodedLen(o: Extension): int {
    if o.error then -1
    else 4 + if o.extType == CERTEXT_SIGNED_WITH_KEY then 32 else |o.unparsed|
  }

  function Result(o: Extension, avail: int): int {
    if o.error then -1
    else if avail < 4 + |Body(o)| then -2
    else if |Body(o)| >= 0x1_0000 then -1
    else 4 + |Body(o)|
  }

  function Normal(o: Extension): Extension {
    var n := FRESH.(extLength := |Body(o)| % 0x1_0000, extType := o.extType, extFlags := o.extFlags);
    if o.extType == CERTEXT_SIGNED_WITH_KEY then n.(signingKey := o.signingKey) else n.(unparsed := o.unparsed)
  }

  lemma EncodingAt(b: bytes, at: nat, o: Extension)
    requires |Body(o)| < 0x1_0000
    ensures At(b, at, Encode(o))
       <==> && at + 4 + |Body(o)| <= |b| && Get16(b, at) == |Body(o)| && b[at + 2] == o.extType && b[at + 3] == o.extFlags
            && b[at + 4..at + 4 + |Body(o)|] == Body(o)
  {
    hide Body, Get16, Put16;
    var n, h := Put16(|Body(o)|), [o.extType, o.extFlags];
    AtCat(b, at, n + h, Body(o));
    AtCat(b, at, n, h);
    At16(b, at, |Body(o)|);
    if at + 4 <= |b| { assert b[at + 2..at + 4] == [b[at + 2], b[at + 3]]; }
  }

  // ---------- the laws ----------

  lemma VerdictFinal(b: bytes, c: bytes)
    requires b <= c
    ensures FinalAll(Parse, b, c)
  {
    forall at: nat ensures Final(Parse(b, at), Parse(c, at)) {
      if at + 4 <= |b| {
        Longer(b, c, at, 2);
        if at + 4 + Get16(b, at) <= |b| { Longer(b, c, at + 4, Get16(b, at)); }
      }
    }
  }

  lemma ReadsBack(b: bytes)
    ensures ReadsAll(Parse, Encode, Encodable, b)
  {
    forall at: nat ensures Reads(Parse(b, at), Encode, Encodable, b, at) {
      var r := Parse(b, at);
      if r.Ok? { EncodingAt(b, at, r.v); }
    }
  }

  lemma RoundTrip(b: bytes, o: Extension)
    requires Encodable(o)
    ensures Returns(Parse, Encode, Normal, b, o)
  {
    hide At, Body, FromBody, Normal;
    BodyBack(o);
    forall at: nat | At(b, at, Encode(o)) ensures Parse(b, at) == Ok(Normal(o), at + |Encode(o)|) {
      EncodingAt(b, at, o);
    }
  }

  lemma BodyBack(o: Extension)
    requires |Body(o)| < 0x1_0000
    ensures FromBody(o.extType, o.extFlags, Body(o)) == Some(Normal(o))
  {
  }

  lemma Fits(o: Extension, avail: nat)
    requires Encodable(o)
    ensures FitsOrTruncated(Result(o, avail), |Encode(o)|, avail) && EncodedLen(o) == |Encode(o)|
  {
  }

  // ---------- the code ----------

  /** ed25519_cert_extension_encode */
  method EncodeInto(w: Writer, o: Extension) returns (r: int)
    requires w.Valid()
    modifies w, w.out
    ensures w.Valid() && w.avail == old(w.avail)
    ensures Encoded(r, Result(o, old(w.Room())), old(w.done), w.done, Encode(o))
  {
    hide Body, Patch;
    if o.error { return -1; }
    ghost var d := w.done;
    var start := w.written;
    var ok := PutFields(w, o);
    if !ok { return -2; }
    var before := w.written;
    ok := PutBody(w, o);
    if !ok { return -2; }
    if w.written - before > 0xffff { return -1; }
    w.PutBack(start, Put16(w.written - before));
    assert w.done == d + Encode(o);
    return w.written - start;
  }

  method PutFields(w: Writer, o: Extension) returns (ok: bool)
    requires w.Valid()
    modifies w, w.out
    ensures w.Valid() && w.avail == old(w.avail) && ok == (4 <= old(w.Room()))
    ensures old(w.done) <= w.done
    ensures ok ==> w.done == old(w.done) + (Put16(o.extLength) + [o.extType, o.extFlags])
  {
    hide Put16, Patch;
    ok := w.Put(Put16(o.extLength));
    if !ok { return; }
    ok := w.Put([o.extType]);
    if !ok { return; }
    ok := w.Put([o.extFlags]);
  }

  method PutBody(w: Writer, o: Extension) returns (ok: bool)
    requires w.Valid()
    modifies w, w.out
    ensures w.Valid() && w.avail == old(w.avail) && ok == (|Body(o)| <= old(w.Room()))
    ensures old(w.done) <= w.done && (ok ==> w.done == old(w.done) + Body(o))
  {
    hide Patch;
    if o.extType == CERTEXT_SIGNED_WITH_KEY {
      ok := w.Put(o.signingKey);
    } else {
      ok := w.Put(o.unparsed);
    }
  }

  /** ed25519_cert_extension_parse */
  method ParseFrom(rd: Reader) returns (r: int, o: Extension)
    requires rd.Valid()
    modifies rd
    ensures rd.Valid() && Parses(Parse(old(rd.View()), old(rd.ptr)), old(rd.ptr), r, o)
    ensures r >= 0 ==> rd.Ahead(r)
  {
    hide FromBody;
    ghost var b, at := rd.View(), rd.ptr;
    var lenIn := rd.remaining;
    o := FRESH;
    var ok, len := rd.Take16();
    if !ok { return -2, o; }
    var ty;
    ok, ty := rd.Take8();
    if !ok { return -2, o; }
    var flags;
    ok, flags := rd.Take8();
    if !ok { return -2, o; }
    o := o.(extLength := len, extType := ty, extFlags := flags);
    var after;
    ok, after := rd.Enter(len);
    if !ok { return -2, o; }
    ghost var s := b[at + 4..at + 4 + len];
    assert rd.View()[at + 4..] == s;
    ok, o := ParseArm(rd, o, s);
    if !ok { return -1, o; }
    if rd.remaining != 0 { return -1, o; }
    rd.Leave(after);
    assert rd.View() == b;
    return lenIn - rd.remaining, o;
  }

  method ParseArm(rd: Reader, o0: Extension, ghost s: bytes) returns (ok: bool, o: Extension)
    requires rd.Valid() && rd.View()[rd.ptr..] == s && |s| < 0x1_0000
    requires o0 == FRESH.(extLength := |s|, extType := o0.extType, extFlags := o0.extFlags)
    modifies rd
    ensures rd.Valid() && rd.ptr + rd.remaining == old(rd.ptr + rd.remaining)
    ensures (ok && rd.remaining == 0) == FromBody(o0.extType, o0.extFlags, s).Some?
    ensures ok && rd.remaining == 0 ==> o == FromBody(o0.extType, o0.extFlags, s).v
  {
    o := o0;
    if o.extType == CERTEXT_SIGNED_WITH_KEY {
      var key;
      ok, key := rd.Take(32);
      if !ok { return; }
      o := o.(signingKey := key);
    } else {
      var rest;
      ok, rest := rd.Take(rd.remaining);
      o := o.(unparsed := rest);
    }
  }
}
