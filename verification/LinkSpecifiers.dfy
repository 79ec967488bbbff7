/**
 link_specifier: a type, a length, and a union with that length which the type selects.  The structure
 has room for every arm of the union; only the one of its type is encoded, and parsing fills only that
 one of a new structure.
 */
module LinkSpecifiers {
  import opened TrunnelBytes
  import opened TrunnelBuffers

  const LS_IPV4 := 0
  const LS_IPV6 := 1
  const LS_LEGACY_ID := 2
  const LS_ED25519_ID := 3

  datatype LinkSpecifier = LinkSpecifier(
    lsType: byte, lsLen: byte,
    ipv4Addr: u32, ipv4Port: u16, ipv6Addr: Bytes16, ipv6Port: u16,
    legacyId: Bytes20, ed25519Id: Bytes32, unrecognized: bytes,
    error: bool)

  /** A structure as calloc gives it. */
  const FRESH := LinkSpecifier(0, 0, 0, 0, Zeros(16), 0, Zeros(20), Zeros(32), [], false)

  /** The bytes of the union. */
  function Body(o: LinkSpecifier): bytes {
    if o.lsType == LS_IPV4 then Put32(o.ipv4Addr) + Put16(o.ipv4Port)
    else if o.lsType == LS_IPV6 then o.ipv6Addr + Put16(o.ipv6Port)
    else if o.lsType == LS_LEGACY_ID then o.legacyId
    else if o.lsType == LS_ED25519_ID then o.ed25519Id
    else o.unrecognized
  }

  /** The union parsed from exactly the bytes s; the type and the length are known. */
  function FromBody(ty: byte, s: bytes): Option<LinkSpecifier>
    requires |s| < 0x100
  {
    var o := FRESH.(lsType := ty, lsLen := |s|);
    if ty == LS_IPV4 then
      if |s| == 6 then Some(o.(ipv4Addr := Get32(s, 0), ipv4Port := Get16(s, 4))) else None
    else if ty == LS_IPV6 then
      if |s| == 18 then Some(o.(ipv6Addr := s[..16], ipv6Port := Get16(s, 16))) else None
    else if ty == LS_LEGACY_ID then
      if |s| == 20 then Some(o.(legacyId := s)) else None
    else if ty == LS_ED25519_ID then
      if |s| == 32 then Some(o.(ed25519Id := s)) else None
    else Some(o.(unrecognized := s))
  }

  function Parse(b: bytes, at: nat): Parsed<LinkSpecifier> {
    if |b| < at + 2 || |b| < at + 2 + b[at + 1] then Truncated
    else
      match FromBody(b[at], b[at + 2..at + 2 + b[at + 1]])
      case None => Invalid
      case Some(o) => Ok(o, at + 2 + b[at + 1])
  }

  /** The encoding; the length byte is the body's length whatever ls_len says. */
  function Encode(o: LinkSpecifier): bytes {
    [o.lsType, |Body(o)| % 0x100] + Body(o)
  }

  predicate Encodable(o: LinkSpecifier) {
    !o.error && |Body(o)| < 0x100
  }

  /** link_specifier_encoded_len */
  function EncodedLen(o: LinkSpecifier): int {
    if o.error then -1
    else
      2 + (if o.lsType == LS_IPV4 then 6 else if o.lsType == LS_IPV6 then 18
           else if o.lsType == LS_LEGACY_ID then 20 else if o.lsType == LS_ED25519_ID then 32
           else |o.unrecognized|)
  }

  /** What link_specifier_encode returns with that much room: the room is checked before the length. */
  function Result(o: LinkSpecifier, avail: int): int {
    if o.error then -1
    else if avail < 2 + |Body(o)| then -2
    else if |Body(o)| >= 0x100 then -1
    else 2 + |Body(o)|
  }

  /** The same structure with the right length, and only its type's arm filled. */
  function Normal(o: LinkSpecifier): LinkSpecifier {
    var n := FRESH.(lsType := o.lsType, lsLen := |Body(o)| % 0x100);
    if o.lsType == LS_IPV4 then n.(ipv4Addr := o.ipv4Addr, ipv4Port := o.ipv4Port)
    else if o.lsType == LS_IPV6 then n.(ipv6Addr := o.ipv6Addr, ipv6Port := o.ipv6Port)
    else if o.lsType == LS_LEGACY_ID then n.(legacyId := o.legacyId)
    else if o.lsType == LS_ED25519_ID then n.(ed25519Id := o.ed25519Id)
    else n.(unrecognized := o.unrecognized)
  }

  lemma BodyBack(o: LinkSpecifier)
    requires |Body(o)| < 0x100
    ensures FromBody(o.lsType, Body(o)) == Some(Normal(o))
  {
    var s := Body(o);
    if o.lsType == LS_IPV4 {
      assert s[0..4] == Put32(o.ipv4Addr) && s[4..6] == Put16(o.ipv4Port);
      At32(s, 0, o.ipv4Addr);
      At16(s, 4, o.ipv4Port);
    } else if o.lsType == LS_IPV6 {
      assert s[..16] == o.ipv6Addr && s[16..18] == Put16(o.ipv6Port);
      At16(s, 16, o.ipv6Port);
    }
  }

  lemma BodyForth(ty: byte, s: bytes)
    requires |s| < 0x100
    ensures var o := FromBody(ty, s);
            o.Some? ==> o.v.lsType == ty && Body(o.v) == s && !o.v.error
  {
    if ty == LS_IPV4 && |s| == 6 {
      At32(s, 0, Get32(s, 0));
      At16(s, 4, Get16(s, 4));
      assert s == s[0..4] + s[4..6];
    } else if ty == LS_IPV6 && |s| == 18 {
      At16(s, 16, Get16(s, 16));
      assert s == s[..16] + s[16..18];
    }
  }

  // ---------- the laws ----------

  lemma VerdictFinal(b: bytes, c: bytes)
    requires b <= c
    ensures FinalAll(Parse, b, c)
  {
    forall at: nat ensures Final(Parse(b, at), Parse(c, at)) {
      if at + 2 <= |b| && at + 2 + b[at + 1] <= |b| {
        assert c[at + 2..at + 2 + b[at + 1]] == b[at + 2..at + 2 + b[at + 1]];
      }
    }
  }

  lemma ReadsBack(b: bytes)
    ensures ReadsAll(Parse, Encode, Encodable, b)
  {
    forall at: nat ensures Reads(Parse(b, at), Encode, Encodable, b, at) {
      if at + 2 <= |b| && at + 2 + b[at + 1] <= |b| {
        var s := b[at + 2..at + 2 + b[at + 1]];
        BodyForth(b[at], s);
        assert b[at..at + 2 + b[at + 1]] == [b[at], b[at + 1]] + s;
      }
    }
  }

  lemma RoundTrip(b: bytes, o: LinkSpecifier)
    requires Encodable(o)
    ensures Returns(Parse, Encode, Normal, b, o)
  {
    var w := [o.lsType, |Body(o)|];
    assert Encode(o) == w + Body(o);
    BodyBack(o);
    forall at: nat | At(b, at, Encode(o)) ensures Parse(b, at) == Ok(Normal(o), at + |Encode(o)|) {
      AtCat(b, at, w, Body(o));
      assert b[at..at + 2][0] == w[0] && b[at..at + 2][1] == w[1];
    }
  }

  /** An encodable structure gets -2 exactly when there is too little room; its length is encoded_len. */
  lemma Fits(o: LinkSpecifier, avail: nat)
    requires Encodable(o)
    ensures FitsOrTruncated(Result(o, avail), |Encode(o)|, avail) && EncodedLen(o) == |Encode(o)|
  {
  }

  lemma NormalEncodes(o: LinkSpecifier)
    ensures Encode(Normal(o)) == Encode(o) && (Encodable(o) ==> Encodable(Normal(o))) && Normal(Normal(o)) == Normal(o)
  {
    assert Body(Normal(o)) == Body(o);
  }

  // ---------- the code ----------

  /** link_specifier_encode at the writer's position. */
  method EncodeInto(w: Writer, o: LinkSpecifier) returns (r: int)
    requires w.Valid()
    modifies w, w.out
    ensures w.Valid() && w.avail == old(w.avail)
    ensures Encoded(r, Result(o, old(w.Room())), old(w.done), w.done, Encode(o))
  {
    hide Body, Patch, Over;
    if o.error { return -1; }
    ghost var d := w.done;
    var start := w.written;
    var ok := w.Put([o.lsType]);
    if !ok { return -2; }
    ok := w.Put([o.lsLen]);
    if !ok { return -2; }
    var before := w.written;
    ok := PutBody(w, o);
    if !ok { return -2; }
    if w.written - before > 0xff { return -1; }
    w.PutBack(start + 1, [w.written - before]);
    PatchedBack(d, [o.lsType], [o.lsLen], Body(o), [w.written - before]);
    assert [o.lsType] + [w.written - before] == [o.lsType, |Body(o)| % 0x100];
    return w.written - start;
  }

  /** The switch of the encoder. */
  method PutBody(w: Writer, o: LinkSpecifier) returns (ok: bool)
    requires w.Valid()
    modifies w, w.out
    ensures w.Valid() && w.avail == old(w.avail) && ok == (|Body(o)| <= old(w.Room()))
    ensures old(w.done) <= w.done && (ok ==> w.done == old(w.done) + Body(o))
  {
    hide Patch;
    if o.lsType == LS_IPV4 {
      ok := w.Put(Put32(o.ipv4Addr));
      if !ok { return; }
      ok := w.Put(Put16(o.ipv4Port));
    } else if o.lsType == LS_IPV6 {
      ok := w.Put(o.ipv6Addr);
      if !ok { return; }
      ok := w.Put(Put16(o.ipv6Port));
    } else if o.lsType == LS_LEGACY_ID {
      ok := w.Put(o.legacyId);
    } else if o.lsType == LS_ED25519_ID {
      ok := w.Put(o.ed25519Id);
    } else {
      ok := w.Put(o.unrecognized);
    }
  }

  /** link_specifier_parse at the reader's position. */
  method ParseFrom(rd: Reader) returns (r: int, o: LinkSpecifier)
    requires rd.Valid()
    modifies rd
    ensures rd.Valid() && Parses(Parse(old(rd.View()), old(rd.ptr)), old(rd.ptr), r, o)
    ensures r >= 0 ==> rd.Ahead(r)
  {
    hide FromBody;
    ghost var b, at := rd.View(), rd.ptr;
    var lenIn := rd.remaining;
    o := FRESH;
    var ok, ty := rd.Take8();
    if !ok { return -2, o; }
    var len;
    ok, len := rd.Take8();
    if !ok { return -2, o; }
    o := o.(lsType := ty, lsLen := len);
    var after;
    ok, after := rd.Enter(len);
    if !ok { return -2, o; }
    ghost var s := b[at + 2..at + 2 + len];
    assert rd.View()[at + 2..] == s;
    ok, o := ParseArm(rd, o, s);
    if !ok { return -1, o; }
    if rd.remaining != 0 { return -1, o; }
    rd.Leave(after);
    assert rd.View() == b;
    return lenIn - rd.remaining, o;
  }

  /** The switch of the parser; it may leave bytes of the union over. */
  method ParseArm(rd: Reader, o0: LinkSpecifier, ghost s: bytes) returns (ok: bool, o: LinkSpecifier)
    requires rd.Valid() && rd.View()[rd.ptr..] == s && |s| < 0x100 && o0 == FRESH.(lsType := o0.lsType, lsLen := |s|)
    modifies rd
    ensures rd.Valid() && rd.ptr + rd.remaining == old(rd.ptr + rd.remaining)
    ensures (ok && rd.remaining == 0) == FromBody(o0.lsType, s).Some?
    ensures ok && rd.remaining == 0 ==> o == FromBody(o0.lsType, s).v
  {
    o := o0;
    if o.lsType == LS_IPV4 {
      var addr, port;
      ok, addr := rd.Take32();
      if !ok { return; }
      ok, port := rd.Take16();
      o := o.(ipv4Addr := addr, ipv4Port := port);
    } else if o.lsType == LS_IPV6 {
      var addr, port;
      ok, addr := rd.Take(16);
      if !ok { return; }
      ok, port := rd.Take16();
      o := o.(ipv6Addr := addr, ipv6Port := port);
    } else if o.lsType == LS_LEGACY_ID {
      var id;
      ok, id := rd.Take(20);
      if !ok { return; }
      o := o.(legacyId := id);
    } else if o.lsType == LS_ED25519_ID {
      var id;
      ok, id := rd.Take(32);
      if !ok { return; }
      o := o.(ed25519Id := id);
    } else {
      var rest;
      ok, rest := rd.Take(rd.remaining);
      o := o.(unrecognized := rest);
    }
  }
}
