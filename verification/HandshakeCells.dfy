/**
 Two more structures of the link handshake: the RSA cross-certificate, with a mark behind its signed part,
 and the AUTH_CHALLENGE cell, with a counted list of two-byte numbers.
 */
module HandshakeCells {
  import opened TrunnelBytes
  import opened TrunnelBuffers

  // ---------- rsa_ed_crosscert ----------

  /** end_of_signed is None in an object that was not parsed. */
  datatype Crosscert = Crosscert(edKey: Bytes32, expiration: u32, sigLen: byte, sig: bytes,
                                 endOfSigned: Option<nat>, error: bool)

  function ParseCrosscert(b: bytes, at: nat): Parsed<Crosscert> {
    if |b| < at + 37 || |b| < at + 37 + b[at + 36] then Truncated
    else
      var n := b[at + 36];
      Ok(Crosscert(b[at..at + 32], Get32(b, at + 32), n, b[at + 37..at + 37 + n], Some(at + 36), false), at + 37 + n)
  }

  /** The part that is signed. */
  function SignedPart(o: Crosscert): (r: bytes)
    ensures |r| == 36
  {
    o.edKey + Put32(o.expiration)
  }

  function EncodeCrosscert(o: Crosscert): bytes { SignedPart(o) + [o.sigLen] + o.sig }

  predicate CrosscertOk(o: Crosscert) { !o.error && |o.sig| == o.sigLen }

  /** rsa_ed_crosscert_encoded_len */
  function CrosscertLen(o: Crosscert): int {
    if !CrosscertOk(o) then -1 else 32 + 4 + 1 + |o.sig|
  }

  function CrosscertResult(o: Crosscert, avail: int): int {
    if !CrosscertOk(o) then -1
    else if avail < 37 + |o.sig| then -2
    else 37 + |o.sig|
  }

  lemma CrosscertAt(b: bytes, at: nat, o: Crosscert)
    ensures At(b, at, EncodeCrosscert(o))
       <==> && at + 37 + |o.sig| <= |b| && b[at..at + 32] == o.edKey && Get32(b, at + 32) == o.expiration
            && b[at + 36] == o.sigLen && b[at + 37..at + 37 + |o.sig|] == o.sig
  {
    AtCat(b, at, SignedPart(o) + [o.sigLen], o.sig);
    AtCat(b, at, SignedPart(o), [o.sigLen]);
    AtCat(b, at, o.edKey, Put32(o.expiration));
    At32(b, at + 32, o.expiration);
    AtByte(b, at + 36, o.sigLen);
  }

  lemma CrosscertFinal(b: bytes, c: bytes, at: nat)
    requires b <= c
    ensures Final(ParseCrosscert(b, at), ParseCrosscert(c, at))
  {
    if at + 37 <= |b| {
      Longer(b, c, at, 32);
      Longer(b, c, at + 32, 4);
      Longer(b, c, at + 36, 1);
      if at + 37 + b[at + 36] <= |b| { Longer(b, c, at + 37, b[at + 36]); }
    }
  }

  /** The bytes consumed are the encoding, and the mark is where the signed part of it ends. */
  lemma CrosscertReads(b: bytes, at: nat)
    ensures Reads(ParseCrosscert(b, at), EncodeCrosscert, CrosscertOk, b, at)
    ensures var r := ParseCrosscert(b, at);
            r.Ok? ==> r.v.endOfSigned == Some(at + |SignedPart(r.v)|) && At(b, at, SignedPart(r.v))
  {
    var r := ParseCrosscert(b, at);
    if r.Ok? {
      CrosscertAt(b, at, r.v);
      AtCat(b, at, SignedPart(r.v) + [r.v.sigLen], r.v.sig);
      AtCat(b, at, SignedPart(r.v), [r.v.sigLen]);
    }
  }

  lemma CrosscertRoundTrip(o: Crosscert, rest: bytes)
    requires CrosscertOk(o)
    ensures ParseCrosscert(EncodeCrosscert(o) + rest, 0) == Ok(o.(endOfSigned := Some(36)), |EncodeCrosscert(o)|)
  {
    var b := EncodeCrosscert(o) + rest;
    assert b[0..|EncodeCrosscert(o)|] == EncodeCrosscert(o);
    CrosscertAt(b, 0, o);
  }

  lemma CrosscertFits(o: Crosscert, avail: nat)
    requires CrosscertOk(o)
    ensures FitsOrTruncated(CrosscertResult(o, avail), |EncodeCrosscert(o)|, avail)
    ensures CrosscertLen(o) == |EncodeCrosscert(o)|
  {
  }

  /** rsa_ed_crosscert_encode */
  method EncodeCrosscertInto(w: Writer, o: Crosscert) returns (r: int)
    requires w.Valid()
    modifies w, w.out
    ensures w.Valid() && w.avail == old(w.avail)
    ensures Encoded(r, CrosscertResult(o, old(w.Room())), old(w.done), w.done, EncodeCrosscert(o))
  {
    hide Put32, Patch;
    if o.error || |o.sig| != o.sigLen { return -1; }
    ghost var d := w.done;
    var start := w.written;
    var ok := w.Put(o.edKey);
    if !ok { return -2; }
    ok := w.Put(Put32(o.expiration));
    if !ok { return -2; }
    Regrouped(d, o.edKey, Put32(o.expiration));
    ok := w.Put([o.sigLen]);
    if !ok { return -2; }
    ok := w.Put(o.sig);
    if !ok { return -2; }
    Regrouped3(d, SignedPart(o), [o.sigLen], o.sig);
    return w.written - start;
  }

  /** rsa_ed_crosscert_parse */
  method ParseCrosscertFrom(rd: Reader) returns (r: int, o: Crosscert)
    requires rd.Valid()
    modifies rd
    ensures rd.Valid() && Parses(ParseCrosscert(old(rd.View()), old(rd.ptr)), old(rd.ptr), r, o)
    ensures r >= 0 ==> rd.Ahead(r)
  {
    hide Get32;
    var lenIn := rd.remaining;
    o := Crosscert(Zeros(32), 0, 0, [], None, false);
    var ok, key := rd.Take(32);
    if !ok { return -2, o; }
    var exp;
    ok, exp := rd.Take32();
    if !ok { return -2, o; }
    o := o.(edKey := key, expiration := exp, endOfSigned := Some(rd.ptr));
    var len;
    ok, len := rd.Take8();
    if !ok { return -2, o; }
    var sig;
    ok, sig := rd.Take(len);
    if !ok { return -2, o; }
    return lenIn - rd.remaining, o.(sigLen := len, sig := sig);
  }

  // ---------- auth_challenge_cell ----------

  datatype Challenge = Challenge(challenge: Bytes32, nMethods: u16, methods: seq<u16>, error: bool)

  function ParseMethod(b: bytes, at: nat): Parsed<u16> {
    if |b| < at + 2 then Truncated else Ok(Get16(b, at), at + 2)
  }

  predicate AnyMethod(x: u16) { true }

  function ParseChallenge(b: bytes, at: nat): Parsed<Challenge> {
    if |b| < at + 34 then Truncated
    else
      match Many(ParseMethod, b, at + 34, Get16(b, at + 32), [])
      case Truncated => Truncated
      case Invalid => Invalid
      case Ok(ms, end) => Ok(Challenge(b[at..at + 32], Get16(b, at + 32), ms, false), end)
  }

  function EncodeChallenge(o: Challenge): bytes {
    o.challenge + Put16(o.nMethods) + EncodeFrom(Put16, o.methods, 0)
  }

  predicate ChallengeOk(o: Challenge) { !o.error && |o.methods| == o.nMethods }

  /** auth_challenge_cell_encoded_len */
  function ChallengeLen(o: Challenge): int {
    if !ChallengeOk(o) then -1 else 32 + 2 + 2 * |o.methods|
  }

  lemma ChallengeLenIs(o: Challenge)
    requires ChallengeOk(o)
    ensures ChallengeLen(o) == |EncodeChallenge(o)|
  {
    MethodsLength(o.methods, 0);
  }

  lemma {:induction false} MethodsLength(ms: seq<u16>, i: nat)
    requires i <= |ms|
    ensures |EncodeFrom(Put16, ms, i)| == 2 * (|ms| - i)
    decreases |ms| - i
  {
    if i != |ms| { MethodsLength(ms, i + 1); }
  }

  /** The verdict depends on the length and the count only: the list never makes it -1. */
  lemma {:induction false} MethodsVerdict(b: bytes, at: nat, n: nat, done: seq<u16>)
    ensures Many(ParseMethod, b, at, n, done) == Truncated <==> n > 0 && |b| < at + 2 * n
    ensures Many(ParseMethod, b, at, n, done) != Invalid
    decreases n
  {
    if n != 0 && at + 2 <= |b| { MethodsVerdict(b, at + 2, n - 1, done + [Get16(b, at)]); }
  }

  lemma ChallengeFinal(b: bytes, c: bytes, at: nat)
    requires b <= c
    ensures Final(ParseChallenge(b, at), ParseChallenge(c, at))
  {
    if at + 34 <= |b| {
      Longer(b, c, at, 32);
      Longer(b, c, at + 32, 2);
      forall k: nat ensures Final(ParseMethod(b, k), ParseMethod(c, k)) {
        if k + 2 <= |b| { Longer(b, c, k, 2); }
      }
      ManyFinal(ParseMethod, b, c, at + 34, Get16(b, at + 32), []);
    }
  }

  lemma ChallengeReads(b: bytes, at: nat)
    ensures Reads(ParseChallenge(b, at), EncodeChallenge, ChallengeOk, b, at)
  {
    var r := ParseChallenge(b, at);
    if r.Ok? {
      forall k: nat ensures Reads(ParseMethod(b, k), Put16, AnyMethod, b, k) {
        if k + 2 <= |b| { At16(b, k, Get16(b, k)); }
      }
      ManyReads(ParseMethod, Put16, AnyMethod, b, at + 34, Get16(b, at + 32), []);
      At16(b, at + 32, r.v.nMethods);
      AtCat(b, at, r.v.challenge, Put16(r.v.nMethods));
      AtCat(b, at, r.v.challenge + Put16(r.v.nMethods), EncodeFrom(Put16, r.v.methods, 0));
    }
  }

  lemma ChallengeRoundTrip(o: Challenge, rest: bytes)
    requires ChallengeOk(o)
    ensures ParseChallenge(EncodeChallenge(o) + rest, 0) == Ok(o, |EncodeChallenge(o)|)
  {
    var b, ms := EncodeChallenge(o) + rest, EncodeFrom(Put16, o.methods, 0);
    assert b[0..|EncodeChallenge(o)|] == EncodeChallenge(o);
    AtCat(b, 0, o.challenge + Put16(o.nMethods), ms);
    AtCat(b, 0, o.challenge, Put16(o.nMethods));
    At16(b, 32, o.nMethods);
    forall k | 0 <= k < |o.methods| ensures Returns(ParseMethod, Put16, (x: u16) => x, b, o.methods[k]) {
      MethodReturns(b, o.methods[k]);
    }
    assert Normals((x: u16) => x, o.methods)[..0] == [];
    ManyReturns(ParseMethod, Put16, (x: u16) => x, b, 34, o.methods, 0);
    assert Normals((x: u16) => x, o.methods) == o.methods;
  }

  lemma MethodReturns(b: bytes, x: u16)
    ensures Returns(ParseMethod, Put16, (x: u16) => x, b, x)
  {
    hide At;
    forall at: nat | At(b, at, Put16(x)) ensures ParseMethod(b, at) == Ok(x, at + |Put16(x)|) {
      At16(b, at, x);
    }
  }

  /** auth_challenge_cell_encode: the loop checks the room for each method. */
  method EncodeChallengeInto(w: Writer, o: Challenge) returns (r: int)
    requires w.Valid()
    modifies w, w.out
    ensures w.Valid() && w.avail == old(w.avail) && old(w.done) <= w.done
    ensures r == if !ChallengeOk(o) then -1 else if old(w.Room()) < |EncodeChallenge(o)| then -2 else |EncodeChallenge(o)|
    ensures r >= 0 ==> w.done == old(w.done) + EncodeChallenge(o)
  {
    hide Put16, Patch;
    if o.error || |o.methods| != o.nMethods { return -1; }
    ghost var d := w.done;
    var start := w.written;
    MethodsLength(o.methods, 0);
    var ok := w.Put(o.challenge);
    if !ok { return -2; }
    ok := w.Put(Put16(o.nMethods));
    if !ok { return -2; }
    Regrouped(d, o.challenge, Put16(o.nMethods));
    ok := PutMethods(w, o.methods);
    if !ok { return -2; }
    Regrouped(d, o.challenge + Put16(o.nMethods), EncodeFrom(Put16, o.methods, 0));
    return w.written - start;
  }

  method PutMethods(w: Writer, ms: seq<u16>) returns (ok: bool)
    requires w.Valid()
    modifies w, w.out
    ensures w.Valid() && w.avail == old(w.avail) && ok == (2 * |ms| <= old(w.Room()))
    ensures old(w.done) <= w.done && (ok ==> w.done == old(w.done) + EncodeFrom(Put16, ms, 0))
  {
    hide Put16, Patch;
    ghost var d := w.done;
    var idx := 0;
    while idx < |ms|
      invariant 0 <= idx <= |ms| && w.Valid() && w.avail == old(w.avail) && d <= w.done
      invariant w.done + EncodeFrom(Put16, ms, idx) == d + EncodeFrom(Put16, ms, 0)
      invariant w.Room() == old(w.Room()) - 2 * idx && 0 <= w.Room()
    {
      ghost var done := w.done;
      ok := w.Put(Put16(ms[idx]));
      if !ok { return; }
      Regrouped(done, Put16(ms[idx]), EncodeFrom(Put16, ms, idx + 1));
      idx := idx + 1;
    }
    assert w.done + [] == w.done;
    return true;
  }

  /** auth_challenge_cell_parse */
  method ParseChallengeFrom(rd: Reader) returns (r: int, o: Challenge)
    requires rd.Valid()
    modifies rd
    ensures rd.Valid() && Parses(ParseChallenge(old(rd.View()), old(rd.ptr)), old(rd.ptr), r, o)
    ensures r >= 0 ==> rd.Ahead(r)
  {
    hide Get16;
    ghost var b, at := rd.View(), rd.ptr;
    var lenIn := rd.remaining;
    o := Challenge(Zeros(32), 0, [], false);
    var ok, challenge := rd.Take(32);
    if !ok { return -2, o; }
    var n;
    ok, n := rd.Take16();
    if !ok { return -2, o; }
    o := o.(challenge := challenge, nMethods := n);
    var idx := 0;
    while idx < n
      invariant 0 <= idx <= n && rd.Valid() && rd.View() == b && at <= rd.ptr && rd.ptr + rd.remaining == at + lenIn
      invariant o.(methods := []) == Challenge(challenge, n, [], false)
      invariant Many(ParseMethod, b, rd.ptr, n - idx, o.methods) == Many(ParseMethod, b, at + 34, n, [])
    {
      var elt;
      ok, elt := rd.Take16();
      if !ok { return -2, o; }
      o := o.(methods := o.methods + [elt]);
      idx := idx + 1;
    }
    return lenIn - rd.remaining, o;
  }
}
