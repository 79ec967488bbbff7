/**
 The AUTHENTICATE cell's auth1 structure.  A union that the context selects, not a field of the
 structure; two marks that the parser sets to positions in its input; and a signature that takes all
 the bytes left.
 */
module Auth1Cells {
  import opened TrunnelBytes
  import opened TrunnelBuffers

  /** end_of_fixed_part and end_of_signed are None in an object that was not parsed. */
  datatype Auth1 = Auth1(
    ty: Bytes8, cid: Bytes32, sid: Bytes32, cidEd: Bytes32, sidEd: Bytes32,
    slog: Bytes32, clog: Bytes32, scert: Bytes32, tlssecrets: Bytes32, rand: Bytes24, sig: bytes,
    endOfFixedPart: Option<nat>, endOfSigned: Option<nat>, error: bool)

  const FRESH := Auth1(Zeros(8), Zeros(32), Zeros(32), Zeros(32), Zeros(32), Zeros(32), Zeros(32),
                       Zeros(32), Zeros(32), Zeros(24), [], None, None, false)

  /** The context: is_ed, or the null pointer. */
  type Context = Option<byte>

  function EdLen(isEd: byte): nat { if isEd == 1 then 64 else 0 }

  function Ids(o: Auth1): (r: bytes)
    ensures |r| == 72
  {
    o.ty + o.cid + o.sid
  }
  function EdIds(o: Auth1, isEd: byte): (r: bytes)
    ensures |r| == EdLen(isEd)
  {
    if isEd == 1 then o.cidEd + o.sidEd else []
  }
  function Logs(o: Auth1): (r: bytes)
    ensures |r| == 128
  {
    o.slog + o.clog + o.scert + o.tlssecrets
  }

  /** What the signature signs. */
  function Signed(o: Auth1, isEd: byte): (r: bytes)
    ensures |r| == 72 + EdLen(isEd) + 128 + 24
  {
    Ids(o) + EdIds(o, isEd) + Logs(o) + o.rand
  }

  function Encode(o: Auth1, isEd: byte): bytes { Signed(o, isEd) + o.sig }

  /** auth1_check finds no fault. */
  predicate CheckOk(o: Auth1, ctx: Context) {
    !o.error && ctx.Some? && ctx.v <= 1
  }

  /** auth1_encoded_len */
  function EncodedLen(o: Auth1, ctx: Context): int {
    if !CheckOk(o, ctx) then -1
    else 8 + 32 + 32 + (if ctx.v == 1 then 32 + 32 else 0) + 32 + 32 + 32 + 32 + 24 + |o.sig|
  }

  function Result(o: Auth1, ctx: Context, avail: int): int {
    if !CheckOk(o, ctx) then -1
    else if avail < |Encode(o, ctx.v)| then -2
    else |Encode(o, ctx.v)|
  }

  /** The fields of the object are those found in b; the marks are where the parser puts them. */
  predicate FieldsAt(b: bytes, at: nat, o: Auth1, isEd: byte) {
    var e := at + 72 + EdLen(isEd);
    && e + 152 <= |b|
    && b[at..at + 8] == o.ty && b[at + 8..at + 40] == o.cid && b[at + 40..at + 72] == o.sid
    && (isEd == 1 ==> b[at + 72..at + 104] == o.cidEd && b[at + 104..at + 136] == o.sidEd)
    && b[e..e + 32] == o.slog && b[e + 32..e + 64] == o.clog && b[e + 64..e + 96] == o.scert
    && b[e + 96..e + 128] == o.tlssecrets && b[e + 128..e + 152] == o.rand
  }

  function Parse(b: bytes, at: nat, ctx: Context): Parsed<Auth1> {
    if ctx.None? then Invalid
    else if |b| < at + 72 then Truncated
    else if ctx.v > 1 then Invalid
    else
      var e := at + 72 + EdLen(ctx.v);
      if |b| < e + 152 then Truncated
      else
        Ok(Auth1(b[at..at + 8], b[at + 8..at + 40], b[at + 40..at + 72],
                 if ctx.v == 1 then b[at + 72..at + 104] else Zeros(32),
                 if ctx.v == 1 then b[at + 104..at + 136] else Zeros(32),
                 b[e..e + 32], b[e + 32..e + 64], b[e + 64..e + 96], b[e + 96..e + 128], b[e + 128..e + 152],
                 b[e + 152..], Some(e + 128), Some(e + 152), false), |b|)
  }

  /** What an object comes back as: without the arm that the context does not select, with both marks. */
  function Normal(o: Auth1, isEd: byte, at: nat): Auth1 {
    var e := at + 72 + EdLen(isEd);
    o.(cidEd := if isEd == 1 then o.cidEd else Zeros(32), sidEd := if isEd == 1 then o.sidEd else Zeros(32),
       endOfFixedPart := Some(e + 128), endOfSigned := Some(e + 152))
  }

  lemma SignedAt(b: bytes, at: nat, o: Auth1, isEd: byte)
    ensures At(b, at, Signed(o, isEd)) <==> FieldsAt(b, at, o, isEd)
  {
    var e := at + 72 + EdLen(isEd);
    AtCat(b, at, Ids(o) + EdIds(o, isEd) + Logs(o), o.rand);
    AtCat(b, at, Ids(o) + EdIds(o, isEd), Logs(o));
    AtCat(b, at, Ids(o), EdIds(o, isEd));
    IdsAt(b, at, o);
    if isEd == 1 { AtCat(b, at + 72, o.cidEd, o.sidEd); }
    LogsAt(b, e, o);
  }

  lemma IdsAt(b: bytes, at: nat, o: Auth1)
    ensures At(b, at, Ids(o)) <==> At(b, at, o.ty) && At(b, at + 8, o.cid) && At(b, at + 40, o.sid)
  {
    AtCat(b, at, o.ty + o.cid, o.sid);
    AtCat(b, at, o.ty, o.cid);
  }

  lemma LogsAt(b: bytes, e: nat, o: Auth1)
    ensures At(b, e, Logs(o))
       <==> At(b, e, o.slog) && At(b, e + 32, o.clog) && At(b, e + 64, o.scert) && At(b, e + 96, o.tlssecrets)
  {
    AtCat(b, e, o.slog + o.clog + o.scert, o.tlssecrets);
    AtCat(b, e, o.slog + o.clog, o.scert);
    AtCat(b, e, o.slog, o.clog);
  }

  // ---------- the laws ----------

  /** The verdicts, by length and context only.  Without a context nothing is even read. */
  lemma Verdicts(b: bytes, at: nat, ctx: Context)
    ensures var need := at + 72 + (if ctx.Some? then EdLen(ctx.v) else 0) + 152;
            && (Parse(b, at, ctx).Ok? <==> ctx.Some? && ctx.v <= 1 && need <= |b|)
            && (Parse(b, at, ctx) == Truncated <==> ctx.Some? && (|b| < at + 72 || (ctx.v <= 1 && |b| < need)))
  {
  }

  /** Bytes that follow an accepted input only become part of the signature; -1 stays -1. */
  lemma MoreBytes(b: bytes, rest: bytes, at: nat, ctx: Context)
    ensures Parse(b, at, ctx) == Invalid ==> Parse(b + rest, at, ctx) == Invalid
    ensures Parse(b, at, ctx).Ok? ==>
              var o := Parse(b, at, ctx).v; Parse(b + rest, at, ctx) == Ok(o.(sig := o.sig + rest), |b + rest|)
  {
    if Parse(b, at, ctx).Ok? {
      var e, c := at + 72 + EdLen(ctx.v), b + rest;
      SlicesKept(b, c, at, 72);
      SlicesKept(b, c, at + 72, EdLen(ctx.v));
      SlicesKept(b, c, e, 152);
      assert c[e + 152..] == b[e + 152..] + rest;
    }
  }

  /** All slices of [at, at + n) are the same in a longer input. */
  lemma SlicesKept(b: bytes, c: bytes, at: nat, n: nat)
    requires b <= c && at + n <= |b|
    ensures forall i: nat, j: nat {:trigger c[i..j]} :: at <= i <= j <= at + n ==> c[i..j] == b[i..j]
  {
    assert forall i :: 0 <= i < |b| ==> c[i] == b[i];
  }

  /** What was read is encoded to the same bytes, and the marks are where the signed part ends. */
  lemma ReadsBack(b: bytes, at: nat, ctx: Context)
    requires Parse(b, at, ctx).Ok?
    ensures var r := Parse(b, at, ctx);
            && CheckOk(r.v, ctx) && r.end == |b| && b[at..] == Encode(r.v, ctx.v)
            && r.v.endOfSigned == Some(at + |Signed(r.v, ctx.v)|)
            && b[at..at + |Signed(r.v, ctx.v)|] == Signed(r.v, ctx.v)
  {
    var o := Parse(b, at, ctx).v;
    var n := at + |Signed(o, ctx.v)|;
    SignedAt(b, at, o, ctx.v);
    assert b[at..] == b[at..n] + b[n..];
  }

  lemma Fits(o: Auth1, isEd: byte, avail: nat)
    requires CheckOk(o, Some(isEd))
    ensures FitsOrTruncated(Result(o, Some(isEd), avail), |Encode(o, isEd)|, avail)
    ensures EncodedLen(o, Some(isEd)) == |Encode(o, isEd)|
  {
  }

  /** The round trip, for an input of exactly the encoding's length. */
  lemma RoundTrip(o: Auth1, isEd: byte)
    requires CheckOk(o, Some(isEd))
    ensures Parse(Encode(o, isEd), 0, Some(isEd)) == Ok(Normal(o, isEd, 0), |Encode(o, isEd)|)
  {
    var b := Encode(o, isEd);
    assert b[0..|Signed(o, isEd)|] == Signed(o, isEd);
    SignedAt(b, 0, o, isEd);
    assert b[|Signed(o, isEd)|..] == o.sig;
  }

  /** The signature does not change what it signs: the bytes up to the mark. */
  lemma SignatureOutside(o: Auth1, sig: bytes, isEd: byte)
    requires CheckOk(o, Some(isEd))
    ensures var b, c := Encode(o, isEd), Encode(o.(sig := sig), isEd);
            var p, q := Parse(b, 0, Some(isEd)), Parse(c, 0, Some(isEd));
            && p.Ok? && q.Ok? && p.v.endOfSigned == q.v.endOfSigned && p.v.endOfSigned.Some?
            && p.v.endOfSigned.v <= |b| && p.v.endOfSigned.v <= |c|
            && b[..p.v.endOfSigned.v] == c[..p.v.endOfSigned.v]
  {
    RoundTrip(o, isEd);
    RoundTrip(o.(sig := sig), isEd);
    assert Signed(o.(sig := sig), isEd) == Signed(o, isEd);
  }

  // ---------- the code ----------

  /** auth1_encode */
  method EncodeInto(w: Writer, o: Auth1, ctx: Context) returns (r: int)
    requires w.Valid()
    modifies w, w.out
    ensures w.Valid() && w.avail == old(w.avail)
    ensures Encoded(r, Result(o, ctx, old(w.Room())), old(w.done), w.done,
                    if ctx.Some? then Encode(o, ctx.v) else [])
  {
    hide Ids, EdIds, Logs, Patch;
    if o.error || ctx.None? || ctx.v > 1 { return -1; }
    ghost var d := w.done;
    var start := w.written;
    var ok := Put3(w, o.ty, o.cid, o.sid);
    if !ok { return -2; }
    IdsAre(o, ctx.v);
    if ctx.v == 1 {
      ok := Put3(w, o.cidEd, o.sidEd, []);
      if !ok { return -2; }
    }
    ok := PutRest(w, o);
    if !ok { return -2; }
    EncodingIs(d, o, ctx.v);
    return w.written - start;
  }

  /** From slog on. */
  method PutRest(w: Writer, o: Auth1) returns (ok: bool)
    requires w.Valid()
    modifies w, w.out
    ensures w.Valid() && w.avail == old(w.avail) && ok == (152 + |o.sig| <= old(w.Room()))
    ensures old(w.done) <= w.done
    ensures ok ==> w.done == old(w.done) + ((o.slog + o.clog + o.scert) + (o.tlssecrets + o.rand + o.sig))
  {
    hide Patch;
    ghost var d := w.done;
    ok := Put3(w, o.slog, o.clog, o.scert);
    if !ok { return; }
    ok := Put3(w, o.tlssecrets, o.rand, o.sig);
    Regrouped(d, o.slog + o.clog + o.scert, o.tlssecrets + o.rand + o.sig);
  }

  lemma IdsAre(o: Auth1, isEd: byte)
    ensures Ids(o) == o.ty + o.cid + o.sid
    ensures isEd == 1 ==> EdIds(o, isEd) == o.cidEd + o.sidEd + []
    ensures isEd != 1 ==> EdIds(o, isEd) == []
  {
  }

  lemma EncodingIs(d: bytes, o: Auth1, isEd: byte)
    ensures d + Encode(o, isEd)
         == d + Ids(o) + EdIds(o, isEd) + ((o.slog + o.clog + o.scert) + (o.tlssecrets + o.rand + o.sig))
  {
  }

  /** Three fields in a row, each with its check of the room. */
  method Put3(w: Writer, f1: bytes, f2: bytes, f3: bytes) returns (ok: bool)
    requires w.Valid()
    modifies w, w.out
    ensures w.Valid() && w.avail == old(w.avail) && ok == (|f1| + |f2| + |f3| <= old(w.Room()))
    ensures old(w.done) <= w.done && (ok ==> w.done == old(w.done) + (f1 + f2 + f3))
  {
    hide Patch;
    ghost var d := w.done;
    ok := w.Put(f1);
    if !ok { return; }
    ok := w.Put(f2);
    if !ok { return; }
    ok := w.Put(f3);
    Regrouped3(d, f1, f2, f3);
  }

  /** Three fields of 32 bytes in a row; the first may be shorter. */
  method Take3(rd: Reader, n: nat) returns (ok: bool, f1: bytes, f2: Bytes32, f3: Bytes32)
    requires rd.Valid()
    modifies rd
    ensures rd.Valid() && ok == (n + 64 <= old(rd.remaining))
    ensures ok ==> rd.Ahead(n + 64) && f1 == rd.View()[old(rd.ptr)..old(rd.ptr) + n]
                   && f2 == rd.View()[old(rd.ptr) + n..old(rd.ptr) + n + 32]
                   && f3 == rd.View()[old(rd.ptr) + n + 32..old(rd.ptr) + n + 64]
  {
    f2, f3 := Zeros(32), Zeros(32);
    ok, f1 := rd.Take(n);
    if !ok { return; }
    var x;
    ok, x := rd.Take(32);
    if !ok { return; }
    f2 := x;
    ok, x := rd.Take(32);
    if !ok { return; }
    f3 := x;
  }

  /** auth1_parse */
  method ParseFrom(rd: Reader, ctx: Context) returns (r: int, o: Auth1)
    requires rd.Valid()
    modifies rd
    ensures rd.Valid() && Parses(Parse(old(rd.View()), old(rd.ptr), ctx), old(rd.ptr), r, o)
    ensures r >= 0 ==> rd.Ahead(r)
  {
    var lenIn := rd.remaining;
    o := FRESH;
    if ctx.None? { return -1, o; }
    var ok, f1, f2, f3 := Take3(rd, 8);
    if !ok { return -2, o; }
    o := o.(ty := f1, cid := f2, sid := f3);
    if ctx.v == 1 {
      ok, f1, f2, f3 := Take3(rd, 0);
      if !ok { return -2, o; }
      o := o.(cidEd := f2, sidEd := f3);
    } else if ctx.v > 1 {
      return -1, o;
    }
    ok, o := ParseRest(rd, o);
    if !ok { return -2, o; }
    return lenIn - rd.remaining, o;
  }

  /** From slog on. */
  method ParseRest(rd: Reader, o0: Auth1) returns (ok: bool, o: Auth1)
    requires rd.Valid()
    modifies rd
    ensures rd.Valid() && ok == (152 <= old(rd.remaining))
    ensures ok ==> rd.Ahead(old(rd.remaining))
    ensures ok ==> var e, b := old(rd.ptr), rd.View();
                   o == o0.(slog := b[e..e + 32], clog := b[e + 32..e + 64], scert := b[e + 64..e + 96],
                            tlssecrets := b[e + 96..e + 128], rand := b[e + 128..e + 152], sig := b[e + 152..],
                            endOfFixedPart := Some(e + 128), endOfSigned := Some(e + 152))
  {
    o := o0;
    var f1, f2, f3;
    ok, f1, f2, f3 := Take3(rd, 32);
    if !ok { return; }
    o := o.(slog := f1, clog := f2, scert := f3);
    ok, f1 := rd.Take(32);
    if !ok { return; }
    o := o.(tlssecrets := f1, endOfFixedPart := Some(rd.ptr));
    ok, f1 := rd.Take(24);
    if !ok { return; }
    o := o.(rand := f1, endOfSigned := Some(rd.ptr));
    ok, f1 := rd.Take(rd.remaining);
    o := o.(sig := f1);
  }
}
