/**
 pwbox_encoded: a password box.  Its data has no length field: it is whatever is left before a trailer of
 32 bytes.
 */
module Pwboxes {
  import opened TrunnelBytes
  import opened TrunnelBuffers

  const PWBOX0_CONST0: u32 := 0x544f5242
  const PWBOX0_CONST1: u32 := 0x4f583030

  datatype Pwbox = Pwbox(
    fixedbytes0: u32, fixedbytes1: u32, headerLen: byte, skeyHeader: bytes, iv: Bytes16, data: bytes, hmac: Bytes32,
    error: bool)

  /** pwbox_encoded_new sets the constants. */
  const FRESH := Pwbox(PWBOX0_CONST0, PWBOX0_CONST1, 0, [], Zeros(16), [], Zeros(32), false)

  function Head(o: Pwbox): bytes {
    Put32(o.fixedbytes0) + Put32(o.fixedbytes1) + [o.headerLen] + o.skeyHeader + o.iv
  }

  function Encode(o: Pwbox): bytes { Head(o) + o.data + o.hmac }

  /** pwbox_encoded_check finds no fault. */
  predicate CheckOk(o: Pwbox) {
    !o.error && o.fixedbytes0 == PWBOX0_CONST0 && o.fixedbytes1 == PWBOX0_CONST1 && |o.skeyHeader| == o.headerLen
  }

  function EncodedLen(o: Pwbox): int {
    if !CheckOk(o) then -1 else 4 + 4 + 1 + |o.skeyHeader| + 16 + |o.data| + 32
  }

  function Result(o: Pwbox, avail: int): int {
    if !CheckOk(o) then -1
    else if avail < |Encode(o)| then -2
    else |Encode(o)|
  }

  function Parse(b: bytes, at: nat): Parsed<Pwbox> {
    if |b| < at + 4 then Truncated
    else if Get32(b, at) != PWBOX0_CONST0 then Invalid
    else if |b| < at + 8 then Truncated
    else if Get32(b, at + 4) != PWBOX0_CONST1 then Invalid
    else if |b| < at + 9 || |b| < at + 9 + b[at + 8] + 16 + 32 then Truncated
    else
      var d := at + 9 + b[at + 8] + 16;
      Ok(Pwbox(PWBOX0_CONST0, PWBOX0_CONST1, b[at + 8], b[at + 9..d - 16], b[d - 16..d],
               b[d..|b| - 32], b[|b| - 32..], false), |b|)
  }

  lemma HeadAt(b: bytes, at: nat, o: Pwbox)
    ensures At(b, at, Head(o))
       <==> && at + 9 + |o.skeyHeader| + 16 <= |b| && Get32(b, at) == o.fixedbytes0 && Get32(b, at + 4) == o.fixedbytes1
            && b[at + 8] == o.headerLen && b[at + 9..at + 9 + |o.skeyHeader|] == o.skeyHeader
            && b[at + 9 + |o.skeyHeader|..at + 9 + |o.skeyHeader| + 16] == o.iv
  {
    var h1, h2, h3 := Put32(o.fixedbytes0), Put32(o.fixedbytes1), [o.headerLen];
    AtCat(b, at, h1 + h2 + h3 + o.skeyHeader, o.iv);
    AtCat(b, at, h1 + h2 + h3, o.skeyHeader);
    AtCat(b, at, h1 + h2, h3);
    AtCat(b, at, h1, h2);
    At32(b, at, o.fixedbytes0);
    At32(b, at + 4, o.fixedbytes1);
    AtByte(b, at + 8, o.headerLen);
  }

  // ---------- the laws ----------

  /** What is accepted is consumed whole, and is the object's encoding. */
  lemma ReadsBack(b: bytes, at: nat)
    requires Parse(b, at).Ok?
    ensures var r := Parse(b, at); CheckOk(r.v) && r.end == |b| && b[at..] == Encode(r.v)
  {
    var o := Parse(b, at).v;
    var d := at + 9 + b[at + 8] + 16;
    HeadAt(b, at, o);
    assert b[at..] == b[at..d] + b[d..|b| - 32] + b[|b| - 32..];
  }

  /** The round trip, for an input of exactly the encoding's length. */
  lemma RoundTrip(o: Pwbox)
    requires CheckOk(o)
    ensures Parse(Encode(o), 0) == Ok(o, |Encode(o)|)
  {
    var b, d := Encode(o), |Head(o)|;
    assert b[0..d] == Head(o);
    HeadAt(b, 0, o);
    assert b[d..|b| - 32] == o.data && b[|b| - 32..] == o.hmac;
  }

  /** The encodings are exactly the inputs accepted, and two objects never share one. */
  lemma EncodingsAreAccepted(b: bytes)
    ensures Parse(b, 0).Ok? <==> exists o :: CheckOk(o) && b == Encode(o)
    ensures forall o, q :: CheckOk(o) && CheckOk(q) && b == Encode(o) == Encode(q) ==> o == q
  {
    forall o, q | CheckOk(o) && CheckOk(q) && b == Encode(o) == Encode(q) ensures o == q {
      RoundTrip(o);
      RoundTrip(q);
    }
    if Parse(b, 0).Ok? {
      ReadsBack(b, 0);
      assert b[0..] == b;
    }
    if o :| CheckOk(o) && b == Encode(o) { RoundTrip(o); }
  }

  /** With more bytes an accepted input stays accepted: what was the trailer becomes data. */
  lemma MoreBytes(b: bytes, rest: bytes, at: nat)
    ensures Parse(b, at) == Invalid ==> Parse(b + rest, at) == Invalid
    ensures Parse(b, at).Ok? ==>
              var p, q := Parse(b, at), Parse(b + rest, at);
              && q.Ok? && q.v.data + q.v.hmac == p.v.data + p.v.hmac + rest
              && q.v.(data := p.v.data, hmac := p.v.hmac) == p.v
  {
    var c := b + rest;
    if at + 4 <= |b| { Longer(b, c, at, 4); }
    if at + 8 <= |b| { Longer(b, c, at + 4, 4); }
    if Parse(b, at).Ok? {
      var d := at + 9 + b[at + 8] + 16;
      Longer(b, c, at + 8, 1);
      assert c[at + 9..d - 16] == b[at + 9..d - 16] && c[d - 16..d] == b[d - 16..d];
      assert b[d..|b| - 32] + b[|b| - 32..] == b[d..];
      assert c[d..|c| - 32] + c[|c| - 32..] == c[d..];
      assert c[d..] == b[d..] + rest;
    }
  }

  lemma Fits(o: Pwbox, avail: nat)
    requires CheckOk(o)
    ensures FitsOrTruncated(Result(o, avail), |Encode(o)|, avail) && EncodedLen(o) == |Encode(o)|
  {
  }

  // ---------- the code ----------

  method PutHead(w: Writer, o: Pwbox) returns (ok: bool)
    requires w.Valid()
    modifies w, w.out
    ensures w.Valid() && w.avail == old(w.avail) && ok == (|Head(o)| <= old(w.Room()))
    ensures old(w.done) <= w.done && (ok ==> w.done == old(w.done) + Head(o))
  {
    hide Put32, Patch;
    ghost var d := w.done;
    ok := PutConsts(w, o);
    if !ok { return; }
    ok := w.Put(o.skeyHeader);
    if !ok { return; }
    ok := w.Put(o.iv);
    Regrouped3(d, Put32(o.fixedbytes0) + Put32(o.fixedbytes1) + [o.headerLen], o.skeyHeader, o.iv);
  }

  method PutConsts(w: Writer, o: Pwbox) returns (ok: bool)
    requires w.Valid()
    modifies w, w.out
    ensures w.Valid() && w.avail == old(w.avail) && ok == (9 <= old(w.Room()))
    ensures old(w.done) <= w.done
    ensures ok ==> w.done == old(w.done) + (Put32(o.fixedbytes0) + Put32(o.fixedbytes1) + [o.headerLen])
  {
    hide Put32, Patch;
    ghost var d := w.done;
    ok := w.Put(Put32(o.fixedbytes0));
    if !ok { return; }
    ok := w.Put(Put32(o.fixedbytes1));
    if !ok { return; }
    ok := w.Put([o.headerLen]);
    Regrouped3(d, Put32(o.fixedbytes0), Put32(o.fixedbytes1), [o.headerLen]);
  }

  /**
   pwbox_encoded_encode.  Behind the data the room is cut down to the trailer's 32 bytes; the two late
   exits for an encoding that does not fill it exactly are never taken.
   */
  method EncodeInto(w: Writer, o: Pwbox) returns (r: int)
    requires w.Valid()
    modifies w, w.out
    ensures w.Valid() && w.avail <= old(w.avail)
    ensures Encoded(r, Result(o, old(w.Room())), old(w.done), w.done, Encode(o))
  {
    hide Head, Patch;
    if o.error || o.fixedbytes0 != PWBOX0_CONST0 || o.fixedbytes1 != PWBOX0_CONST1 || |o.skeyHeader| != o.headerLen {
      return -1;
    }
    ghost var d := w.done;
    var start := w.written;
    var ok := PutHead(w, o);
    if !ok { return -2; }
    ok := w.Put(o.data);
    if !ok { return -2; }
    if w.avail - w.written < 32 { return -2; }
    w.avail := w.written + 32;
    if w.avail - w.written < 32 { assert false; }
    ok := w.Put(o.hmac);
    if w.avail != w.written { assert false; }
    Regrouped3(d, Head(o), o.data, o.hmac);
    return w.written - start;
  }

  /** pwbox_encoded_parse */
  method ParseFrom(rd: Reader) returns (r: int, o: Pwbox)
    requires rd.Valid()
    modifies rd
    ensures rd.Valid() && Parses(Parse(old(rd.View()), old(rd.ptr)), old(rd.ptr), r, o)
    ensures r >= 0 ==> rd.Ahead(r)
  {
    hide Get32;
    var lenIn := rd.remaining;
    o := FRESH;
    r := ParseConsts(rd);
    if r < 0 { return; }
    var ok, len := rd.Take8();
    if !ok { return -2, o; }
    var header;
    ok, header := rd.Take(len);
    if !ok { return -2, o; }
    var iv;
    ok, iv := rd.Take(16);
    if !ok { return -2, o; }
    o := o.(headerLen := len, skeyHeader := header, iv := iv);
    ok, o := ParseDataAndTrailer(rd, o);
    if !ok { return -2, o; }
    return lenIn - rd.remaining, o;
  }

  method ParseConsts(rd: Reader) returns (r: int)
    requires rd.Valid()
    modifies rd
    ensures rd.Valid()
    ensures var b, at := old(rd.View()), old(rd.ptr);
            r == if |b| < at + 4 then -2 else if Get32(b, at) != PWBOX0_CONST0 then -1
                 else if |b| < at + 8 then -2 else if Get32(b, at + 4) != PWBOX0_CONST1 then -1 else 0
    ensures r >= 0 ==> rd.Ahead(8)
  {
    hide Get32;
    var ok, x := rd.Take32();
    if !ok { return -2; }
    if x != PWBOX0_CONST0 { return -1; }
    ok, x := rd.Take32();
    if !ok { return -2; }
    if x != PWBOX0_CONST1 { return -1; }
    return 0;
  }

  /** The greedy field: all but the last 32 bytes. */
  method ParseDataAndTrailer(rd: Reader, o0: Pwbox) returns (ok: bool, o: Pwbox)
    requires rd.Valid()
    modifies rd
    ensures rd.Valid() && ok == (32 <= old(rd.remaining))
    ensures ok ==> rd.Ahead(old(rd.remaining))
    ensures ok ==> var b := rd.View(); o == o0.(data := b[old(rd.ptr)..|b| - 32], hmac := b[|b| - 32..])
  {
    o := o0;
    if rd.remaining < 32 { return false, o; }
    ghost var b, at := rd.View(), rd.ptr;
    var after := 32;
    rd.remaining := rd.remaining - 32;
    assert rd.View() == b[..|b| - 32];
    var data;
    ok, data := rd.Take(rd.remaining);
    assert data == b[at..|b| - 32];
    o := o.(data := data);
    rd.Leave(after);
    assert rd.View() == b;
    var hmac;
    ok, hmac := rd.Take(32);
    o := o.(hmac := hmac);
  }
}
