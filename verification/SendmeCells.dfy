/**
 The SENDME cell: a version, a length written back over its place, and a body that version 0 ignores.
 */
module SendmeCells {
  import opened TrunnelBytes
  import opened TrunnelBuffers

  const TRUNNEL_SENDME_V1_DIGEST_LEN := 20

  datatype Cell = Cell(version: byte, dataLen: u16, v1Digest: Bytes20, error: bool)

  const FRESH := Cell(0, 0, Zeros(20), false)

  function Body(o: Cell): (r: bytes)
    ensures |r| <= 20
  {
    if o.version == 1 then o.v1Digest else []
  }

  predicate CheckOk(o: Cell) { !o.error && o.version <= 1 }

  function Encode(o: Cell): bytes { [o.version] + Put16(|Body(o)|) + Body(o) }

  function EncodedLen(o: Cell): int {
    if !CheckOk(o) then -1 else 3 + if o.version == 1 then TRUNNEL_SENDME_V1_DIGEST_LEN else 0
  }

  function Result(o: Cell, avail: int): int {
    if !CheckOk(o) then -1
    else if avail < 3 + |Body(o)| then -2
    else 3 + |Body(o)|
  }

  function Parse(b: bytes, at: nat): Parsed<Cell> {
    if |b| < at + 1 then Truncated
    else if b[at] > 1 then Invalid
    else if |b| < at + 3 || |b| < at + 3 + Get16(b, at + 1) then Truncated
    else
      var n := Get16(b, at + 1);
      if b[at] == 0 then Ok(FRESH.(dataLen := n), at + 3 + n)
      else if n != TRUNNEL_SENDME_V1_DIGEST_LEN then Invalid
      else Ok(Cell(1, n, b[at + 3..at + 23], false), at + 3 + n)
  }

  function Normal(o: Cell): Cell {
    if o.version == 1 then o.(dataLen := 20) else FRESH.(version := o.version)
  }

  lemma EncodingAt(b: bytes, at: nat, o: Cell)
    ensures At(b, at, Encode(o))
       <==> && at + 3 + |Body(o)| <= |b| && b[at] == o.version && Get16(b, at + 1) == |Body(o)|
            && b[at + 3..at + 3 + |Body(o)|] == Body(o)
  {
    AtCat(b, at, [o.version] + Put16(|Body(o)|), Body(o));
    AtCat(b, at, [o.version], Put16(|Body(o)|));
    AtByte(b, at, o.version);
    At16(b, at + 1, |Body(o)|);
  }

  lemma VerdictFinal(b: bytes, c: bytes, at: nat)
    requires b <= c
    ensures Final(Parse(b, at), Parse(c, at))
  {
    if at + 1 <= |b| { Longer(b, c, at, 1); }
    if at + 3 <= |b| { Longer(b, c, at + 1, 2); }
    if at + 23 <= |b| { Longer(b, c, at + 3, 20); }
  }

  lemma PrefixTruncatedToo(b: bytes, c: bytes)
    requires b <= c && Parse(c, 0).Ok? && |b| < Parse(c, 0).end
    ensures Parse(b, 0) == Truncated
  {
    VerdictFinal(b, c, 0);
    PrefixTruncated(Parse(b, 0), Parse(c, 0), b, c);
  }

  lemma RoundTrip(o: Cell, rest: bytes)
    requires CheckOk(o)
    ensures Parse(Encode(o) + rest, 0) == Ok(Normal(o), |Encode(o)|)
  {
    var b := Encode(o) + rest;
    assert b[0..|Encode(o)|] == Encode(o);
    EncodingAt(b, 0, o);
  }

  /** The bytes come back exactly unless a version 0 body was skipped. */
  lemma BytesKeptIff(b: bytes, at: nat)
    requires Parse(b, at).Ok?
    ensures var r := Parse(b, at);
            && CheckOk(r.v) && at + 3 <= r.end <= |b|
            && (Encode(r.v) == b[at..r.end] <==> r.v.version == 1 || r.v.dataLen == 0)
  {
    var r := Parse(b, at);
    EncodingAt(b, at, r.v);
    assert |Encode(r.v)| == 3 + |Body(r.v)|;
  }

  lemma ReencodeIdempotent(b: bytes)
    requires Parse(b, 0).Ok?
    ensures var w := Encode(Parse(b, 0).v); Parse(w, 0).Ok? && Parse(w, 0).end == |w| && Encode(Parse(w, 0).v) == w
  {
    var o := Parse(b, 0).v;
    RoundTrip(o, []);
    assert Encode(o) + [] == Encode(o);
  }

  lemma Fits(o: Cell, avail: nat)
    requires CheckOk(o)
    ensures FitsOrTruncated(Result(o, avail), |Encode(o)|, avail) && EncodedLen(o) == |Encode(o)|
  {
  }

  /** sendme_cell_encode */
  method EncodeInto(w: Writer, o: Cell) returns (r: int)
    requires w.Valid()
    modifies w, w.out
    ensures w.Valid() && w.avail == old(w.avail)
    ensures Encoded(r, Result(o, old(w.Room())), old(w.done), w.done, Encode(o))
  {
    hide Body, Put16, Patch, Over;
    if o.error || !(o.version == 0 || o.version == 1) { return -1; }
    ghost var d := w.done;
    var start := w.written;
    var ok := w.Put([o.version]);
    if !ok { return -2; }
    ok := w.Put(Put16(o.dataLen));
    if !ok { return -2; }
    var before := w.written;
    ok := PutBody(w, o);
    if !ok { return -2; }
    w.PutBack(start + 1, Put16(w.written - before));
    PatchedBack(d, [o.version], Put16(o.dataLen), Body(o), Put16(w.written - before));
    return w.written - start;
  }

  method PutBody(w: Writer, o: Cell) returns (ok: bool)
    requires w.Valid()
    modifies w, w.out
    ensures w.Valid() && w.avail == old(w.avail) && ok == (|Body(o)| <= old(w.Room()))
    ensures old(w.done) <= w.done && (ok ==> w.done == old(w.done) + Body(o))
  {
    hide Patch;
    ok := true;
    if o.version == 1 {
      ok := w.Put(o.v1Digest);
    }
  }

  /** The switch of the parser: version 0 skips to the end of the union. */
  method ParseArm(rd: Reader, o0: Cell, ghost s: bytes) returns (ok: bool, o: Cell)
    requires rd.Valid() && rd.View()[rd.ptr..] == s && o0.version <= 1
    modifies rd
    ensures rd.Valid() && rd.ptr + rd.remaining == old(rd.ptr + rd.remaining)
    ensures (ok && rd.remaining == 0) == (o0.version == 0 || |s| == 20)
    ensures ok && rd.remaining == 0 ==> o == if o0.version == 0 then o0 else o0.(v1Digest := s)
  {
    ok, o := true, o0;
    if o.version == 0 {
      rd.ptr, rd.remaining := rd.ptr + rd.remaining, 0;
    } else {
      var digest;
      ok, digest := rd.Take(TRUNNEL_SENDME_V1_DIGEST_LEN);
      if !ok { return; }
      o := o.(v1Digest := digest);
    }
  }

  /** sendme_cell_parse */
  method ParseFrom(rd: Reader) returns (r: int, o: Cell)
    requires rd.Valid()
    modifies rd
    ensures rd.Valid() && Parses(Parse(old(rd.View()), old(rd.ptr)), old(rd.ptr), r, o)
    ensures r >= 0 ==> rd.Ahead(r)
  {
    hide Get16;
    ghost var b, at := rd.View(), rd.ptr;
    var lenIn := rd.remaining;
    o := FRESH;
    var ok, version := rd.Take8();
    if !ok { return -2, o; }
    o := o.(version := version);
    if !(version == 0 || version == 1) { return -1, o; }
    var len;
    ok, len := rd.Take16();
    if !ok { return -2, o; }
    o := o.(dataLen := len);
    var after;
    ok, after := rd.Enter(len);
    if !ok { return -2, o; }
    assert rd.View()[at + 3..] == b[at + 3..at + 3 + len];
    ok, o := ParseArm(rd, o, b[at + 3..at + 3 + len]);
    if !ok { return -1, o; }
    if rd.remaining != 0 { return -1, o; }
    rd.Leave(after);
    assert rd.View() == b;
    return lenIn - rd.remaining, o;
  }
}
