/**
 The bodies of the CREATE2 and EXTEND2 cells, and the list of link specifiers.
 */
module ExtendCells {
  import opened TrunnelBytes
  import opened TrunnelBuffers
  import LS = LinkSpecifiers

  // ---------- create2_cell_body ----------

  datatype Create2 = Create2(handshakeType: u16, handshakeLen: u16, handshakeData: bytes, error: bool)

  function ParseCreate2(b: bytes, at: nat): Parsed<Create2> {
    if |b| < at + 4 || |b| < at + 4 + Get16(b, at + 2) then Truncated
    else
      var n := Get16(b, at + 2);
      Ok(Create2(Get16(b, at), n, b[at + 4..at + 4 + n], false), at + 4 + n)
  }

  function EncodeCreate2(o: Create2): bytes {
    Put16(o.handshakeType) + Put16(o.handshakeLen) + o.handshakeData
  }

  /** create2_cell_body_check finds no fault. */
  predicate Create2Ok(o: Create2) {
    !o.error && |o.handshakeData| == o.handshakeLen
  }

  /** create2_cell_body_encoded_len */
  function Create2Len(o: Create2): int {
    if !Create2Ok(o) then -1 else 2 + 2 + |o.handshakeData|
  }

  function Create2Result(o: Create2, avail: int): int {
    if !Create2Ok(o) then -1
    else if avail < 4 + |o.handshakeData| then -2
    else 4 + |o.handshakeData|
  }

  lemma Create2Final(b: bytes, c: bytes)
    requires b <= c
    ensures FinalAll(ParseCreate2, b, c)
  {
    forall at: nat ensures Final(ParseCreate2(b, at), ParseCreate2(c, at)) {
      if at + 4 <= |b| {
        Longer(b, c, at, 2);
        Longer(b, c, at + 2, 2);
        if at + 4 + Get16(b, at + 2) <= |b| { Longer(b, c, at + 4, Get16(b, at + 2)); }
      }
    }
  }

  lemma Create2Reads(b: bytes)
    ensures ReadsAll(ParseCreate2, EncodeCreate2, Create2Ok, b)
  {
    forall at: nat ensures Reads(ParseCreate2(b, at), EncodeCreate2, Create2Ok, b, at) {
      var r := ParseCreate2(b, at);
      if r.Ok? { Create2At(b, at, r.v); }
    }
  }

  lemma Create2At(b: bytes, at: nat, o: Create2)
    ensures At(b, at, EncodeCreate2(o))
       <==> && at + 4 + |o.handshakeData| <= |b| && Get16(b, at) == o.handshakeType && Get16(b, at + 2) == o.handshakeLen
            && b[at + 4..at + 4 + |o.handshakeData|] == o.handshakeData
  {
    AtCat(b, at, Put16(o.handshakeType) + Put16(o.handshakeLen), o.handshakeData);
    AtCat(b, at, Put16(o.handshakeType), Put16(o.handshakeLen));
    At16(b, at, o.handshakeType);
    At16(b, at + 2, o.handshakeLen);
  }

  lemma Create2RoundTrip(b: bytes, o: Create2)
    requires Create2Ok(o)
    ensures Returns(ParseCreate2, EncodeCreate2, (x: Create2) => x, b, o)
  {
    hide At;
    forall at: nat | At(b, at, EncodeCreate2(o)) ensures ParseCreate2(b, at) == Ok(o, at + |EncodeCreate2(o)|) {
      Create2At(b, at, o);
    }
  }

  lemma Create2Fits(o: Create2, avail: nat)
    requires Create2Ok(o)
    ensures FitsOrTruncated(Create2Result(o, avail), |EncodeCreate2(o)|, avail) && Create2Len(o) == |EncodeCreate2(o)|
  {
  }

  /** create2_cell_body_encode */
  method EncodeCreate2Into(w: Writer, o: Create2) returns (r: int)
    requires w.Valid()
    modifies w, w.out
    ensures w.Valid() && w.avail == old(w.avail)
    ensures Encoded(r, Create2Result(o, old(w.Room())), old(w.done), w.done, EncodeCreate2(o))
  {
    hide Patch;
    if o.error || |o.handshakeData| != o.handshakeLen { return -1; }
    ghost var d := w.done;
    var start := w.written;
    var ok := w.Put(Put16(o.handshakeType));
    if !ok { return -2; }
    ok := w.Put(Put16(o.handshakeLen));
    if !ok { return -2; }
    ok := w.Put(o.handshakeData);
    if !ok { return -2; }
    assert w.done == d + EncodeCreate2(o);
    return w.written - start;
  }

  /** create2_cell_body_parse */
  method ParseCreate2From(rd: Reader) returns (r: int, o: Create2)
    requires rd.Valid()
    modifies rd
    ensures rd.Valid() && Parses(ParseCreate2(old(rd.View()), old(rd.ptr)), old(rd.ptr), r, o)
    ensures r >= 0 ==> rd.Ahead(r)
  {
    var lenIn := rd.remaining;
    o := Create2(0, 0, [], false);
    var ok, ty := rd.Take16();
    if !ok { return -2, o; }
    var len;
    ok, len := rd.Take16();
    if !ok { return -2, o; }
    var data;
    ok, data := rd.Take(len);
    if !ok { return -2, o; }
    return lenIn - rd.remaining, Create2(ty, len, data, false);
  }

  // ---------- the list of link specifiers ----------

  /** The specifiers are all free of errors and their number is the one given. */
  predicate SpecsOk(specs: seq<LS.LinkSpecifier>, n: byte) {
    |specs| == n && forall i :: 0 <= i < |specs| ==> !specs[i].error
  }

  predicate SpecsEncodable(specs: seq<LS.LinkSpecifier>, n: byte) {
    |specs| == n && forall i :: 0 <= i < |specs| ==> LS.Encodable(specs[i])
  }

  function EncodeSpecs(specs: seq<LS.LinkSpecifier>, n: byte): bytes {
    [n] + EncodeFrom(LS.Encode, specs, 0)
  }

  function ParseSpecs(b: bytes, at: nat): Parsed<seq<LS.LinkSpecifier>> {
    if |b| < at + 1 then Truncated else Many(LS.Parse, b, at + 1, b[at], [])
  }

  function SpecsResult(specs: seq<LS.LinkSpecifier>, avail: int): int {
    if avail < 1 then -2
    else
      var r := ManyResult(LS.Result, specs, 0, avail - 1);
      if r < 0 then r else 1 + r
  }

  lemma SpecsFinal(b: bytes, c: bytes, at: nat)
    requires b <= c
    ensures Final(ParseSpecs(b, at), ParseSpecs(c, at))
  {
    if at + 1 <= |b| {
      LS.VerdictFinal(b, c);
      ManyFinal(LS.Parse, b, c, at + 1, b[at], []);
    }
  }

  lemma SpecsReads(b: bytes, at: nat)
    ensures var r := ParseSpecs(b, at);
            r.Ok? ==> SpecsEncodable(r.v, b[at]) && At(b, at, EncodeSpecs(r.v, b[at]))
                      && r.end == at + |EncodeSpecs(r.v, b[at])|
  {
    if at + 1 <= |b| {
      LS.ReadsBack(b);
      ManyReads(LS.Parse, LS.Encode, LS.Encodable, b, at + 1, b[at], []);
      var r := ParseSpecs(b, at);
      if r.Ok? { AtCat(b, at, [b[at]], EncodeFrom(LS.Encode, r.v, 0)); }
    }
  }

  lemma SpecsReturn(b: bytes, at: nat, specs: seq<LS.LinkSpecifier>, n: byte)
    requires SpecsEncodable(specs, n) && At(b, at, EncodeSpecs(specs, n))
    ensures at < |b| && b[at] == n
    ensures ParseSpecs(b, at) == Ok(Normals(LS.Normal, specs), at + |EncodeSpecs(specs, n)|)
  {
    AtCat(b, at, [n], EncodeFrom(LS.Encode, specs, 0));
    AtByte(b, at, n);
    forall k | 0 <= k < |specs| ensures Returns(LS.Parse, LS.Encode, LS.Normal, b, specs[k]) {
      LS.RoundTrip(b, specs[k]);
    }
    assert Normals(LS.Normal, specs)[..0] == [];
    ManyReturns(LS.Parse, LS.Encode, LS.Normal, b, at + 1, specs, 0);
  }

  lemma SpecsFit(specs: seq<LS.LinkSpecifier>, n: byte, avail: nat)
    requires SpecsEncodable(specs, n)
    ensures FitsOrTruncated(SpecsResult(specs, avail), |EncodeSpecs(specs, n)|, avail)
  {
    forall x, a {:trigger LS.Result(x, a)} | LS.Encodable(x) && 0 <= a
      ensures FitsOrTruncated(LS.Result(x, a), |LS.Encode(x)|, a)
    {
      LS.Fits(x, a);
    }
    if 1 <= avail { ManyFits(LS.Result, LS.Encode, LS.Encodable, specs, 0, avail - 1); }
  }

  /** The loops of the check functions. */
  method CheckSpecs(specs: seq<LS.LinkSpecifier>, n: byte) returns (ok: bool)
    ensures ok == SpecsOk(specs, n)
  {
    for i := 0 to |specs|
      invariant forall k :: 0 <= k < i ==> !specs[k].error
    {
      if specs[i].error { return false; }
    }
    return |specs| == n;
  }

  /** The count and the elements; each element's failure is the whole encoder's. */
  method EncodeSpecsInto(w: Writer, specs: seq<LS.LinkSpecifier>, n: byte) returns (r: int)
    requires w.Valid()
    modifies w, w.out
    ensures w.Valid() && w.avail == old(w.avail)
    ensures Encoded(r, SpecsResult(specs, old(w.Room())), old(w.done), w.done, EncodeSpecs(specs, n))
  {
    hide LS.Result, LS.Encode, Patch;
    ghost var d, room := w.done, w.Room();
    var start := w.written;
    var ok := w.Put([n]);
    if !ok { return -2; }
    var idx := 0;
    while idx < |specs|
      invariant 0 <= idx <= |specs| && w.Valid() && w.avail == old(w.avail) && d <= w.done
      invariant w.done + EncodeFrom(LS.Encode, specs, idx) == d + EncodeSpecs(specs, n)
      invariant SpecsResult(specs, room)
             == (var q := ManyResult(LS.Result, specs, idx, w.Room()); if q < 0 then q else q + w.written - start)
    {
      ghost var done := w.done;
      r := LS.EncodeInto(w, specs[idx]);
      if r < 0 { return; }
      Regrouped(done, LS.Encode(specs[idx]), EncodeFrom(LS.Encode, specs, idx + 1));
      idx := idx + 1;
    }
    assert w.done + [] == w.done;
    return w.written - start;
  }

  method ParseSpecsFrom(rd: Reader) returns (r: int, n: byte, specs: seq<LS.LinkSpecifier>)
    requires rd.Valid()
    modifies rd
    ensures rd.Valid() && Parses(ParseSpecs(old(rd.View()), old(rd.ptr)), old(rd.ptr), r, specs)
    ensures r >= 0 ==> rd.Ahead(r) && n == rd.View()[old(rd.ptr)]
  {
    hide LS.Parse;
    ghost var b, at := rd.View(), rd.ptr;
    var lenIn := rd.remaining;
    specs := [];
    var ok;
    ok, n := rd.Take8();
    if !ok { return -2, n, specs; }
    var idx := 0;
    while idx < n
      invariant 0 <= idx <= n && rd.Valid() && rd.View() == b && at <= rd.ptr && rd.ptr + rd.remaining == at + lenIn
      invariant Many(LS.Parse, b, rd.ptr, n - idx, specs) == ParseSpecs(b, at)
    {
      var q, elt := LS.ParseFrom(rd);
      if q < 0 { return q, n, specs; }
      specs := specs + [elt];
      idx := idx + 1;
    }
    return lenIn - rd.remaining, n, specs;
  }

  // ---------- link_specifier_list ----------

  datatype SpecList = SpecList(nSpec: byte, spec: seq<LS.LinkSpecifier>, error: bool)

  predicate ListEncodable(o: SpecList) { !o.error && SpecsEncodable(o.spec, o.nSpec) }

  function EncodeList(o: SpecList): bytes { EncodeSpecs(o.spec, o.nSpec) }

  function ParseList(b: bytes, at: nat): Parsed<SpecList> {
    match ParseSpecs(b, at)
    case Ok(specs, end) => Ok(SpecList(b[at], specs, false), end)
    case Truncated => Truncated
    case Invalid => Invalid
  }

  function NormalList(o: SpecList): SpecList { o.(spec := Normals(LS.Normal, o.spec)) }

  lemma ListFinal(b: bytes, c: bytes, at: nat)
    requires b <= c
    ensures Final(ParseList(b, at), ParseList(c, at))
  {
    SpecsFinal(b, c, at);
  }

  lemma ListReads(b: bytes, at: nat)
    ensures Reads(ParseList(b, at), EncodeList, ListEncodable, b, at)
  {
    SpecsReads(b, at);
  }

  lemma ListRoundTrip(o: SpecList, rest: bytes)
    requires ListEncodable(o)
    ensures ParseList(EncodeList(o) + rest, 0) == Ok(NormalList(o), |EncodeList(o)|)
  {
    var b := EncodeList(o) + rest;
    assert b[0..|EncodeList(o)|] == EncodeList(o);
    SpecsReturn(b, 0, o.spec, o.nSpec);
  }

  /** link_specifier_list_encoded_len */
  function ListLen(o: SpecList): int {
    if o.error || !SpecsOk(o.spec, o.nSpec) then -1 else 1 + SumLen(LS.EncodedLen, o.spec, 0)
  }

  function ListResult(o: SpecList, avail: int): int {
    if o.error || !SpecsOk(o.spec, o.nSpec) then -1 else SpecsResult(o.spec, avail)
  }

  lemma ListFits(o: SpecList, avail: nat)
    requires ListEncodable(o)
    ensures FitsOrTruncated(ListResult(o, avail), |EncodeList(o)|, avail) && ListLen(o) == |EncodeList(o)|
  {
    SpecsFit(o.spec, o.nSpec, avail);
    SumLenIs(LS.EncodedLen, LS.Encode, o.spec, 0);
  }

  /** link_specifier_list_encode */
  method EncodeListInto(w: Writer, o: SpecList) returns (r: int)
    requires w.Valid()
    modifies w, w.out
    ensures w.Valid() && w.avail == old(w.avail)
    ensures Encoded(r, ListResult(o, old(w.Room())), old(w.done), w.done, EncodeList(o))
  {
    hide Patch;
    if o.error { return -1; }
    var ok := CheckSpecs(o.spec, o.nSpec);
    if !ok { return -1; }
    r := EncodeSpecsInto(w, o.spec, o.nSpec);
  }

  /** link_specifier_list_parse */
  method ParseListFrom(rd: Reader) returns (r: int, o: SpecList)
    requires rd.Valid()
    modifies rd
    ensures rd.Valid() && Parses(ParseList(old(rd.View()), old(rd.ptr)), old(rd.ptr), r, o)
    ensures r >= 0 ==> rd.Ahead(r)
  {
    var n, specs;
    r, n, specs := ParseSpecsFrom(rd);
    o := SpecList(n, specs, false);
  }

  // ---------- extend2_cell_body ----------

  /** The create2 structure may be missing: None is the null pointer of a new object. */
  datatype Extend2 = Extend2(nSpec: byte, ls: seq<LS.LinkSpecifier>, create2: Option<Create2>, error: bool)

  function ParseExtend2(b: bytes, at: nat): Parsed<Extend2> {
    match ParseSpecs(b, at)
    case Truncated => Truncated
    case Invalid => Invalid
    case Ok(specs, mid) =>
      match ParseCreate2(b, mid)
      case Truncated => Truncated
      case Invalid => Invalid
      case Ok(c, end) => Ok(Extend2(b[at], specs, Some(c), false), end)
  }

  /** extend2_cell_body_check finds no fault. */
  predicate Extend2Ok(o: Extend2) {
    !o.error && SpecsOk(o.ls, o.nSpec) && o.create2.Some? && Create2Ok(o.create2.v)
  }

  predicate Extend2Encodable(o: Extend2) {
    !o.error && SpecsEncodable(o.ls, o.nSpec) && o.create2.Some? && Create2Ok(o.create2.v)
  }

  function EncodeExtend2(o: Extend2): bytes {
    EncodeSpecs(o.ls, o.nSpec) + if o.create2.Some? then EncodeCreate2(o.create2.v) else []
  }

  function Extend2Result(o: Extend2, avail: int): int {
    if !Extend2Ok(o) then -1
    else
      var r := SpecsResult(o.ls, avail);
      if r < 0 then r
      else
        var q := Create2Result(o.create2.v, avail - r);
        if q < 0 then q else r + q
  }

  function NormalExtend2(o: Extend2): Extend2 { o.(ls := Normals(LS.Normal, o.ls)) }

  /** Neither success nor -1 changes when bytes are added. */
  lemma Extend2Final(b: bytes, c: bytes, at: nat)
    requires b <= c
    ensures Final(ParseExtend2(b, at), ParseExtend2(c, at))
  {
    SpecsFinal(b, c, at);
    match ParseSpecs(b, at)
    case Ok(_, mid) => Create2Final(b, c); assert Final(ParseCreate2(b, mid), ParseCreate2(c, mid));
    case _ =>
  }

  /** The bytes consumed are the encoding of the object that comes out. */
  lemma Extend2Reads(b: bytes, at: nat)
    ensures Reads(ParseExtend2(b, at), EncodeExtend2, Extend2Encodable, b, at)
  {
    SpecsReads(b, at);
    match ParseSpecs(b, at)
    case Ok(specs, mid) =>
      Create2Reads(b);
      assert Reads(ParseCreate2(b, mid), EncodeCreate2, Create2Ok, b, mid);
      match ParseCreate2(b, mid) {
        case Ok(c, end) => AtCat(b, at, EncodeSpecs(specs, b[at]), EncodeCreate2(c));
        case _ =>
      }
    case _ =>
  }

  /** Every strict prefix of an accepted input gets -2. */
  lemma Extend2Prefix(b: bytes, c: bytes)
    requires b <= c && ParseExtend2(c, 0).Ok? && |b| < ParseExtend2(c, 0).end
    ensures ParseExtend2(b, 0) == Truncated
  {
    Extend2Final(b, c, 0);
    Extend2Reads(b, 0);
    PrefixTruncated(ParseExtend2(b, 0), ParseExtend2(c, 0), b, c);
  }

  /** Parsing an encoding, whatever follows it, gives the object back and consumes just the encoding. */
  lemma Extend2RoundTrip(o: Extend2, rest: bytes)
    requires Extend2Encodable(o)
    ensures ParseExtend2(EncodeExtend2(o) + rest, 0) == Ok(NormalExtend2(o), |EncodeExtend2(o)|)
  {
    var u, v := EncodeSpecs(o.ls, o.nSpec), EncodeCreate2(o.create2.v);
    var b := EncodeExtend2(o) + rest;
    assert b[0..|u + v|] == u + v;
    AtCat(b, 0, u, v);
    SpecsReturn(b, 0, o.ls, o.nSpec);
    Create2RoundTrip(b, o.create2.v);
  }

  /** extend2_cell_body_encoded_len */
  function Extend2Len(o: Extend2): int {
    if !Extend2Ok(o) then -1 else 1 + SumLen(LS.EncodedLen, o.ls, 0) + Create2Len(o.create2.v)
  }

  /** Encoding needs exactly the room that encoded_len says: with less it is truncated, with as much it succeeds. */
  lemma Extend2Fits(o: Extend2, avail: nat)
    requires Extend2Encodable(o)
    ensures FitsOrTruncated(Extend2Result(o, avail), |EncodeExtend2(o)|, avail)
    ensures Extend2Len(o) == |EncodeExtend2(o)|
  {
    SpecsFit(o.ls, o.nSpec, avail);
    SumLenIs(LS.EncodedLen, LS.Encode, o.ls, 0);
  }

  /** extend2_cell_body_encode */
  method EncodeExtend2Into(w: Writer, o: Extend2) returns (r: int)
    requires w.Valid()
    modifies w, w.out
    ensures w.Valid() && w.avail == old(w.avail)
    ensures Encoded(r, Extend2Result(o, old(w.Room())), old(w.done), w.done, EncodeExtend2(o))
  {
    hide EncodeSpecs, SpecsResult, Patch;
    if o.error { return -1; }
    var ok := CheckSpecs(o.ls, o.nSpec);
    if !ok { return -1; }
    if o.create2.None? || o.create2.v.error || |o.create2.v.handshakeData| != o.create2.v.handshakeLen { return -1; }
    ghost var d := w.done;
    var start := w.written;
    r := EncodeSpecsInto(w, o.ls, o.nSpec);
    if r < 0 { return; }
    r := EncodeCreate2Into(w, o.create2.v);
    if r < 0 { return; }
    Regrouped(d, EncodeSpecs(o.ls, o.nSpec), EncodeCreate2(o.create2.v));
    return w.written - start;
  }

  /**
   The same for a caller with a buffer: just the bytes of the encoding are written, and a failing call
   writes nothing outside the room it was given.
   */
  method EncodeExtend2To(output: array<byte>, base: nat, avail: nat, o: Extend2) returns (r: int)
    requires base + avail <= output.Length
    modifies output
    ensures r == Extend2Result(o, avail)
    ensures r >= 0 ==> base + |EncodeExtend2(o)| <= output.Length && output[..] == Patch(old(output[..]), base, EncodeExtend2(o))
    ensures forall i :: 0 <= i < output.Length && !(base <= i < base + avail) ==> output[i] == old(output[i])
  {
    hide Extend2Result, EncodeExtend2;
    var w := new Writer(output, base, avail);
    r := EncodeExtend2Into(w, o);
    assert [] + EncodeExtend2(o) == EncodeExtend2(o);
    w.OnlyWritten();
  }

  /** extend2_cell_body_parse */
  method ParseExtend2From(rd: Reader) returns (r: int, o: Extend2)
    requires rd.Valid()
    modifies rd
    ensures rd.Valid() && Parses(ParseExtend2(old(rd.View()), old(rd.ptr)), old(rd.ptr), r, o)
    ensures r >= 0 ==> rd.Ahead(r)
  {
    hide ParseSpecs, ParseCreate2;
    var lenIn := rd.remaining;
    o := Extend2(0, [], None, false);
    var q, n, specs := ParseSpecsFrom(rd);
    if q < 0 { return q, o; }
    var c;
    q, c := ParseCreate2From(rd);
    if q < 0 { return q, o; }
    return lenIn - rd.remaining, Extend2(n, specs, Some(c), false);
  }
}
