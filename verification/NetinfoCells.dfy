/**
 The NETINFO cell.  Addresses of a type the code does not know are skipped over when parsed, and encoded
 without a body.
 */
module NetinfoCells {
  import opened TrunnelBytes
  import opened TrunnelBuffers

  const NETINFO_ADDR_TYPE_IPV4 := 4
  const NETINFO_ADDR_TYPE_IPV6 := 6

  // ---------- netinfo_addr ----------

  datatype Addr = Addr(addrType: byte, len: byte, ipv4: u32, ipv6: Bytes16, error: bool)

  const FRESH := Addr(0, 0, 0, Zeros(16), false)

  function Body(o: Addr): (r: bytes)
    ensures |r| <= 16
  {
    if o.addrType == NETINFO_ADDR_TYPE_IPV4 then Put32(o.ipv4)
    else if o.addrType == NETINFO_ADDR_TYPE_IPV6 then o.ipv6
    else []
  }

  predicate Known(ty: byte) { ty == NETINFO_ADDR_TYPE_IPV4 || ty == NETINFO_ADDR_TYPE_IPV6 }

  function FromBody(ty: byte, s: bytes): Option<Addr>
    requires |s| < 0x100
  {
    var o := FRESH.(addrType := ty, len := |s|);
    if ty == NETINFO_ADDR_TYPE_IPV4 then
      if |s| == 4 then Some(o.(ipv4 := Get32(s, 0))) else None
    else if ty == NETINFO_ADDR_TYPE_IPV6 then
      if |s| == 16 then Some(o.(ipv6 := s)) else None
    else Some(o)
  }

  function ParseAddr(b: bytes, at: nat): Parsed<Addr> {
    if |b| < at + 2 || |b| < at + 2 + b[at + 1] then Truncated
    else
      match FromBody(b[at], b[at + 2..at + 2 + b[at + 1]])
      case None => Invalid
      case Some(o) => Ok(o, at + 2 + b[at + 1])
  }

  function EncodeAddr(o: Addr): bytes { [o.addrType, |Body(o)|] + Body(o) }

  predicate AddrOk(o: Addr) { !o.error }

  function AddrLen(o: Addr): int {
    if o.error then -1
    else 2 + if o.addrType == NETINFO_ADDR_TYPE_IPV4 then 4 else if o.addrType == NETINFO_ADDR_TYPE_IPV6 then 16 else 0
  }

  function AddrResult(o: Addr, avail: int): int {
    if o.error then -1
    else if avail < 2 + |Body(o)| then -2
    else 2 + |Body(o)|
  }

  function NormalAddr(o: Addr): Addr {
    var n := FRESH.(addrType := o.addrType, len := |Body(o)|);
    if o.addrType == NETINFO_ADDR_TYPE_IPV4 then n.(ipv4 := o.ipv4)
    else if o.addrType == NETINFO_ADDR_TYPE_IPV6 then n.(ipv6 := o.ipv6)
    else n
  }

  lemma BodyBack(o: Addr)
    ensures FromBody(o.addrType, Body(o)) == Some(NormalAddr(o)) && Body(NormalAddr(o)) == Body(o)
  {
    if o.addrType == NETINFO_ADDR_TYPE_IPV4 {
      assert Body(o)[0..4] == Put32(o.ipv4);
      At32(Body(o), 0, o.ipv4);
    }
  }

  lemma AddrFinal(b: bytes, c: bytes)
    requires b <= c
    ensures FinalAll(ParseAddr, b, c)
  {
    forall at: nat ensures Final(ParseAddr(b, at), ParseAddr(c, at)) {
      if at + 2 <= |b| && at + 2 + b[at + 1] <= |b| {
        assert c[at + 2..at + 2 + b[at + 1]] == b[at + 2..at + 2 + b[at + 1]];
      }
    }
  }

  lemma AddrBounded(b: bytes)
    ensures Bounded(ParseAddr, AddrOk, b)
  {
  }

  lemma AddrReturns(b: bytes, o: Addr)
    ensures Returns(ParseAddr, EncodeAddr, NormalAddr, b, o)
  {
    hide Body, FromBody, NormalAddr;
    var w := [o.addrType, |Body(o)|];
    BodyBack(o);
    forall at: nat | At(b, at, EncodeAddr(o)) ensures ParseAddr(b, at) == Ok(NormalAddr(o), at + |EncodeAddr(o)|) {
      AtCat(b, at, w, Body(o));
      assert b[at..at + 2][0] == w[0] && b[at..at + 2][1] == w[1];
    }
  }

  /** Encoding gives the parsed bytes back exactly unless a body was skipped. */
  lemma BytesKeptIff(b: bytes, at: nat)
    requires ParseAddr(b, at).Ok?
    ensures var r := ParseAddr(b, at);
            at + 2 <= r.end <= |b| && (EncodeAddr(r.v) == b[at..r.end] <==> Known(b[at]) || b[at + 1] == 0)
  {
    var n := b[at + 1];
    var s, o := b[at + 2..at + 2 + n], ParseAddr(b, at).v;
    assert b[at..at + 2 + n] == [b[at], n] + s;
    if b[at] == NETINFO_ADDR_TYPE_IPV4 {
      At32(s, 0, Get32(s, 0));
      assert Body(o) == s;
    }
    assert EncodeAddr(o)[1] == |Body(o)|;
  }

  method EncodeAddrInto(w: Writer, o: Addr) returns (r: int)
    requires w.Valid()
    modifies w, w.out
    ensures w.Valid() && w.avail == old(w.avail)
    ensures Encoded(r, AddrResult(o, old(w.Room())), old(w.done), w.done, EncodeAddr(o))
  {
    hide Body, Patch, Over;
    if o.error { return -1; }
    ghost var d := w.done;
    var start := w.written;
    var ok := w.Put([o.addrType]);
    if !ok { return -2; }
    ok := w.Put([o.len]);
    if !ok { return -2; }
    var before := w.written;
    ok := PutBody(w, o);
    if !ok { return -2; }
    w.PutBack(start + 1, [w.written - before]);
    PatchedBack(d, [o.addrType], [o.len], Body(o), [w.written - before]);
    return w.written - start;
  }

  method PutBody(w: Writer, o: Addr) returns (ok: bool)
    requires w.Valid()
    modifies w, w.out
    ensures w.Valid() && w.avail == old(w.avail) && ok == (|Body(o)| <= old(w.Room()))
    ensures old(w.done) <= w.done && (ok ==> w.done == old(w.done) + Body(o))
  {
    hide Patch;
    ok := true;
    if o.addrType == NETINFO_ADDR_TYPE_IPV4 {
      ok := w.Put(Put32(o.ipv4));
    } else if o.addrType == NETINFO_ADDR_TYPE_IPV6 {
      ok := w.Put(o.ipv6);
    }
  }

  method ParseAddrFrom(rd: Reader) returns (r: int, o: Addr)
    requires rd.Valid()
    modifies rd
    ensures rd.Valid() && Parses(ParseAddr(old(rd.View()), old(rd.ptr)), old(rd.ptr), r, o)
    ensures r >= 0 ==> rd.Ahead(r)
  {
    hide FromBody;
    ghost var b, at := rd.View(), rd.ptr;
    var lenIn := rd.remaining;
    o := FRESH;
    var ok, ty := rd.Take8();
    if !ok { return -2, o; }
    var len;
    ok, len := rd.Take8();
    if !ok { return -2, o; }
    o := o.(addrType := ty, len := len);
    var after;
    ok, after := rd.Enter(len);
    if !ok { return -2, o; }
    ghost var s := b[at + 2..at + 2 + len];
    assert rd.View()[at + 2..] == s;
    ok, o := ParseArm(rd, o, s);
    if !ok { return -1, o; }
    if rd.remaining != 0 { return -1, o; }
    rd.Leave(after);
    assert rd.View() == b;
    return lenIn - rd.remaining, o;
  }

  method ParseArm(rd: Reader, o0: Addr, ghost s: bytes) returns (ok: bool, o: Addr)
    requires rd.Valid() && rd.View()[rd.ptr..] == s && |s| < 0x100 && o0 == FRESH.(addrType := o0.addrType, len := |s|)
    modifies rd
    ensures rd.Valid() && rd.ptr + rd.remaining == old(rd.ptr + rd.remaining)
    ensures (ok && rd.remaining == 0) == FromBody(o0.addrType, s).Some?
    ensures ok && rd.remaining == 0 ==> o == FromBody(o0.addrType, s).v
  {
    ok, o := true, o0;
    if o.addrType == NETINFO_ADDR_TYPE_IPV4 {
      var x;
      ok, x := rd.Take32();
      if !ok { return; }
      o := o.(ipv4 := x);
    } else if o.addrType == NETINFO_ADDR_TYPE_IPV6 {
      var x;
      ok, x := rd.Take(16);
      if !ok { return; }
      o := o.(ipv6 := x);
    } else {
      rd.ptr, rd.remaining := rd.ptr + rd.remaining, 0;
    }
  }

  // ---------- netinfo_cell ----------

  /** other_addr is None in a new object. */
  datatype Cell = Cell(timestamp: u32, otherAddr: Option<Addr>, nMyAddrs: byte, myAddrs: seq<Addr>, error: bool)

  function Parse(b: bytes, at: nat): Parsed<Cell> {
    if |b| < at + 4 then Truncated
    else
      match ParseAddr(b, at + 4)
      case Truncated => Truncated
      case Invalid => Invalid
      case Ok(other, mid) =>
        if |b| < mid + 1 then Truncated
        else
          match Many(ParseAddr, b, mid + 1, b[mid], [])
          case Truncated => Truncated
          case Invalid => Invalid
          case Ok(addrs, end) => Ok(Cell(Get32(b, at), Some(other), b[mid], addrs, false), end)
  }

  predicate CheckOk(o: Cell) {
    && !o.error && o.otherAddr.Some? && AddrOk(o.otherAddr.v) && |o.myAddrs| == o.nMyAddrs
    && forall i :: 0 <= i < |o.myAddrs| ==> AddrOk(o.myAddrs[i])
  }

  function Front(o: Cell): bytes {
    Put32(o.timestamp) + (if o.otherAddr.Some? then EncodeAddr(o.otherAddr.v) else []) + [o.nMyAddrs]
  }

  function Encode(o: Cell): bytes { Front(o) + EncodeFrom(EncodeAddr, o.myAddrs, 0) }

  function Normal(o: Cell): Cell {
    o.(otherAddr := if o.otherAddr.Some? then Some(NormalAddr(o.otherAddr.v)) else None,
       myAddrs := Normals(NormalAddr, o.myAddrs))
  }

  /** netinfo_cell_encoded_len */
  function EncodedLen(o: Cell): int {
    if !CheckOk(o) then -1 else 4 + AddrLen(o.otherAddr.v) + 1 + SumLen(AddrLen, o.myAddrs, 0)
  }

  function Result(o: Cell, avail: int): int {
    if !CheckOk(o) then -1
    else if avail < |Front(o)| then -2
    else
      var r := ManyResult(AddrResult, o.myAddrs, 0, avail - |Front(o)|);
      if r < 0 then r else |Front(o)| + r
  }

  lemma VerdictFinal(b: bytes, c: bytes, at: nat)
    requires b <= c
    ensures Final(Parse(b, at), Parse(c, at))
  {
    AddrFinal(b, c);
    assert Final(ParseAddr(b, at + 4), ParseAddr(c, at + 4));
    if at + 4 <= |b| && ParseAddr(b, at + 4).Ok? {
      Longer(b, c, at, 4);
      var mid := ParseAddr(b, at + 4).end;
      if mid + 1 <= |b| {
        Longer(b, c, mid, 1);
        ManyFinal(ParseAddr, b, c, mid + 1, b[mid], []);
      }
    }
  }

  lemma ParsedIsOk(b: bytes, at: nat)
    ensures var r := Parse(b, at); r.Ok? ==> CheckOk(r.v) && r.end <= |b|
  {
    var r := Parse(b, at);
    if r.Ok? {
      AddrBounded(b);
      ManyBounded(ParseAddr, AddrOk, b, ParseAddr(b, at + 4).end + 1, b[ParseAddr(b, at + 4).end], []);
    }
  }

  lemma PrefixTruncatedToo(b: bytes, c: bytes)
    requires b <= c && Parse(c, 0).Ok? && |b| < Parse(c, 0).end
    ensures Parse(b, 0) == Truncated
  {
    VerdictFinal(b, c, 0);
    ParsedIsOk(b, 0);
    PrefixTruncated(Parse(b, 0), Parse(c, 0), b, c);
  }

  lemma AddrsReturn(b: bytes, at: nat, addrs: seq<Addr>)
    requires At(b, at, EncodeFrom(EncodeAddr, addrs, 0)) && forall k :: 0 <= k < |addrs| ==> AddrOk(addrs[k])
    ensures Many(ParseAddr, b, at, |addrs|, [])
         == Ok(Normals(NormalAddr, addrs), at + |EncodeFrom(EncodeAddr, addrs, 0)|)
  {
    hide ParseAddr, EncodeAddr, NormalAddr, AddrOk, Many, EncodeFrom;
    forall k | 0 <= k < |addrs| ensures Returns(ParseAddr, EncodeAddr, NormalAddr, b, addrs[k]) {
      AddrReturns(b, addrs[k]);
    }
    assert Normals(NormalAddr, addrs)[..0] == [];
    ManyReturns(ParseAddr, EncodeAddr, NormalAddr, b, at, addrs, 0);
  }

  lemma RoundTrip(o: Cell, rest: bytes)
    requires CheckOk(o)
    ensures Parse(Encode(o) + rest, 0) == Ok(Normal(o), |Encode(o)|)
  {
    hide ParseAddr, EncodeAddr, NormalAddr, AddrOk, Put32, Get32, EncodeFrom, Many, Normals;
    var b, addrs, other := Encode(o) + rest, EncodeFrom(EncodeAddr, o.myAddrs, 0), EncodeAddr(o.otherAddr.v);
    assert b[0..|Encode(o)|] == Encode(o);
    AtCat(b, 0, Front(o), addrs);
    AtCat(b, 0, Put32(o.timestamp) + other, [o.nMyAddrs]);
    AtCat(b, 0, Put32(o.timestamp), other);
    At32(b, 0, o.timestamp);
    AtByte(b, 4 + |other|, o.nMyAddrs);
    AddrReturns(b, o.otherAddr.v);
    AddrsReturn(b, |Front(o)|, o.myAddrs);
  }

  lemma NormalEncodes(o: Cell)
    ensures Encode(Normal(o)) == Encode(o)
  {
    forall k | 0 <= k < |o.myAddrs| ensures EncodeAddr(NormalAddr(o.myAddrs[k])) == EncodeAddr(o.myAddrs[k]) {
      BodyBack(o.myAddrs[k]);
    }
    if o.otherAddr.Some? { BodyBack(o.otherAddr.v); }
    EncodeFromSame(EncodeAddr, NormalAddr, o.myAddrs, 0);
  }

  /** Re-encoding what was parsed may drop skipped bodies, but doing it again changes nothing more. */
  lemma ReencodeIdempotent(b: bytes)
    requires Parse(b, 0).Ok?
    ensures var w := Encode(Parse(b, 0).v); Parse(w, 0).Ok? && Parse(w, 0).end == |w| && Encode(Parse(w, 0).v) == w
  {
    var o := Parse(b, 0).v;
    ParsedIsOk(b, 0);
    RoundTrip(o, []);
    assert Encode(o) + [] == Encode(o);
    NormalEncodes(o);
  }

  lemma Fits(o: Cell, avail: nat)
    requires CheckOk(o)
    ensures FitsOrTruncated(Result(o, avail), |Encode(o)|, avail) && EncodedLen(o) == |Encode(o)|
  {
    SumLenIs(AddrLen, EncodeAddr, o.myAddrs, 0);
    forall x, a {:trigger AddrResult(x, a)} | AddrOk(x) && 0 <= a
      ensures FitsOrTruncated(AddrResult(x, a), |EncodeAddr(x)|, a)
    {
    }
    if |Front(o)| <= avail { ManyFits(AddrResult, EncodeAddr, AddrOk, o.myAddrs, 0, avail - |Front(o)|); }
  }

  method Check(o: Cell) returns (ok: bool)
    ensures ok == CheckOk(o)
  {
    if o.error || o.otherAddr.None? || o.otherAddr.v.error { return false; }
    for i := 0 to |o.myAddrs|
      invariant forall k :: 0 <= k < i ==> AddrOk(o.myAddrs[k])
    {
      if o.myAddrs[i].error { return false; }
    }
    return |o.myAddrs| == o.nMyAddrs;
  }

  /** netinfo_cell_encode */
  method EncodeInto(w: Writer, o: Cell) returns (r: int)
    requires w.Valid()
    modifies w, w.out
    ensures w.Valid() && w.avail == old(w.avail)
    ensures Encoded(r, Result(o, old(w.Room())), old(w.done), w.done, Encode(o))
  {
    hide Front, CheckOk, Patch;
    var ok := Check(o);
    if !ok { return -1; }
    ghost var d := w.done;
    var start := w.written;
    ok := PutFront(w, o);
    if !ok { return -2; }
    r := PutAddrs(w, o.myAddrs);
    if r < 0 { return; }
    Regrouped(d, Front(o), EncodeFrom(EncodeAddr, o.myAddrs, 0));
    return w.written - start;
  }

  method PutFront(w: Writer, o: Cell) returns (ok: bool)
    requires w.Valid() && CheckOk(o)
    modifies w, w.out
    ensures w.Valid() && w.avail == old(w.avail) && ok == (|Front(o)| <= old(w.Room()))
    ensures old(w.done) <= w.done && (ok ==> w.done == old(w.done) + Front(o))
  {
    hide Body, Put32, Patch;
    ghost var d := w.done;
    ok := w.Put(Put32(o.timestamp));
    if !ok { return; }
    var r := EncodeAddrInto(w, o.otherAddr.v);
    if r < 0 { return false; }
    ok := w.Put([o.nMyAddrs]);
    Regrouped3(d, Put32(o.timestamp), EncodeAddr(o.otherAddr.v), [o.nMyAddrs]);
  }

  method PutAddrs(w: Writer, addrs: seq<Addr>) returns (r: int)
    requires w.Valid()
    modifies w, w.out
    ensures w.Valid() && w.avail == old(w.avail)
    ensures Encoded(r, ManyResult(AddrResult, addrs, 0, old(w.Room())), old(w.done), w.done, EncodeFrom(EncodeAddr, addrs, 0))
  {
    hide AddrResult, EncodeAddr, Patch;
    ghost var d, room := w.done, w.Room();
    var start, idx := w.written, 0;
    while idx < |addrs|
      invariant 0 <= idx <= |addrs| && w.Valid() && w.avail == old(w.avail) && d <= w.done
      invariant w.done + EncodeFrom(EncodeAddr, addrs, idx) == d + EncodeFrom(EncodeAddr, addrs, 0)
      invariant ManyResult(AddrResult, addrs, 0, room)
             == (var q := ManyResult(AddrResult, addrs, idx, w.Room()); if q < 0 then q else q + w.written - start)
    {
      ghost var done := w.done;
      r := EncodeAddrInto(w, addrs[idx]);
      if r < 0 { return; }
      Regrouped(done, EncodeAddr(addrs[idx]), EncodeFrom(EncodeAddr, addrs, idx + 1));
      idx := idx + 1;
    }
    assert w.done + [] == w.done;
    return w.written - start;
  }

  /** netinfo_cell_parse */
  method ParseFrom(rd: Reader) returns (r: int, o: Cell)
    requires rd.Valid()
    modifies rd
    ensures rd.Valid() && Parses(Parse(old(rd.View()), old(rd.ptr)), old(rd.ptr), r, o)
    ensures r >= 0 ==> rd.Ahead(r)
  {
    hide ParseAddr, Get32;
    var lenIn := rd.remaining;
    o := Cell(0, None, 0, [], false);
    var ok, stamp := rd.Take32();
    if !ok { return -2, o; }
    o := o.(timestamp := stamp);
    var other;
    r, other := ParseAddrFrom(rd);
    if r < 0 { return; }
    o := o.(otherAddr := Some(other));
    var n;
    ok, n := rd.Take8();
    if !ok { return -2, o; }
    o := o.(nMyAddrs := n);
    var addrs;
    r, addrs := ParseAddrs(rd, n);
    if r < 0 { return; }
    return lenIn - rd.remaining, o.(myAddrs := addrs);
  }

  method ParseAddrs(rd: Reader, n: byte) returns (r: int, addrs: seq<Addr>)
    requires rd.Valid()
    modifies rd
    ensures rd.Valid() && Parses(Many(ParseAddr, old(rd.View()), old(rd.ptr), n, []), old(rd.ptr), r, addrs)
    ensures r >= 0 ==> rd.Ahead(r)
  {
    hide ParseAddr;
    ghost var b, at := rd.View(), rd.ptr;
    var lenIn, idx := rd.remaining, 0;
    addrs := [];
    while idx < n
      invariant 0 <= idx <= n && rd.Valid() && rd.View() == b && at <= rd.ptr && rd.ptr + rd.remaining == at + lenIn
      invariant Many(ParseAddr, b, rd.ptr, n - idx, addrs) == Many(ParseAddr, b, at, n, [])
    {
      var q, elt := ParseAddrFrom(rd);
      if q < 0 { return q, addrs; }
      addrs := addrs + [elt];
      idx := idx + 1;
    }
    return lenIn - rd.remaining, addrs;
  }
}
