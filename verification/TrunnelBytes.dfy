/**
 What all trunnel formats are made of: bytes and numbers in network order, the outcome of parsing, and
 lists of elements of one format.  A format is a parser, which reads at a position of the input, and an
 encoder; the laws relate the two.
 */
module TrunnelBytes {

  type byte = x: int | 0 <= x < 0x100
  type u16 = x: int | 0 <= x < 0x1_0000
  type u32 = x: int | 0 <= x < 0x1_0000_0000
  type bytes = seq<byte>

  type Bytes16 = s: bytes | |s| == 16 witness Zeros(16)
  type Bytes20 = s: bytes | |s| == 20 witness Zeros(20)
  type Bytes24 = s: bytes | |s| == 24 witness Zeros(24)
  type Bytes32 = s: bytes | |s| == 32 witness Zeros(32)
  type Bytes64 = s: bytes | |s| == 64 witness Zeros(64)
  type Bytes8 = s: bytes | |s| == 8 witness Zeros(8)

  function Zeros(n: nat): bytes { seq(n, _ => 0) }

  /** Outcome of a parser: the object and the position behind it, the code's -2, or its -1. */
  datatype Parsed<T> = Ok(v: T, end: nat) | Truncated | Invalid

  datatype Option<T> = None | Some(v: T)

  // ---------- numbers ----------

  function Put16(x: u16): (r: bytes)
    ensures |r| == 2
  {
    [x / 0x100, x % 0x100]
  }
  function Put32(x: u32): (r: bytes)
    ensures |r| == 4
  {
    Put16(x / 0x1_0000) + Put16(x % 0x1_0000)
  }
  function Get16(b: bytes, at: nat): u16
    requires at + 2 <= |b|
  {
    (b[at] as int) * 0x100 + b[at + 1]
  }
  function Get32(b: bytes, at: nat): u32
    requires at + 4 <= |b|
  {
    (Get16(b, at) as int) * 0x1_0000 + Get16(b, at + 2)
  }

  /** The bytes w are in b from position `at` on. */
  predicate At(b: bytes, at: nat, w: bytes) {
    at + |w| <= |b| && b[at..at + |w|] == w
  }

  lemma AtCat(b: bytes, at: nat, u: bytes, w: bytes)
    ensures At(b, at, u + w) <==> At(b, at, u) && At(b, at + |u|, w)
  {
    if at + |u| + |w| <= |b| {
      assert b[at..at + |u| + |w|] == b[at..at + |u|] + b[at + |u|..at + |u| + |w|];
      if At(b, at, u + w) {
        assert b[at..at + |u|] == (u + w)[..|u|];
        assert b[at + |u|..at + |u| + |w|] == (u + w)[|u|..];
      }
    }
  }

  lemma AtByte(b: bytes, at: nat, x: byte)
    ensures At(b, at, [x]) <==> at < |b| && b[at] == x
  {
  }

  lemma At16(b: bytes, at: nat, x: u16)
    ensures At(b, at, Put16(x)) <==> at + 2 <= |b| && Get16(b, at) == x
  {
    if at + 2 <= |b| {
      assert b[at..at + 2] == [b[at], b[at + 1]];
      assert ((b[at] as int) * 0x100 + b[at + 1]) / 0x100 == b[at];
    }
  }

  lemma At32(b: bytes, at: nat, x: u32)
    ensures At(b, at, Put32(x)) <==> at + 4 <= |b| && Get32(b, at) == x
  {
    AtCat(b, at, Put16(x / 0x1_0000), Put16(x % 0x1_0000));
    At16(b, at, x / 0x1_0000);
    At16(b, at + 2, x % 0x1_0000);
    assert Put32(x) == Put16(x / 0x1_0000) + Put16(x % 0x1_0000);
    if at + 4 <= |b| {
      assert ((Get16(b, at) as int) * 0x1_0000 + Get16(b, at + 2)) / 0x1_0000 == Get16(b, at);
    }
  }

  /** Reading is the same in a longer input. */
  lemma Longer(b: bytes, c: bytes, at: nat, n: nat)
    requires b <= c && at + n <= |b|
    ensures c[at..at + n] == b[at..at + n]
    ensures n == 2 ==> Get16(c, at) == Get16(b, at)
    ensures n == 4 ==> Get32(c, at) == Get32(b, at)
    ensures n == 1 ==> c[at] == b[at]
  {
    assert forall i :: at <= i < at + n ==> c[i] == b[i];
  }

  // ---------- the laws of a format ----------

  /** A verdict other than "truncated" does not change when bytes are added. */
  predicate Final<T(==)>(p: Parsed<T>, q: Parsed<T>) {
    p == Truncated || q == p
  }

  ghost predicate FinalAll<T(!new)>(p: (bytes, nat) -> Parsed<T>, b: bytes, c: bytes) {
    forall at: nat :: Final(p(b, at), p(c, at))
  }

  /** What was read is inside the input, and is what the encoder gives for the object. */
  predicate Reads<T>(r: Parsed<T>, e: T -> bytes, ok: T -> bool, b: bytes, at: nat) {
    r.Ok? ==> ok(r.v) && At(b, at, e(r.v)) && r.end == at + |e(r.v)|
  }

  ghost predicate ReadsAll<T(!new)>(p: (bytes, nat) -> Parsed<T>, e: T -> bytes, ok: T -> bool, b: bytes) {
    forall at: nat :: Reads(p(b, at), e, ok, b, at)
  }

  /** Where the encoding of x is, the parser gives x back, in its normal form. */
  ghost predicate Returns<T(!new)>(p: (bytes, nat) -> Parsed<T>, e: T -> bytes, normal: T -> T, b: bytes, x: T) {
    forall at: nat :: At(b, at, e(x)) ==> p(b, at) == Ok(normal(x), at + |e(x)|)
  }

  /**
   A strict prefix of an accepted input is truncated: otherwise its verdict would be the same, and the
   object would end behind it.
   */
  lemma PrefixTruncated<T>(p: Parsed<T>, q: Parsed<T>, b: bytes, c: bytes)
    requires Final(p, q) && (p.Ok? ==> p.end <= |b|) && b <= c && q.Ok? && |b| < q.end
    ensures p == Truncated
  {
  }

  // ---------- lists ----------

  /** The loop over n elements; `done` are those parsed before. */
  function Many<T>(p: (bytes, nat) -> Parsed<T>, b: bytes, at: nat, n: nat, done: seq<T>): Parsed<seq<T>>
    decreases n
  {
    if n == 0 then Ok(done, at)
    else match p(b, at)
      case Ok(v, end) => Many(p, b, end, n - 1, done + [v])
      case Truncated => Truncated
      case Invalid => Invalid
  }

  /** The encodings of the elements from number i on. */
  function EncodeFrom<T>(e: T -> bytes, xs: seq<T>, i: nat): bytes
    requires i <= |xs|
    decreases |xs| - i
  {
    if i == |xs| then [] else e(xs[i]) + EncodeFrom(e, xs, i + 1)
  }

  function Normals<T>(normal: T -> T, xs: seq<T>): seq<T> {
    seq(|xs|, i requires 0 <= i < |xs| => normal(xs[i]))
  }

  lemma {:induction false} ManyFinal<T(!new)>(p: (bytes, nat) -> Parsed<T>, b: bytes, c: bytes, at: nat, n: nat, done: seq<T>)
    requires FinalAll(p, b, c)
    ensures Final(Many(p, b, at, n, done), Many(p, c, at, n, done))
    decreases n
  {
    if n != 0 {
      assert Final(p(b, at), p(c, at));
      match p(b, at)
      case Ok(v, end) => ManyFinal(p, b, c, end, n - 1, done + [v]);
      case _ =>
    }
  }

  lemma {:induction false} ManyReads<T(!new)>(p: (bytes, nat) -> Parsed<T>, e: T -> bytes, ok: T -> bool, b: bytes,
                                              at: nat, n: nat, done: seq<T>)
    requires ReadsAll(p, e, ok, b) && at <= |b|
    ensures var r := Many(p, b, at, n, done);
            r.Ok? ==>
              && |r.v| == |done| + n && r.v[..|done|] == done && (forall i :: |done| <= i < |r.v| ==> ok(r.v[i]))
              && At(b, at, EncodeFrom(e, r.v, |done|)) && r.end == at + |EncodeFrom(e, r.v, |done|)|
    decreases n
  {
    if n != 0 {
      assert Reads(p(b, at), e, ok, b, at);
      match p(b, at)
      case Ok(v, end) =>
        ManyReads(p, e, ok, b, end, n - 1, done + [v]);
        var r := Many(p, b, end, n - 1, done + [v]);
        if r.Ok? {
          assert r.v[|done|] == r.v[..|done| + 1][|done|] == v;
          assert r.v[..|done|] == r.v[..|done| + 1][..|done|] == done;
          AtCat(b, at, e(v), EncodeFrom(e, r.v, |done| + 1));
        }
      case _ =>
    }
  }

  /** An object read is one the encoder accepts, and ends inside the input. */
  ghost predicate Bounded<T(!new)>(p: (bytes, nat) -> Parsed<T>, ok: T -> bool, b: bytes) {
    forall at: nat :: p(b, at).Ok? ==> ok(p(b, at).v) && p(b, at).end <= |b|
  }

  lemma {:induction false} ManyBounded<T(!new)>(p: (bytes, nat) -> Parsed<T>, ok: T -> bool, b: bytes,
                                                at: nat, n: nat, done: seq<T>)
    requires Bounded(p, ok, b) && at <= |b| && forall i :: 0 <= i < |done| ==> ok(done[i])
    ensures var r := Many(p, b, at, n, done);
            r.Ok? ==> |r.v| == |done| + n && r.end <= |b| && forall i :: 0 <= i < |r.v| ==> ok(r.v[i])
    decreases n
  {
    if n != 0 && p(b, at).Ok? {
      ManyBounded(p, ok, b, p(b, at).end, n - 1, done + [p(b, at).v]);
    }
  }

  lemma {:induction false} ManyReturns<T(!new)>(p: (bytes, nat) -> Parsed<T>, e: T -> bytes, normal: T -> T, b: bytes,
                                                at: nat, xs: seq<T>, i: nat)
    requires i <= |xs| && At(b, at, EncodeFrom(e, xs, i))
    requires forall k :: 0 <= k < |xs| ==> Returns(p, e, normal, b, xs[k])
    ensures Many(p, b, at, |xs| - i, Normals(normal, xs)[..i]) == Ok(Normals(normal, xs), at + |EncodeFrom(e, xs, i)|)
    decreases |xs| - i
  {
    var ns := Normals(normal, xs);
    if i == |xs| {
      assert ns[..i] == ns;
    } else {
      AtCat(b, at, e(xs[i]), EncodeFrom(e, xs, i + 1));
      assert Returns(p, e, normal, b, xs[i]);
      assert ns[..i] + [normal(xs[i])] == ns[..i + 1];
      ManyReturns(p, e, normal, b, at + |e(xs[i])|, xs, i + 1);
    }
  }

  lemma {:induction false} EncodeFromSame<T(!new)>(e: T -> bytes, normal: T -> T, xs: seq<T>, i: nat)
    requires i <= |xs| && forall k :: 0 <= k < |xs| ==> e(normal(xs[k])) == e(xs[k])
    ensures EncodeFrom(e, Normals(normal, xs), i) == EncodeFrom(e, xs, i)
    decreases |xs| - i
  {
    if i != |xs| { EncodeFromSame(e, normal, xs, i + 1); }
  }

  // ---------- what encoders return ----------

  /** The result of encoding elements i, i + 1, ... one after another; `fits` is the result for one element. */
  function ManyResult<T>(fits: (T, int) -> int, xs: seq<T>, i: nat, avail: int): int
    requires i <= |xs|
    decreases |xs| - i
  {
    if i == |xs| then 0
    else
      var r := fits(xs[i], avail);
      if r < 0 then r
      else
        var rest := ManyResult(fits, xs, i + 1, avail - r);
        if rest < 0 then rest else r + rest
  }

  /** The loop of the encoded_len functions over elements i, i + 1, ... */
  function SumLen<T>(len: T -> int, xs: seq<T>, i: nat): int
    requires i <= |xs|
    decreases |xs| - i
  {
    if i == |xs| then 0 else len(xs[i]) + SumLen(len, xs, i + 1)
  }

  lemma {:induction false} SumLenIs<T(!new)>(len: T -> int, e: T -> bytes, xs: seq<T>, i: nat)
    requires i <= |xs| && forall k :: 0 <= k < |xs| ==> len(xs[k]) == |e(xs[k])|
    ensures SumLen(len, xs, i) == |EncodeFrom(e, xs, i)|
    decreases |xs| - i
  {
    if i != |xs| { SumLenIs(len, e, xs, i + 1); }
  }

  /** An encodable object is encoded exactly when there is room for all of it. */
  predicate FitsOrTruncated(r: int, len: nat, avail: int) {
    r == if avail < len then -2 else len
  }

  lemma {:induction false} ManyFits<T(!new)>(fits: (T, int) -> int, e: T -> bytes, ok: T -> bool, xs: seq<T>, i: nat, avail: int)
    requires i <= |xs| && 0 <= avail && forall k :: 0 <= k < |xs| ==> ok(xs[k])
    requires forall x, a {:trigger fits(x, a)} :: ok(x) && 0 <= a ==> FitsOrTruncated(fits(x, a), |e(x)|, a)
    ensures FitsOrTruncated(ManyResult(fits, xs, i, avail), |EncodeFrom(e, xs, i)|, avail)
    decreases |xs| - i
  {
    if i != |xs| {
      assert FitsOrTruncated(fits(xs[i], avail), |e(xs[i])|, avail);
      if |e(xs[i])| <= avail { ManyFits(fits, e, ok, xs, i + 1, avail - |e(xs[i])|); }
    }
  }
}
