/**
 The output buffer an encoder writes to (ptr, written and avail of the C code) and the input a parser
 reads from (ptr and remaining).
 */
module TrunnelBuffers {
  import opened TrunnelBytes

  /** s with the bytes w from position `at` on. */
  function Patch(s: bytes, at: nat, w: bytes): bytes
    requires at + |w| <= |s|
  {
    s[..at] + w + s[at + |w|..]
  }

  lemma PatchMore(s: bytes, at: nat, u: bytes, w: bytes)
    requires at + |u| + |w| <= |s|
    ensures Patch(Patch(s, at, u), at + |u|, w) == Patch(s, at, u + w)
  {
  }

  /** The bytes u with w written over them at k. */
  function Over(u: bytes, k: nat, w: bytes): bytes
    requires k + |w| <= |u|
  {
    u[..k] + w + u[k + |w|..]
  }

  lemma PatchOver(s: bytes, at: nat, u: bytes, k: nat, w: bytes)
    requires at + |u| <= |s| && k + |w| <= |u|
    ensures Patch(Patch(s, at, u), at + k, w) == Patch(s, at, Over(u, k, w))
  {
  }

  /** A field of a known size written back over its place, between what was written before it and after it. */
  lemma PatchedBack(d: bytes, head: bytes, field: bytes, body: bytes, w: bytes)
    requires |w| == |field|
    ensures Over(((d + head) + field) + body, |d| + |head|, w) == d + (head + w + body)
  {
  }

  lemma Regrouped(a: bytes, u: bytes, v: bytes)
    ensures (a + u) + v == a + (u + v)
  {
  }

  lemma Regrouped3(a: bytes, u: bytes, v: bytes, w: bytes)
    ensures ((a + u) + v) + w == a + (u + v + w)
  {
  }

  class Writer {
    const out: array<byte>
    /** where the encoding starts in out */
    const base: nat
    var written: nat
    var avail: nat
    /** the buffer before the encoding, and what has been encoded since */
    ghost const before: bytes
    ghost var done: bytes

    /** Exactly the bytes [base, base + written) have been written, with the encoding. */
    ghost predicate Valid()
      reads this, out
    {
      && |done| == written <= avail && base + avail <= |before| == out.Length
      && out[..] == Patch(before, base, done)
    }

    constructor (out: array<byte>, base: nat, avail: nat)
      requires base + avail <= out.Length
      ensures Valid() && this.out == out && this.base == base && this.avail == avail && done == []
      ensures before == out[..]
    {
      this.out, this.base, this.avail, this.written := out, base, avail, 0;
      before, done := out[..], [];
    }

    lemma OnlyWritten()
      requires Valid()
      ensures forall i :: 0 <= i < out.Length && !(base <= i < base + written) ==> out[i] == before[i]
    {
      forall i | 0 <= i < out.Length && !(base <= i < base + written) ensures out[i] == before[i] {
        assert out[i] == out[..][i];
      }
    }

    /** The room that is left: avail - written */
    function Room(): int
      reads this
    {
      avail - written
    }

    /** if (avail - written < n) goto truncated; memcpy(ptr, w, n); written += n; ptr += n; */
    method Put(w: bytes) returns (ok: bool)
      requires Valid()
      modifies this`written, this`done, out
      ensures Valid() && ok == (|w| <= old(Room()))
      ensures done == if ok then old(done) + w else old(done)
    {
      if avail - written < |w| { return false; }
      ghost var s := out[..];
      forall i | 0 <= i < |w| { out[base + written + i] := w[i]; }
      assert out[..] == Patch(s, base + written, w);
      PatchMore(before, base, done, w);
      written := written + |w|;
      done := done + w;
      return true;
    }

    /** Write over what is k bytes behind the start of the encoding. */
    method PutBack(k: nat, w: bytes)
      requires Valid() && k + |w| <= written
      modifies this`done, out
      ensures Valid() && done == Over(old(done), k, w)
    {
      ghost var s := out[..];
      forall i | 0 <= i < |w| { out[base + k + i] := w[i]; }
      assert out[..] == Patch(s, base + k, w);
      PatchOver(before, base, done, k, w);
      done := Over(done, k, w);
    }
  }

  /** An encoder's result, with what it did to the buffer: the encoding is there, or some part of one. */
  ghost predicate Encoded(r: int, result: int, done0: bytes, done: bytes, encoding: bytes) {
    && r == result
    && (r >= 0 ==> r == |encoding| && done == done0 + encoding)
    && done0 <= done
  }

  class Reader {
    const input: array<byte>
    var ptr: nat
    var remaining: nat

    ghost predicate Valid()
      reads this
    {
      ptr + remaining <= input.Length
    }

    constructor (input: array<byte>, ptr: nat, remaining: nat)
      requires ptr + remaining <= input.Length
      ensures Valid() && this.input == input && this.ptr == ptr && this.remaining == remaining
    {
      this.input, this.ptr, this.remaining := input, ptr, remaining;
    }

    /** The input up to where this reader may read. */
    ghost function View(): bytes
      requires Valid()
      reads this, input
    {
      input[..ptr + remaining]
    }

    /** The reader has gone n bytes ahead. */
    twostate predicate Ahead(n: nat)
      requires old(Valid())
      reads this, input
    {
      && n <= old(remaining) && ptr == old(ptr) + n && remaining == old(remaining) - n
      && View() == old(View())
    }

    /** CHECK_REMAINING(1, ...); x = trunnel_get_uint8(ptr); remaining -= 1; ptr += 1; */
    method Take8() returns (ok: bool, x: byte)
      requires Valid()
      modifies this
      ensures Valid() && ok == (1 <= old(remaining))
      ensures if ok then Ahead(1) && x == View()[old(ptr)] else Ahead(0)
    {
      if remaining < 1 { return false, 0; }
      ok, x := true, input[ptr];
      remaining, ptr := remaining - 1, ptr + 1;
    }

    method Take16() returns (ok: bool, x: u16)
      requires Valid()
      modifies this
      ensures Valid() && ok == (2 <= old(remaining))
      ensures if ok then Ahead(2) && x == Get16(View(), old(ptr)) else Ahead(0)
    {
      if remaining < 2 { return false, 0; }
      ok, x := true, (input[ptr] as int) * 0x100 + input[ptr + 1];
      remaining, ptr := remaining - 2, ptr + 2;
    }

    method Take32() returns (ok: bool, x: u32)
      requires Valid()
      modifies this
      ensures Valid() && ok == (4 <= old(remaining))
      ensures if ok then Ahead(4) && x == Get32(View(), old(ptr)) else Ahead(0)
    {
      if remaining < 4 { return false, 0; }
      x := ((input[ptr] as int) * 0x100 + input[ptr + 1]) * 0x1_0000 + (input[ptr + 2] as int) * 0x100 + input[ptr + 3];
      ok, remaining, ptr := true, remaining - 4, ptr + 4;
    }

    /** CHECK_REMAINING(n, ...); memcpy(field, ptr, n); remaining -= n; ptr += n; */
    method Take(n: nat) returns (ok: bool, x: bytes)
      requires Valid()
      modifies this
      ensures Valid() && ok == (n <= old(remaining))
      ensures if ok then Ahead(n) && x == View()[old(ptr)..old(ptr) + n] else Ahead(0)
    {
      if remaining < n { return false, []; }
      ok, x := true, input[ptr..ptr + n];
      assert x == input[..ptr + remaining][ptr..ptr + n];
      remaining, ptr := remaining - n, ptr + n;
    }

    /** Parse the next n bytes only: remaining = n.  `after` is the code's remaining_after. */
    method Enter(n: nat) returns (ok: bool, after: nat)
      requires Valid()
      modifies this`remaining
      ensures Valid() && ok == (n <= old(remaining))
      ensures if ok then remaining == n && after == old(remaining) - n else remaining == old(remaining)
      ensures ok ==> View()[ptr..] == old(View())[ptr..ptr + n]
    {
      if remaining < n { return false, 0; }
      after := remaining - n;
      ok, remaining := true, n;
    }

    /** The bytes entered have all been parsed: remaining = remaining_after */
    method Leave(after: nat)
      requires Valid() && remaining == 0 && ptr + after <= input.Length
      modifies this`remaining
      ensures Valid() && remaining == after
    {
      remaining := after;
    }
  }

  /** What a parser gives back, against what the grammar says of its input. */
  ghost predicate Parses<T(!new)>(p: Parsed<T>, at: nat, r: int, v: T) {
    match p
    case Ok(x, end) => 0 <= r == end - at && v == x
    case Truncated => r == -2
    case Invalid => r == -1
  }
}
