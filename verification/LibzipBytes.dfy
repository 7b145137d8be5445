/**
 The byte layer of the vendored libzip: little-endian integers and a stdio
 stream, which is a byte sequence with a position.
 */
module ZipBytes {
  import opened Basics

  type U16 = x: int | 0 <= x < 0x1_0000
  type U32 = x: int | 0 <= x < 0x1_0000_0000
  type Data = seq<Byte>

  /** Assignment to `unsigned short` and to `unsigned int`. */
  function ToU16(x: int): U16 { x % 0x1_0000 }

  function ToU32(x: int): U32 { x % 0x1_0000_0000 }

  /** Assignment of an `unsigned int` to `int`. */
  function ToI32(x: U32): int {
    if x < 0x8000_0000 then x else x - 0x1_0000_0000
  }

  function Le2(n: U16): Data { [n % 0x100, n / 0x100] }

  function Le4(n: U32): Data {
    [n % 0x100, n / 0x100 % 0x100, n / 0x1_0000 % 0x100, n / 0x100_0000]
  }

  function Get2(s: Data, at: nat): U16
    requires at + 2 <= |s|
  {
    var lo: int, hi: int := s[at], s[at + 1];
    lo + 0x100 * hi
  }

  function Get4(s: Data, at: nat): U32
    requires at + 4 <= |s|
  {
    var b0: int, b1: int, b2: int, b3: int := s[at], s[at + 1], s[at + 2], s[at + 3];
    ((b3 * 0x100 + b2) * 0x100 + b1) * 0x100 + b0
  }

  lemma Get2Le2(s: Data, at: nat, n: U16)
    requires at + 2 <= |s| && s[at..at + 2] == Le2(n)
    ensures Get2(s, at) == n
  {
    assert s[at] == s[at..at + 2][0] && s[at + 1] == s[at..at + 2][1];
  }

  lemma Get4Le4(s: Data, at: nat, n: U32)
    requires at + 4 <= |s| && s[at..at + 4] == Le4(n)
    ensures Get4(s, at) == n
  {
    var w := s[at..at + 4];
    assert s[at] == w[0] && s[at + 1] == w[1] && s[at + 2] == w[2] && s[at + 3] == w[3];
    assert n == n / 0x100 * 0x100 + n % 0x100;
    assert n / 0x100 == n / 0x1_0000 * 0x100 + n / 0x100 % 0x100;
    assert n / 0x1_0000 == n / 0x100_0000 * 0x100 + n / 0x1_0000 % 0x100;
  }

  // ----- records: runs of two- and four-byte integers

  predicate Layout(ws: seq<nat>) {
    forall i | 0 <= i < |ws| :: ws[i] == 2 || ws[i] == 4
  }

  predicate Fits(v: U32, w: nat) { w == 2 ==> v < 0x1_0000 }

  predicate FitsAll(ws: seq<nat>, vs: seq<U32>) {
    Layout(ws) && |vs| == |ws| && forall i | 0 <= i < |ws| :: Fits(vs[i], ws[i])
  }

  /** The number of bytes of the fields from the `i`-th on. */
  function Width(ws: seq<nat>, i: nat): nat
    requires i <= |ws|
    decreases |ws| - i
  {
    if i == |ws| then 0 else ws[i] + Width(ws, i + 1)
  }

  function Le(v: U32, w: nat): (s: Data)
    requires (w == 2 || w == 4) && Fits(v, w)
    ensures |s| == w
  {
    if w == 2 then Le2(v) else Le4(v)
  }

  function Get(s: Data, at: nat, w: nat): (v: U32)
    requires (w == 2 || w == 4) && at + w <= |s|
    ensures Fits(v, w)
  {
    if w == 2 then Get2(s, at) else Get4(s, at)
  }

  function PutFields(ws: seq<nat>, vs: seq<U32>, i: nat): (s: Data)
    requires FitsAll(ws, vs) && i <= |ws|
    ensures |s| == Width(ws, i)
    decreases |ws| - i
  {
    if i == |ws| then [] else Le(vs[i], ws[i]) + PutFields(ws, vs, i + 1)
  }

  function GetFields(ws: seq<nat>, s: Data, at: nat, i: nat): (vs: seq<U32>)
    requires Layout(ws) && i <= |ws| && at + Width(ws, i) <= |s|
    ensures |vs| == |ws| - i
    ensures forall k | 0 <= k < |vs| :: Fits(vs[k], ws[i + k])
    decreases |ws| - i
  {
    if i == |ws| then [] else [Get(s, at, ws[i])] + GetFields(ws, s, at + ws[i], i + 1)
  }

  /** Fields read where they were written come back unchanged. */
  lemma {:induction false} FieldsReadBack(ws: seq<nat>, vs: seq<U32>, i: nat, s: Data, at: nat)
    requires FitsAll(ws, vs) && i <= |ws| && at + Width(ws, i) <= |s|
    requires s[at..at + Width(ws, i)] == PutFields(ws, vs, i)
    ensures GetFields(ws, s, at, i) == vs[i..]
    decreases |ws| - i
  {
    hide Le2, Le4, Get2, Get4;
    if i < |ws| {
      var w := ws[i];
      Pieces(s, at, Le(vs[i], w), PutFields(ws, vs, i + 1));
      if w == 2 { Get2Le2(s, at, vs[i]); } else { Get4Le4(s, at, vs[i]); }
      FieldsReadBack(ws, vs, i + 1, s, at + w);
    }
  }

  /** Two adjacent pieces of a stream. */
  lemma Pieces(s: Data, at: nat, a: Data, b: Data)
    requires at + |a| + |b| <= |s| && s[at..at + (|a| + |b|)] == a + b
    ensures s[at..at + |a|] == a
    ensures s[at + |a|..at + |a| + |b|] == b
  {
    Slice(s, at, |a| + |b|, 0, |a|);
    Slice(s, at, |a| + |b|, |a|, |b|);
    assert (a + b)[0..|a|] == a && (a + b)[|a|..|a| + |b|] == b;
  }

  /** Reading depends only on the bytes of the record. */
  lemma {:induction false} FieldsElsewhere(ws: seq<nat>, i: nat, a: Data, p: nat, b: Data, q: nat)
    requires Layout(ws) && i <= |ws|
    requires p + Width(ws, i) <= |a| && q + Width(ws, i) <= |b|
    requires a[p..p + Width(ws, i)] == b[q..q + Width(ws, i)]
    ensures GetFields(ws, a, p, i) == GetFields(ws, b, q, i)
    decreases |ws| - i
  {
    if i < |ws| {
      var w, n := ws[i], Width(ws, i);
      Slice(a, p, n, 0, w); Slice(b, q, n, 0, w);
      Slice(a, p, n, w, n - w); Slice(b, q, n, w, n - w);
      GetElsewhere(a, p, b, q, w);
      FieldsElsewhere(ws, i + 1, a, p + w, b, q + w);
    }
  }

  lemma GetElsewhere(a: Data, p: nat, b: Data, q: nat, w: nat)
    requires w == 2 || w == 4
    requires p + w <= |a| && q + w <= |b| && a[p..p + w] == b[q..q + w]
    ensures Get(a, p, w) == Get(b, q, w)
  {
    var x, y := a[p..p + w], b[q..q + w];
    assert x[0] == a[p] && y[0] == b[q] && x[1] == a[p + 1] && y[1] == b[q + 1];
    if w == 4 {
      assert x[2] == a[p + 2] && y[2] == b[q + 2] && x[3] == a[p + 3] && y[3] == b[q + 3];
    }
  }

  lemma Slice(s: Data, p: nat, n: nat, i: nat, k: nat)
    requires p + n <= |s| && i + k <= n
    ensures s[p..p + n][i..i + k] == s[p + i..p + i + k]
  {
    var a, b := s[p..p + n][i..i + k], s[p + i..p + i + k];
    assert |a| == |b|;
    forall j | 0 <= j < |a| ensures a[j] == b[j] {
      assert a[j] == s[p..p + n][i + j];
    }
  }

  /** What a stream holds after `bs` is written at position `at`. */
  function Overwrite(s: Data, at: nat, bs: Data): Data
    requires at <= |s|
  {
    s[..at] + bs + if at + |bs| <= |s| then s[at + |bs|..] else []
  }

  lemma OverwriteTwice(s: Data, at: nat, a: Data, b: Data)
    requires at <= |s|
    ensures Overwrite(Overwrite(s, at, a), at + |a|, b) == Overwrite(s, at, a + b)
  {
  }

  lemma OverwriteNothing(s: Data, at: nat)
    requires at <= |s|
    ensures Overwrite(s, at, []) == s
  {
  }

  lemma OverwriteEnd(s: Data, bs: Data)
    ensures Overwrite(s, |s|, bs) == s + bs
  {
  }

  function Min(a: int, b: int): int { if a < b then a else b }

  /** The fold that zlib's `crc32` is, over a step that is not looked into. */
  function Crc(step: (U32, Byte) -> U32, crc: U32, s: Data): U32
    decreases |s|
  {
    if s == [] then crc else Crc(step, step(crc, s[0]), s[1..])
  }

  lemma CrcEmpty(step: (U32, Byte) -> U32, crc: U32)
    ensures Crc(step, crc, []) == crc
  {
  }

  lemma {:induction false} CrcAppend(step: (U32, Byte) -> U32, crc: U32, a: Data, b: Data)
    ensures Crc(step, crc, a + b) == Crc(step, Crc(step, crc, a), b)
    decreases |a|
  {
    if a == [] {
      assert a + b == b;
    } else {
      assert (a + b)[1..] == a[1..] + b;
      CrcAppend(step, step(crc, a[0]), a[1..], b);
    }
  }

  /** A stdio stream without I/O errors. */
  class Stream {
    var bytes: Data
    var pos: nat

    constructor (contents: Data)
      ensures bytes == contents && pos == 0
    {
      bytes, pos := contents, 0;
    }

    /** `fseeko(fp, to, SEEK_SET)` */
    method Seek(to: nat)
      modifies `pos
      ensures pos == to
    {
      pos := to;
    }

    /** `fread(buf, 1, n, fp)`; the count is the length of what is returned. */
    method Read(n: nat) returns (got: Data)
      modifies `pos
      ensures got == if InRange(old(pos)) then bytes[old(pos)..Min(old(pos) + n, |bytes|)] else []
      ensures pos == old(pos) + |got|
    {
      if pos <= |bytes| {
        got := bytes[pos..Min(pos + n, |bytes|)];
      } else {
        got := [];
      }
      pos := pos + |got|;
    }

    predicate InRange(p: nat)
      reads `bytes
    {
      p <= |bytes|
    }

    /** `fwrite(bs, 1, |bs|, fp)` */
    method Write(bs: Data)
      requires pos <= |bytes|
      modifies this
      ensures bytes == Overwrite(old(bytes), old(pos), bs)
      ensures pos == old(pos) + |bs| <= |bytes|
    {
      bytes := Overwrite(bytes, pos, bs);
      pos := pos + |bs|;
    }

    /**
     One more piece of a record that is written in several calls: `base` is the
     stream before the record, `start` where it begins and `sofar` its bytes up
     to now.
     */
    method Put(ghost base: Data, ghost start: nat, ghost sofar: Data, bs: Data) returns (ghost after: Data)
      requires start <= |base|
      requires bytes == Overwrite(base, start, sofar) && pos == start + |sofar|
      modifies this
      ensures after == sofar + bs
      ensures bytes == Overwrite(base, start, after) && pos == start + |after| <= |bytes|
    {
      OverwriteTwice(base, start, sofar, bs);
      Write(bs);
      after := sofar + bs;
    }

    /** The fields of a record, one after the other. */
    method PutRecord(ws: seq<nat>, vs: seq<U32>, ghost base: Data, ghost start: nat, ghost sofar: Data)
      returns (ghost after: Data)
      requires FitsAll(ws, vs)
      requires start <= |base|
      requires bytes == Overwrite(base, start, sofar) && pos == start + |sofar|
      modifies this
      ensures after == sofar + PutFields(ws, vs, 0)
      ensures bytes == Overwrite(base, start, after) && pos == start + |after| <= |bytes|
    {
      after := sofar;
      for i := 0 to |ws|
        invariant bytes == Overwrite(base, start, after) && pos == start + |after|
        invariant after + PutFields(ws, vs, i) == sofar + PutFields(ws, vs, 0)
      {
        assert after + PutFields(ws, vs, i) == after + Le(vs[i], ws[i]) + PutFields(ws, vs, i + 1);
        after := Put(base, start, after, Le(vs[i], ws[i]));
      }
      assert PutFields(ws, vs, |ws|) == [];
    }
  }
}
