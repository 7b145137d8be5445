/**
 String conversion in the JavaScript back end of Nim: `cstring` (UTF-16 code units)
 to Nim string (an array of bytes) and back. UTF-16 is RFC 2781, sections 2.1 and
 2.2; UTF-8 is RFC 3629, section 3.
 */
module NimStrings {
  import opened Basics
  import opened Results

  /** A code point that is not a surrogate. */
  type Scalar = x: int | 0 <= x < 0xD800 || 0xE000 <= x < 0x11_0000

  // ----- the two encodings

  predicate Surrogate(u: Unit) { 0xD800 <= u < 0xE000 }

  function Units1(p: Scalar): seq<Unit> {
    if p < 0x1_0000 then [p] else [0xD800 + (p - 0x1_0000) / 0x400, 0xDC00 + (p - 0x1_0000) % 0x400]
  }

  function Units(ps: seq<Scalar>): seq<Unit> {
    if ps == [] then [] else Units1(ps[0]) + Units(ps[1..])
  }

  function Utf8One(p: Scalar): seq<Byte> {
    if p < 0x80 then [p]
    else if p < 0x800 then [p / 0x40 + 0xC0, p % 0x40 + 0x80]
    else if p < 0x1_0000 then [p / 0x1000 + 0xE0, p / 0x40 % 0x40 + 0x80, p % 0x40 + 0x80]
    else [p / 0x4_0000 + 0xF0, p / 0x1000 % 0x40 + 0x80, p / 0x40 % 0x40 + 0x80, p % 0x40 + 0x80]
  }

  function Utf8(ps: seq<Scalar>): seq<Byte> {
    if ps == [] then [] else Utf8One(ps[0]) + Utf8(ps[1..])
  }

  predicate WellFormed(s: seq<Unit>) {
    || s == []
    || (!Surrogate(s[0]) && WellFormed(s[1..]))
    || (|s| > 1 && 0xD800 <= s[0] < 0xDC00 && 0xDC00 <= s[1] < 0xE000 && WellFormed(s[2..]))
  }

  // ----- bit operations on numbers that are not negative

  /** `a | b` */
  function BitOr(a: nat, b: nat): nat {
    if a == 0 then b
    else if b == 0 then a
    else 2 * BitOr(a / 2, b / 2) + if a % 2 == 1 || b % 2 == 1 then 1 else 0
  }

  /** `a & b` */
  function BitAnd(a: nat, b: nat): nat {
    if a == 0 || b == 0 then 0 else 2 * BitAnd(a / 2, b / 2) + if a % 2 == 1 && b % 2 == 1 then 1 else 0
  }

  /** `a >> k` and `a << k` */
  function Shr(a: nat, k: nat): nat
    decreases k
  {
    if k == 0 then a else Shr(a / 2, k - 1)
  }

  function Shl(a: nat, k: nat): nat
    decreases k
  {
    if k == 0 then a else 2 * Shl(a, k - 1)
  }

  /** The number of `k` ones, the low `k` bits of a number, and that it has no others. */
  function Ones(k: nat): nat { if k == 0 then 0 else 2 * Ones(k - 1) + 1 }

  function Low(a: nat, k: nat): nat
    decreases k
  {
    if k == 0 then 0 else 2 * Low(a / 2, k - 1) + a % 2
  }

  predicate Narrow(a: nat, k: nat)
    decreases k
  {
    if k == 0 then a == 0 else Narrow(a / 2, k - 1)
  }

  /** Bit fields that do not overlap: or is addition, from both sides. */
  lemma {:induction false} OrIsPlus(a: nat, b: nat, k: nat)
    requires Narrow(a, k)
    ensures BitOr(a, Shl(b, k)) == BitOr(Shl(b, k), a) == a + Shl(b, k)
    decreases k
  {
    if k > 0 {
      OrIsPlus(a / 2, b, k - 1);
    }
  }

  /** A mask of ones leaves the low bits. */
  lemma {:induction false} MaskIsLow(a: nat, k: nat)
    ensures BitAnd(a, Ones(k)) == Low(a, k)
    decreases k
  {
    if k > 0 {
      MaskIsLow(a / 2, k - 1);
      if a == 0 { LowZero(k); }
    }
  }

  lemma {:induction false} LowZero(k: nat)
    ensures Low(0, k) == 0
  {
    if k > 0 { LowZero(k - 1); }
  }

  lemma {:induction false} ShrTwice(a: nat, j: nat, k: nat)
    ensures Shr(a, j + k) == Shr(Shr(a, j), k)
    decreases j
  {
    if j > 0 { ShrTwice(a / 2, j - 1, k); }
  }

  lemma ShrSix(a: nat)
    ensures Shr(a, 6) == a / 64
  {
    var a2, a4 := a / 2 / 2, a / 2 / 2 / 2 / 2;
    assert a2 == a / 4 && a4 == a / 16 && a4 / 2 / 2 == a / 64;
    assert Shr(a, 6) == Shr(a2, 4) == Shr(a4, 2) == Shr(a4 / 2 / 2, 0);
  }

  lemma Shifts(a: nat)
    ensures Shr(a, 6) == a / 64 && Shr(a, 12) == a / 4096 && Shr(a, 18) == a / 262144
  {
    hide Shr;
    ShrSix(a);
    ShrSix(a / 64);
    ShrSix(a / 4096);
    ShrTwice(a, 6, 6);
    ShrTwice(a, 12, 6);
  }

  lemma LowDoubles(a: nat, k: nat, m: nat)
    requires m > 0 && Low(a / 2, k) == a / 2 % m
    ensures Low(a, k + 1) == a % (2 * m)
  {
    HalfRemainder(a, m);
  }

  lemma HalfRemainder(a: nat, m: nat)
    requires m > 0
    ensures a % (2 * m) == 2 * (a / 2 % m) + a % 2
  {
    var h := a / 2;
    var q, r := h / m, h % m;
    assert h == q * m + r;
    assert a == 2 * h + a % 2;
    assert q * (2 * m) == 2 * (q * m);
    DivMod(q, 2 * r + a % 2, 2 * m);
  }

  lemma LowFour(a: nat)
    ensures Low(a, 4) == a % 16
  {
    hide Low;
    LowNone(a / 2 / 2 / 2 / 2);
    LowDoubles(a / 2 / 2 / 2, 0, 1);
    LowDoubles(a / 2 / 2, 1, 2);
    LowDoubles(a / 2, 2, 4);
    LowDoubles(a, 3, 8);
  }

  lemma LowNone(a: nat)
    ensures Low(a, 0) == 0
  {
  }

  lemma LowSix(a: nat)
    ensures Low(a, 6) == a % 64
  {
    hide Low;
    LowFour(a / 2 / 2);
    LowDoubles(a / 2, 4, 16);
    LowDoubles(a, 5, 32);
  }

  lemma LowTen(a: nat)
    ensures Low(a, 10) == a % 1024
  {
    hide Low;
    LowSix(a / 2 / 2 / 2 / 2);
    LowDoubles(a / 2 / 2 / 2, 6, 64);
    LowDoubles(a / 2 / 2, 7, 128);
    LowDoubles(a / 2, 8, 256);
    LowDoubles(a, 9, 512);
  }

  lemma OnesAre()
    ensures Ones(6) == 63 && Ones(10) == 1023
  {
    assert Ones(2) == 3 && Ones(4) == 15 && Ones(6) == 63 && Ones(8) == 255;
  }

  /** A continuation byte: six bits, marked as such. */
  lemma ContinuationIs(a: nat)
    ensures BitOr(BitAnd(a, 63), 128) == a % 64 + 128
  {
    hide BitOr, BitAnd, Low, Ones, Shl, Narrow;
    OnesAre();
    MaskIsLow(a, 6);
    LowSix(a);
    Marks();
    NarrowSix(a % 64);
    OrIsPlus(a % 64, 2, 6);
  }

  lemma Marks()
    ensures Shl(2, 6) == 128 && Shl(3, 6) == 192 && Shl(7, 5) == 224 && Shl(15, 4) == 240
  {
    assert Shl(2, 2) == 8 && Shl(2, 4) == 32 && Shl(3, 2) == 12 && Shl(3, 4) == 48;
    assert Shl(7, 2) == 28 && Shl(7, 4) == 112 && Shl(15, 2) == 60;
  }

  lemma NarrowSix(a: nat)
    ensures a < 16 ==> Narrow(a, 4)
    ensures a < 32 ==> Narrow(a, 5)
    ensures a < 64 ==> Narrow(a, 6)
  {
    var a1 := a / 2;
    var a2 := a1 / 2;
    var a3 := a2 / 2;
    assert a < 16 ==> a3 < 2;
    assert a < 32 ==> a3 < 4 && a3 / 2 < 2;
    assert a < 64 ==> a3 < 8 && a3 / 2 < 4 && a3 / 2 / 2 < 2;
    assert a3 < 2 ==> Narrow(a3, 1);
    assert a3 < 4 ==> Narrow(a3, 2);
    assert a3 < 8 ==> Narrow(a3, 3);
    assert Narrow(a, 4) == Narrow(a2, 2) == Narrow(a3, 1);
    assert Narrow(a, 5) == Narrow(a2, 3) == Narrow(a3, 2);
    assert Narrow(a, 6) == Narrow(a2, 4) == Narrow(a3, 3);
  }

  /** The lead bytes of two, three and four. */
  lemma LeadIs(a: nat)
    ensures a < 32 ==> BitOr(a, 192) == a + 192
    ensures a < 16 ==> BitOr(a, 224) == a + 224
    ensures a < 8 ==> BitOr(a, 240) == a + 240
  {
    hide BitOr, Shl, Narrow;
    Marks();
    NarrowSix(a);
    if a < 32 { OrIsPlus(a, 3, 6); OrIsPlus(a, 7, 5); }
    if a < 16 { OrIsPlus(a, 15, 4); }
  }

  /** The twenty bits of two surrogates. */
  lemma PairIs(high: nat, low: nat)
    ensures BitOr(Shl(BitAnd(high, 1023), 10), BitAnd(low, 1023)) == high % 1024 * 1024 + low % 1024
  {
    hide BitOr, BitAnd, Low, Ones, Shl, Narrow;
    OnesAre();
    MaskIsLow(high, 10);
    MaskIsLow(low, 10);
    LowTen(high);
    LowTen(low);
    LowNarrow(low, 10);
    ShlTen(high % 1024);
    OrIsPlus(low % 1024, high % 1024, 10);
  }

  lemma {:induction false} LowNarrow(a: nat, k: nat)
    ensures Narrow(Low(a, k), k)
    decreases k
  {
    if k > 0 {
      LowNarrow(a / 2, k - 1);
      assert Low(a, k) / 2 == Low(a / 2, k - 1);
    }
  }

  lemma ShlTen(a: nat)
    ensures Shl(a, 10) == a * 1024
  {
    assert Shl(a, 2) == 4 * a && Shl(a, 4) == 16 * a && Shl(a, 6) == 64 * a && Shl(a, 8) == 256 * a;
  }

  // ----- cstrToNimstr

  /** The character that two surrogates stand for; their upper bits are not looked at. */
  function Joined(high: Unit, low: Unit): Scalar {
    var h: int, l: int := high, low;
    0x1_0000 + (h % 0x400 * 0x400 + l % 0x400)
  }

  /** The code points that `cstrToNimstr` takes from its argument; a surrogate swallows what follows it. */
  function Points(s: seq<Unit>): seq<Scalar> {
    if s == [] then []
    else if !Surrogate(s[0]) then [s[0] as Scalar] + Points(s[1..])
    else if |s| == 1 then [Joined(s[0], 0)]
    else [Joined(s[0], s[1])] + Points(s[2..])
  }

  /** A JavaScript array, whose missing elements are holes. */
  type JsArray = seq<Option<Byte>>

  /** `a[i] = b` */
  function Store(a: JsArray, i: nat, b: Byte): JsArray {
    if i < |a| then a[i := Some(b)] else a + seq(i - |a|, _ => None) + [Some(b)]
  }

  function Full(bs: seq<Byte>): JsArray {
    seq(|bs|, i requires 0 <= i < |bs| => Some(bs[i]))
  }

  /** The front of the array is `bs`; the rest are the holes it was created with. */
  predicate Begun(a: JsArray, bs: seq<Byte>, ln: nat) {
    && |a| == (if |bs| < ln then ln else |bs|)
    && (forall i | 0 <= i < |bs| :: a[i] == Some(bs[i]))
    && (forall i | |bs| <= i < |a| :: a[i] == None)
  }

  lemma StoreNext(a: JsArray, bs: seq<Byte>, ln: nat, b: Byte)
    requires Begun(a, bs, ln)
    ensures Begun(Store(a, |bs|, b), bs + [b], ln)
  {
  }

  /** The continuation bytes and the lead byte of one character, stored at `r`. */
  method StoreAll(a: JsArray, ghost bs: seq<Byte>, ln: nat, r: nat, more: seq<Byte>) returns (a': JsArray, r': nat)
    requires Begun(a, bs, ln) && r == |bs|
    ensures Begun(a', bs + more, ln) && r' == r + |more|
  {
    a', r' := a, r;
    for k := 0 to |more|
      invariant Begun(a', bs + more[..k], ln) && r' == r + k
    {
      StoreNext(a', bs + more[..k], ln, more[k]);
      assert bs + more[..k] + [more[k]] == bs + more[..k + 1];
      a' := Store(a', r', more[k]);
      r' := r' + 1;
    }
    assert more[..|more|] == more;
  }

  /** `charCodeAt`, whose NaN behind the end counts as 0 in bit operations. */
  function CharCodeAt(c: seq<Unit>, i: nat): Unit { if i < |c| then c[i] else 0 }

  /** One turn of the loop: the bytes of the character at `i`, and the last unit it takes. */
  method EncodeAt(c: seq<Unit>, i: nat) returns (bytes: seq<Byte>, last: nat)
    requires i < |c|
    ensures i <= last <= i + 1 && |bytes| > last - i
    ensures Utf8(Points(c[i..])) == bytes + Utf8(Points(if last + 1 <= |c| then c[last + 1..] else []))
  {
    hide BitOr, BitAnd, Shr, Shl;
    ghost var rest := c[i..];
    var ch: nat := CharCodeAt(c, i);
    last := i;
    if ch >= 55296 && ch < 57344 {
      last := i + 1;
      PairIs(ch, CharCodeAt(c, last));
      ch := 65536 + BitOr(Shl(BitAnd(ch, 1023), 10), BitAnd(CharCodeAt(c, last), 1023));
      assert ch == Joined(c[i], CharCodeAt(c, last));
    }
    bytes := EncodeCode(ch);
    Utf8Head(ch, Points(if last + 1 <= |c| then c[last + 1..] else []));
    assert last > i && last < |c| ==> rest[2..] == c[last + 1..];
    assert last == i ==> rest[1..] == c[i + 1..];
  }

  /** The bytes of one character. */
  method EncodeCode(ch: Scalar) returns (bytes: seq<Byte>)
    ensures bytes == Utf8One(ch)
  {
    hide BitOr, BitAnd, Shr;
    MultiByte(ch);
    if ch < 128 {
      bytes := [ch];
    } else if ch < 2048 {
      bytes := [BitOr(Shr(ch, 6), 192), BitOr(BitAnd(ch, 63), 128)];
    } else if ch < 65536 {
      bytes := [BitOr(Shr(ch, 12), 224), BitOr(BitAnd(Shr(ch, 6), 63), 128), BitOr(BitAnd(ch, 63), 128)];
    } else {
      bytes := [BitOr(Shr(ch, 18), 240), BitOr(BitAnd(Shr(ch, 12), 63), 128),
                BitOr(BitAnd(Shr(ch, 6), 63), 128), BitOr(BitAnd(ch, 63), 128)];
    }
  }

  /** What the bit operations of the encoder come to. */
  lemma MultiByte(ch: nat)
    requires ch < 0x11_0000
    ensures ch < 0x800 ==> BitOr(Shr(ch, 6), 192) == ch / 64 + 192
    ensures ch < 0x1_0000 ==> BitOr(Shr(ch, 12), 224) == ch / 4096 + 224
    ensures BitOr(Shr(ch, 18), 240) == ch / 262144 + 240
    ensures BitOr(BitAnd(Shr(ch, 12), 63), 128) == ch / 4096 % 64 + 128
    ensures BitOr(BitAnd(Shr(ch, 6), 63), 128) == ch / 64 % 64 + 128
    ensures BitOr(BitAnd(ch, 63), 128) == ch % 64 + 128
  {
    hide BitOr, BitAnd, Shr;
    Shifts(ch);
    LeadIs(ch / 64);
    LeadIs(ch / 4096);
    LeadIs(ch / 262144);
    ContinuationIs(ch);
    ContinuationIs(ch / 64);
    ContinuationIs(ch / 4096);
  }

  lemma Utf8Head(p: Scalar, ps: seq<Scalar>)
    ensures Utf8([p] + ps) == Utf8One(p) + Utf8(ps)
    ensures [p] + [] == [p]
  {
    assert ([p] + ps)[1..] == ps;
  }

  /** `cstrToNimstr`: no hole is left in the array, and it is the UTF-8 form of the code points. */
  method CstrToNimstr(c: seq<Unit>) returns (result: JsArray)
    ensures result == Full(Utf8(Points(c)))
  {
    hide Points, Utf8;
    var ln := |c|;
    result := seq(ln, _ => None);
    var r, i := 0, 0;
    ghost var done: seq<Byte> := [];
    assert c[0..] == c;
    while i < ln
      invariant 0 <= i <= ln + 1 && r == |done| >= i
      invariant Begun(result, done, ln)
      invariant Utf8(Points(c)) == done + Utf8(Points(if i <= ln then c[i..] else []))
      decreases ln - i
    {
      var bytes, last := EncodeAt(c, i);
      ghost var rest := Utf8(Points(if last + 1 <= ln then c[last + 1..] else []));
      assert done + (bytes + rest) == done + bytes + rest;
      result, r := StoreAll(result, done, ln, r, bytes);
      done := done + bytes;
      i := last + 1;
    }
    NothingLeft();
    assert (if i <= ln then c[i..] else []) == [];
    assert result == Full(done);
  }

  lemma NothingLeft()
    ensures Utf8(Points([])) == []
  {
  }

  // ----- well-formedness

  lemma JoinedExactIff(high: Unit, low: Unit)
    ensures Units1(Joined(high, low)) == [high, low] <==> 0xD800 <= high < 0xDC00 && 0xDC00 <= low < 0xE000
  {
    var h: int, l: int := high % 0x400, low % 0x400;
    assert (h * 0x400 + l) / 0x400 == h && (h * 0x400 + l) % 0x400 == l;
  }

  /** The code points taken from a string stand for it in UTF-16 exactly if it is well formed. */
  lemma {:induction false} PointsExactIff(s: seq<Unit>)
    ensures Units(Points(s)) == s <==> WellFormed(s)
    decreases |s|
  {
    if s != [] {
      if !Surrogate(s[0]) {
        PointsExactIff(s[1..]);
        assert s == [s[0]] + s[1..];
        UnitsHead(s[0] as Scalar, Points(s[1..]));
        assert ([s[0]] + Units(Points(s[1..])))[1..] == Units(Points(s[1..]));
      } else if |s| == 1 {
        UnitsHead(Joined(s[0], 0), []);
      } else {
        var p := Joined(s[0], s[1]);
        PointsExactIff(s[2..]);
        UnitsHead(p, Points(s[2..]));
        var all := Units1(p) + Units(Points(s[2..]));
        JoinedExactIff(s[0], s[1]);
        assert |Units1(p)| == 2;
        assert s == [s[0], s[1]] + s[2..];
        assert all[2..] == Units(Points(s[2..])) && all[..2] == Units1(p);
        assert s[..2] == [s[0], s[1]];
      }
    }
  }

  lemma UnitsHead(p: Scalar, ps: seq<Scalar>)
    ensures Units([p] + ps) == Units1(p) + Units(ps)
    ensures Units([p]) == Units1(p)
  {
    assert ([p] + ps)[1..] == ps;
    assert [p][1..] == [];
  }

  // ----- decoding UTF-8

  predicate Cont(b: Byte) { 0x80 <= b < 0xC0 }

  /** The first character of `b` and its length in bytes; what RFC 3629 bans, like overlong forms, is refused. */
  function DecodeOne(b: seq<Byte>): (r: Option<(Scalar, nat)>)
    requires b != []
    ensures r.Some? ==> 0 < r.value.1 <= |b|
  {
    var b0: int := b[0];
    var b1: int := if |b| > 1 && Cont(b[1]) then b[1] - 0x80 else -1;
    var b2: int := if |b| > 2 && Cont(b[2]) then b[2] - 0x80 else -1;
    var b3: int := if |b| > 3 && Cont(b[3]) then b[3] - 0x80 else -1;
    if b0 < 0x80 then Some((b0, 1))
    else if b0 < 0xC2 || b1 < 0 then None
    else if b0 < 0xE0 then Some(((b0 - 0xC0) * 0x40 + b1, 2))
    else if b2 < 0 then None
    else if b0 < 0xF0 then
      var p := (b0 - 0xE0) * 0x1000 + b1 * 0x40 + b2;
      if p < 0x800 || 0xD800 <= p < 0xE000 then None else Some((p, 3))
    else if b3 < 0 then None
    else
      var p := (b0 - 0xF0) * 0x4_0000 + b1 * 0x1000 + b2 * 0x40 + b3;
      if p < 0x1_0000 || p >= 0x11_0000 then None else Some((p, 4))
  }

  function Utf8Decode(b: seq<Byte>): Option<seq<Scalar>>
    decreases |b|
  {
    if b == [] then Some([])
    else
      match DecodeOne(b)
      case None => None
      case Some((p, n)) =>
        match Utf8Decode(b[n..])
        case None => None
        case Some(ps) => Some([p] + ps)
  }

  lemma DecodeEncodedOne(p: Scalar, rest: seq<Byte>)
    ensures DecodeOne(Utf8One(p) + rest) == Some((p, |Utf8One(p)|))
  {
    var e, q: int := Utf8One(p), p;
    var b := e + rest;
    assert b[..|e|] == e;
    if q < 0x80 {
    } else if q < 0x800 {
      assert b[1] == e[1];
    } else if q < 0x1_0000 {
      assert b[1] == e[1] && b[2] == e[2];
      assert q == q / 0x1000 * 0x1000 + q / 0x40 % 0x40 * 0x40 + q % 0x40 by { ThreeDigits(q); }
    } else {
      assert b[1] == e[1] && b[2] == e[2] && b[3] == e[3];
      assert q == q / 0x4_0000 * 0x4_0000 + q / 0x1000 % 0x40 * 0x1000 + q / 0x40 % 0x40 * 0x40 + q % 0x40 by {
        FourDigits(q);
      }
    }
  }

  lemma ThreeDigits(q: nat)
    ensures q == q / 0x1000 * 0x1000 + q / 0x40 % 0x40 * 0x40 + q % 0x40
  {
    var h := q / 0x40;
    assert q == h * 0x40 + q % 0x40 && h == h / 0x40 * 0x40 + h % 0x40 && h / 0x40 == q / 0x1000;
  }

  lemma FourDigits(q: nat)
    ensures q == q / 0x4_0000 * 0x4_0000 + q / 0x1000 % 0x40 * 0x1000 + q / 0x40 % 0x40 * 0x40 + q % 0x40
  {
    ThreeDigits(q);
    var h := q / 0x1000;
    assert h == h / 0x40 * 0x40 + h % 0x40 && h / 0x40 == q / 0x4_0000;
  }

  lemma {:induction false} DecodeEncoded(ps: seq<Scalar>)
    ensures Utf8Decode(Utf8(ps)) == Some(ps)
  {
    hide DecodeOne, Utf8One;
    if ps != [] {
      var one, rest := Utf8One(ps[0]), Utf8(ps[1..]);
      DecodeEncodedOne(ps[0], rest);
      FirstByte(ps[0]);
      assert Utf8(ps) == one + rest != [];
      assert (one + rest)[|one|..] == rest;
      DecodeEncoded(ps[1..]);
      assert [ps[0]] + ps[1..] == ps;
    }
  }

  lemma FirstByte(p: Scalar)
    ensures Utf8One(p) != []
    ensures if p < 0x80 then Utf8One(p) == [p] else forall i | 0 <= i < |Utf8One(p)| :: Utf8One(p)[i] >= 0x80
  {
  }

  lemma EncodeDecodedOne(b: seq<Byte>)
    requires b != [] && DecodeOne(b).Some?
    ensures var (p, n) := DecodeOne(b).value; Utf8One(p) == b[..n]
  {
    var (p, n) := DecodeOne(b).value;
    var q: int := p;
    if n == 2 {
      assert q / 0x40 == b[0] - 0xC0;
    } else if n == 3 {
      ThreeJoined(b[0] as int - 0xE0, b[1] as int - 0x80, b[2] as int - 0x80);
    } else if n == 4 {
      FourJoined(b[0] as int - 0xF0, b[1] as int - 0x80, b[2] as int - 0x80, b[3] as int - 0x80);
    }
  }

  lemma ThreeJoined(x: nat, y: nat, z: nat)
    requires y < 0x40 && z < 0x40
    ensures var q := x * 0x1000 + y * 0x40 + z;
            q / 0x1000 == x && q / 0x40 % 0x40 == y && q % 0x40 == z
  {
    var q, h := x * 0x1000 + y * 0x40 + z, x * 0x40 + y;
    assert q == h * 0x40 + z;
    assert q / 0x40 == h && q / 0x1000 == h / 0x40;
  }

  lemma FourJoined(w: nat, x: nat, y: nat, z: nat)
    requires x < 0x40 && y < 0x40 && z < 0x40
    ensures var q := w * 0x4_0000 + x * 0x1000 + y * 0x40 + z;
            q / 0x4_0000 == w && q / 0x1000 % 0x40 == x && q / 0x40 % 0x40 == y && q % 0x40 == z
  {
    ThreeJoined(w * 0x40 + x, y, z);
    var g := w * 0x40 + x;
    assert g / 0x40 == w && g % 0x40 == x;
  }

  lemma {:induction false} EncodeDecoded(b: seq<Byte>)
    requires Utf8Decode(b).Some?
    ensures Utf8(Utf8Decode(b).value) == b
    decreases |b|
  {
    hide DecodeOne, Utf8One;
    if b != [] {
      EncodeDecodedOne(b);
      var (p, n) := DecodeOne(b).value;
      EncodeDecoded(b[n..]);
      Utf8Head(p, Utf8Decode(b[n..]).value);
    }
  }

  // ----- toJSStr

  function Digit(d: nat): Unit
    requires d < 16
  {
    if d < 10 then 48 + d else 87 + d
  }

  /** `c.toString(16)` */
  function Hex(b: Byte): seq<Unit> {
    if b < 16 then [Digit(b)] else [Digit(b / 16), Digit(b % 16)]
  }

  const PERCENT: Unit := 37

  /** A single digit is preceded by a zero. */
  function Prefix(code: seq<Unit>): seq<Unit> {
    if |code| == 1 then [PERCENT, 48] else [PERCENT]
  }

  function Escape(b: Byte): seq<Unit> { Prefix(Hex(b)) + Hex(b) }

  function Escapes(bs: seq<Byte>): seq<Unit> {
    if bs == [] then [] else Escapes(bs[..|bs| - 1]) + Escape(bs[|bs| - 1])
  }

  function DigitValue(u: Unit): int {
    if 48 <= u <= 57 then u - 48 else if 97 <= u <= 102 then u - 87 else if 65 <= u <= 70 then u - 55 else -1
  }

  /** The bytes of a string that consists of escapes only. */
  function Unescape(e: seq<Unit>): Option<seq<Byte>>
    decreases |e|
  {
    if e == [] then Some([])
    else
      var n := |e| - 3;
      if n < 0 || e[n] != PERCENT || DigitValue(e[n + 1]) < 0 || DigitValue(e[n + 2]) < 0 then None
      else
        match Unescape(e[..n])
        case None => None
        case Some(bs) => Some(bs + [DigitValue(e[n + 1]) * 16 + DigitValue(e[n + 2])])
  }

  /** `decodeURIComponent` on such a string; `None` is the `URIError`. */
  function DecodeUri(e: seq<Unit>): Option<seq<Unit>> {
    match Unescape(e)
    case None => None
    case Some(bs) =>
      match Utf8Decode(bs)
      case None => None
      case Some(ps) => Some(Units(ps))
  }

  lemma {:induction false} UnescapeEscapes(bs: seq<Byte>)
    ensures Unescape(Escapes(bs)) == Some(bs)
  {
    hide Escape, Unescape;
    if bs == [] {
      UnescapeNothing();
    } else {
      var n := |bs| - 1;
      UnescapeEscapes(bs[..n]);
      UnescapeLast(Escapes(bs[..n]), bs[n]);
      assert bs[..n] + [bs[n]] == bs;
    }
  }

  lemma UnescapeNothing()
    ensures Unescape([]) == Some([])
  {
  }

  lemma UnescapeLast(e: seq<Unit>, b: Byte)
    ensures var r := Unescape(e + Escape(b));
            if Unescape(e).Some? then r == Some(Unescape(e).value + [b]) else r == None
  {
    hide Escape, DigitValue, Unescape;
    EscapeDigits(b);
    var x := Escape(b);
    assert x == [PERCENT, x[1], x[2]];
    UnescapeThree(e, x[1], x[2]);
  }

  lemma UnescapeThree(e: seq<Unit>, x: Unit, y: Unit)
    requires DigitValue(x) >= 0 && DigitValue(y) >= 0
    ensures var r := Unescape(e + [PERCENT, x, y]);
            if Unescape(e).Some? then r == Some(Unescape(e).value + [DigitValue(x) * 16 + DigitValue(y)]) else r == None
  {
    hide DigitValue, Unescape;
    var all, n := e + [PERCENT, x, y], |e|;
    assert all[..n] == e;
    assert all[n] == PERCENT && all[n + 1] == x && all[n + 2] == y;
    UnescapeOne(all, n);
  }

  lemma UnescapeOne(e: seq<Unit>, n: nat)
    requires |e| == n + 3 && e[n] == PERCENT && DigitValue(e[n + 1]) >= 0 && DigitValue(e[n + 2]) >= 0
    ensures Unescape(e) == match Unescape(e[..n]) {
              case None => None
              case Some(bs) => Some(bs + [DigitValue(e[n + 1]) * 16 + DigitValue(e[n + 2])])
            }
  {
    hide DigitValue;
  }

  lemma EscapeDigits(b: Byte)
    ensures var e := Escape(b);
            |e| == 3 && e[0] == PERCENT && DigitValue(e[1]) >= 0 && DigitValue(e[2]) >= 0
            && DigitValue(e[1]) * 16 + DigitValue(e[2]) == b
  {
  }

  /** The length of the leading run of bytes outside ASCII. */
  function RunLength(b: seq<Byte>): (n: nat)
    ensures n <= |b|
  {
    if b == [] || b[0] < 128 then 0 else 1 + RunLength(b[1..])
  }

  /** What a run turns into: its decoding, or its escapes if it is no UTF-8. */
  function Piece(run: seq<Byte>): seq<Unit> {
    match Utf8Decode(run)
    case Some(ps) => Units(ps)
    case None => Escapes(run)
  }

  function ToJs(b: seq<Byte>): seq<Unit>
    decreases |b|
  {
    if b == [] then []
    else if b[0] < 128 then [b[0] as Unit] + ToJs(b[1..])
    else Piece(b[..RunLength(b)]) + ToJs(b[RunLength(b)..])
  }

  function Join(parts: seq<seq<Unit>>): seq<Unit> {
    if parts == [] then [] else Join(parts[..|parts| - 1]) + parts[|parts| - 1]
  }

  /** The inner loop: the run at `i` is collected as escapes. */
  method CollectRun(s: seq<Byte>, i: nat) returns (helper: seq<Unit>, next: nat)
    requires i < |s| && s[i] >= 128
    ensures next == i + RunLength(s[i..]) <= |s| && helper == Escapes(s[i..next])
  {
    hide Escapes, RunLength, Digit;
    next, helper := i, [];
    assert s[i..i] == [];
    EscapesNext([], 0);
    while true
      invariant i <= next < |s| && s[next] >= 128
      invariant helper == Escapes(s[i..next])
      invariant RunLength(s[i..]) == next - i + RunLength(s[next..])
      decreases |s| - next
    {
      var code := Hex(s[next]);
      helper := helper + Prefix(code);
      helper := helper + code;
      EscapesNext(s[i..next], s[next]);
      assert s[i..next] + [s[next]] == s[i..next + 1];
      assert helper == Escapes(s[i..next + 1]);
      RunLengthHead(s[next..]);
      assert s[next..][1..] == s[next + 1..];
      next := next + 1;
      if |s| <= next || s[next] < 128 {
        break;
      }
    }
    RunEnds(s[next..]);
  }

  lemma EscapesNext(bs: seq<Byte>, b: Byte)
    ensures Escapes([]) == [] && Escapes(bs + [b]) == Escapes(bs) + Escape(b)
  {
    assert (bs + [b])[..|bs|] == bs;
  }

  lemma RunLengthHead(b: seq<Byte>)
    requires b != [] && b[0] >= 128
    ensures RunLength(b) == 1 + RunLength(b[1..])
  {
  }

  lemma RunEnds(b: seq<Byte>)
    requires b == [] || b[0] < 128
    ensures RunLength(b) == 0
  {
  }

  /** `toJSStr` */
  method ToJSStr(s: seq<Byte>) returns (result: seq<Unit>)
    ensures result == ToJs(s)
  {
    hide ToJs;
    var res: seq<seq<Unit>> := seq(|s|, _ => []);
    var i, j := 0, 0;
    assert s[0..] == s && res[..0] == [];
    ghost var tail := ToJs(s);
    assert Join([]) + tail == tail;
    while i < |s|
      invariant j <= i <= |s| && |res| == |s|
      invariant ToJs(s) == Join(res[..j]) + ToJs(s[i..])
    {
      ghost var before := res[..j];
      var piece, next := PieceAt(s, i);
      res := res[j := piece];
      i := next;
      assert res[..j + 1][..j] == before;
      tail := ToJs(s[i..]);
      assert Join(before) + (piece + tail) == Join(before) + piece + tail;
      j := j + 1;
    }
    result := Join(res[..j]);
    assert s[i..] == [];
    ToJsNothing();
  }

  lemma ToJsNothing()
    ensures ToJs([]) == []
  {
  }

  /** One turn of the loop of `toJSStr`. */
  method PieceAt(s: seq<Byte>, i: nat) returns (piece: seq<Unit>, next: nat)
    requires i < |s|
    ensures i < next <= |s| && ToJs(s[i..]) == piece + ToJs(s[next..])
  {
    hide Piece, Escapes, RunLength;
    ghost var rest := s[i..];
    if s[i] < 128 {
      piece, next := [s[i] as Unit], i + 1;
      assert rest[1..] == s[next..];
    } else {
      var helper: seq<Unit>;
      helper, next := CollectRun(s, i);
      var decoded := DecodeUri(helper);
      PieceDecoded(s[i..next]);
      RunNotEmpty(rest);
      piece := if decoded.Some? then decoded.value else helper;
      assert rest[..next - i] == s[i..next] && rest[next - i..] == s[next..];
    }
  }

  lemma PieceDecoded(run: seq<Byte>)
    ensures var e := Escapes(run); Piece(run) == if DecodeUri(e).Some? then DecodeUri(e).value else e
  {
    UnescapeEscapes(run);
  }

  lemma RunNotEmpty(b: seq<Byte>)
    requires b != [] && b[0] >= 128
    ensures RunLength(b) > 0
  {
  }

  // ----- splitting into runs does not change the decoding

  /** The leading characters outside ASCII. */
  function HighPrefix(ps: seq<Scalar>): (n: nat)
    ensures n <= |ps|
  {
    if ps == [] || ps[0] < 128 then 0 else 1 + HighPrefix(ps[1..])
  }

  lemma {:induction false} RunOfPoints(ps: seq<Scalar>)
    ensures var k := HighPrefix(ps);
            && Utf8(ps) == Utf8(ps[..k]) + Utf8(ps[k..])
            && RunLength(Utf8(ps)) == |Utf8(ps[..k])|
            && Units(ps) == Units(ps[..k]) + Units(ps[k..])
  {
    hide Utf8One, Units1, RunLength;
    var k := HighPrefix(ps);
    if ps == [] {
      RunEnds([]);
    } else {
      FirstByte(ps[0]);
      if ps[0] < 128 {
        assert ps[..0] == [] && ps[0..] == ps;
        assert Utf8(ps)[0] < 128;
        RunEnds(Utf8(ps));
      } else {
        RunOfPoints(ps[1..]);
        assert ps[..k][1..] == ps[1..][..k - 1] && ps[k..] == ps[1..][k - 1..];
        assert ps[..k] != [] && ps[..k][0] == ps[0];
        RunThrough(Utf8One(ps[0]), Utf8(ps[1..]));
      }
    }
  }

  lemma {:induction false} RunThrough(a: seq<Byte>, b: seq<Byte>)
    requires forall i | 0 <= i < |a| :: a[i] >= 128
    ensures RunLength(a + b) == |a| + RunLength(b)
  {
    if a == [] {
      assert a + b == b;
    } else {
      assert (a + b)[1..] == a[1..] + b;
      RunThrough(a[1..], b);
    }
  }

  /** Bytes that are UTF-8 as a whole come out as the UTF-16 form of what they encode. */
  lemma {:induction false} ToJsDecodes(ps: seq<Scalar>)
    ensures ToJs(Utf8(ps)) == Units(ps)
    decreases |ps|
  {
    hide Utf8One, Units1, Utf8Decode;
    if ps != [] {
      FirstByte(ps[0]);
      if ps[0] < 128 {
        assert Utf8(ps)[1..] == Utf8(ps[1..]);
        ToJsDecodes(ps[1..]);
        AsciiUnit(ps[0]);
      } else {
        var k := HighPrefix(ps);
        RunOfPoints(ps);
        DecodeEncoded(ps[..k]);
        ToJsDecodes(ps[k..]);
        var run := Utf8(ps[..k]);
        assert Utf8(ps)[..|run|] == run && Utf8(ps)[|run|..] == Utf8(ps[k..]);
      }
    }
  }

  lemma AsciiUnit(p: Scalar)
    requires p < 128
    ensures Units1(p) == [p]
  {
  }

  lemma ToJsOfValid(b: seq<Byte>)
    requires Utf8Decode(b).Some?
    ensures ToJs(b) == Units(Utf8Decode(b).value)
  {
    EncodeDecoded(b);
    ToJsDecodes(Utf8Decode(b).value);
  }

  /** A surrogate on its own does not come back. */
  lemma LoneSurrogateLost()
    ensures ToJs(Utf8(Points([0xD800]))) != [0xD800]
  {
    RoundTripIff([0xD800]);
  }

  /** To Nim and back: a string returns unchanged exactly if it is well-formed UTF-16. */
  lemma RoundTripIff(s: seq<Unit>)
    ensures ToJs(Utf8(Points(s))) == s <==> WellFormed(s)
    ensures Utf8Decode(Utf8(Points(s))) == Some(Points(s))
  {
    ToJsDecodes(Points(s));
    PointsExactIff(s);
    DecodeEncoded(Points(s));
  }

  /** What comes back for a surrogate is a pair: one of it and of whatever follows it, or of it and of nothing. */
  lemma SurrogateSwallows(u: Unit, v: Unit)
    requires 0xD800 <= u < 0xE000
    ensures ToJs(Utf8(Points([u, v]))) == [0xD800 + u % 0x400, 0xDC00 + v % 0x400]
    ensures ToJs(Utf8(Points([u]))) == [0xD800 + u % 0x400, 0xDC00]
  {
    hide ToJs, Utf8;
    assert [u, v][2..] == [] && Points([u, v]) == [Joined(u, v)] && Points([u]) == [Joined(u, 0)];
    ToJsDecodes([Joined(u, v)]);
    ToJsDecodes([Joined(u, 0)]);
    UnitsHead(Joined(u, v), []);
    UnitsHead(Joined(u, 0), []);
    JoinedHalves(u, v);
    JoinedHalves(u, 0);
  }

  lemma JoinedHalves(u: Unit, v: Unit)
    ensures Units1(Joined(u, v)) == [0xD800 + u % 0x400, 0xDC00 + v % 0x400]
  {
    var h: int, l: int := u % 0x400, v % 0x400;
    assert (h * 0x400 + l) / 0x400 == h && (h * 0x400 + l) % 0x400 == l;
  }

  /** The encodings meet the examples of RFC 3629 (section 7) and RFC 2781 (section 5). */
  lemma RfcExamples()
    ensures Utf8([0x41, 0x2262, 0x391, 0x2E]) == [0x41, 0xE2, 0x89, 0xA2, 0xCE, 0x91, 0x2E]
    ensures Utf8([0x233B4]) == [0xF0, 0xA3, 0x8E, 0xB4]
    ensures Units([0x12345]) == [0xD808, 0xDF45]
  {
    hide Utf8, Units;
    Utf8Head(0x41, [0x2262, 0x391, 0x2E]);
    Utf8Head(0x2262, [0x391, 0x2E]);
    Utf8Head(0x391, [0x2E]);
    Utf8Head(0x2E, []);
    Utf8Head(0x233B4, []);
    NothingEncoded();
    UnitsHead(0x12345, []);
    assert [0x41] + ([0x2262] + ([0x391] + [0x2E])) == [0x41, 0x2262, 0x391, 0x2E];
    assert [0x2262] + ([0x391] + [0x2E]) == [0x2262, 0x391, 0x2E] && [0x391] + [0x2E] == [0x391, 0x2E];
  }

  lemma NothingEncoded()
    ensures Utf8([]) == []
  {
  }
}
