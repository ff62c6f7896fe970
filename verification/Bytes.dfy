/** Machine bytes and the four-byte integers that the packets carry. */
module Bytes {
  newtype byte = x: int | 0 <= x < 0x100

  // A byte other than x.
  function Other(x: byte): (y: byte)
    ensures y != x
  {
    if x == 1 then 2 else 1
  }

  // The C++ `int` of the servers.
  type int32 = x: int | -0x8000_0000 <= x < 0x8000_0000

  const MAX_INT := 0x7FFF_FFFF

  /** What `memcpy(p, &v, 4)` leaves at p on the little-endian hosts the servers run on. */
  function PutInt(v: int32): (b: seq<byte>)
    ensures |b| == 4
  {
    var u := if v < 0 then v + 0x1_0000_0000 else v;
    [(u % 0x100) as byte, (u / 0x100 % 0x100) as byte, (u / 0x1_0000 % 0x100) as byte, (u / 0x100_0000) as byte]
  }

  /** What `*(int*)p` reads at p. */
  function GetInt(b: seq<byte>): int32
    requires |b| == 4
  {
    var u := b[0] as int + 0x100 * b[1] as int + 0x1_0000 * b[2] as int + 0x100_0000 * b[3] as int;
    if u >= 0x8000_0000 then u - 0x1_0000_0000 else u
  }

  lemma {:induction false} GetAfterPut(v: int32)
    ensures GetInt(PutInt(v)) == v
  {
    var u := if v < 0 then v + 0x1_0000_0000 else v;
    assert u == u % 0x100 + 0x100 * (u / 0x100 % 0x100) + 0x1_0000 * (u / 0x1_0000 % 0x100) + 0x100_0000 * (u / 0x100_0000);
  }

  lemma {:induction false} PutAfterGet(b: seq<byte>)
    requires |b| == 4
    ensures PutInt(GetInt(b)) == b
  {
    var b0, b1, b2, b3 := b[0] as int, b[1] as int, b[2] as int, b[3] as int;
    var u := b0 + 0x100 * b1 + 0x1_0000 * b2 + 0x100_0000 * b3;
    assert u % 0x100 == b0;
    assert u / 0x100 == b1 + 0x100 * b2 + 0x1_0000 * b3;
    assert u / 0x100 % 0x100 == b1;
    assert u / 0x1_0000 == b2 + 0x100 * b3;
    assert u / 0x1_0000 % 0x100 == b2;
    assert u / 0x100_0000 == b3;
  }

  /** The four bytes at k are v in 32-bit two's complement, the least significant byte first. */
  predicate IntAt(b: seq<byte>, k: nat, v: int) {
    && k + 4 <= |b|
    && (b[k] as int + 0x100 * b[k + 1] as int + 0x1_0000 * b[k + 2] as int + 0x100_0000 * b[k + 3] as int - v) % 0x1_0000_0000 == 0
  }

  /** Which integer four bytes are, without the function that reads them. */
  lemma {:induction false} GetIntIff(b: seq<byte>, k: nat, v: int32)
    requires k + 4 <= |b|
    ensures GetInt(b[k..k + 4]) == v <==> IntAt(b, k, v)
  {
    var c := b[k..k + 4];
    assert c[0] == b[k] && c[1] == b[k + 1] && c[2] == b[k + 2] && c[3] == b[k + 3];
  }

  lemma {:induction false} PutIntIs(v: int32)
    ensures IntAt(PutInt(v), 0, v)
  {
    GetAfterPut(v);
    assert PutInt(v)[0..4] == PutInt(v);
    GetIntIff(PutInt(v), 0, v);
  }

  /** The four bytes are determined by the integer. */
  lemma {:induction false} IntAtUnique(b: seq<byte>, k: nat, c: seq<byte>, j: nat, v: int32)
    requires IntAt(b, k, v) && IntAt(c, j, v)
    ensures b[k..k + 4] == c[j..j + 4]
  {
    GetIntIff(b, k, v);
    GetIntIff(c, j, v);
    PutAfterGet(b[k..k + 4]);
    PutAfterGet(c[j..j + 4]);
  }

  lemma {:induction false} Unit<T>(a: seq<T>)
    ensures [] + a == a && a + [] == a
  {}

  lemma {:induction false} HeadTail<T>(a: seq<T>)
    requires a != []
    ensures a == [a[0]] + a[1..]
  {}

  lemma {:induction false} Assoc<T>(a: seq<T>, b: seq<T>, c: seq<T>)
    ensures (a + b) + c == a + (b + c)
  {}

  lemma {:induction false} DropAppend<T>(a: seq<T>, b: seq<T>, n: nat)
    requires n <= |a|
    ensures (a + b)[n..] == a[n..] + b
  {}

  lemma {:induction false} SplitAt<T>(a: seq<T>, n: nat)
    requires n <= |a|
    ensures a == a[..n] + a[n..]
  {}

  lemma {:induction false} SliceOfTake<T>(a: seq<T>, n: nat, i: nat, j: nat)
    requires i <= j <= n <= |a|
    ensures a[..n][i..j] == a[i..j]
  {}

  lemma {:induction false} PrefixSplit<T>(b: seq<T>, first: seq<T>, more: seq<T>)
    requires b <= first + more && |first| <= |b|
    ensures b == first + b[|first|..] && b[|first|..] <= more
  {
    assert forall i | 0 <= i < |b| :: b[i] == (first + more)[i];
  }

  lemma {:induction false} PrefixTrans<T>(a: seq<T>, b: seq<T>, c: seq<T>)
    requires a <= b <= c
    ensures a <= c
  {}

  /** All the byte strings of a list, one after the other. */
  function Concat(chunks: seq<seq<byte>>): seq<byte> {
    if chunks == [] then [] else chunks[0] + Concat(chunks[1..])
  }

  lemma {:induction false} ConcatAppend(a: seq<seq<byte>>, b: seq<seq<byte>>)
    ensures Concat(a + b) == Concat(a) + Concat(b)
  {
    if a == [] {
      assert a + b == b;
    } else {
      ConcatAppend(a[1..], b);
      DropAppend(a, b, 1);
      Assoc(a[0], Concat(a[1..]), Concat(b));
    }
  }

  lemma {:induction false} ConcatSnoc(a: seq<seq<byte>>, m: seq<byte>)
    ensures Concat(a + [m]) == Concat(a) + m
  {
    ConcatAppend(a, [m]);
    assert Concat([m]) == m + Concat([]);
  }

  // The same bytes one at a time.
  function Singles(s: seq<byte>): (cs: seq<seq<byte>>)
    ensures forall c | c in cs :: |c| == 1
  {
    if s == [] then [] else [[s[0]]] + Singles(s[1..])
  }

  lemma {:induction false} SinglesConcat(s: seq<byte>)
    ensures Concat(Singles(s)) == s
  {
    if s != [] {
      SinglesConcat(s[1..]);
      assert Singles(s)[1..] == Singles(s[1..]);
      assert s == [s[0]] + s[1..];
    }
  }
}
