/** Byte-level vocabulary shared by every EPP script: bytes, the 32-bit
    big-endian length word written by struct.pack('>I') and read by
    struct.unpack('>I'), UTF-8 encoding of text, and substring search. */
module Wire {

  datatype Option<+T> = None | Some(value: T)

  type byte = x: int | 0 <= x < 256

  /** Writing `b` then `c` after `a` is writing `b + c` after it. */
  lemma AppendAssoc<T>(a: seq<T>, b: seq<T>, c: seq<T>)
    ensures a + b + c == a + (b + c)
  {
  }

  lemma PrefixOfAppend<T>(a: seq<T>, b: seq<T>)
    ensures a <= a + b
  {
  }

  /** One more than the largest value an unsigned 32-bit word holds. */
  const U32Bound: int := 0x1_0000_0000

  /** struct.pack('>I', n): the most significant byte first. */
  function Pack32(n: nat): (b: seq<byte>)
    requires n < U32Bound
    ensures |b| == 4
  {
    [n / 0x100_0000, n / 0x1_0000 % 0x100, n / 0x100 % 0x100, n % 0x100]
  }

  /** struct.unpack('>I', b)[0] on exactly four bytes. */
  function Unpack32(b: seq<byte>): (n: nat)
    requires |b| == 4
    ensures n < U32Bound
  {
    b[0] as int * 0x100_0000 + b[1] as int * 0x1_0000 + b[2] as int * 0x100 + b[3] as int
  }

  /** Unpacking what was packed gives the number back. */
  lemma UnpackPack(n: nat)
    requires n < U32Bound
    ensures Unpack32(Pack32(n)) == n
  {
    var b := Pack32(n);
    var q1, q2, q3 := n / 0x100, n / 0x1_0000, n / 0x100_0000;
    assert n == q1 * 0x100 + b[3];
    assert q1 == q2 * 0x100 + b[2];
    assert q2 == q3 * 0x100 + b[1];
    assert b[0] == q3;
  }

  /** Packing what was unpacked gives the four bytes back: the header word
      and its value determine each other. */
  lemma PackUnpack(b: seq<byte>)
    requires |b| == 4
    ensures Pack32(Unpack32(b)) == b
  {
    var n := Unpack32(b);
    var lo := b[1] as int * 0x1_0000 + b[2] as int * 0x100 + b[3] as int;
    assert lo < 0x100_0000;
    assert n / 0x100_0000 == b[0];
    var mid := b[2] as int * 0x100 + b[3] as int;
    assert n / 0x1_0000 == b[0] as int * 0x100 + b[1] as int;
    assert n / 0x100 == b[0] as int * 0x1_0000 + b[1] as int * 0x100 + b[2] as int;
    assert mid < 0x1_0000;
  }

  /** The UTF-8 encoding of one Unicode scalar value (str.encode('utf-8')). */
  function Utf8Char(c: char): (b: seq<byte>)
    ensures 1 <= |b| <= 4
    ensures (c as int < 0x80) <==> |b| == 1
  {
    var n := c as int;
    if n < 0x80 then [n]
    else if n < 0x800 then [0xC0 + n / 0x40, 0x80 + n % 0x40]
    else if n < 0x1_0000 then [0xE0 + n / 0x1000, 0x80 + n / 0x40 % 0x40, 0x80 + n % 0x40]
    else [0xF0 + n / 0x4_0000, 0x80 + n / 0x1000 % 0x40, 0x80 + n / 0x40 % 0x40, 0x80 + n % 0x40]
  }

  /** str.encode('utf-8'): each character's encoding in turn. */
  function Utf8(s: string): (b: seq<byte>)
    ensures |s| <= |b| <= 4 * |s|
  {
    if s == [] then [] else Utf8Char(s[0]) + Utf8(s[1..])
  }

  predicate IsAscii(s: string)
  {
    forall i :: 0 <= i < |s| ==> s[i] as int < 0x80
  }

  /** Encoding a concatenation encodes each part. */
  lemma {:induction false} Utf8Append(s: string, t: string)
    ensures Utf8(s + t) == Utf8(s) + Utf8(t)
  {
    if s == [] {
      assert s + t == t;
    } else {
      assert (s + t)[1..] == s[1..] + t;
      Utf8Append(s[1..], t);
    }
  }

  /** An ASCII string encodes to its character codes, one byte each. */
  lemma {:induction false} Utf8Ascii(s: string)
    requires IsAscii(s)
    ensures |Utf8(s)| == |s|
    ensures forall i :: 0 <= i < |s| ==> Utf8(s)[i] == s[i] as int
  {
    if s != [] {
      Utf8Ascii(s[1..]);
    }
  }

  /** `needle in hay` for strings and byte strings. */
  predicate Contains<T(==)>(hay: seq<T>, needle: seq<T>): (b: bool)
    ensures b ==> |needle| <= |hay|
  {
    needle <= hay || (hay != [] && Contains(hay[1..], needle))
  }

  /** A sequence contains every factor of it. */
  lemma {:induction false} ContainsFactor<T>(a: seq<T>, needle: seq<T>, b: seq<T>)
    ensures Contains(a + needle + b, needle)
  {
    if a == [] {
      assert a + needle + b == needle + b;
    } else {
      assert (a + needle + b)[1..] == a[1..] + needle + b;
      ContainsFactor(a[1..], needle, b);
    }
  }
}
