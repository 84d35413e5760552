/** Byte-level vocabulary shared by the DZ and KDZ readers.

    A container file is an immutable byte sequence read through a cursor, the
    way `fread` and `fseek` see a regular file. Its records hold little-endian
    32-bit fields and zero-padded text fields, and an extraction produces files,
    each a byte sequence written to a path. */
module Bytes {

  newtype byte = x: int | 0 <= x < 0x100

  /** 2^32: the C readers keep lengths, offsets and the file length in `uint32_t`. */
  const U32Mod: nat := 0x1_0000_0000

  type u32 = x: int | 0 <= x < 0x1_0000_0000

  /** An unsigned value stored into a `uint32_t`: reduced modulo 2^32. */
  function Wrap32(x: nat): (v: u32)
    ensures x < U32Mod ==> v == x
  {
    x % 0x1_0000_0000
  }

  datatype Option<T> = None | Some(value: T)

  function Min(a: int, b: int): int { if a <= b then a else b }

  /** What `fread(buf, 1, n, fp)` delivers on a regular file whose cursor stands
      at `pos`: the next `n` bytes, fewer at the end of the file, none past it. */
  function ReadAt(src: seq<byte>, pos: nat, n: nat): (r: seq<byte>)
    ensures |r| == if pos < |src| then Min(n, |src| - pos) else 0
    ensures |r| <= n
    ensures |r| == n <==> n == 0 || pos + n <= |src|
    ensures |r| > 0 ==> pos + |r| <= |src| && r == src[pos..pos + |r|]
  {
    if pos < |src| then src[pos..Min(pos + n, |src|)] else []
  }

  /** `fread(buf, 1, n, fp)` itself: the bytes `ReadAt` delivers land at the
      start of `buf`, the rest of `buf` keeps what it held, and the count of
      bytes read is returned. */
  method Fread(buf: array<byte>, src: seq<byte>, pos: nat, n: nat) returns (count: nat)
    requires n <= buf.Length
    modifies buf
    ensures count == |ReadAt(src, pos, n)|
    ensures buf[..count] == ReadAt(src, pos, n)
    ensures buf[count..] == old(buf[count..])
  {
    var got := ReadAt(src, pos, n);
    count := |got|;
    forall k | 0 <= k < count {
      buf[k] := got[k];
    }
  }

  lemma ReadAtFull(src: seq<byte>, pos: nat, n: nat)
    requires pos + n <= |src|
    ensures ReadAt(src, pos, n) == src[pos..pos + n]
  {
  }

  /** Two consecutive reads deliver what one read of their combined size does,
      as long as the first one was not short. */
  lemma ReadAtSplit(src: seq<byte>, pos: nat, a: nat, b: nat)
    requires |ReadAt(src, pos, a)| == a
    ensures ReadAt(src, pos, a) + ReadAt(src, pos + a, b) == ReadAt(src, pos, a + b)
  {
    if a > 0 && b > 0 && pos + a < |src| {
      var e := Min(pos + a + b, |src|);
      assert src[pos..pos + a] + src[pos + a..e] == src[pos..e];
    }
  }

  /** Once a read reaches the end of the file, asking for more gives nothing more. */
  lemma ReadAtExhausted(src: seq<byte>, pos: nat, a: nat, b: nat)
    requires a <= b && pos + a >= |src|
    ensures ReadAt(src, pos, b) == ReadAt(src, pos, a)
  {
  }

  /** A field cut out of a block cut out of the file is the file's own slice. */
  lemma SliceOfSlice(s: seq<byte>, a: nat, b: nat, c: nat, d: nat)
    requires a <= b <= |s| && c <= d <= b - a
    ensures s[a..b][c..d] == s[a + c..a + d]
  {
    assert forall j | 0 <= j < d - c :: s[a..b][c..d][j] == s[a + c + j];
  }

  /** The value of a little-endian byte string: the first byte is the least
      significant. */
  function LeValue(b: seq<byte>): nat
  {
    if b == [] then 0 else b[0] as int + 0x100 * LeValue(b[1..])
  }

  /** Four little-endian bytes, digit by digit. */
  lemma LeValueDigits(b: seq<byte>)
    requires |b| == 4
    ensures LeValue(b) == b[0] as int + 0x100 * (b[1] as int + 0x100 * (b[2] as int + 0x100 * b[3] as int))
  {
    var b1 := b[1..];
    var b2 := b1[1..];
    var b3 := b2[1..];
    assert b3[1..] == [];
    assert LeValue(b3) == b[3] as int;
    assert LeValue(b2) == b[2] as int + 0x100 * b[3] as int;
  }

  /** Four bytes hold less than 2^32. */
  lemma LeValueBound(b: seq<byte>)
    requires |b| == 4
    ensures LeValue(b) < 0x1_0000_0000
  {
    LeValueDigits(b);
  }

  /** The value of the little-endian `uint32_t` held in four bytes (the
      `memcpy` of a field into a `uint32_t` on a little-endian host). */
  function LeU32(b: seq<byte>): u32
    requires |b| == 4
  {
    LeValueBound(b);
    LeValue(b)
  }

  /** The four little-endian bytes of a `uint32_t`. */
  function U32ToLe(v: u32): (b: seq<byte>)
    ensures |b| == 4
  {
    var q1 := v / 0x100;
    var q2 := q1 / 0x100;
    [(v % 0x100) as byte, (q1 % 0x100) as byte, (q2 % 0x100) as byte, (q2 / 0x100) as byte]
  }

  /** Decoding the encoding of a `uint32_t` gives it back. */
  lemma LeU32RoundTrip(v: u32)
    ensures LeU32(U32ToLe(v)) == v
  {
    var b := U32ToLe(v);
    LeValueDigits(b);
    var q1 := v / 0x100;
    var q2 := q1 / 0x100;
    assert v == q1 * 0x100 + b[0] as int;
    assert q1 == q2 * 0x100 + b[1] as int;
    assert q2 == b[3] as int * 0x100 + b[2] as int;
  }

  /** Encoding the value of four bytes gives them back. */
  lemma LeU32Injective(b: seq<byte>)
    requires |b| == 4
    ensures U32ToLe(LeU32(b)) == b
  {
    LeValueDigits(b);
    var v := LeU32(b);
    var q1 := v / 0x100;
    var q2 := q1 / 0x100;
    assert q1 == b[1] as int + 0x100 * (b[2] as int + 0x100 * b[3] as int);
    assert q2 == b[2] as int + 0x100 * b[3] as int;
  }

  /** A zero-padded text field read as a C string: the bytes before the first
      zero byte, or the whole field when it holds none. */
  function CutAtZero(s: seq<byte>): (r: seq<byte>)
    ensures |r| <= |s| && r == s[..|r|]
    ensures forall i | 0 <= i < |r| :: r[i] != 0
    ensures |r| < |s| ==> s[|r|] == 0
  {
    if |s| == 0 || s[0] == 0 then [] else [s[0]] + CutAtZero(s[1..])
  }

  /** The three properties in CutAtZero's contract determine its result. */
  lemma {:induction false} CutAtZeroUnique(s: seq<byte>, r: seq<byte>)
    requires |r| <= |s| && r == s[..|r|]
    requires forall i | 0 <= i < |r| :: r[i] != 0
    requires |r| < |s| ==> s[|r|] == 0
    ensures CutAtZero(s) == r
    decreases |s|
  {
    if r != [] {
      assert s[0] == r[0];
      CutAtZeroUnique(s[1..], r[1..]);
    }
  }

  /** One file written by an extraction: its path and the bytes it receives. */
  datatype Write = Write(path: seq<byte>, data: seq<byte>)

  /** The output path `<dir>/<name>` that `extractPartition` formats. */
  function JoinPath(dir: seq<byte>, name: seq<byte>): seq<byte>
  {
    dir + [0x2F] + name
  }

  /** ".gz" */
  const GzSuffix: seq<byte> := [0x2E, 0x67, 0x7A]
}
