/** Fixed-width integers as they travel between the kernel and this process:
    host byte order, which on the targets of the library is little-endian.
    Every read is an explicit offset read over a byte sequence; none assumes
    any alignment of the offset. */
module Wire {

  datatype Option<+T> = None | Some(value: T)

  type byte = x: int | 0 <= x < 0x100
  type u16 = x: int | 0 <= x < 0x1_0000
  type u32 = x: int | 0 <= x < 0x1_0000_0000
  type i32 = x: int | -0x8000_0000 <= x < 0x8000_0000
  type u64 = x: int | 0 <= x < 0x1_0000_0000_0000_0000

  function Min(a: nat, b: nat): (r: nat)
    ensures r <= a && r <= b && (r == a || r == b)
  {
    if a <= b then a else b
  }

  /** Sequence identities, proved once for any element type. */
  lemma HeadTail<T>(s: seq<T>)
    requires s != []
    ensures [s[0]] + s[1..] == s
  {
  }

  lemma ConcatAssoc<T>(a: seq<T>, b: seq<T>, c: seq<T>)
    ensures a + (b + c) == (a + b) + c
  {
  }

  /** The optional value as a sequence of zero or one elements. */
  function OptionSeq<T>(o: Option<T>): seq<T>
  {
    if o.Some? then [o.value] else []
  }

  /** The unsigned number held in the n bytes from off, least significant
      byte first. */
  function LeAt(buf: seq<byte>, off: nat, n: nat): nat
    requires off + n <= |buf|
    decreases |buf| - off
  {
    if n == 0 then 0 else buf[off] as int + 0x100 * LeAt(buf, off + 1, n - 1)
  }

  function U16At(buf: seq<byte>, off: nat): u16
    requires off + 2 <= |buf|
  {
    assert LeAt(buf, off + 1, 1) == buf[off + 1] as int;
    LeAt(buf, off, 2)
  }

  function U32At(buf: seq<byte>, off: nat): u32
    requires off + 4 <= |buf|
  {
    assert LeAt(buf, off + 3, 1) == buf[off + 3] as int;
    assert LeAt(buf, off + 2, 2) < 0x1_0000;
    assert LeAt(buf, off + 1, 3) < 0x100_0000;
    LeAt(buf, off, 4)
  }

  /** A four-byte field is its low half plus its high half shifted. */
  lemma U32AtHalves(buf: seq<byte>, off: nat)
    requires off + 4 <= |buf|
    ensures U32At(buf, off) == U16At(buf, off) + 0x1_0000 * U16At(buf, off + 2)
  {
    assert LeAt(buf, off, 4) == buf[off] as int + 0x100 * LeAt(buf, off + 1, 3);
    assert LeAt(buf, off + 1, 3) == buf[off + 1] as int + 0x100 * LeAt(buf, off + 2, 2);
    assert LeAt(buf, off, 2) == buf[off] as int + 0x100 * LeAt(buf, off + 1, 1);
    assert LeAt(buf, off + 1, 1) == buf[off + 1] as int;
  }

  /** Reading inside the second part of a concatenation ignores the first. */
  lemma {:induction false} LeAtShift(a: seq<byte>, b: seq<byte>, off: nat, n: nat)
    requires off + n <= |b|
    ensures LeAt(a + b, |a| + off, n) == LeAt(b, off, n)
    decreases n
  {
    if n > 0 {
      LeAtShift(a, b, off + 1, n - 1);
    }
  }

  /** Reading inside the first part of a concatenation ignores the second. */
  lemma {:induction false} LeAtPrefix(a: seq<byte>, b: seq<byte>, off: nat, n: nat)
    requires off + n <= |a|
    ensures LeAt(a + b, off, n) == LeAt(a, off, n)
    decreases n
  {
    if n > 0 {
      LeAtPrefix(a, b, off + 1, n - 1);
    }
  }

  /** A signed 32-bit field travels as its two's-complement bit pattern. */
  function AsI32(x: u32): i32
  {
    if x < 0x8000_0000 then x else x - 0x1_0000_0000
  }

  function AsU32(x: i32): (r: u32)
    ensures AsI32(r) == x
  {
    if x >= 0 then x else x + 0x1_0000_0000
  }

  /** The bit pattern of the number a pattern stands for is that pattern. */
  lemma AsU32AsI32(x: u32)
    ensures AsU32(AsI32(x)) == x
  {
  }

  /** The signed reading of each word of ws. */
  function SignedWords(ws: seq<u32>): (r: seq<i32>)
    ensures |r| == |ws|
  {
    if ws == [] then [] else [AsI32(ws[0])] + SignedWords(ws[1..])
  }

  lemma {:induction false} SignedWordsIndex(ws: seq<u32>, i: nat)
    requires i < |ws|
    ensures SignedWords(ws)[i] == AsI32(ws[i])
  {
    if i > 0 {
      SignedWordsIndex(ws[1..], i - 1);
    }
  }

  function LE16(x: u16): (r: seq<byte>)
    ensures |r| == 2 && U16At(r, 0) == x
  {
    var r := [x % 0x100, x / 0x100];
    assert LeAt(r, 1, 1) == r[1];
    r
  }

  function LE32(x: u32): (r: seq<byte>)
    ensures |r| == 4 && U32At(r, 0) == x
  {
    var lo, hi := LE16(x % 0x1_0000), LE16(x / 0x1_0000);
    var r := lo + hi;
    U32AtHalves(r, 0);
    LeAtPrefix(lo, hi, 0, 2);
    LeAtShift(lo, hi, 0, 2);
    r
  }

  /** A run of 32-bit words, each in host byte order. Every struct of the
      protocol is a whole number of words; two 16-bit fields that share a
      word are packed as `lo + 0x10000 * hi`. */
  function Words(ws: seq<u32>): (r: seq<byte>)
    ensures |r| == 4 * |ws|
  {
    if ws == [] then [] else LE32(ws[0]) + Words(ws[1..])
  }

  function Pack16(lo: u16, hi: u16): (r: u32)
    ensures r % 0x1_0000 == lo && r / 0x1_0000 == hi
  {
    lo + 0x1_0000 * hi
  }

  lemma U32AtShift(a: seq<byte>, b: seq<byte>, off: nat)
    requires off + 4 <= |b|
    ensures U32At(a + b, |a| + off) == U32At(b, off)
  {
    LeAtShift(a, b, off, 4);
  }

  lemma U32AtPrefix(a: seq<byte>, b: seq<byte>, off: nat)
    requires off + 4 <= |a|
    ensures U32At(a + b, off) == U32At(a, off)
  {
    LeAtPrefix(a, b, off, 4);
  }

  /** n consecutive words from off, as a struct copy reads them. */
  function WordsAt(buf: seq<byte>, off: nat, n: nat): (ws: seq<u32>)
    requires off + 4 * n <= |buf|
    ensures |ws| == n
    decreases |buf| - off
  {
    if n == 0 then [] else [U32At(buf, off)] + WordsAt(buf, off + 4, n - 1)
  }

  lemma {:induction false} WordsAtIndex(buf: seq<byte>, off: nat, n: nat, i: nat)
    requires off + 4 * n <= |buf| && i < n
    ensures WordsAt(buf, off, n)[i] == U32At(buf, off + 4 * i)
    decreases n
  {
    if i > 0 {
      WordsAtIndex(buf, off + 4, n - 1, i - 1);
    }
  }

  lemma {:induction false} WordsAtShift(a: seq<byte>, b: seq<byte>, off: nat, n: nat)
    requires off + 4 * n <= |b|
    ensures WordsAt(a + b, |a| + off, n) == WordsAt(b, off, n)
    decreases n
  {
    if n > 0 {
      U32AtShift(a, b, off);
      WordsAtShift(a, b, off + 4, n - 1);
    }
  }

  lemma {:induction false} WordsAtPrefix(a: seq<byte>, b: seq<byte>, off: nat, n: nat)
    requires off + 4 * n <= |a|
    ensures WordsAt(a + b, off, n) == WordsAt(a, off, n)
    decreases n
  {
    if n > 0 {
      U32AtPrefix(a, b, off);
      WordsAtPrefix(a, b, off + 4, n - 1);
    }
  }

  /** Reading n words at word index k of an encoded run gives back those words. */
  lemma WordsAtWords(ws: seq<u32>, k: nat, n: nat)
    requires k + n <= |ws|
    ensures WordsAt(Words(ws), 4 * k, n) == ws[k..k + n]
  {
    forall i | 0 <= i < n ensures WordsAt(Words(ws), 4 * k, n)[i] == ws[k + i] {
      WordsAtIndex(Words(ws), 4 * k, n, i);
      WordAt(ws, k + i);
    }
  }

  lemma {:induction false} WordsConcat(xs: seq<u32>, ys: seq<u32>)
    ensures Words(xs + ys) == Words(xs) + Words(ys)
  {
    if xs == [] {
      assert xs + ys == ys;
    } else {
      assert (xs + ys)[1..] == xs[1..] + ys;
      WordsConcat(xs[1..], ys);
    }
  }

  /** Reading the i-th word of an encoded run gives back that word. */
  lemma {:induction false} WordAt(ws: seq<u32>, i: nat)
    requires i < |ws|
    ensures U32At(Words(ws), 4 * i) == ws[i]
  {
    if i == 0 {
      LeAtPrefix(LE32(ws[0]), Words(ws[1..]), 0, 4);
    } else {
      WordAt(ws[1..], i - 1);
      U32AtShift(LE32(ws[0]), Words(ws[1..]), 4 * (i - 1));
    }
  }

  /** Reading either half of the i-th word gives back the packed 16-bit fields. */
  lemma HalfWordsAt(ws: seq<u32>, i: nat)
    requires i < |ws|
    ensures U16At(Words(ws), 4 * i) == ws[i] % 0x1_0000
    ensures U16At(Words(ws), 4 * i + 2) == ws[i] / 0x1_0000
  {
    var b := Words(ws);
    WordAt(ws, i);
    U32AtHalves(b, 4 * i);
    SplitUnique(ws[i], U16At(b, 4 * i), U16At(b, 4 * i + 2));
  }

  lemma SplitUnique(w: int, lo: u16, hi: int)
    requires w == lo + 0x1_0000 * hi
    ensures w % 0x1_0000 == lo && w / 0x1_0000 == hi
  {
  }
}
