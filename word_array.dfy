/**
 * crypto-js's `lib.WordArray`: a sequence of 32-bit words holding bytes big-endian
 * (byte 0 is the most significant byte of word 0) and a count of significant bytes.
 * Only the first `sigBytes` bytes mean anything; the encoders read just those.
 */
module WordArrays {
  import opened Bytes

  /** `sigBytes` is an integer: the script computes `combined.sigBytes - 12`, which is
      negative when the combined array is shorter than the IV. */
  datatype WordArray = WordArray(words: seq<bv32>, sigBytes: int)

  /** Byte k of a word, counted from the most significant: `(w >>> (24 - k * 8)) & 0xff`. */
  function WordByte(w: bv32, k: nat): byte
    requires k < 4
  {
    if k == 0 then (w >> 24) as byte
    else if k == 1 then ((w >> 16) & 0xFF) as byte
    else if k == 2 then ((w >> 8) & 0xFF) as byte
    else (w & 0xFF) as byte
  }

  /** A word of the array; a word past the end is `undefined`, which bit operations read as 0. */
  function WordOrZero(words: seq<bv32>, j: nat): bv32 {
    if j < |words| then words[j] else 0
  }

  /** Byte i of the words. */
  function ByteAt(words: seq<bv32>, i: nat): byte {
    WordByte(WordOrZero(words, i / 4), i % 4)
  }

  /** The number of significant bytes; a negative count means none. */
  function Size(wa: WordArray): nat {
    if wa.sigBytes < 0 then 0 else wa.sigBytes
  }

  /** The significant bytes, as `Hex.stringify` and `Base64.stringify` read them. */
  function Content(wa: WordArray): (b: seq<byte>)
    ensures |b| == Size(wa)
  {
    seq(Size(wa), i requires 0 <= i => ByteAt(wa.words, i))
  }

  /** Four bytes as one big-endian word. */
  function Pack(b0: byte, b1: byte, b2: byte, b3: byte): (w: bv32)
    ensures WordByte(w, 0) == b0 && WordByte(w, 1) == b1
    ensures WordByte(w, 2) == b2 && WordByte(w, 3) == b3
  {
    ((b0 as bv32) << 24) | ((b1 as bv32) << 16) | ((b2 as bv32) << 8) | (b3 as bv32)
  }

  function ByteOrZero(b: seq<byte>, i: nat): byte {
    if i < |b| then b[i] else 0
  }

  /** A word array holding exactly the given bytes, four to a word, zero-filled: what
      `WordArray.create(typedArray)` builds from a Node Buffer, what `WordArray.random(n)`
      builds from n random bytes when n is a multiple of 4, and the words that
      `Hex.parse` and `Base64.parse` build. */
  function FromBytes(b: seq<byte>): (wa: WordArray)
    ensures wa.sigBytes == |b| && |wa.words| == (|b| + 3) / 4
  {
    WordArray(
      seq((|b| + 3) / 4, j requires 0 <= j =>
        Pack(ByteOrZero(b, 4 * j), ByteOrZero(b, 4 * j + 1), ByteOrZero(b, 4 * j + 2), ByteOrZero(b, 4 * j + 3))),
      |b|)
  }

  /** Packing bytes into words loses none of them. */
  lemma ContentOfFromBytes(b: seq<byte>)
    ensures Content(FromBytes(b)) == b
  {
    var wa := FromBytes(b);
    forall i | 0 <= i < |b|
      ensures Content(wa)[i] == b[i]
    {
      var j, k := i / 4, i % 4;
      assert 4 * j + k == i && j < |wa.words|;
      var w := wa.words[j];
      assert w == Pack(ByteOrZero(b, 4 * j), ByteOrZero(b, 4 * j + 1), ByteOrZero(b, 4 * j + 2), ByteOrZero(b, 4 * j + 3));
      assert WordByte(w, k) == ByteOrZero(b, 4 * j + k);
    }
  }

  /** Every byte of the words built from some bytes, past the significant ones too: the
      given bytes, then zeros. */
  lemma FromBytesByteAt(b: seq<byte>, i: nat)
    ensures ByteAt(FromBytes(b).words, i) == ByteOrZero(b, i)
  {
    var wa := FromBytes(b);
    var j, k := i / 4, i % 4;
    assert 4 * j + k == i;
    if j < |wa.words| {
      var w := wa.words[j];
      assert w == Pack(ByteOrZero(b, 4 * j), ByteOrZero(b, 4 * j + 1), ByteOrZero(b, 4 * j + 2), ByteOrZero(b, 4 * j + 3));
      assert WordByte(w, k) == ByteOrZero(b, 4 * j + k);
    } else {
      assert i >= |b|;
      assert WordByte(0, k) == 0;
    }
  }

  // ---------------------------------------------------------------------------
  // clamp() and concat()

  /** The mask clamp applies to the last word when r = sigBytes % 4 is not 0: it keeps
      the first r bytes. */
  function Mask(r: nat): bv32
    requires 1 <= r <= 3
  {
    if r == 1 then 0xFF00_0000 else if r == 2 then 0xFFFF_0000 else 0xFFFF_FF00
  }

  /** The mask is crypto-js's `0xffffffff << (32 - r * 8)`. */
  lemma MaskIsShift(r: nat)
    requires 1 <= r <= 3
    ensures Mask(r) == 0xFFFF_FFFF << (32 - 8 * r)
  {
    if r == 1 {
      assert 0xFFFF_FFFF << (32 - 8 * r) == (0xFFFF_FFFF as bv32) << 24;
    } else if r == 2 {
      assert 0xFFFF_FFFF << (32 - 8 * r) == (0xFFFF_FFFF as bv32) << 16;
    } else {
      assert 0xFFFF_FFFF << (32 - 8 * r) == (0xFFFF_FFFF as bv32) << 8;
    }
  }

  // One lemma per mask: the solver handles each fixed mask quickly, not all three at once.

  lemma MaskedBytes1(w: bv32, r: nat, k: nat)
    requires r == 1 && k < 4
    ensures WordByte(w & Mask(r), k) == if k < r then WordByte(w, k) else 0
  {
  }

  lemma MaskedBytes2(w: bv32, r: nat, k: nat)
    requires r == 2 && k < 4
    ensures WordByte(w & Mask(r), k) == if k < r then WordByte(w, k) else 0
  {
  }

  lemma MaskedBytes3(w: bv32, r: nat, k: nat)
    requires r == 3 && k < 4
    ensures WordByte(w & Mask(r), k) == if k < r then WordByte(w, k) else 0
  {
  }

  /** Masking a word keeps its first r bytes and zeroes the rest. */
  lemma MaskedByte(w: bv32, r: nat, k: nat)
    requires 1 <= r <= 3 && k < 4
    ensures WordByte(w & Mask(r), k) == if k < r then WordByte(w, k) else 0
  {
    if r == 1 {
      MaskedBytes1(w, r, k);
    } else if r == 2 {
      MaskedBytes2(w, r, k);
    } else {
      MaskedBytes3(w, r, k);
    }
  }

  /** `clamp()`: clears the bits after the last significant byte and drops the words
      after the one holding it. */
  function Clamp(wa: WordArray): (c: WordArray)
    requires wa.sigBytes >= 0
    ensures c.sigBytes == wa.sigBytes && |c.words| == (wa.sigBytes + 3) / 4
  {
    var n := (wa.sigBytes + 3) / 4;
    WordArray(
      seq(n, j requires 0 <= j < n =>
        if j == wa.sigBytes / 4 then WordOrZero(wa.words, j) & Mask(wa.sigBytes % 4)
        else WordOrZero(wa.words, j)),
      wa.sigBytes)
  }

  /** Clamping keeps the significant bytes and zeroes every byte after them. */
  lemma ClampBytes(wa: WordArray, i: nat)
    requires wa.sigBytes >= 0
    ensures ByteAt(Clamp(wa).words, i) == if i < wa.sigBytes then ByteAt(wa.words, i) else 0
  {
    var c := Clamp(wa);
    var s := wa.sigBytes;
    var j, k := i / 4, i % 4;
    assert i == 4 * j + k;
    if j < |c.words| {
      var w := WordOrZero(wa.words, j);
      if j == s / 4 {
        var r := s % 4;
        assert s == 4 * j + r && 1 <= r;
        MaskedByte(w, r, k);
      } else {
        assert j < s / 4;
      }
    }
  }

  /** The words with zero words appended up to length n: what writing past the end of
      a JavaScript array and reading the holes back as 0 amounts to. */
  function ZeroExtended(words: seq<bv32>, n: nat): (ws: seq<bv32>)
    ensures |ws| == if n <= |words| then |words| else n
    ensures forall k :: 0 <= k < |ws| ==> ws[k] == WordOrZero(words, k)
  {
    if n <= |words| then words else words + seq(n - |words|, _ => 0)
  }

  /** `words[at >>> 2] |= x << (24 - (at % 4) * 8)`, the step of concat's byte loop;
      a word past the end starts as 0. */
  function OrByte(words: seq<bv32>, at: nat, x: byte): (r: seq<bv32>)
    ensures |r| == if at / 4 < |words| then |words| else at / 4 + 1
  {
    var ws := ZeroExtended(words, at / 4 + 1);
    ws[at / 4 := ws[at / 4] | Placed(x, at % 4)]
  }

  /** The bits OR-ed in at byte k of a word. */
  function Placed(x: byte, k: nat): bv32
    requires k < 4
  {
    if k == 0 then (x as bv32) << 24
    else if k == 1 then (x as bv32) << 16
    else if k == 2 then (x as bv32) << 8
    else x as bv32
  }

  /** Placed is crypto-js's `x << (24 - (k % 4) * 8)`. */
  lemma PlacedIsShift(x: byte, k: nat)
    requires k < 4
    ensures Placed(x, k) == (x as bv32) << (24 - 8 * k)
  {
    if k == 0 {
      assert (x as bv32) << (24 - 8 * k) == (x as bv32) << 24;
    } else if k == 1 {
      assert (x as bv32) << (24 - 8 * k) == (x as bv32) << 16;
    } else if k == 2 {
      assert (x as bv32) << (24 - 8 * k) == (x as bv32) << 8;
    } else {
      assert (x as bv32) << (24 - 8 * k) == (x as bv32) << 0;
    }
  }

  // One pair of lemmas per byte position, for the same reason as the masks above.

  lemma PlacedHit0(w: bv32, x: byte, k: nat)
    requires k == 0
    ensures WordByte(w | Placed(x, k), k) == WordByte(w, k) | x
  {
  }

  lemma PlacedMiss0(w: bv32, x: byte, k: nat, k': nat)
    requires k == 0 && k' < 4 && k' != k
    ensures WordByte(w | Placed(x, k), k') == WordByte(w, k')
  {
  }

  lemma PlacedHit1(w: bv32, x: byte, k: nat)
    requires k == 1
    ensures WordByte(w | Placed(x, k), k) == WordByte(w, k) | x
  {
  }

  lemma PlacedMiss1(w: bv32, x: byte, k: nat, k': nat)
    requires k == 1 && k' < 4 && k' != k
    ensures WordByte(w | Placed(x, k), k') == WordByte(w, k')
  {
  }

  lemma PlacedHit2(w: bv32, x: byte, k: nat)
    requires k == 2
    ensures WordByte(w | Placed(x, k), k) == WordByte(w, k) | x
  {
  }

  lemma PlacedMiss2(w: bv32, x: byte, k: nat, k': nat)
    requires k == 2 && k' < 4 && k' != k
    ensures WordByte(w | Placed(x, k), k') == WordByte(w, k')
  {
  }

  lemma PlacedHit3(w: bv32, x: byte, k: nat)
    requires k == 3
    ensures WordByte(w | Placed(x, k), k) == WordByte(w, k) | x
  {
  }

  lemma PlacedMiss3(w: bv32, x: byte, k: nat, k': nat)
    requires k == 3 && k' < 4 && k' != k
    ensures WordByte(w | Placed(x, k), k') == WordByte(w, k')
  {
  }

  /** OR-ing a byte in at byte k of a word changes byte k alone. */
  lemma PlacedByte(w: bv32, x: byte, k: nat, k': nat)
    requires k < 4 && k' < 4
    ensures WordByte(w | Placed(x, k), k') == if k == k' then WordByte(w, k') | x else WordByte(w, k')
  {
    if k == k' {
      if k == 0 { PlacedHit0(w, x, k); }
      else if k == 1 { PlacedHit1(w, x, k); }
      else if k == 2 { PlacedHit2(w, x, k); }
      else { PlacedHit3(w, x, k); }
    } else {
      if k == 0 { PlacedMiss0(w, x, k, k'); }
      else if k == 1 { PlacedMiss1(w, x, k, k'); }
      else if k == 2 { PlacedMiss2(w, x, k, k'); }
      else { PlacedMiss3(w, x, k, k'); }
    }
  }

  /** OrByte changes the word holding position `at` and no other. */
  lemma OrByteWord(words: seq<bv32>, at: nat, x: byte, q: nat)
    ensures WordOrZero(OrByte(words, at, x), q) ==
      if q == at / 4 then WordOrZero(words, q) | Placed(x, at % 4) else WordOrZero(words, q)
  {
    var ws := ZeroExtended(words, at / 4 + 1);
    var r := OrByte(words, at, x);
    assert r == ws[at / 4 := ws[at / 4] | Placed(x, at % 4)];
    if q >= |r| {
      assert WordOrZero(words, q) == 0;
    }
  }

  /** OrByte ORs x into byte `at` and leaves every other byte as it was. */
  lemma OrByteAt(words: seq<bv32>, at: nat, x: byte, i: nat)
    ensures ByteAt(OrByte(words, at, x), i) == if i == at then ByteAt(words, i) | x else ByteAt(words, i)
  {
    OrByteWord(words, at, x, i / 4);
    if i / 4 == at / 4 {
      PlacedByte(WordOrZero(words, i / 4), x, at % 4, i % 4);
      assert i == at <==> i % 4 == at % 4;
    }
  }

  /** concat's byte loop: ORs the bytes of `bs` in at positions at, at + 1, ... */
  function OrBytes(words: seq<bv32>, at: nat, bs: seq<byte>): seq<bv32>
    decreases |bs|
  {
    if bs == [] then words else OrBytes(OrByte(words, at, bs[0]), at + 1, bs[1..])
  }

  /** The byte loop leaves the bytes outside the positions it writes as they were. */
  lemma {:induction false} OrBytesOutside(words: seq<bv32>, at: nat, bs: seq<byte>, i: nat)
    requires i < at || at + |bs| <= i
    ensures ByteAt(OrBytes(words, at, bs), i) == ByteAt(words, i)
    decreases |bs|
  {
    if bs != [] {
      var ws := OrByte(words, at, bs[0]);
      assert OrBytes(words, at, bs) == OrBytes(ws, at + 1, bs[1..]);
      OrBytesOutside(ws, at + 1, bs[1..], i);
      OrByteAt(words, at, bs[0], i);
    }
  }

  /** The byte loop ORs its first byte into position `at`. */
  lemma OrBytesFirst(words: seq<bv32>, at: nat, bs: seq<byte>)
    requires bs != []
    ensures ByteAt(OrBytes(words, at, bs), at) == ByteAt(words, at) | bs[0]
  {
    var ws := OrByte(words, at, bs[0]);
    assert OrBytes(words, at, bs) == OrBytes(ws, at + 1, bs[1..]);
    OrBytesOutside(ws, at + 1, bs[1..], at);
    OrByteAt(words, at, bs[0], at);
  }

  /** The byte loop ORs the k-th byte of `bs` into position at + k. */
  lemma {:induction false} OrBytesInside(words: seq<bv32>, at: nat, bs: seq<byte>, i: nat)
    requires at <= i < at + |bs|
    ensures ByteAt(OrBytes(words, at, bs), i) == ByteAt(words, i) | bs[i - at]
    decreases |bs|
  {
    if i == at {
      OrBytesFirst(words, at, bs);
    } else {
      var ws, tail := OrByte(words, at, bs[0]), bs[1..];
      assert OrBytes(words, at, bs) == OrBytes(ws, at + 1, tail);
      assert tail[i - (at + 1)] == bs[i - at];
      OrBytesInside(ws, at + 1, tail, i);
      OrByteAt(words, at, bs[0], i);
    }
  }

  /** The words concat's word-aligned branch copies: one per started group of four
      significant bytes of the argument. */
  function CopiedWords(b: WordArray): (ws: seq<bv32>)
    ensures |ws| == (Size(b) + 3) / 4
  {
    seq((Size(b) + 3) / 4, j requires 0 <= j => WordOrZero(b.words, j))
  }

  /** `a.concat(b)` as a value: `a` is clamped, then the significant bytes of `b` are
      appended word by word when `a.sigBytes` is a multiple of 4 and byte by byte
      otherwise. A negative `a.sigBytes` would make clamp set a negative array length. */
  function Concat(a: WordArray, b: WordArray): (r: WordArray)
    requires a.sigBytes >= 0
    ensures r.sigBytes == a.sigBytes + b.sigBytes
  {
    var c := Clamp(a);
    if a.sigBytes % 4 != 0 then WordArray(OrBytes(c.words, a.sigBytes, Content(b)), a.sigBytes + b.sigBytes)
    else WordArray(c.words + CopiedWords(b), a.sigBytes + b.sigBytes)
  }

  /** Concatenation appends the bytes: the significant bytes of `a.concat(b)` are those
      of `a` followed by those of `b`, in both branches. */
  lemma ConcatContent(a: WordArray, b: WordArray)
    requires a.sigBytes >= 0 && b.sigBytes >= 0
    ensures Content(Concat(a, b)) == Content(a) + Content(b)
  {
    var r := Concat(a, b);
    var c := Clamp(a);
    var sa := a.sigBytes;
    forall i | 0 <= i < |Content(r)|
      ensures Content(r)[i] == (Content(a) + Content(b))[i]
    {
      ClampBytes(a, i);
      if sa % 4 != 0 {
        if i < sa {
          OrBytesOutside(c.words, sa, Content(b), i);
        } else {
          OrBytesInside(c.words, sa, Content(b), i);
        }
      } else {
        var q := sa / 4;
        assert sa == 4 * q && |c.words| == q;
        if i < sa {
          assert i / 4 < q;
          assert WordOrZero(r.words, i / 4) == WordOrZero(c.words, i / 4);
        } else {
          var t := i - sa;
          assert i / 4 == q + t / 4 && i % 4 == t % 4;
          assert t / 4 < |CopiedWords(b)|;
          assert WordOrZero(r.words, i / 4) == WordOrZero(b.words, t / 4);
        }
      }
    }
  }

  // ---------------------------------------------------------------------------
  // Slicing at a word boundary.

  function Min(x: nat, y: nat): nat {
    if x < y then x else y
  }

  /** `WordArray.create(wa.words.slice(0, n), 4 * n)`: the first n words, taken as 4n bytes. */
  function TakeWords(wa: WordArray, n: nat): (r: WordArray)
    ensures r.sigBytes == 4 * n
  {
    WordArray(wa.words[..Min(n, |wa.words|)], 4 * n)
  }

  /** `WordArray.create(wa.words.slice(n), wa.sigBytes - 4 * n)`: the words after the
      first n, with the remaining byte count. */
  function DropWords(wa: WordArray, n: nat): (r: WordArray)
    ensures r.sigBytes == wa.sigBytes - 4 * n
  {
    WordArray(wa.words[Min(n, |wa.words|)..], wa.sigBytes - 4 * n)
  }

  /** Because a word holds exactly four bytes, cutting the words after word n cuts the
      bytes after byte 4n: the two halves hold the bytes before and after that point. */
  lemma SliceAtWord(wa: WordArray, n: nat)
    requires 4 * n <= wa.sigBytes
    ensures Content(TakeWords(wa, n)) == Content(wa)[..4 * n]
    ensures Content(DropWords(wa, n)) == Content(wa)[4 * n..]
  {
    var m := Min(n, |wa.words|);
    var front, back := TakeWords(wa, n), DropWords(wa, n);
    forall i | 0 <= i < 4 * n
      ensures Content(front)[i] == Content(wa)[i]
    {
      assert i / 4 < n;
      assert WordOrZero(front.words, i / 4) == WordOrZero(wa.words, i / 4);
    }
    forall i | 0 <= i < Size(back)
      ensures Content(back)[i] == Content(wa)[4 * n + i]
    {
      assert (4 * n + i) / 4 == n + i / 4 && (4 * n + i) % 4 == i % 4;
      assert WordOrZero(back.words, i / 4) == WordOrZero(wa.words, n + i / 4);
    }
  }
}
