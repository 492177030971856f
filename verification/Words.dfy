/** Bytes, 32-bit words and the little-endian list conversions shared by every layer. */
module Words {
  type byte = x: int | 0 <= x < 0x100
  type half = x: int | 0 <= x < 0x1_0000
  type word = x: int | 0 <= x < 0x1_0000_0000

  datatype Option<+T> = None | Some(value: T)

  function Min(a: int, b: int): int { if a <= b then a else b }

  function Max(a: int, b: int): int { if a <= b then b else a }

  /** The low 32 bits of a Python integer, negative ones included. */
  function Low32(v: int): word { v % 0x1_0000_0000 }

  lemma LowOfWord(w: word)
    ensures Low32(w) == w
  {
  }

  /** `(v >> 8 * k) & 0xff` for k = 0, 1, 2, 3: Dafny's division by a positive number floors, as `>>` does. */
  function Byte0(v: int): byte { v % 0x100 }

  function Byte1(v: int): byte { v / 0x100 % 0x100 }

  function Byte2(v: int): byte { v / 0x100 / 0x100 % 0x100 }

  function Byte3(v: int): byte { v / 0x100 / 0x100 / 0x100 % 0x100 }

  function WordBytes(v: int): seq<byte> { [Byte0(v), Byte1(v), Byte2(v), Byte3(v)] }

  /** The value of four bytes, least significant first. */
  function WordOf(b0: byte, b1: byte, b2: byte, b3: byte): word {
    b0 + 0x100 * b1 + 0x1_0000 * b2 + 0x100_0000 * b3
  }

  function HalfOf(b0: byte, b1: byte): half { b0 + 0x100 * b1 }

  lemma WordRoundTrip(v: int)
    ensures WordOf(Byte0(v), Byte1(v), Byte2(v), Byte3(v)) == Low32(v)
  {
    var q := v / 0x100 / 0x100 / 0x100 / 0x100;
    LowUnique(v, q, WordOf(Byte0(v), Byte1(v), Byte2(v), Byte3(v)));
  }

  lemma LowUnique(v: int, q: int, r: word)
    requires v == 0x1_0000_0000 * q + r
    ensures Low32(v) == r
  {
  }

  lemma SplitByte(b: byte, rest: int)
    ensures (b + 0x100 * rest) % 0x100 == b && (b + 0x100 * rest) / 0x100 == rest
  {
  }

  lemma BytesRoundTrip(b0: byte, b1: byte, b2: byte, b3: byte)
    ensures WordBytes(WordOf(b0, b1, b2, b3)) == [b0, b1, b2, b3]
  {
    SplitByte(b0, b1 + 0x100 * (b2 + 0x100 * b3));
    SplitByte(b1, b2 + 0x100 * b3);
    SplitByte(b2, b3);
  }

  /** Only the low 32 bits of a value reach its bytes. */
  lemma WordBytesLow(v: int)
    ensures WordBytes(Low32(v)) == WordBytes(v)
  {
    WordRoundTrip(v);
    BytesRoundTrip(Byte0(v), Byte1(v), Byte2(v), Byte3(v));
  }

  /** The bytes of a list of words, each word least significant byte first. */
  function BytesOf(ws: seq<int>): (bs: seq<byte>)
    ensures |bs| == 4 * |ws|
  {
    seq(4 * |ws|, k requires 0 <= k < 4 * |ws| => WordBytes(ws[k / 4])[k % 4])
  }

  /** The words of a list of bytes; trailing bytes that do not fill a word are dropped. */
  function WordsOf(bs: seq<byte>): (ws: seq<word>)
    ensures |ws| == |bs| / 4
  {
    seq(|bs| / 4, i requires 0 <= i < |bs| / 4 => WordAt(bs, i))
  }

  function WordAt(bs: seq<byte>, i: nat): word
    requires 4 * i + 4 <= |bs|
  {
    WordOf(bs[4 * i], bs[4 * i + 1], bs[4 * i + 2], bs[4 * i + 3])
  }

  lemma BytesOfConcat(a: seq<int>, b: seq<int>)
    ensures BytesOf(a + b) == BytesOf(a) + BytesOf(b)
  {
    hide WordBytes;
    forall k | 0 <= k < 4 * |a + b|
      ensures BytesOf(a + b)[k] == (BytesOf(a) + BytesOf(b))[k]
    {
      if k >= 4 * |a| {
        var j := k - 4 * |a|;
        assert k / 4 == |a| + j / 4 && k % 4 == j % 4;
      }
    }
  }

  lemma BytesOfEmpty()
    ensures BytesOf([]) == []
  {
  }

  lemma BytesOfOne(w: int)
    ensures BytesOf([w]) == WordBytes(w)
  {
    assert forall k | 0 <= k < 4 :: k / 4 == 0 && k % 4 == k;
  }

  lemma BytesOfSlice(ws: seq<int>, i: nat, j: nat)
    requires i <= j <= |ws|
    ensures BytesOf(ws)[4 * i..4 * j] == BytesOf(ws[i..j])
  {
    hide WordBytes;
    forall k | 0 <= k < 4 * (j - i)
      ensures BytesOf(ws)[4 * i..4 * j][k] == BytesOf(ws[i..j])[k]
    {
      assert (4 * i + k) / 4 == i + k / 4 && (4 * i + k) % 4 == k % 4;
    }
  }

  lemma WordOfBytesAt(ws: seq<int>, i: nat)
    requires i < |ws|
    ensures WordAt(BytesOf(ws), i) == Low32(ws[i])
  {
    hide Byte0, Byte1, Byte2, Byte3, BytesOf, WordOf, Low32;
    ByteAt(ws, i, 0);
    ByteAt(ws, i, 1);
    ByteAt(ws, i, 2);
    ByteAt(ws, i, 3);
    WordRoundTrip(ws[i]);
  }

  lemma ByteAt(ws: seq<int>, i: nat, k: nat)
    requires i < |ws| && k < 4
    ensures BytesOf(ws)[4 * i + k] == WordBytes(ws[i])[k]
  {
    hide WordBytes;
    UniqueRemainder(4 * i + k, i, k, 4);
  }

  /** Splitting into bytes and reassembling keeps exactly the low 32 bits of every element. */
  lemma WordsOfBytesOf(ws: seq<int>)
    ensures WordsOf(BytesOf(ws)) == seq(|ws|, i requires 0 <= i < |ws| => Low32(ws[i]))
  {
    hide BytesOf, WordAt, Low32;
    forall i | 0 <= i < |ws|
      ensures WordsOf(BytesOf(ws))[i] == Low32(ws[i])
    {
      WordOfBytesAt(ws, i);
    }
  }

  lemma WordsOfWords(ws: seq<word>)
    ensures WordsOf(BytesOf(ws)) == ws
  {
    hide BytesOf, WordsOf;
    WordsOfBytesOf(ws);
  }

  /** The other direction: words reassembled from whole groups of four bytes split into the same bytes. */
  lemma BytesOfWordsOf(bs: seq<byte>)
    requires |bs| % 4 == 0
    ensures BytesOf(WordsOf(bs)) == bs
  {
    hide WordBytes, WordOf;
    forall k | 0 <= k < |bs|
      ensures BytesOf(WordsOf(bs))[k] == bs[k]
    {
      var i := k / 4;
      BytesRoundTrip(bs[4 * i], bs[4 * i + 1], bs[4 * i + 2], bs[4 * i + 3]);
    }
  }

  lemma WordsInNumbers(bs: seq<byte>)
    ensures forall i :: 0 <= i < |bs| / 4 ==>
              WordsOf(bs)[i] == bs[4 * i] as int + 0x100 * bs[4 * i + 1] as int + 0x1_0000 * bs[4 * i + 2] as int
                                + 0x100_0000 * bs[4 * i + 3] as int
  {
  }

  lemma BytesInNumbers(ws: seq<int>)
    ensures forall i :: 0 <= i < |ws| ==>
              var bs := BytesOf(ws);
              bs[4 * i] as int + 0x100 * bs[4 * i + 1] as int + 0x1_0000 * bs[4 * i + 2] as int
              + 0x100_0000 * bs[4 * i + 3] as int
              == ws[i] % 0x1_0000_0000
  {
    hide BytesOf;
    forall i | 0 <= i < |ws|
      ensures var bs := BytesOf(ws);
              bs[4 * i] as int + 0x100 * bs[4 * i + 1] as int + 0x1_0000 * bs[4 * i + 2] as int
              + 0x100_0000 * bs[4 * i + 3] as int
              == ws[i] % 0x1_0000_0000
    {
      WordOfBytesAt(ws, i);
    }
  }

  /** `byte_list_to_u32le_list`: the padding value fills the last word when the length is not a multiple of 4. */
  method ByteListToU32leList(data: seq<byte>, pad: byte := 0) returns (res: seq<word>)
    ensures |data| % 4 == 0 ==> res == WordsOf(data)
    ensures res == WordsOf(data + Repeat(pad, (4 - |data| % 4) % 4))
    ensures |res| == (|data| + 3) / 4 && forall i :: 0 <= i < |data| / 4 ==>
              res[i] == data[4 * i] as int + 0x100 * data[4 * i + 1] as int + 0x1_0000 * data[4 * i + 2] as int
                        + 0x100_0000 * data[4 * i + 3] as int
  {
    WordsInNumbers(data + Repeat(pad, (4 - |data| % 4) % 4));
    hide WordOf;
    res := [];
    for i := 0 to |data| / 4
      invariant |res| == i && forall k :: 0 <= k < i ==> res[k] == WordAt(data, k)
    {
      res := res + [WordOf(data[i * 4], data[i * 4 + 1], data[i * 4 + 2], data[i * 4 + 3])];
    }
    var remainder := |data| % 4;
    if remainder == 0 {
      assert data + Repeat(pad, 0) == data;
    } else {
      var last := data[|data| - remainder..] + Repeat(pad, 4 - remainder);
      res := res + [WordOf(last[0], last[1], last[2], last[3])];
    }
  }

  /** `u32le_list_to_byte_list`. */
  method U32leListToByteList(data: seq<int>) returns (res: seq<byte>)
    ensures res == BytesOf(data)
    ensures |res| == 4 * |data| && forall i :: 0 <= i < |data| ==>
              res[4 * i] as int + 0x100 * res[4 * i + 1] as int + 0x1_0000 * res[4 * i + 2] as int
              + 0x100_0000 * res[4 * i + 3] as int
              == data[i] % 0x1_0000_0000
  {
    BytesInNumbers(data);
    hide BytesOf;
    res := [];
    BytesOfEmpty();
    for i := 0 to |data|
      invariant res == BytesOf(data[..i])
    {
      assert data[..i + 1] == data[..i] + [data[i]];
      BytesOfConcat(data[..i], [data[i]]);
      BytesOfOne(data[i]);
      res := res + [Byte0(data[i]), Byte1(data[i]), Byte2(data[i]), Byte3(data[i])];
    }
    assert data[..|data|] == data;
  }

  // ---- division with remainder ----

  lemma DivMod(x: nat, m: nat)
    requires m > 0
    ensures x == x / m * m + x % m && x % m < m
  {
  }

  lemma MulMono(a: nat, b: nat, m: nat)
    requires a <= b
    ensures a * m <= b * m
  {
  }

  lemma UniqueRemainder(x: nat, q: nat, s: nat, m: nat)
    requires s < m && x == q * m + s
    ensures x / m == q && x % m == s
  {
    DivMod(x, m);
    SameQuotient(q, s, x / m, x % m, m);
  }

  lemma SameQuotient(q: nat, s: nat, q': nat, s': nat, m: nat)
    requires s < m && s' < m && q * m + s == q' * m + s'
    ensures q == q' && s == s'
  {
    if q < q' {
      MulMono(q + 1, q', m);
    } else if q' < q {
      MulMono(q' + 1, q, m);
    }
  }

  /** Dividing twice. */
  lemma DivDiv(x: nat, a: nat, b: nat)
    requires a > 0 && b > 0
    ensures a * b > 0 && x / a / b == x / (a * b)
  {
    var y := x / a;
    DivMod(x, a);
    DivMod(y, b);
    MulMono(1, b, a);
    MulMono(y % b + 1, b, a);
    Regroup(y / b, b, y % b, a, x % a);
    UniqueRemainder(x, y / b, y % b * a + x % a, a * b);
  }

  lemma Regroup(q: nat, b: nat, r: nat, a: nat, s: nat)
    ensures (q * b + r) * a + s == q * (a * b) + (r * a + s)
  {
    assert (q * b + r) * a == q * b * a + r * a;
    assert q * b * a == q * (a * b);
  }

  function Repeat<T>(x: T, n: nat): (s: seq<T>)
    ensures |s| == n
  {
    seq(n, _ => x)
  }

  /** A buffer of exactly `size` bytes that starts with `bs`: cut off when too long, zero-filled when too short. */
  function Fit(bs: seq<byte>, size: nat): (r: seq<byte>)
    ensures |r| == size
    ensures |bs| <= size ==> r == bs + Repeat(0 as byte, size - |bs|)
  {
    if |bs| >= size then bs[..size] else bs + Repeat(0, size - |bs|)
  }
}
