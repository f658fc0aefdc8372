/** Byte-level representation shared by every on-disk structure: little-endian 32-bit words. */
module Bytes {

  newtype byte = b: int | 0 <= b < 0x100

  /** A C++ `int` of the host. */
  type int32 = n: int | -0x8000_0000 <= n < 0x8000_0000

  /** The same 32 bits read as an `unsigned int`. */
  type word = n: int | 0 <= n < 0x1_0000_0000

  function ToWord(n: int32): word {
    if n < 0 then n + 0x1_0000_0000 else n
  }

  function FromWord(w: word): int32 {
    if w < 0x8000_0000 then w else w - 0x1_0000_0000
  }

  function EncodeWord(w: word): (b: seq<byte>)
    ensures |b| == 4
  {
    [(w % 0x100) as byte, (w / 0x100 % 0x100) as byte, (w / 0x1_0000 % 0x100) as byte, (w / 0x100_0000) as byte]
  }

  function DecodeWord(b: seq<byte>): word
    requires |b| == 4
  {
    (b[0] as int) + 0x100 * (b[1] as int) + 0x1_0000 * (b[2] as int) + 0x100_0000 * (b[3] as int)
  }

  lemma WordRoundTrip(w: word)
    ensures DecodeWord(EncodeWord(w)) == w
  {
    var high := w / 0x100;
    assert high / 0x100 == w / 0x1_0000;
    assert w / 0x1_0000 / 0x100 == w / 0x100_0000;
  }

  /** The lowest byte comes first, and a negative number is stored as its two's complement. */
  lemma LittleEndian(n: int32)
    ensures var b := EncodeWord(ToWord(n));
      (b[0] as int + 0x100 * b[1] as int + 0x1_0000 * b[2] as int + 0x100_0000 * b[3] as int - n)
      == if n < 0 then 0x1_0000_0000 else 0
    ensures FromWord(DecodeWord(EncodeWord(ToWord(n)))) == n
  {
    WordRoundTrip(ToWord(n));
  }

  /** A word array as it lies in memory. */
  function EncodeWords(ws: seq<word>): (b: seq<byte>)
    ensures |b| == 4 * |ws|
  {
    seq(4 * |ws|, i requires 0 <= i < 4 * |ws| => EncodeWord(ws[i / 4])[i % 4])
  }

  function DecodeWords(b: seq<byte>): (ws: seq<word>)
    requires |b| % 4 == 0
    ensures |ws| == |b| / 4
  {
    seq(|b| / 4, i requires 0 <= i < |b| / 4 => DecodeWord(b[4 * i..4 * i + 4]))
  }

  lemma EncodeWordsAt(ws: seq<word>, i: nat)
    requires i < |ws|
    ensures EncodeWords(ws)[4 * i..4 * i + 4] == EncodeWord(ws[i])
  {
    var b := EncodeWords(ws);
    forall j | 0 <= j < 4
      ensures b[4 * i..4 * i + 4][j] == EncodeWord(ws[i])[j]
    {
      assert (4 * i + j) / 4 == i && (4 * i + j) % 4 == j;
      assert b[4 * i..4 * i + 4][j] == b[4 * i + j];
    }
  }

  lemma WordsRoundTrip(ws: seq<word>)
    ensures DecodeWords(EncodeWords(ws)) == ws
  {
    forall i | 0 <= i < |ws|
      ensures DecodeWords(EncodeWords(ws))[i] == ws[i]
    {
      EncodeWordsAt(ws, i);
      WordRoundTrip(ws[i]);
    }
  }

  /** bcopy: n bytes of source from srcAt on, laid into dest from destAt on. */
  method CopyBytes(source: array<byte>, srcAt: nat, dest: array<byte>, destAt: nat, n: nat)
    requires source != dest && srcAt + n <= source.Length && destAt + n <= dest.Length
    modifies dest
    ensures dest[..] == old(dest[..destAt]) + source[srcAt..srcAt + n] + old(dest[destAt + n..])
  {
    forall j | 0 <= j < n {
      dest[destAt + j] := source[srcAt + j];
    }
  }
}
