/** The disk as a value: sectors, file headers kept in sectors, and the flat bytes of a file. */
module DiskImage {
  import opened Bytes

  const SECTOR_SIZE := 128
  const SECTORS_PER_TRACK := 32
  const NUM_TRACKS := 32
  const NUM_SECTORS := SECTORS_PER_TRACK * NUM_TRACKS
  const NUM_DIRECT := 30

  function BlankSector(): (s: seq<byte>)
    ensures |s| == 128
  {
    seq(128, _ => 0)
  }

  function BlankImage(): (m: seq<Sector>)
    ensures |m| == 1024
  {
    seq(1024, _ => BlankSector())
  }

  type Sector = s: seq<byte> | |s| == 128 witness BlankSector()
  type Image = m: seq<Sector> | |m| == 1024 witness BlankImage()
  type Pointers = p: seq<int32> | |p| == 30 witness seq(30, _ => 0)

  function DivRoundUp(n: int, s: int): int
    requires n >= 0 && s > 0
  {
    n / s + if n % s > 0 then 1 else 0
  }

  /** The least number of pieces of size s that hold n. */
  lemma DivRoundUpIsLeast(n: int, s: int)
    requires n >= 0 && s > 0
    ensures (DivRoundUp(n, s) - 1) * s < n <= DivRoundUp(n, s) * s
  {
    var q, r := n / s, n % s;
    assert n == q * s + r;
    assert (q + 1) * s == q * s + s && (q - 1) * s == q * s - s;
  }

  datatype Header = Header(numBytes: int32, numSectors: int32, pointers: Pointers) {
    /** A header that Allocate could have produced. */
    ghost predicate Good() {
      && 0 <= numBytes <= NUM_DIRECT * SECTOR_SIZE
      && numSectors == DivRoundUp(numBytes, SECTOR_SIZE)
      && (forall i | 0 <= i < numSectors :: 0 <= pointers[i] < NUM_SECTORS)
      && (forall i, j | 0 <= i < j < numSectors :: pointers[i] != pointers[j])
    }

    ghost function Data(): (d: set<int>)
      requires Good()
      ensures forall s <- d :: 0 <= s < NUM_SECTORS
    {
      set i | 0 <= i < numSectors :: pointers[i]
    }
  }

  /** The 32 words of a header are numBytes, numSectors and the pointers, in that order. */
  function HeaderWords(h: Header): (ws: seq<word>)
    ensures |ws| == 32
  {
    seq<word>(32, i requires 0 <= i < 32 =>
      ToWord(if i == 0 then h.numBytes else if i == 1 then h.numSectors else h.pointers[i - 2]))
  }

  function HeaderOfWords(ws: seq<word>): Header
    requires |ws| == 32
  {
    Header(FromWord(ws[0]), FromWord(ws[1]), seq<int32>(30, i requires 0 <= i < 30 => FromWord(ws[i + 2])))
  }

  lemma HeaderWordsRoundTrip(h: Header)
    ensures HeaderOfWords(HeaderWords(h)) == h
  {
    var ws := HeaderWords(h);
    forall i | 0 <= i < 30
      ensures HeaderOfWords(ws).pointers[i] == h.pointers[i]
    {
      assert ws[i + 2] == ToWord(h.pointers[i]);
    }
    assert HeaderOfWords(ws).pointers == h.pointers;
    assert ws[0] == ToWord(h.numBytes) && ws[1] == ToWord(h.numSectors);
  }

  function EncodeHeader(h: Header): Sector {
    EncodeWords(HeaderWords(h))
  }

  function DecodeHeader(s: Sector): Header {
    HeaderOfWords(DecodeWords(s))
  }

  lemma HeaderRoundTrip(h: Header)
    ensures DecodeHeader(EncodeHeader(h)) == h
  {
    WordsRoundTrip(HeaderWords(h));
    HeaderWordsRoundTrip(h);
  }

  /** Size, number of sectors and thirty pointers, four bytes each, in this order. */
  lemma HeaderLayout(h: Header)
    ensures EncodeHeader(h)[0..4] == EncodeWord(ToWord(h.numBytes))
    ensures EncodeHeader(h)[4..8] == EncodeWord(ToWord(h.numSectors))
    ensures forall i | 0 <= i < 30 :: EncodeHeader(h)[8 + 4 * i..12 + 4 * i] == EncodeWord(ToWord(h.pointers[i]))
  {
    var ws := HeaderWords(h);
    EncodeWordsAt(ws, 0);
    EncodeWordsAt(ws, 1);
    forall i | 0 <= i < 30
      ensures EncodeHeader(h)[8 + 4 * i..12 + 4 * i] == EncodeWord(ToWord(h.pointers[i]))
    {
      EncodeWordsAt(ws, i + 2);
      assert ws[i + 2] == ToWord(h.pointers[i]);
    }
  }

  function HeaderAt(img: Image, sector: int): Header
    requires 0 <= sector < NUM_SECTORS
  {
    DecodeHeader(img[sector])
  }

  /** Byte k of the file described by h. */
  ghost function ByteAt(img: Image, h: Header, k: int): byte
    requires h.Good() && 0 <= k < h.numBytes
  {
    img[h.pointers[k / SECTOR_SIZE]][k % SECTOR_SIZE]
  }

  /** The file as one sequence of bytes, whatever sectors it is scattered over. */
  ghost function Flat(img: Image, h: Header): (f: seq<byte>)
    requires h.Good()
    ensures |f| == h.numBytes
  {
    seq(h.numBytes, k requires 0 <= k < h.numBytes => ByteAt(img, h, k))
  }

  /** Byte k lies in the sector that pointer k / 128 names, at place k % 128. */
  lemma FlatByte(img: Image, h: Header, k: int)
    requires h.Good() && 0 <= k < h.numBytes
    ensures 0 <= h.pointers[k / 128] < 1024 && Flat(img, h)[k] == img[h.pointers[k / 128]][k % 128]
  {
  }

  /** f with data laid over it from position pos. */
  function Splice(f: seq<byte>, pos: int, data: seq<byte>): (g: seq<byte>)
    requires 0 <= pos && pos + |data| <= |f|
    ensures |g| == |f|
  {
    f[..pos] + data + f[pos + |data|..]
  }

  /** Nothing outside the given sectors differs. */
  ghost predicate SameOutside(img: Image, img': Image, sectors: set<int>) {
    forall s | 0 <= s < NUM_SECTORS && s !in sectors :: img'[s] == img[s]
  }

  lemma FlatFrame(img: Image, img': Image, h: Header)
    requires h.Good()
    requires forall s <- h.Data() :: img'[s] == img[s]
    ensures Flat(img', h) == Flat(img, h)
  {
    forall k | 0 <= k < h.numBytes
      ensures ByteAt(img', h, k) == ByteAt(img, h, k)
    {
      assert h.pointers[k / SECTOR_SIZE] in h.Data();
    }
  }
}
