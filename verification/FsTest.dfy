/** The Copy and Print utilities: a host file goes in ten bytes at a time and comes out ten bytes at a time. */
module FsTest {
  import opened Bytes
  import opened DiskImage
  import opened OpenFiles
  import opened Directories
  import opened DiskLayout
  import opened DiskSteps
  import opened FileSystems

  const TRANSFER_SIZE := 10

  /** The disk after Copy has written the first n bytes of the contents. */
  ghost predicate CopiedUpTo(img: Image, img': Image, k: CString, contents: seq<byte>, n: nat) {
    && Consistent(img) && Consistent(img')
    && n <= |contents|
    && k in Catalog(img')
    && Catalog(img') == Catalog(img)[k := Catalog(img')[k]]
    && |Catalog(img')[k].content| == |contents|
    && Catalog(img')[k].content[..n] == contents[..n]
  }

  lemma CopyOneMore(img: Image, img1: Image, img2: Image, k: CString, contents: seq<byte>, n: nat, m: nat)
    requires CopiedUpTo(img, img1, k, contents, n) && n <= m <= |contents|
    requires Rewritten(img1, img2, k, n, contents[n..m])
    ensures CopiedUpTo(img, img2, k, contents, m)
    ensures Catalog(img2)[k].header == Catalog(img1)[k].header
  {
    hide Consistent, Catalog;
    assert contents[..m] == contents[..n] + contents[n..m];
  }

  /** Writes the next chunk of the contents at the position of the open file. */
  method WriteChunk(fileSystem: FileSystem, openFile: OpenFile, buffer: seq<byte>,
                    ghost img: Image, ghost k: CString, ghost contents: seq<byte>, ghost position: nat)
    requires fileSystem.Valid() && openFile.Valid() && openFile.disk == fileSystem.disk
    requires openFile.seekPosition == position && position + |buffer| <= |contents|
    requires buffer == contents[position..position + |buffer|]
    requires CopiedUpTo(img, fileSystem.disk.image, k, contents, position)
    requires Catalog(fileSystem.disk.image)[k].header == openFile.hdr.Value()
    modifies openFile, fileSystem.disk
    ensures fileSystem.Valid() && openFile.seekPosition == position + |buffer|
    ensures CopiedUpTo(img, fileSystem.disk.image, k, contents, position + |buffer|)
    ensures Catalog(fileSystem.disk.image)[k].header == openFile.hdr.Value()
  {
    hide Consistent, Catalog, Written, Rewritten, DecodeHeader, Flat, Header.Good;
    ghost var before := fileSystem.disk.image;
    HeaderMatchesContent(before, k);
    var written := openFile.Write(buffer, |buffer|);
    assert buffer[..written] == buffer;
    WriteByName(before, fileSystem.disk.image, k, position, buffer);
    RewrittenIsConsistent(before, fileSystem.disk.image, k, position, buffer);
    CopyOneMore(img, before, fileSystem.disk.image, k, contents, position, position + |buffer|);
  }

  /** The loop of Copy: fread, then Write. */
  method WriteChunks(fileSystem: FileSystem, openFile: OpenFile, contents: seq<byte>, ghost img: Image,
      ghost k: CString)
    requires fileSystem.Valid() && openFile.Valid() && openFile.disk == fileSystem.disk && openFile.seekPosition == 0
    requires CopiedUpTo(img, fileSystem.disk.image, k, contents, 0)
    requires Catalog(fileSystem.disk.image)[k].header == openFile.hdr.Value()
    modifies openFile, fileSystem.disk
    ensures fileSystem.Valid() && CopiedUpTo(img, fileSystem.disk.image, k, contents, |contents|)
  {
    hide Consistent, Catalog, DecodeHeader, Flat, Header.Good;
    var position := 0;
    while position < |contents|
      invariant 0 <= position <= |contents| && openFile.seekPosition == position
      invariant fileSystem.Valid() && openFile.Valid()
      invariant CopiedUpTo(img, fileSystem.disk.image, k, contents, position)
      invariant Catalog(fileSystem.disk.image)[k].header == openFile.hdr.Value()
    {
      var amountRead := if |contents| - position < TRANSFER_SIZE then |contents| - position else TRANSFER_SIZE;
      WriteChunk(fileSystem, openFile, contents[position..position + amountRead], img, k, contents, position);
      position := position + amountRead;
    }
  }

  /** Copies a host file with the given contents to a new file; answers whether it could be created. */
  method Copy(fileSystem: FileSystem, contents: seq<byte>, to: CString) returns (copied: bool)
    requires fileSystem.Valid() && |contents| <= NUM_DIRECT * SECTOR_SIZE
    modifies fileSystem.disk
    ensures fileSystem.Valid()
    ensures copied <==> old(CanCreate(fileSystem.disk.image, NameKey(to), |contents|))
    ensures !copied ==> fileSystem.disk.image == old(fileSystem.disk.image)
    ensures copied ==>
              CopiedUpTo(old(fileSystem.disk.image), fileSystem.disk.image, NameKey(to), contents, |contents|)
    ensures copied ==> Catalog(fileSystem.disk.image)[NameKey(to)].content == contents
  {
    hide Consistent, Catalog, CanCreate, NameKey, Written, Rewritten, DecodeHeader, Flat, Header.Good;
    ghost var k := NameKey(to);
    ghost var img := fileSystem.disk.image;
    copied := fileSystem.Create(to, |contents|);
    if !copied {
      return;
    }
    CopyStarts(img, fileSystem.disk.image, k, contents);
    hide CopiedUpTo;
    var openFile := fileSystem.Open(to);
    WriteChunks(fileSystem, openFile, contents, img, k);
    CopyEnds(img, fileSystem.disk.image, k, contents);
  }

  lemma CopyStarts(img: Image, img': Image, k: CString, contents: seq<byte>)
    requires Created(img, img', k, |contents|)
    ensures CopiedUpTo(img, img', k, contents, 0)
  {
    CreatedSize(img, img', k, |contents|);
    CreatedIsConsistent(img, img', k, |contents|);
    hide Consistent, Catalog;
  }

  lemma CopyEnds(img: Image, img': Image, k: CString, contents: seq<byte>)
    requires CopiedUpTo(img, img', k, contents, |contents|)
    ensures Catalog(img')[k].content == contents
  {
    hide Consistent, Catalog;
    assert Catalog(img')[k].content[..|contents|] == Catalog(img')[k].content;
  }

  lemma PrintOneMore(content: seq<byte>, position: nat, n: nat, into: seq<byte>, rest: seq<byte>)
    requires position + n <= |content| && into == Slice(content, position, n) + rest
    ensures |into| >= n && content[..position] + into[..n] == content[..position + n]
  {
  }

  /** Prints a file by reading it until nothing is left. */
  method Print(fileSystem: FileSystem, name: CString) returns (found: bool, printed: seq<byte>)
    requires fileSystem.Valid()
    ensures found <==> NameKey(name) in Catalog(fileSystem.disk.image)
    ensures found ==> printed == Catalog(fileSystem.disk.image)[NameKey(name)].content
    ensures !found ==> printed == []
  {
    hide Consistent, Catalog, NameKey, DecodeHeader, Flat, Header.Good, Slice;
    printed := [];
    var openFile := fileSystem.Open(name);
    if openFile == null {
      return false, [];
    }
    ghost var content := openFile.Content();
    var buffer := new byte[TRANSFER_SIZE];
    ghost var blank := buffer[..];
    var amountRead: nat := openFile.Read(buffer, TRANSFER_SIZE);
    PrintOneMore(content, 0, amountRead, buffer[..], blank[amountRead..]);
    while amountRead > 0
      invariant openFile.Valid() && openFile.Content() == content && amountRead <= TRANSFER_SIZE
      invariant fresh(openFile) && fresh(buffer) && buffer.Length == TRANSFER_SIZE
      invariant openFile.hdr.numBytes == |content|
      invariant openFile.seekPosition == |printed| + amountRead <= |content|
      invariant printed + buffer[..amountRead] == content[..openFile.seekPosition]
      invariant amountRead == 0 ==> openFile.seekPosition == |content|
      decreases |content| - |printed|
    {
      printed := printed + buffer[..amountRead];
      ghost var before := buffer[..];
      amountRead := openFile.Read(buffer, TRANSFER_SIZE);
      PrintOneMore(content, |printed|, amountRead, buffer[..], before[amountRead..]);
    }
    assert content[..|content|] == content;
    return true, printed;
  }
}
