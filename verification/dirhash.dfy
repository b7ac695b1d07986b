/** getHashofDirs (backupDirs.py:24-54): the MD5 of every file under a
    directory, listed in `os.walk` order, and one aggregate MD5 over the
    concatenated hex digests of those files.

    MD5 itself is a parameter `md5` (any function from bytes to 16 bytes);
    the directory is an `Entry` tree whose files carry their bytes and whether
    opening and reading them succeeds. */
module DirectoryHash {
  import opened PyLib
  import opened Ledger
  import opened ByteCodes

  type RawDigest = s: seq<bv8> | |s| == 16 witness seq(16, _ => 0)

  /** `hashlib.md5(data).digest()` */
  type Md5 = seq<bv8> -> RawDigest

  /** `BLOCKSIZE`: how many bytes one `afile.read` asks for. */
  const BlockSize: nat := 65536

  const HexDigits: string := "0123456789abcdef"

  /** `.hexdigest()`: two lower-case hex digits per byte, high nibble first. */
  function HexOf(raw: seq<bv8>): (h: string)
    ensures |h| == 2 * |raw|
    ensures forall i :: 0 <= i < |h| ==> h[i] in HexDigits
  {
    if raw == [] then ""
    else [HexDigits[raw[0] as int / 16], HexDigits[raw[0] as int % 16]] + HexOf(raw[1..])
  }

  /** The value of one lower-case hex digit. */
  function HexValue(c: char): (v: nat)
    ensures v < 16
  {
    if '0' <= c <= '9' then c as int - '0' as int
    else if 'a' <= c <= 'f' then c as int - 'a' as int + 10
    else 0
  }

  /** Hex text read back into bytes, two digits per byte, high nibble first;
      a lone last digit is ignored. */
  function FromHex(h: string): seq<bv8> {
    if |h| < 2 then []
    else [(16 * HexValue(h[0]) + HexValue(h[1])) as bv8] + FromHex(h[2..])
  }

  lemma HexValueOfDigit(n: nat)
    requires n < 16
    ensures HexValue(HexDigits[n]) == n
  {
    if n < 10 {
      assert HexDigits[n] as int == '0' as int + n;
    } else {
      assert HexDigits[n] as int == 'a' as int + n - 10;
    }
  }

  lemma ByteFromDigits(x: bv8, hi: char, lo: char)
    requires hi == HexDigits[x as int / 16] && lo == HexDigits[x as int % 16]
    ensures (16 * HexValue(hi) + HexValue(lo)) as bv8 == x
  {
    var b := x as int;
    HexValueOfDigit(b / 16);
    HexValueOfDigit(b % 16);
    Nibbles(b, HexValue(hi), HexValue(lo));
    ByteOfInt(x, 16 * HexValue(hi) + HexValue(lo));
  }

  lemma Nibbles(b: int, hi: int, lo: int)
    requires 0 <= b && hi == b / 16 && lo == b % 16
    ensures 16 * hi + lo == b
  {
  }

  lemma ByteOfInt(x: bv8, n: int)
    requires n == x as int
    ensures n as bv8 == x
  {
  }

  lemma FromHexCons(h: string)
    requires |h| >= 2
    ensures FromHex(h) == [(16 * HexValue(h[0]) + HexValue(h[1])) as bv8] + FromHex(h[2..])
  {
  }

  /** `hexdigest()` loses nothing: reading its text back gives the digest's
      bytes, so different digests have different hex texts. */
  lemma {:induction false} HexRoundTrip(raw: seq<bv8>)
    ensures FromHex(HexOf(raw)) == raw
  {
    if raw != [] {
      HexRoundTrip(raw[1..]);
      RoundTripStep(raw[0], HexOf(raw[1..]), raw[1..]);
      assert raw == [raw[0]] + raw[1..];
    }
  }

  lemma RoundTripStep(x: bv8, rest: string, tail: seq<bv8>)
    requires FromHex(rest) == tail
    ensures FromHex([HexDigits[x as int / 16], HexDigits[x as int % 16]] + rest) == [x] + tail
  {
    var h := [HexDigits[x as int / 16], HexDigits[x as int % 16]] + rest;
    assert h[2..] == rest;
    ByteFromDigits(x, h[0], h[1]);
    FromHexCons(h);
  }

  /** A `hashlib.md5()` object: what it has been fed decides its digest. */
  class Md5Hasher {
    var fed: seq<bv8>

    constructor ()
      ensures fed == []
    {
      fed := [];
    }

    method Update(buf: seq<bv8>)
      modifies this
      ensures fed == old(fed) + buf
    {
      fed := fed + buf;
    }

    function HexDigest(md5: Md5): string
      reads this
    {
      HexOf(md5(fed))
    }
  }

  // ---------------------------------------------------------------------
  // The directory tree and os.walk

  /** A directory entry: a file with its bytes and whether opening and reading
      it succeeds, or a sub-directory with its entries in listing order. */
  datatype Entry =
    | File(name: string, content: seq<bv8>, readable: bool)
    | Dir(name: string, children: seq<Entry>)

  /** One file as the hashing loop meets it: `os.path.join(root, fileName)`. */
  datatype Visit = Visit(path: string, content: seq<bv8>, readable: bool)

  /** The `files` list `os.walk` yields for directory `top`. */
  function FilesIn(top: string, children: seq<Entry>): seq<Visit> {
    if children == [] then []
    else
      (if children[0].File? then [Visit(JoinPath(top, children[0].name), children[0].content, children[0].readable)] else [])
      + FilesIn(top, children[1..])
  }

  /** The files of the tree under `top` in the order the nested loops of
      backupDirs.py:32-33 meet them: `os.walk` is top-down, so the files of a
      directory come before those of its sub-directories, which follow in
      listing order. */
  function Walk(top: string, children: seq<Entry>): seq<Visit>
    decreases children, 1
  {
    FilesIn(top, children) + WalkSubdirs(top, children)
  }

  function WalkSubdirs(top: string, children: seq<Entry>): seq<Visit>
    decreases children, 0
  {
    if children == [] then []
    else
      (if children[0].Dir? then Walk(JoinPath(top, children[0].name), children[0].children) else [])
      + WalkSubdirs(top, children[1..])
  }

  /** `os.walk` order, part one: the files of a directory come first, in
      listing order, so a listing `a + b` lists the files of `a` before those
      of `b`. */
  lemma {:induction false} FilesInAppend(top: string, a: seq<Entry>, b: seq<Entry>)
    ensures FilesIn(top, a + b) == FilesIn(top, a) + FilesIn(top, b)
  {
    if a != [] {
      FilesInAppend(top, a[1..], b);
      assert (a + b)[0] == a[0] && (a + b)[1..] == a[1..] + b;
    } else {
      assert a + b == b;
    }
  }

  /** `os.walk` order, part two: the sub-directories follow in listing order,
      each walked completely (depth first) before the next one starts. */
  lemma {:induction false} SubdirsAppend(top: string, a: seq<Entry>, b: seq<Entry>)
    ensures WalkSubdirs(top, a + b) == WalkSubdirs(top, a) + WalkSubdirs(top, b)
  {
    if a != [] {
      SubdirsAppend(top, a[1..], b);
      assert (a + b)[0] == a[0] && (a + b)[1..] == a[1..] + b;
    } else {
      assert a + b == b;
    }
  }

  /** A directory's walk, whatever the order of files and sub-directories
      in its listing, is all its own files, then the whole walk of each
      sub-directory in listing order. */
  lemma {:induction false} WalkOrder(top: string, before: seq<Entry>, name: string, grand: seq<Entry>, after: seq<Entry>)
    ensures Walk(top, before + [Dir(name, grand)] + after) ==
              FilesIn(top, before + after) + WalkSubdirs(top, before) +
              Walk(JoinPath(top, name), grand) + WalkSubdirs(top, after)
  {
    var all := before + [Dir(name, grand)] + after;
    FilesSkipDir(top, before, name, grand, after);
    SubdirsAround(top, before, name, grand, after);
    Regroup(FilesIn(top, before + after), WalkSubdirs(top, before),
            Walk(JoinPath(top, name), grand), WalkSubdirs(top, after));
  }

  lemma Regroup(a: seq<Visit>, b: seq<Visit>, c: seq<Visit>, d: seq<Visit>)
    ensures a + (b + c + d) == a + b + c + d
  {
  }

  lemma {:induction false} FilesSkipDir(top: string, before: seq<Entry>, name: string, grand: seq<Entry>, after: seq<Entry>)
    ensures FilesIn(top, before + [Dir(name, grand)] + after) == FilesIn(top, before + after)
  {
    var d := [Dir(name, grand)];
    FilesInAppend(top, before + d, after);
    FilesInAppend(top, before, d);
    NoFiles(top, d);
    FilesInAppend(top, before, after);
  }

  lemma {:induction false} SubdirsAround(top: string, before: seq<Entry>, name: string, grand: seq<Entry>, after: seq<Entry>)
    ensures WalkSubdirs(top, before + [Dir(name, grand)] + after) ==
              WalkSubdirs(top, before) + Walk(JoinPath(top, name), grand) + WalkSubdirs(top, after)
  {
    var d := [Dir(name, grand)];
    SubdirsAppend(top, before + d, after);
    SubdirsAppend(top, before, d);
    SubdirsSingle(top, name, grand);
  }

  lemma SubdirsSingle(top: string, name: string, grand: seq<Entry>)
    ensures WalkSubdirs(top, [Dir(name, grand)]) == Walk(JoinPath(top, name), grand)
  {
    var d := [Dir(name, grand)];
    assert d[1..] == [];
    assert WalkSubdirs(top, d) == Walk(JoinPath(top, name), grand) + WalkSubdirs(top, []);
  }

  lemma {:induction false} NoFiles(top: string, dirs: seq<Entry>)
    requires forall i :: 0 <= i < |dirs| ==> dirs[i].Dir?
    ensures FilesIn(top, dirs) == []
  {
    if dirs != [] {
      NoFiles(top, dirs[1..]);
    }
  }

  /** The files of the tree under `top`, each with its full path, counted
      by a plain descent that ignores the order `os.walk` uses. */
  function TreeFiles(top: string, children: seq<Entry>): multiset<Visit>
    decreases children
  {
    if children == [] then multiset{}
    else (match children[0]
          case File(n, content, readable) => multiset{Visit(JoinPath(top, n), content, readable)}
          case Dir(n, grand) => TreeFiles(JoinPath(top, n), grand)) + TreeFiles(top, children[1..])
  }

  /** The walk meets every file of the tree, with its full path, exactly
      once, and nothing else. */
  lemma {:induction false} WalkVisitsEveryFile(top: string, children: seq<Entry>)
    ensures multiset(Walk(top, children)) == TreeFiles(top, children)
    ensures |Walk(top, children)| == |TreeFiles(top, children)|
    decreases children
  {
    if children != [] {
      var c, rest := children[0], children[1..];
      WalkVisitsEveryFile(top, rest);
      var here := if c.File? then [Visit(JoinPath(top, c.name), c.content, c.readable)] else [];
      var below := if c.Dir? then Walk(JoinPath(top, c.name), c.children) else [];
      if c.Dir? {
        WalkVisitsEveryFile(JoinPath(top, c.name), c.children);
      }
      assert FilesIn(top, children) == here + FilesIn(top, rest);
      assert WalkSubdirs(top, children) == below + WalkSubdirs(top, rest);
      assert Walk(top, rest) == FilesIn(top, rest) + WalkSubdirs(top, rest);
      assert multiset(Walk(top, children)) == multiset(here) + multiset(below) + multiset(Walk(top, rest));
    }
  }

  // ---------------------------------------------------------------------
  // What getHashofDirs computes

  datatype HashResult =
    | NotFound                                            // -1: the path does not exist
    | WalkFailed                                          // -2: an exception during the walk
    | Hashed(digest: string, files: seq<LedgerEntry>)     // (hasher.hexdigest(), md5hashes)

  predicate AllReadable(visits: seq<Visit>) {
    forall i :: 0 <= i < |visits| ==> visits[i].readable
  }

  /** The per-file hex digests, in walk order. */
  function FileDigests(md5: Md5, visits: seq<Visit>): seq<string> {
    seq(|visits|, i requires 0 <= i < |visits| => HexOf(md5(visits[i].content)))
  }

  /** The `(hexdigest, path without drive)` pairs, in walk order. */
  function Entries(md5: Md5, visits: seq<Visit>): seq<LedgerEntry> {
    seq(|visits|, i requires 0 <= i < |visits| =>
      LedgerEntry(HexOf(md5(visits[i].content)), StripDrive(visits[i].path)))
  }

  /** The bytes the aggregate hasher is fed: every digest's text, in order. */
  function Concat(digests: seq<string>): seq<bv8> {
    if digests == [] then [] else AsciiBytes(digests[0]) + Concat(digests[1..])
  }

  function HashOfDirs(md5: Md5, root: Option<seq<Entry>>, top: string): HashResult {
    match root
    case None => NotFound
    case Some(children) =>
      var visits := Walk(top, children);
      if !AllReadable(visits) then WalkFailed
      else Hashed(HexOf(md5(Concat(FileDigests(md5, visits)))), Entries(md5, visits))
  }

  /** `buf = afile.read(BLOCKSIZE)` on a file whose first `pos` bytes are read. */
  function ReadBlock(content: seq<bv8>, pos: nat): (buf: seq<bv8>)
    requires pos <= |content|
    ensures |buf| <= BlockSize && pos + |buf| <= |content| && buf == content[pos..pos + |buf|]
    ensures |buf| == 0 <==> pos == |content|
  {
    if pos + BlockSize <= |content| then content[pos..pos + BlockSize] else content[pos..]
  }

  /** The block loop of backupDirs.py:38-42: feeds the file's bytes, exactly
      and in order, to the file's hasher. */
  method HashFile(hasherFile: Md5Hasher, content: seq<bv8>)
    modifies hasherFile
    ensures hasherFile.fed == old(hasherFile.fed) + content
  {
    var pos := 0;
    var buf := ReadBlock(content, pos);
    while |buf| > 0
      invariant pos <= |content| && buf == ReadBlock(content, pos)
      invariant hasherFile.fed == old(hasherFile.fed) + content[..pos]
      decreases |content| - pos
    {
      hasherFile.Update(buf);
      assert content[..pos + |buf|] == content[..pos] + buf;
      pos := pos + |buf|;
      buf := ReadBlock(content, pos);
    }
    assert content[..pos] == content;
  }

  /** getHashofDirs: -1 when the path is missing, -2 when any file cannot be
      read, otherwise one entry per file in walk order and the MD5 of their
      concatenated hex digests. */
  /** The `try` block of backupDirs.py:30-44: every file the walk meets is
      hashed block by block into its own MD5 object, its entry appended, and
      its hex digest fed to `hasher`; an unreadable file ends it. */
  method HashFiles(md5: Md5, visits: seq<Visit>, hasher: Md5Hasher) returns (ok: bool, md5hashes: seq<LedgerEntry>)
    requires hasher.fed == []
    modifies hasher
    ensures ok <==> AllReadable(visits)
    ensures ok ==> md5hashes == Entries(md5, visits) && hasher.fed == Concat(FileDigests(md5, visits))
  {
    md5hashes := [];
    for i := 0 to |visits|
      invariant AllReadable(visits[..i])
      invariant md5hashes == Entries(md5, visits[..i])
      invariant hasher.fed == Concat(FileDigests(md5, visits[..i]))
    {
      var v := visits[i];
      if !v.readable {
        return false, md5hashes;
      }
      var hasherFile := new Md5Hasher();
      HashFile(hasherFile, v.content);
      assert hasherFile.fed == [] + v.content == v.content;
      var d := hasherFile.HexDigest(md5);
      md5hashes := md5hashes + [LedgerEntry(d, StripDrive(v.path))];
      PrefixStep(md5, visits, i);
      assert visits[..i + 1] == visits[..i] + [v];
      hasher.Update(AsciiBytes(d));
    }
    assert visits[..|visits|] == visits;
    ok := true;
  }

  method GetHashOfDirs(md5: Md5, root: Option<seq<Entry>>, top: string) returns (r: HashResult)
    ensures r.NotFound? <==> root.None?
    ensures r.WalkFailed? <==> root.Some? && !AllReadable(Walk(top, root.value))
    ensures r.Hashed? ==>
              r.files == Entries(md5, Walk(top, root.value)) &&
              r.digest == HexOf(md5(Concat(FileDigests(md5, Walk(top, root.value)))))
    ensures r == HashOfDirs(md5, root, top)
  {
    var hasher := new Md5Hasher();
    if root.None? {
      return NotFound;
    }
    var ok, md5hashes := HashFiles(md5, Walk(top, root.value), hasher);
    if !ok {
      return WalkFailed;
    }
    r := Hashed(hasher.HexDigest(md5), md5hashes);
  }

  /** One more file visited: one more entry and one more digest fed. */
  lemma PrefixStep(md5: Md5, visits: seq<Visit>, i: nat)
    requires i < |visits|
    ensures Entries(md5, visits[..i + 1]) ==
              Entries(md5, visits[..i]) + [LedgerEntry(HexOf(md5(visits[i].content)), StripDrive(visits[i].path))]
    ensures Concat(FileDigests(md5, visits[..i + 1])) ==
              Concat(FileDigests(md5, visits[..i])) + AsciiBytes(HexOf(md5(visits[i].content)))
  {
    var d := HexOf(md5(visits[i].content));
    assert visits[..i + 1] == visits[..i] + [visits[i]];
    assert FileDigests(md5, visits[..i + 1]) == FileDigests(md5, visits[..i]) + [d];
    ConcatSnoc(FileDigests(md5, visits[..i]), d);
  }

  lemma {:induction false} ConcatSnoc(ds: seq<string>, d: string)
    ensures Concat(ds + [d]) == Concat(ds) + AsciiBytes(d)
  {
    if ds == [] {
      assert ds + [d] == [d];
    } else {
      ConcatSnoc(ds[1..], d);
      assert (ds + [d])[1..] == ds[1..] + [d];
    }
  }

  // ---------------------------------------------------------------------
  // Properties

  /** An empty directory is not an error: it hashes to the MD5 of no bytes
      and lists no files. */
  lemma EmptyDirectory(md5: Md5, top: string)
    ensures HashOfDirs(md5, Some([]), top) == Hashed(HexOf(md5([])), [])
  {
    assert Walk(top, []) == [];
  }

  predicate IsHexDigest(d: string) {
    |d| == 32 && forall i :: 0 <= i < |d| ==> d[i] in HexDigits
  }

  /** Every digest getHashofDirs returns is 32 lower-case hex digits, so its
      ledger line can be read back unless the path holds a line break. */
  lemma HashedDigestsAreHex(md5: Md5, root: Option<seq<Entry>>, top: string)
    requires HashOfDirs(md5, root, top).Hashed?
    ensures IsHexDigest(HashOfDirs(md5, root, top).digest)
    ensures forall i :: 0 <= i < |HashOfDirs(md5, root, top).files| ==>
              IsHexDigest(HashOfDirs(md5, root, top).files[i].digest) &&
              ('\n' !in HashOfDirs(md5, root, top).files[i].path ==> Readable(HashOfDirs(md5, root, top).files[i]))
  {
    var visits := Walk(top, root.value);
    var files := HashOfDirs(md5, root, top).files;
    assert files == Entries(md5, visits);
    forall i | 0 <= i < |files|
      ensures IsHexDigest(files[i].digest) && ('\n' !in files[i].path ==> Readable(files[i]))
    {
      var d := HexOf(md5(visits[i].content));
      assert files[i].digest == d;
      HexHasNoBreaks(d);
    }
  }

  lemma HexHasNoBreaks(d: string)
    requires forall i :: 0 <= i < |d| ==> d[i] in HexDigits
    ensures ' ' !in d && '\n' !in d
  {
    assert ' ' !in HexDigits && '\n' !in HexDigits;
  }

  lemma AsciiBytesOfHex(a: string, b: string)
    requires IsHexDigest(a) && IsHexDigest(b)
    requires AsciiBytes(a) == AsciiBytes(b)
    ensures a == b
  {
    forall i | 0 <= i < 32 ensures a[i] == b[i] {
      HexCharIsAscii(a[i]);
      HexCharIsAscii(b[i]);
      assert AsciiBytes(a)[i] as int == AsciiBytes(b)[i] as int;
    }
  }

  lemma HexCharIsAscii(c: char)
    requires c in HexDigits
    ensures c as int < 128
  {
    var j :| 0 <= j < |HexDigits| && HexDigits[j] == c;
  }

  lemma {:induction false} ConcatLength(ds: seq<string>)
    requires forall i :: 0 <= i < |ds| ==> IsHexDigest(ds[i])
    ensures |Concat(ds)| == 32 * |ds|
  {
    if ds != [] {
      ConcatLength(ds[1..]);
    }
  }

  /** The byte stream the aggregate hasher is fed determines the per-file
      digests and their order: two walks feed the same bytes exactly when they
      list the same digests in the same order. (Equal aggregate digests then
      mean equal streams only up to an MD5 collision.) */
  lemma {:induction false} StreamDeterminesDigests(ds1: seq<string>, ds2: seq<string>)
    requires forall i :: 0 <= i < |ds1| ==> IsHexDigest(ds1[i])
    requires forall i :: 0 <= i < |ds2| ==> IsHexDigest(ds2[i])
    ensures Concat(ds1) == Concat(ds2) <==> ds1 == ds2
  {
    if Concat(ds1) == Concat(ds2) {
      ConcatLength(ds1);
      ConcatLength(ds2);
      if ds1 != [] {
        var c1, c2 := Concat(ds1), Concat(ds2);
        assert c1[..32] == AsciiBytes(ds1[0]);
        assert c2[..32] == AsciiBytes(ds2[0]);
        AsciiBytesOfHex(ds1[0], ds2[0]);
        assert c1[32..] == Concat(ds1[1..]);
        assert c2[32..] == Concat(ds2[1..]);
        StreamDeterminesDigests(ds1[1..], ds2[1..]);
        assert ds1 == [ds1[0]] + ds1[1..] && ds2 == [ds2[0]] + ds2[1..];
      }
    }
  }

  /** What a walk yields besides the paths: each file's bytes and readability. */
  function Payload(visits: seq<Visit>): seq<Visit> {
    seq(|visits|, i requires 0 <= i < |visits| => Visit("", visits[i].content, visits[i].readable))
  }

  lemma PayloadAppend(a: seq<Visit>, b: seq<Visit>)
    ensures Payload(a + b) == Payload(a) + Payload(b)
  {
  }

  lemma {:induction false} FilesInIgnoresTop(top1: string, top2: string, children: seq<Entry>)
    ensures Payload(FilesIn(top1, children)) == Payload(FilesIn(top2, children))
  {
    if children != [] {
      FilesInIgnoresTop(top1, top2, children[1..]);
      var h1 := if children[0].File? then [Visit(JoinPath(top1, children[0].name), children[0].content, children[0].readable)] else [];
      var h2 := if children[0].File? then [Visit(JoinPath(top2, children[0].name), children[0].content, children[0].readable)] else [];
      PayloadAppend(h1, FilesIn(top1, children[1..]));
      PayloadAppend(h2, FilesIn(top2, children[1..]));
    }
  }

  /** Where a tree sits does not change what its walk reads. */
  lemma {:induction false} WalkIgnoresTop(top1: string, top2: string, children: seq<Entry>)
    ensures Payload(Walk(top1, children)) == Payload(Walk(top2, children))
    decreases children, 1
  {
    FilesInIgnoresTop(top1, top2, children);
    SubdirsIgnoreTop(top1, top2, children);
    PayloadAppend(FilesIn(top1, children), WalkSubdirs(top1, children));
    PayloadAppend(FilesIn(top2, children), WalkSubdirs(top2, children));
  }

  lemma {:induction false} SubdirsIgnoreTop(top1: string, top2: string, children: seq<Entry>)
    ensures Payload(WalkSubdirs(top1, children)) == Payload(WalkSubdirs(top2, children))
    decreases children, 0
  {
    if children != [] {
      SubdirsIgnoreTop(top1, top2, children[1..]);
      var h1 := if children[0].Dir? then Walk(JoinPath(top1, children[0].name), children[0].children) else [];
      var h2 := if children[0].Dir? then Walk(JoinPath(top2, children[0].name), children[0].children) else [];
      if children[0].Dir? {
        WalkIgnoresTop(JoinPath(top1, children[0].name), JoinPath(top2, children[0].name), children[0].children);
      }
      PayloadAppend(h1, WalkSubdirs(top1, children[1..]));
      PayloadAppend(h2, WalkSubdirs(top2, children[1..]));
    }
  }

  /** The aggregate digest depends only on the files' bytes in walk order:
      two walks that read the same bytes in the same order both fail or both
      produce the same aggregate digest, wherever they are and whatever their
      files are called. */
  lemma SamePayloadSameDigest(md5: Md5, children1: seq<Entry>, top1: string, children2: seq<Entry>, top2: string)
    requires Payload(Walk(top1, children1)) == Payload(Walk(top2, children2))
    ensures HashOfDirs(md5, Some(children1), top1).Hashed? <==> HashOfDirs(md5, Some(children2), top2).Hashed?
    ensures HashOfDirs(md5, Some(children1), top1).Hashed? ==>
              HashOfDirs(md5, Some(children1), top1).digest == HashOfDirs(md5, Some(children2), top2).digest
  {
    var v1, v2 := Walk(top1, children1), Walk(top2, children2);
    assert |v1| == |Payload(v1)| == |Payload(v2)| == |v2|;
    forall i | 0 <= i < |v1| ensures v1[i].content == v2[i].content && v1[i].readable == v2[i].readable {
      assert Payload(v1)[i] == Payload(v2)[i];
    }
    assert FileDigests(md5, v1) == FileDigests(md5, v2);
  }

  /** A copy that reproduces the tree byte for byte hashes like the original,
      wherever it is placed. */
  lemma FaithfulCopyHashesEqual(md5: Md5, children: seq<Entry>, source: string, target: string)
    ensures HashOfDirs(md5, Some(children), source).Hashed? <==> HashOfDirs(md5, Some(children), target).Hashed?
    ensures HashOfDirs(md5, Some(children), source).Hashed? ==>
              HashOfDirs(md5, Some(children), source).digest == HashOfDirs(md5, Some(children), target).digest
  {
    WalkIgnoresTop(source, target, children);
    SamePayloadSameDigest(md5, children, source, children, target);
  }
}
