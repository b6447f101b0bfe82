/**
 * The content-addressed chunk store behind snapshots: hash-named files, words
 * split into chunks and read back, and garbage collection by parsing the names.
 *
 * The file system is a map from (shard, file name) to contents; the hash is a
 * given function, and nothing but what is stated of it is used.
 */
module ChunkStore {
  import opened Basics

  type u32 = w: int | 0 <= w < 0x1_0000_0000

  type Hash = h: seq<byte> | |h| == 32 witness seq(32, _ => 0)
  type HashFunction = seq<byte> -> Hash

  datatype Result<+T> = Ok(value: T) | NotFound | InvalidData(size: nat)

  datatype Path = Path(shard: string, name: string)

  type Files = map<Path, seq<byte>>

  const CHUNK_SIZE: nat := 64 * 1024
  const CHUNK_WORDS: nat := CHUNK_SIZE / 4

  // ---- Names ---------------------------------------------------------------

  const HEX: string := "0123456789abcdef"

  function HexEncode(bytes: seq<byte>): (s: string)
    ensures |s| == 2 * |bytes|
  {
    if bytes == [] then "" else HexPair(bytes[0]) + HexEncode(bytes[1..])
  }

  function HexPair(b: byte): (s: string)
    ensures |s| == 2
  {
    [HEX[b / 16], HEX[b % 16]]
  }

  function HexNibble(c: char): Option<nat>
  {
    if '0' <= c <= '9' then Some(c as int - '0' as int)
    else if 'a' <= c <= 'f' then Some(10 + (c as int - 'a' as int))
    else if 'A' <= c <= 'F' then Some(10 + (c as int - 'A' as int))
    else None
  }

  /** Pairs of hex digits as bytes, or nothing if any is not a digit. */
  function HexDecode(s: string): (r: Option<seq<byte>>)
    requires |s| % 2 == 0
    ensures r.Some? ==> |r.value| == |s| / 2
  {
    if s == "" then Some([])
    else
      var b, rest := HexByte(s[0], s[1]), HexDecode(s[2..]);
      if b.None? || rest.None? then None else Some([b.value] + rest.value)
  }

  function HexByte(c0: char, c1: char): Option<byte>
  {
    var hi, lo := HexNibble(c0), HexNibble(c1);
    if hi.None? || lo.None? then None else Some(hi.value * 16 + lo.value)
  }

  function ParseHex62(tail: string, head: string): (r: Option<Hash>)
  {
    if |tail| != 62 || |head| != 2 then None else HexDecode(head + tail)
  }

  function PathFor(h: Hash): Path
  {
    var hex := HexEncode(h);
    Path(hex[..2], hex[2..] + ".chunk")
  }

  /** The sibling a chunk is written to before it is renamed into place. */
  function TmpFor(h: Hash): Path
  {
    var hex := HexEncode(h);
    Path(hex[..2], hex[2..] + ".chunk.tmp")
  }

  function LastDot(name: string): (r: Option<nat>)
    ensures r.Some? ==> r.value < |name|
  {
    if name == "" then None
    else if name[|name| - 1] == '.' then Some(|name| - 1)
    else LastDot(name[..|name| - 1])
  }

  /** A file name without its last extension. */
  function FileStem(name: string): string
  {
    match LastDot(name)
    case Some(i) => if i == 0 then name else name[..i]
    case None => name
  }

  /** The hash the collector reads off a path. */
  function HashOf(p: Path): Option<Hash>
  {
    ParseHex62(FileStem(p.name), p.shard)
  }

  lemma NibbleOfDigit(n: nat)
    requires n < 16
    ensures HexNibble(HEX[n]) == Some(n)
  {
  }

  lemma ByteOfPair(b: byte)
    ensures HexByte(HexPair(b)[0], HexPair(b)[1]) == Some(b)
  {
    NibbleOfDigit(b / 16);
    NibbleOfDigit(b % 16);
  }

  lemma {:induction false} DecodeOfEncode(bytes: seq<byte>)
    ensures HexDecode(HexEncode(bytes)) == Some(bytes)
  {
    if bytes != [] {
      var s := HexEncode(bytes);
      assert s[2..] == HexEncode(bytes[1..]);
      ByteOfPair(bytes[0]);
      hide HexByte, HexPair;
      assert s[0] == HexPair(bytes[0])[0] && s[1] == HexPair(bytes[0])[1];
      DecodeOfEncode(bytes[1..]);
      assert [bytes[0]] + bytes[1..] == bytes;
    }
  }

  lemma LastDotStep(x: string, c: char)
    requires c != '.'
    ensures LastDot(x + [c]) == LastDot(x)
  {
    assert (x + [c])[..|x|] == x;
  }

  lemma LastDotAt(x: string)
    ensures LastDot(x + ".") == Some(|x|)
  {
  }

  lemma StemOfChunkName(x: string)
    requires x != ""
    ensures FileStem(x + ".chunk") == x
  {
    LastDotAt(x);
    LastDotStep(x + ".", 'c');
    LastDotStep(x + "." + "c", 'h');
    LastDotStep(x + "." + "c" + "h", 'u');
    LastDotStep(x + "." + "c" + "h" + "u", 'n');
    LastDotStep(x + "." + "c" + "h" + "u" + "n", 'k');
    assert x + ".chunk" == x + "." + "c" + "h" + "u" + "n" + "k";
    assert (x + ".chunk")[..|x|] == x;
  }

  /** The collector reads off a chunk's path exactly the hash the path was made from. */
  lemma PathEncodesTheHash(h: Hash)
    ensures HashOf(PathFor(h)) == Some(h)
  {
    var hex := HexEncode(h);
    StemOfChunkName(hex[2..]);
    assert hex[..2] + hex[2..] == hex;
    DecodeOfEncode(h);
  }

  /** Different hashes have different paths, and no temporary file has a chunk's path. */
  lemma PathsAreDistinct(g: Hash, h: Hash)
    ensures PathFor(g) == PathFor(h) ==> g == h
    ensures TmpFor(g) != PathFor(h)
  {
    PathEncodesTheHash(g);
    PathEncodesTheHash(h);
    assert |TmpFor(g).name| != |PathFor(h).name|;
  }

  /** The lower-case hexadecimal digit of `n`. */
  function Digit(n: nat): char
    requires n < 16
  {
    if n < 10 then (48 + n) as char else (87 + n) as char
  }

  lemma HexIsDigits(n: nat)
    requires n < 16
    ensures HEX[n] == Digit(n)
  {
  }

  lemma {:induction false} EncodedAt(bytes: seq<byte>, i: nat)
    requires i < |bytes|
    ensures HexEncode(bytes)[2 * i] == Digit(bytes[i] / 16) && HexEncode(bytes)[2 * i + 1] == Digit(bytes[i] % 16)
  {
    HexIsDigits(bytes[0] / 16);
    HexIsDigits(bytes[0] % 16);
    hide Digit;
    if i > 0 {
      EncodedAt(bytes[1..], i - 1);
    }
  }

  /**
   * A chunk's directory is the two hexadecimal digits of its hash's first byte,
   * its name those of the other 31 and `.chunk`; its temporary file lies beside
   * it, named the same and `.tmp`.
   */
  lemma PathSpellsTheHash(h: Hash, i: nat)
    requires i < 32
    ensures var p := PathFor(h);
            && |p.shard| == 2 && |p.name| == 68 && p.name[62..] == ".chunk"
            && TmpFor(h) == Path(p.shard, p.name + ".tmp")
            && (p.shard + p.name)[2 * i] == Digit(h[i] / 16) && (p.shard + p.name)[2 * i + 1] == Digit(h[i] % 16)
  {
    EncodedAt(h, i);
    hide HexEncode, Digit;
    var hex := HexEncode(h);
    assert hex[..2] + (hex[2..] + ".chunk") == hex + ".chunk";
    assert hex[2..] + ".chunk.tmp" == hex[2..] + ".chunk" + ".tmp";
  }

  /** The digits a name is read by: upper case as well as lower, and nothing else. */
  lemma DigitsRead(n: nat, c: char)
    requires n < 16
    ensures HexNibble("0123456789abcdef"[n]) == HexNibble("0123456789ABCDEF"[n]) == Some(n)
    ensures HexNibble(c).None? <==> c !in "0123456789abcdef" && c !in "0123456789ABCDEF"
  {
    if HexNibble(c).Some? {
      var k := HexNibble(c).value;
      assert c == "0123456789abcdef"[k] || c == "0123456789ABCDEF"[k];
    }
  }

  /** A temporary file's name is no hash, so the collector never removes one. */
  lemma TemporariesStay(h: Hash)
    ensures HashOf(TmpFor(h)) == None
  {
    var x := HexEncode(h)[2..] + ".chunk";
    LastDotAt(x);
    LastDotStep(x + ".", 't');
    LastDotStep(x + "." + "t", 'm');
    LastDotStep(x + "." + "t" + "m", 'p');
    assert HexEncode(h)[2..] + ".chunk.tmp" == x + "." + "t" + "m" + "p";
    assert |FileStem(TmpFor(h).name)| == 68;
  }

  // ---- Words and bytes -----------------------------------------------------

  function BytesOfWord(w: u32): (bs: seq<byte>)
    ensures |bs| == 4
  {
    [w / 0x100_0000, w / 0x1_0000 % 0x100, w / 0x100 % 0x100, w % 0x100]
  }

  function WordOfBytes(b0: byte, b1: byte, b2: byte, b3: byte): u32
  {
    b0 * 0x100_0000 + b1 * 0x1_0000 + b2 * 0x100 + b3
  }

  function BytesOf(words: seq<u32>): (bs: seq<byte>)
    ensures |bs| == 4 * |words|
  {
    if words == [] then [] else BytesOf(words[..|words| - 1]) + BytesOfWord(words[|words| - 1])
  }

  function WordsOf(bs: seq<byte>): seq<u32>
    requires |bs| % 4 == 0
  {
    if bs == [] then [] else [WordOfBytes(bs[0], bs[1], bs[2], bs[3])] + WordsOf(bs[4..])
  }

  lemma WordOfBytesOfWord(w: u32)
    ensures var b := BytesOfWord(w); WordOfBytes(b[0], b[1], b[2], b[3]) == w
  {
    var q := w / 0x100;
    assert q / 0x100 == w / 0x1_0000;
    assert w / 0x1_0000 / 0x100 == w / 0x100_0000;
  }

  lemma {:induction false} BytesOfSplits(w: u32, words: seq<u32>)
    ensures BytesOf([w] + words) == BytesOfWord(w) + BytesOf(words)
  {
    var all := [w] + words;
    if words == [] {
      assert all[..|all| - 1] == [];
    } else {
      var init := words[..|words| - 1];
      assert all[..|all| - 1] == [w] + init;
      BytesOfSplits(w, init);
    }
  }

  lemma {:induction false} WordsOfBytesOf(words: seq<u32>)
    ensures WordsOf(BytesOf(words)) == words
  {
    if words != [] {
      assert words == [words[0]] + words[1..];
      BytesOfSplits(words[0], words[1..]);
      WordOfBytesOfWord(words[0]);
      WordsOfBytesOf(words[1..]);
      var bs := BytesOf(words);
      assert bs[4..] == BytesOf(words[1..]);
    }
  }

  /** The chunks a word list is cut into; the last may be short. */
  function Chunks(words: seq<u32>): seq<seq<u32>>
  {
    if |words| <= CHUNK_WORDS then (if words == [] then [] else [words])
    else [words[..CHUNK_WORDS]] + Chunks(words[CHUNK_WORDS..])
  }

  lemma SliceOfJoined(x: seq<byte>, y: seq<byte>, k: nat)
    ensures k + 4 <= |x| ==> (x + y)[k..k + 4] == x[k..k + 4]
    ensures k == |x| && |y| == 4 ==> (x + y)[k..k + 4] == y
  {
  }

  /** The byte stream is big-endian, word after word. */
  lemma {:induction false} BytesAreBigEndian(words: seq<u32>, i: nat)
    requires i < |words|
    ensures BytesOf(words)[4 * i..4 * i + 4]
         == [words[i] / 0x100_0000, words[i] / 0x1_0000 % 0x100, words[i] / 0x100 % 0x100, words[i] % 0x100]
  {
    var n := |words| - 1;
    var init, last := BytesOf(words[..n]), BytesOfWord(words[n]);
    assert BytesOf(words) == init + last;
    SliceOfJoined(init, last, 4 * i);
    if i < n {
      BytesAreBigEndian(words[..n], i);
    }
  }

  /** Every chunk but the last is 64 KiB, 16384 words; the last is not empty and no longer. */
  lemma {:induction false} ChunkSizes(words: seq<u32>, i: nat)
    requires i < |Chunks(words)|
    ensures i + 1 < |Chunks(words)| ==> |Chunks(words)[i]| == 16_384
    ensures 0 < |Chunks(words)[i]| <= 16_384
    decreases |words|
  {
    if |words| > CHUNK_WORDS && i > 0 {
      ChunkSizes(words[CHUNK_WORDS..], i - 1);
    }
  }

  function HashesOf(hash: HashFunction, chunks: seq<seq<u32>>): (hs: seq<Hash>)
    ensures |hs| == |chunks|
    ensures forall i | 0 <= i < |chunks| :: hs[i] == hash(BytesOf(chunks[i]))
  {
    if chunks == [] then [] else [hash(BytesOf(chunks[0]))] + HashesOf(hash, chunks[1..])
  }

  // ---- The store as a value ------------------------------------------------

  function AfterPut(hash: HashFunction, files: Files, data: seq<byte>): Files
  {
    var h := hash(data);
    if PathFor(h) in files then files else (files - {TmpFor(h)})[PathFor(h) := data]
  }

  predicate Doomed(p: Path, live: set<Hash>)
  {
    HashOf(p).Some? && HashOf(p).value !in live
  }

  function AfterGc(files: Files, live: set<Hash>): Files
  {
    map p | p in files && !Doomed(p, live) :: files[p]
  }

  function GetWords(files: Files, hashes: seq<Hash>): Result<seq<u32>>
  {
    if hashes == [] then Ok([])
    else if PathFor(hashes[0]) !in files then NotFound
    else
      var bs := files[PathFor(hashes[0])];
      if |bs| % 4 != 0 then InvalidData(|bs|)
      else
        Prefixed(WordsOf(bs), GetWords(files, hashes[1..]))
  }

  /** The first hash in order that is missing, or whose chunk is not whole words, decides the error. */
  lemma {:induction false} FirstBadChunk(files: Files, hashes: seq<Hash>, i: nat)
    requires i < |hashes|
    requires forall j | 0 <= j < i :: PathFor(hashes[j]) in files && |files[PathFor(hashes[j])]| % 4 == 0
    ensures PathFor(hashes[i]) !in files ==> GetWords(files, hashes) == NotFound
    ensures PathFor(hashes[i]) in files && |files[PathFor(hashes[i])]| % 4 != 0 ==>
              GetWords(files, hashes) == InvalidData(|files[PathFor(hashes[i])]|)
  {
    hide PathFor, WordsOf;
    if i > 0 {
      assert PathFor(hashes[0]) in files;
      FirstBadChunk(files, hashes[1..], i - 1);
    }
  }

  function Prefixed(words: seq<u32>, r: Result<seq<u32>>): Result<seq<u32>>
  {
    match r
    case Ok(rest) => Ok(words + rest)
    case _ => r
  }

  /** Every file under a chunk's name has the content that name stands for. */
  ghost predicate WellFormed(hash: HashFunction, files: Files)
  {
    forall h: Hash | PathFor(h) in files :: hash(files[PathFor(h)]) == h
  }

  /** Each chunk is stored, byte for byte, under its hash. */
  ghost predicate Holds(hash: HashFunction, files: Files, chunks: seq<seq<u32>>)
  {
    forall i | 0 <= i < |chunks| :: HoldsData(hash, files, BytesOf(chunks[i]))
  }

  ghost predicate HoldsData(hash: HashFunction, files: Files, data: seq<byte>)
  {
    var p := PathFor(hash(data));
    p in files && files[p] == data
  }

  /** No stored chunk has the hash of `data` without being `data`. */
  ghost predicate NoClash(hash: HashFunction, files: Files, data: seq<byte>)
  {
    forall p | p in files :: hash(files[p]) == hash(data) ==> files[p] == data
  }

  // ---- Puts and collections ------------------------------------------------

  lemma PutKeepsWellFormed(hash: HashFunction, files: Files, data: seq<byte>)
    requires WellFormed(hash, files)
    ensures WellFormed(hash, AfterPut(hash, files, data))
  {
    var t := AfterPut(hash, files, data);
    forall h: Hash | PathFor(h) in t ensures hash(t[PathFor(h)]) == h {
      PathsAreDistinct(h, hash(data));
    }
  }

  /**
   * What is put can be got back exactly when no different content already sits
   * under its hash; nothing already stored under a chunk's name changes.
   */
  lemma PutThenGetExactly(hash: HashFunction, files: Files, data: seq<byte>)
    ensures PathFor(hash(data)) in AfterPut(hash, files, data)
    ensures HoldsData(hash, AfterPut(hash, files, data), data)
       <==> (PathFor(hash(data)) in files ==> files[PathFor(hash(data))] == data)
    ensures WellFormed(hash, files) && NoClash(hash, files, data) ==>
              HoldsData(hash, AfterPut(hash, files, data), data)
  {
  }

  /** The files when a put is cut off after `n` bytes of its temporary file. */
  function Interrupted(hash: HashFunction, files: Files, data: seq<byte>, n: nat): Files
    requires n <= |data|
  {
    var h := hash(data);
    if PathFor(h) in files then files else files[TmpFor(h) := data[..n]]
  }

  /**
   * Wherever a put is cut off, nothing partial appears under a chunk's name:
   * the same chunks are there with the same contents, every snapshot reads as
   * before, and putting the data again ends as if the first had never begun.
   */
  lemma InterruptedPutIsSafe(hash: HashFunction, files: Files, data: seq<byte>, n: nat, g: Hash, hashes: seq<Hash>)
    requires n <= |data|
    ensures var t := Interrupted(hash, files, data, n);
            && (PathFor(g) in t <==> PathFor(g) in files) && (PathFor(g) in files ==> t[PathFor(g)] == files[PathFor(g)])
            && (WellFormed(hash, files) ==> WellFormed(hash, t))
            && GetWords(t, hashes) == GetWords(files, hashes)
            && AfterPut(hash, t, data) == AfterPut(hash, files, data)
  {
    var t := Interrupted(hash, files, data, n);
    forall h: Hash
      ensures PathFor(h) in t <==> PathFor(h) in files
      ensures PathFor(h) in files ==> t[PathFor(h)] == files[PathFor(h)]
    {
      PathsAreDistinct(h, hash(data));
    }
    SameChunksSameWords(files, t, hashes);
    hide PathFor, TmpFor;
    assert AfterPut(hash, t, data) == AfterPut(hash, files, data);
  }

  lemma {:induction false} SameChunksSameWords(files: Files, t: Files, hashes: seq<Hash>)
    requires forall h: Hash :: PathFor(h) in t <==> PathFor(h) in files
    requires forall h: Hash | PathFor(h) in files :: t[PathFor(h)] == files[PathFor(h)]
    ensures GetWords(t, hashes) == GetWords(files, hashes)
  {
    hide PathFor, WordsOf;
    if hashes != [] {
      SameChunksSameWords(files, t, hashes[1..]);
    }
  }

  lemma PutKeepsChunks(hash: HashFunction, files: Files, data: seq<byte>, h: Hash)
    requires PathFor(h) in files
    ensures PathFor(h) in AfterPut(hash, files, data)
    ensures AfterPut(hash, files, data)[PathFor(h)] == files[PathFor(h)]
  {
    PathsAreDistinct(hash(data), h);
    PathsAreDistinct(h, hash(data));
  }

  /** Collection removes exactly the chunks that are not live; chunk by chunk and for other files. */
  lemma GcRemovesExactlyTheDead(files: Files, live: set<Hash>, h: Hash, p: Path)
    ensures PathFor(h) in AfterGc(files, live) <==> PathFor(h) in files && h in live
    ensures PathFor(h) in AfterGc(files, live) ==> AfterGc(files, live)[PathFor(h)] == files[PathFor(h)]
    ensures HashOf(p).None? && p in files ==> p in AfterGc(files, live) && AfterGc(files, live)[p] == files[p]
  {
    PathEncodesTheHash(h);
  }

  datatype Op = Put(data: seq<byte>) | Gc(live: set<Hash>)

  function AfterOps(hash: HashFunction, files: Files, ops: seq<Op>): Files
    decreases |ops|
  {
    if ops == [] then files
    else
      var next := match ops[0] case Put(data) => AfterPut(hash, files, data) case Gc(live) => AfterGc(files, live);
      AfterOps(hash, next, ops[1..])
  }

  predicate KeptLive(ops: seq<Op>, hashes: seq<Hash>)
  {
    forall i | 0 <= i < |ops| && ops[i].Gc? :: forall h | h in hashes :: h in ops[i].live
  }

  /** A stored chunk never changes or disappears while every collection counts it live. */
  lemma {:induction false} LiveChunksSurvive(hash: HashFunction, files: Files, ops: seq<Op>, hashes: seq<Hash>, h: Hash)
    requires h in hashes && PathFor(h) in files && KeptLive(ops, hashes)
    ensures PathFor(h) in AfterOps(hash, files, ops)
    ensures AfterOps(hash, files, ops)[PathFor(h)] == files[PathFor(h)]
    decreases |ops|
  {
    if ops != [] {
      match ops[0] {
        case Put(data) =>
          PutKeepsChunks(hash, files, data, h);
          LiveChunksSurvive(hash, AfterPut(hash, files, data), ops[1..], hashes, h);
        case Gc(live) =>
          GcRemovesExactlyTheDead(files, live, h, PathFor(h));
          LiveChunksSurvive(hash, AfterGc(files, live), ops[1..], hashes, h);
      }
    }
  }

  // ---- Word lists ----------------------------------------------------------

  /** The words of `chunks`, one after another. */
  function Joined(chunks: seq<seq<u32>>): seq<u32>
  {
    if chunks == [] then [] else chunks[0] + Joined(chunks[1..])
  }

  lemma {:induction false} JoinedChunks(words: seq<u32>)
    ensures Joined(Chunks(words)) == words
  {
    if |words| > CHUNK_WORDS {
      JoinedChunks(words[CHUNK_WORDS..]);
      var cs := Chunks(words);
      assert cs[1..] == Chunks(words[CHUNK_WORDS..]);
    } else if words != [] {
      assert [words][1..] == [];
    }
  }

  lemma {:induction false} HeldChunksRead(hash: HashFunction, files: Files, chunks: seq<seq<u32>>)
    requires Holds(hash, files, chunks)
    ensures GetWords(files, HashesOf(hash, chunks)) == Ok(Joined(chunks))
  {
    if chunks != [] {
      assert HoldsData(hash, files, BytesOf(chunks[0]));
      forall i | 0 <= i < |chunks| - 1 ensures HoldsData(hash, files, BytesOf(chunks[1..][i])) {
        assert HoldsData(hash, files, BytesOf(chunks[i + 1]));
      }
      HeldChunksRead(hash, files, chunks[1..]);
      WordsOfBytesOf(chunks[0]);
      assert HashesOf(hash, chunks)[1..] == HashesOf(hash, chunks[1..]);
    }
  }

  /**
   * A word list whose chunks are stored reads back whole, and still does after
   * any puts and any collections that count its hashes live.
   */
  lemma WordsReadBack(hash: HashFunction, files: Files, words: seq<u32>, ops: seq<Op>)
    requires Holds(hash, files, Chunks(words)) && KeptLive(ops, HashesOf(hash, Chunks(words)))
    ensures GetWords(AfterOps(hash, files, ops), HashesOf(hash, Chunks(words))) == Ok(words)
  {
    var chunks := Chunks(words);
    var hashes := HashesOf(hash, chunks);
    var later := AfterOps(hash, files, ops);
    forall i | 0 <= i < |chunks| ensures HoldsData(hash, later, BytesOf(chunks[i])) {
      assert HoldsData(hash, files, BytesOf(chunks[i]));
      assert hashes[i] in hashes;
      LiveChunksSurvive(hash, files, ops, hashes, hashes[i]);
    }
    HeldChunksRead(hash, later, chunks);
    JoinedChunks(words);
  }

  /** The puts that store `chunks` in order. */
  function PutsOf(chunks: seq<seq<u32>>): (ops: seq<Op>)
    ensures |ops| == |chunks|
  {
    seq(|chunks|, i requires 0 <= i < |chunks| => Put(BytesOf(chunks[i])))
  }

  lemma NothingPut(hash: HashFunction, files: Files, words: seq<u32>)
    ensures Chunks(words) == [] + Chunks(words[0..])
    ensures HashesOf(hash, []) == [] && AfterOps(hash, files, PutsOf([])) == files
  {
    assert words[0..] == words && PutsOf([]) == [];
  }

  lemma AllChunked(done: seq<seq<u32>>)
    ensures done + Chunks([]) == done
  {
  }

  lemma NextChunk(words: seq<u32>, i: nat, take: nat)
    requires i < |words| && take == if |words| - i < CHUNK_WORDS then |words| - i else CHUNK_WORDS
    ensures Chunks(words[i..]) == [words[i..i + take]] + Chunks(words[i + take..])
  {
    var rest := words[i..];
    if |rest| > CHUNK_WORDS {
      assert rest[..CHUNK_WORDS] == words[i..i + take] && rest[CHUNK_WORDS..] == words[i + take..];
    } else {
      assert words[i..i + take] == rest && words[i + take..] == [];
    }
  }

  lemma {:induction false} OpsCompose(hash: HashFunction, files: Files, xs: seq<Op>, ys: seq<Op>)
    ensures AfterOps(hash, files, xs + ys) == AfterOps(hash, AfterOps(hash, files, xs), ys)
    decreases |xs|
  {
    if xs == [] {
      assert xs + ys == ys;
    } else {
      var next := match xs[0] case Put(data) => AfterPut(hash, files, data) case Gc(live) => AfterGc(files, live);
      assert (xs + ys)[1..] == xs[1..] + ys;
      OpsCompose(hash, next, xs[1..], ys);
    }
  }

  lemma {:induction false} HashesSnoc(hash: HashFunction, chunks: seq<seq<u32>>, c: seq<u32>)
    ensures HashesOf(hash, chunks + [c]) == HashesOf(hash, chunks) + [hash(BytesOf(c))]
  {
    if chunks == [] {
      assert chunks + [c] == [c];
    } else {
      assert (chunks + [c])[1..] == chunks[1..] + [c];
      HashesSnoc(hash, chunks[1..], c);
    }
  }

  lemma PutOneMore(hash: HashFunction, files: Files, chunks: seq<seq<u32>>, c: seq<u32>)
    ensures AfterOps(hash, files, PutsOf(chunks + [c]))
         == AfterPut(hash, AfterOps(hash, files, PutsOf(chunks)), BytesOf(c))
    ensures HashesOf(hash, chunks + [c]) == HashesOf(hash, chunks) + [hash(BytesOf(c))]
  {
    var last := [Put(BytesOf(c))];
    assert PutsOf(chunks + [c]) == PutsOf(chunks) + last;
    OpsCompose(hash, files, PutsOf(chunks), last);
    assert last[1..] == [];
    HashesSnoc(hash, chunks, c);
  }

  /** The contents that meet in storing `chunks` in `files` have distinct hashes. */
  ghost predicate Collisionless(hash: HashFunction, files: Files, chunks: seq<seq<u32>>)
  {
    && (forall i | 0 <= i < |chunks| :: NoClash(hash, files, BytesOf(chunks[i])))
    && forall i, j | 0 <= i < |chunks| && 0 <= j < |chunks| ::
         hash(BytesOf(chunks[i])) == hash(BytesOf(chunks[j])) ==> BytesOf(chunks[i]) == BytesOf(chunks[j])
  }

  /** Storing all the chunks of a list leaves every one of them held. */
  lemma {:induction false} PutsHoldAll(hash: HashFunction, files: Files, chunks: seq<seq<u32>>)
    requires WellFormed(hash, files) && Collisionless(hash, files, chunks)
    ensures var t := AfterOps(hash, files, PutsOf(chunks));
            WellFormed(hash, t) && Holds(hash, t, chunks)
    ensures forall p | p in AfterOps(hash, files, PutsOf(chunks)) :: FromEither(files, chunks, AfterOps(hash, files, PutsOf(chunks))[p])
    decreases |chunks|
  {
    if chunks == [] {
      assert PutsOf(chunks) == [];
      forall p | p in files ensures FromEither(files, chunks, files[p]) {
      }
    } else {
      var n := |chunks| - 1;
      var init, c := chunks[..n], chunks[n];
      assert chunks == init + [c];
      assert Collisionless(hash, files, init) by {
        forall i | 0 <= i < n ensures NoClash(hash, files, BytesOf(init[i])) {
          assert NoClash(hash, files, BytesOf(chunks[i]));
        }
      }
      PutsHoldAll(hash, files, init);
      PutOneMore(hash, files, init, c);
      var before := AfterOps(hash, files, PutsOf(init));
      LastPutHolds(hash, files, chunks, before);
    }
  }

  /** `data` was in `files`, or is one of `chunks`. */
  ghost predicate FromEither(files: Files, chunks: seq<seq<u32>>, data: seq<byte>)
  {
    data in files.Values || exists i :: 0 <= i < |chunks| && data == BytesOf(chunks[i])
  }

  lemma LastPutHolds(hash: HashFunction, files: Files, chunks: seq<seq<u32>>, before: Files)
    requires chunks != [] && Collisionless(hash, files, chunks)
    requires var init := chunks[..|chunks| - 1];
             && WellFormed(hash, before) && Holds(hash, before, init)
             && forall p | p in before :: FromEither(files, init, before[p])
    ensures var t := AfterPut(hash, before, BytesOf(chunks[|chunks| - 1]));
            && WellFormed(hash, t) && Holds(hash, t, chunks)
            && forall p | p in t :: FromEither(files, chunks, t[p])
  {
    hide BytesOf, AfterPut;
    var n := |chunks| - 1;
    var init, data := chunks[..n], BytesOf(chunks[n]);
    var t := AfterPut(hash, before, data);
    ContentsMeet(hash, files, chunks, before);
    PutKeepsWellFormed(hash, before, data);
    PutThenGetExactly(hash, before, data);
    forall i | 0 <= i < |chunks| ensures HoldsData(hash, t, BytesOf(chunks[i])) {
      if i < n {
        assert HoldsData(hash, before, BytesOf(init[i]));
        PutKeepsChunks(hash, before, data, hash(BytesOf(init[i])));
      }
    }
    forall p | p in t ensures FromEither(files, chunks, t[p]) {
      PutAddsOnly(hash, before, data, p);
      if t[p] == data {
        assert t[p] == BytesOf(chunks[n]);
      }
    }
  }

  lemma PutAddsOnly(hash: HashFunction, files: Files, data: seq<byte>, p: Path)
    requires p in AfterPut(hash, files, data)
    ensures AfterPut(hash, files, data)[p] == data || (p in files && AfterPut(hash, files, data)[p] == files[p])
  {
  }

  /** Nothing stored along the way clashes with the last chunk. */
  lemma ContentsMeet(hash: HashFunction, files: Files, chunks: seq<seq<u32>>, before: Files)
    requires chunks != [] && Collisionless(hash, files, chunks)
    requires forall p | p in before :: FromEither(files, chunks[..|chunks| - 1], before[p])
    ensures NoClash(hash, before, BytesOf(chunks[|chunks| - 1]))
    ensures forall p | p in before :: FromEither(files, chunks, before[p])
  {
    hide BytesOf;
    var n := |chunks| - 1;
    var init, data := chunks[..n], BytesOf(chunks[n]);
    assert NoClash(hash, files, BytesOf(chunks[n]));
    forall p | p in before
      ensures FromEither(files, chunks, before[p]) && (hash(before[p]) == hash(data) ==> before[p] == data)
    {
      assert FromEither(files, init, before[p]);
      if before[p] !in files.Values {
        var i :| 0 <= i < |init| && before[p] == BytesOf(init[i]);
        assert before[p] == BytesOf(chunks[i]);
      }
    }
  }

  /**
   * The snapshot round trip: words stored in a well-formed store, with no hash
   * collision among the contents that meet, read back whole, then and after
   * any later puts and any collections that count their hashes live.
   */
  lemma SnapshotRoundTrip(hash: HashFunction, files: Files, words: seq<u32>, later: seq<Op>)
    requires WellFormed(hash, files) && Collisionless(hash, files, Chunks(words))
    requires KeptLive(later, HashesOf(hash, Chunks(words)))
    ensures var stored := AfterOps(hash, files, PutsOf(Chunks(words)));
            && WellFormed(hash, stored)
            && GetWords(AfterOps(hash, stored, later), HashesOf(hash, Chunks(words))) == Ok(words)
  {
    PutsHoldAll(hash, files, Chunks(words));
    WordsReadBack(hash, AfterOps(hash, files, PutsOf(Chunks(words))), words, later);
  }

  // ---- The store itself ----------------------------------------------------

  class ChunkStore {
    const hash: HashFunction
    var files: Files

    constructor (hash: HashFunction)
      ensures this.hash == hash && files == map[] && WellFormed(hash, files)
    {
      this.hash, files := hash, map[];
    }

    /** Store `data` under its hash, by way of a temporary file, unless it is there already. */
    method PutChunk(data: seq<byte>) returns (h: Hash)
      modifies this
      ensures h == hash(data) && files == AfterPut(hash, old(files), data)
    {
      h := hash(data);
      if PathFor(h) in files {
        return;
      }
      PathsAreDistinct(h, h);
      files := files[TmpFor(h) := data];
      assert data[..|data|] == data;
      assert files == Interrupted(hash, old(files), data, |data|);
      var written := files[TmpFor(h)];
      files := (files - {TmpFor(h)})[PathFor(h) := written];
      assert files == AfterPut(hash, old(files), data);
    }

    method GetChunk(h: Hash) returns (r: Result<seq<byte>>)
      ensures r == if PathFor(h) in files then Ok(files[PathFor(h)]) else NotFound
    {
      r := if PathFor(h) in files then Ok(files[PathFor(h)]) else NotFound;
    }

    /** Visit every file, in any order, and remove those whose parsed hash is not live. */
    method CollectGarbage(live: set<Hash>) returns (removed: nat, bytes: nat)
      modifies this
      ensures files == AfterGc(old(files), live)
      ensures removed == |old(files)| - |files|
      ensures bytes == TotalSize(old(files), old(files).Keys - files.Keys)
    {
      hide HashOf, TotalSize;
      var todo := files.Keys;
      removed, bytes := 0, 0;
      ghost var gone := {};
      TotalOfNone(files);
      while todo != {}
        invariant todo <= files.Keys && gone <= old(files).Keys && files == old(files) - gone
        invariant forall p | p in old(files) && p !in todo :: p in gone <==> Doomed(p, live)
        invariant todo !! gone && (forall p | p in gone :: Doomed(p, live))
        invariant removed == |gone| && bytes == TotalSize(old(files), gone)
        decreases todo
      {
        var p :| p in todo;
        todo := todo - {p};
        if HashOf(p).Some? && HashOf(p).value !in live {
          removed := removed + 1;
          bytes := bytes + |files[p]|;
          TotalOfOneMore(old(files), gone, p);
          files := files - {p};
          gone := gone + {p};
        }
      }
      RemovedExactly(old(files), gone, live);
    }
  }

  lemma RemovedExactly(files: Files, gone: set<Path>, live: set<Hash>)
    requires gone <= files.Keys && forall p | p in files :: p in gone <==> Doomed(p, live)
    ensures files - gone == AfterGc(files, live)
    ensures |files| - |files - gone| == |gone| && files.Keys - (files - gone).Keys == gone
  {
    hide Doomed;
    var t := files - gone;
    assert t.Keys == files.Keys - gone;
    assert files.Keys == t.Keys + gone;
  }

  /** The bytes of the files at `ps`. */
  ghost function TotalSize(files: Files, ps: set<Path>): nat
    requires ps <= files.Keys
  {
    if ps == {} then 0
    else var p :| p in ps; |files[p]| + TotalSize(files, ps - {p})
  }

  lemma TotalOfNone(files: Files)
    ensures TotalSize(files, {}) == 0
  {
  }

  lemma {:induction false} TotalOfOneMore(files: Files, ps: set<Path>, p: Path)
    requires ps <= files.Keys && p in files && p !in ps
    ensures TotalSize(files, ps + {p}) == TotalSize(files, ps) + |files[p]|
    decreases ps
  {
    var all := ps + {p};
    var q :| q in all && TotalSize(files, all) == |files[q]| + TotalSize(files, all - {q});
    if q == p {
      assert all - {q} == ps;
    } else {
      assert all - {q} == (ps - {q}) + {p};
      TotalOfOneMore(files, ps - {q}, p);
      TotalOfOneMore(files, ps - {q}, q);
      assert (ps - {q}) + {q} == ps;
    }
  }

  /** Write the big-endian bytes of `words` at the front of `buf`. */
  method FillBuffer(buf: array<byte>, words: seq<u32>)
    requires 4 * |words| <= buf.Length
    modifies buf
    ensures buf[..4 * |words|] == BytesOf(words)
  {
    var k := 0;
    while k < |words|
      invariant 0 <= k <= |words|
      invariant buf[..4 * k] == BytesOf(words[..k])
    {
      var bs := BytesOfWord(words[k]);
      ghost var done := buf[..4 * k];
      buf[4 * k], buf[4 * k + 1], buf[4 * k + 2], buf[4 * k + 3] := bs[0], bs[1], bs[2], bs[3];
      assert words[..k + 1][..k] == words[..k];
      assert buf[..4 * k] == done;
      assert buf[..4 * (k + 1)] == done + bs;
      k := k + 1;
    }
    assert words[..|words|] == words;
  }

  /** Cut `words` into chunks and store each. */
  method PutWordsAsChunks(store: ChunkStore, words: seq<u32>) returns (hashes: seq<Hash>)
    modifies store
    ensures hashes == HashesOf(store.hash, Chunks(words))
    ensures store.files == AfterOps(store.hash, old(store.files), PutsOf(Chunks(words)))
  {
    hide AfterOps, AfterPut, Chunks, HashesOf, BytesOf, PutsOf;
    var buf := new byte[CHUNK_SIZE](_ => 0);
    hashes := [];
    var i := 0;
    NothingPut(store.hash, store.files, words);
    ghost var done: seq<seq<u32>> := [];
    while i < |words|
      invariant 0 <= i <= |words| && fresh(buf) && buf.Length == CHUNK_SIZE
      invariant Chunks(words) == done + Chunks(words[i..])
      invariant hashes == HashesOf(store.hash, done)
      invariant store.files == AfterOps(store.hash, old(store.files), PutsOf(done))
    {
      var left := |words| - i;
      var take := if left < CHUNK_WORDS then left else CHUNK_WORDS;
      FillBuffer(buf, words[i..i + take]);
      var h := store.PutChunk(buf[..4 * take]);
      hashes := hashes + [h];
      NextChunk(words, i, take);
      PutOneMore(store.hash, old(store.files), done, words[i..i + take]);
      assert done + ([words[i..i + take]] + Chunks(words[i + take..])) == done + [words[i..i + take]] + Chunks(words[i + take..]);
      done := done + [words[i..i + take]];
      i := i + take;
    }
    assert words[i..] == [];
    AllChunked(done);
  }

  /** Fetch each chunk and decode its words. */
  method GetChunksAsWords(store: ChunkStore, hashes: seq<Hash>) returns (r: Result<seq<u32>>)
    ensures r == GetWords(store.files, hashes)
  {
    hide WordsOf;
    var words: seq<u32> := [];
    var i := 0;
    assert hashes[0..] == hashes;
    PrefixedByNone(GetWords(store.files, hashes));
    while i < |hashes|
      invariant 0 <= i <= |hashes|
      invariant GetWords(store.files, hashes) == Prefixed(words, GetWords(store.files, hashes[i..]))
    {
      var c := store.GetChunk(hashes[i]);
      assert hashes[i..][1..] == hashes[i + 1..];
      if c.NotFound? {
        return NotFound;
      }
      var bs := c.value;
      if |bs| % 4 != 0 {
        return InvalidData(|bs|);
      }
      var more := DecodeWords(bs);
      PrefixedTwice(words, more, GetWords(store.files, hashes[i + 1..]));
      words := words + more;
      i := i + 1;
    }
    assert hashes[i..] == [];
    assert words + [] == words;
    r := Ok(words);
  }

  lemma PrefixedByNone(r: Result<seq<u32>>)
    ensures Prefixed([], r) == r
  {
    if r.Ok? {
      assert [] + r.value == r.value;
    }
  }

  lemma PrefixedTwice(xs: seq<u32>, ys: seq<u32>, r: Result<seq<u32>>)
    ensures Prefixed(xs, Prefixed(ys, r)) == Prefixed(xs + ys, r)
  {
    if r.Ok? {
      assert xs + (ys + r.value) == (xs + ys) + r.value;
    }
  }

  /** Decode big-endian words four bytes at a time. */
  method DecodeWords(bs: seq<byte>) returns (words: seq<u32>)
    requires |bs| % 4 == 0
    ensures words == WordsOf(bs)
  {
    hide WordOfBytes, WordsOf;
    words := [];
    var k := 0;
    assert bs[0..] == bs;
    while k < |bs|
      invariant 0 <= k <= |bs| && k % 4 == 0
      invariant WordsOf(bs) == words + WordsOf(bs[k..])
    {
      WordsOfStep(bs, k);
      words := words + [WordOfBytes(bs[k], bs[k + 1], bs[k + 2], bs[k + 3])];
      k := k + 4;
    }
    assert bs[k..] == [];
    NoWords();
  }

  lemma NoWords()
    ensures WordsOf([]) == []
  {
  }

  lemma WordsOfStep(bs: seq<byte>, k: nat)
    requires |bs| % 4 == 0 && k % 4 == 0 && k < |bs|
    ensures k + 4 <= |bs|
    ensures WordsOf(bs[k..]) == [WordOfBytes(bs[k], bs[k + 1], bs[k + 2], bs[k + 3])] + WordsOf(bs[k + 4..])
  {
    hide WordOfBytes;
    assert bs[k..][4..] == bs[k + 4..];
  }

  // ---- Names, digit by digit -----------------------------------------------

  lemma {:induction false} EncodeSnoc(bytes: seq<byte>, b: byte)
    ensures HexEncode(bytes + [b]) == HexEncode(bytes) + HexPair(b)
  {
    hide HexPair;
    if bytes == [] {
      assert bytes + [b] == [b];
    } else {
      assert (bytes + [b])[1..] == bytes[1..] + [b];
      EncodeSnoc(bytes[1..], b);
    }
  }

  method WriteHex(bytes: Hash) returns (s: string)
    ensures s == HexEncode(bytes)
  {
    hide HexPair;
    s := "";
    for i := 0 to 32
      invariant s == HexEncode(bytes[..i])
    {
      EncodeSnoc(bytes[..i], bytes[i]);
      assert bytes[..i] + [bytes[i]] == bytes[..i + 1];
      s := s + HexPair(bytes[i]);
    }
    assert bytes[..32] == bytes;
  }

  /** What is left to decode, behind the bytes already read. */
  function Behind(done: seq<byte>, r: Option<seq<byte>>): Option<seq<byte>>
  {
    match r
    case Some(rest) => Some(done + rest)
    case None => None
  }

  lemma BehindOneMore(done: seq<byte>, b: byte, r: Option<seq<byte>>)
    ensures r.Some? ==> Behind(done, Some([b] + r.value)) == Behind(done + [b], r)
  {
    if r.Some? {
      assert done + ([b] + r.value) == (done + [b]) + r.value;
    }
  }

  method ReadHex(tail: string, head: string) returns (r: Option<Hash>)
    ensures r == ParseHex62(tail, head)
  {
    if |tail| != 62 || |head| != 2 {
      return None;
    }
    hide HexByte;
    var full := head + tail;
    var out: seq<byte> := [];
    assert full[0..] == full;
    if HexDecode(full).Some? {
      assert [] + HexDecode(full).value == HexDecode(full).value;
    }
    for i := 0 to 32
      invariant |out| == i && HexDecode(full) == Behind(out, HexDecode(full[2 * i..]))
    {
      var b := HexByte(full[2 * i], full[2 * i + 1]);
      assert full[2 * i..][2..] == full[2 * (i + 1)..];
      if b.None? {
        return None;
      }
      BehindOneMore(out, b.value, HexDecode(full[2 * (i + 1)..]));
      out := out + [b.value];
    }
    assert full[64..] == "" && out + [] == out;
    r := Some(out);
  }
}
