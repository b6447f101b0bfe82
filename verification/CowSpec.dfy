/**
 * What a copy-on-write disk shows: a sparse overlay of whole sectors over a
 * base image, and the flat byte array it has to behave as.
 */
module CowSpec {
  import opened Basics

  const SECTOR: nat := 512

  /**
   * `backing` is the capacity of the node below, if there is one; `base` is the
   * file it reads, which is also the file a commit writes.
   */
  datatype Disk = Disk(
    backing: Option<nat>, base: seq<byte>,
    overlay: seq<byte>, dirty: set<nat>, size: nat)

  /** `file` with `data` written at `off`, a gap before it filled with zeroes. */
  function WriteAt(file: seq<byte>, off: nat, data: seq<byte>): (r: seq<byte>)
    ensures |r| == if |file| < off + |data| then off + |data| else |file|
    ensures forall i | 0 <= i < |r| ::
              r[i] == if off <= i < off + |data| then data[i - off] else if i < |file| then file[i] else 0
  {
    var n := if |file| < off + |data| then off + |data| else |file|;
    seq(n, i requires 0 <= i < n =>
      if off <= i < off + |data| then data[i - off] else if i < |file| then file[i] else 0)
  }

  /** Byte `i` of the layer below the overlay. */
  function Under(d: Disk, i: nat): byte
  {
    if d.backing.Some? && i < |d.base| then d.base[i] else 0
  }

  /** Byte `i` of the disk: the overlay's if its sector is dirty. */
  function ByteAt(d: Disk, i: nat): byte
  {
    if i / SECTOR in d.dirty then (if i < |d.overlay| then d.overlay[i] else 0) else Under(d, i)
  }

  function View(d: Disk): (v: seq<byte>)
    ensures |v| == d.size
    ensures forall i | 0 <= i < d.size :: v[i] == ByteAt(d, i)
  {
    seq(d.size, i requires 0 <= i < d.size => ByteAt(d, i))
  }

  function UnderView(d: Disk): (v: seq<byte>)
    ensures |v| == d.size
    ensures forall i | 0 <= i < d.size :: v[i] == Under(d, i)
  {
    seq(d.size, i requires 0 <= i < d.size => Under(d, i))
  }

  /** The base file holds all that the node below presents. */
  predicate Backed(d: Disk)
  {
    d.backing.Some? ==> d.backing.value <= |d.base|
  }

  /** The overlay holds every dirty sector whole. */
  ghost predicate Held(d: Disk)
  {
    forall l | l in d.dirty :: (l + 1) * SECTOR <= |d.overlay|
  }

  /** The dirty sectors lie on the disk, and its size is 64-bit. */
  ghost predicate InSize(d: Disk)
  {
    d.size < 0x1_0000_0000_0000_0000 && forall l | l in d.dirty :: l * SECTOR < d.size
  }

  /** The overlay really holds what the dirty set claims, and the base what its node presents. */
  ghost predicate Sound(d: Disk)
  {
    Backed(d) && Held(d) && InSize(d)
  }

  /** Sector `l` can be read whole from the layer that has it. */
  predicate Readable(d: Disk, l: nat)
  {
    if l in d.dirty then (l + 1) * SECTOR <= |d.overlay|
    else d.backing.Some? ==> (l + 1) * SECTOR <= d.backing.value
  }

  function SectorBytes(d: Disk, l: nat): (s: seq<byte>)
    ensures |s| == SECTOR
    ensures forall k | 0 <= k < SECTOR :: s[k] == ByteAt(d, l * SECTOR + k)
  {
    seq<byte>(SECTOR, k requires 0 <= k < SECTOR => ByteAt(d, l * SECTOR + k))
  }

  // ---- Ranges --------------------------------------------------------------

  /** The sectors `[first, last)` that cover `[off, off + len)`. */
  function SectorsFor(off: nat, len: nat): (nat, nat)
  {
    (off / SECTOR, (off + len + SECTOR - 1) / SECTOR)
  }

  predicate InRange(d: Disk, off: nat, len: nat)
  {
    off + len <= d.size
  }

  ghost predicate AllReadable(d: Disk, first: nat, last: nat)
  {
    forall l: nat | first <= l < last :: Readable(d, l)
  }

  /** The size is whole sectors and the node below presents all of them. */
  predicate Whole(d: Disk)
  {
    d.size % SECTOR == 0 && (d.backing.Some? ==> d.size <= d.backing.value)
  }

  /** On a disk of whole sectors every sector in range can be read. */
  lemma WholeDiskReads(d: Disk, off: nat, len: nat)
    requires Sound(d) && Whole(d) && InRange(d, off, len)
    ensures AllReadable(d, SectorsFor(off, len).0, SectorsFor(off, len).1)
  {
    var (first, last) := SectorsFor(off, len);
    forall l: nat | first <= l < last ensures Readable(d, l) {
      assert l * SECTOR < off + len <= d.size;
      assert (l + 1) * SECTOR <= d.size;
    }
  }

  /** The size is not whole sectors, the node below presents just that size, and the last sector is clean. */
  predicate PartialTail(d: Disk)
  {
    d.size % SECTOR != 0 && d.backing == Some(d.size) && d.size / SECTOR !in d.dirty
  }

  /**
   * On a disk whose size is not whole sectors (its node below presenting just
   * that size) a range reads exactly when it keeps off the last, partial sector
   * or that sector is dirty.
   */
  lemma PartialSectorReadsExactly(d: Disk, off: nat, len: nat)
    requires Sound(d) && d.size % SECTOR != 0 && d.backing == Some(d.size) && len > 0 && InRange(d, off, len)
    ensures AllReadable(d, SectorsFor(off, len).0, SectorsFor(off, len).1)
       <==> off + len <= d.size / SECTOR * SECTOR || d.size / SECTOR in d.dirty
  {
    var (first, last) := SectorsFor(off, len);
    var tail := d.size / SECTOR;
    forall l: nat | first <= l < last && l != tail ensures Readable(d, l) {
      assert l * SECTOR < off + len <= d.size;
      assert l < tail;
      assert (l + 1) * SECTOR <= d.size;
    }
    if PartialTail(d) && off + len > tail * SECTOR {
      PartialTailIsUnreadable(d, off, len);
    } else if off + len <= tail * SECTOR {
      assert last <= tail;
    }
  }

  /** A range that reaches a clean partial sector has a sector that cannot be read. */
  lemma PartialTailIsUnreadable(d: Disk, off: nat, len: nat)
    requires PartialTail(d) && len > 0 && InRange(d, off, len) && off + len > d.size / SECTOR * SECTOR
    ensures var (first, last) := SectorsFor(off, len);
            first <= d.size / SECTOR < last && !Readable(d, d.size / SECTOR)
  {
    assert !((d.size / SECTOR + 1) * SECTOR <= d.size);
  }

  /** A range within the disk reaches no sector past the last, and the last only by reaching its bytes. */
  lemma RangeKeepsToTheDisk(d: Disk, off: nat, len: nat)
    requires len > 0 && InRange(d, off, len) && d.size % SECTOR != 0
    ensures SectorsFor(off, len).1 <= d.size / SECTOR + 1
    ensures SectorsFor(off, len).1 == d.size / SECTOR + 1 ==> off + len > d.size / SECTOR * SECTOR
  {
  }

  // ---- The flat disk -------------------------------------------------------

  /** A disk without layers: what it shows, and what a rollback would show. */
  datatype Flat = Flat(view: seq<byte>, committed: seq<byte>)

  function FlatOf(d: Disk): (f: Flat)
    ensures |f.view| == |f.committed| == d.size
  {
    Flat(View(d), UnderView(d))
  }

  function Spliced(v: seq<byte>, off: nat, data: seq<byte>): (r: seq<byte>)
    requires off + |data| <= |v|
    ensures |r| == |v|
    ensures forall i | 0 <= i < |v| :: r[i] == if off <= i < off + |data| then data[i - off] else v[i]
  {
    v[..off] + data + v[off + |data|..]
  }

  function FlatWrite(f: Flat, off: nat, data: seq<byte>): Flat
    requires off + |data| <= |f.view|
  {
    f.(view := Spliced(f.view, off, data))
  }

  function FlatDiscard(f: Flat, off: nat, len: nat): Flat
    requires off + len <= |f.view| == |f.committed|
  {
    f.(view := Spliced(f.view, off, f.committed[off..off + len]))
  }

  /** One request to a disk; discards are of whole sectors. */
  datatype Request =
    | Write(off: nat, data: seq<byte>) | Discard(off: nat, len: nat) | Commit | Rollback | Flush

  predicate WholeSectors(r: Request)
  {
    r.Discard? ==> r.off % SECTOR == 0 && r.len % SECTOR == 0
  }

  /** What a request does to the flat disk; one out of range does nothing. */
  function FlatStep(f: Flat, r: Request): (g: Flat)
    requires |f.view| == |f.committed|
    ensures |g.view| == |g.committed| == |f.view|
  {
    match r
    case Write(off, data) => if off + |data| <= |f.view| then FlatWrite(f, off, data) else f
    case Discard(off, len) => if off + len <= |f.view| then FlatDiscard(f, off, len) else f
    case Commit => Flat(f.view, f.view)
    case Rollback => Flat(f.committed, f.committed)
    case Flush => f
  }

  function FlatRun(f: Flat, rs: seq<Request>): (g: Flat)
    requires |f.view| == |f.committed|
    ensures |g.view| == |g.committed| == |f.view|
  {
    if rs == [] then f else FlatStep(FlatRun(f, rs[..|rs| - 1]), rs[|rs| - 1])
  }

  // ---- Sector steps --------------------------------------------------------

  /** The disk with sector `l` handed to the overlay. */
  function PutSector(d: Disk, l: nat, sector: seq<byte>): Disk
  {
    d.(overlay := WriteAt(d.overlay, l * SECTOR, sector), dirty := d.dirty + {l})
  }

  lemma ByteAfterPut(d: Disk, l: nat, sector: seq<byte>, i: nat)
    requires |sector| == SECTOR
    ensures ByteAt(PutSector(d, l, sector), i) == if i / SECTOR == l then sector[i % SECTOR] else ByteAt(d, i)
    ensures Under(PutSector(d, l, sector), i) == Under(d, i)
  {
    assert i / SECTOR == l <==> l * SECTOR <= i < l * SECTOR + SECTOR;
  }

  lemma PutKeepsSound(d: Disk, l: nat, sector: seq<byte>)
    requires Sound(d) && |sector| == SECTOR && l * SECTOR < d.size
    ensures Sound(PutSector(d, l, sector))
  {
    var e := PutSector(d, l, sector);
    forall m | m in e.dirty ensures (m + 1) * SECTOR <= |e.overlay| && m * SECTOR < e.size {
      if m != l {
        assert (m + 1) * SECTOR <= |d.overlay|;
      }
    }
  }

  /** The disk with sector `l` copied from the overlay into the base. */
  function CommitSector(d: Disk, l: nat): Disk
    requires (l + 1) * SECTOR <= |d.overlay|
  {
    d.(base := WriteAt(d.base, l * SECTOR, d.overlay[l * SECTOR..(l + 1) * SECTOR]))
  }

  /** Committing one sector changes nothing shown, and brings what lies below it up to date. */
  lemma ByteAfterCommit(d: Disk, l: nat, i: nat)
    requires Backed(d) && l in d.dirty && (l + 1) * SECTOR <= |d.overlay|
    ensures ByteAt(CommitSector(d, l), i) == ByteAt(d, i)
    ensures Under(CommitSector(d, l), i) == if d.backing.Some? && i / SECTOR == l then ByteAt(d, i) else Under(d, i)
    ensures Backed(CommitSector(d, l))
  {
    var e := CommitSector(d, l);
    assert |e.base| >= |d.base|;
    if i / SECTOR == l {
      assert l * SECTOR <= i < (l + 1) * SECTOR;
    } else {
      assert !(l * SECTOR <= i < (l + 1) * SECTOR);
    }
  }

  /** `e` is `d` with the sectors `done` of its dirty set committed. */
  ghost predicate Committed(d: Disk, e: Disk, done: set<nat>)
  {
    && Backed(e) && done <= d.dirty && e == d.(base := e.base)
    && (forall i: nat :: ByteAt(e, i) == ByteAt(d, i))
    && forall i: nat :: Under(e, i) == if d.backing.Some? && i / SECTOR in done then ByteAt(d, i) else Under(d, i)
  }

  /** In whatever order the dirty set is walked, each copy leaves the view as it was. */
  lemma CommitOneMore(d: Disk, e: Disk, done: set<nat>, l: nat)
    requires Committed(d, e, done) && l in d.dirty && (l + 1) * SECTOR <= |d.overlay|
    ensures Committed(d, CommitSector(e, l), done + {l})
  {
    forall i: nat
      ensures ByteAt(CommitSector(e, l), i) == ByteAt(d, i)
      ensures Under(CommitSector(e, l), i) == if d.backing.Some? && i / SECTOR in done + {l} then ByteAt(d, i) else Under(d, i)
    {
      ByteAfterCommit(e, l, i);
    }
    ByteAfterCommit(e, l, 0);
  }

  /** With everything committed and the overlay emptied, what lay below is what was shown. */
  lemma CommitEnds(d: Disk, e: Disk)
    requires Committed(d, e, d.dirty)
    ensures var f := e.(dirty := {}, overlay := []);
            && (InSize(d) ==> Sound(f))
            && (d.backing.Some? ==> FlatOf(f) == Flat(View(d), View(d)))
            && (d.backing.None? ==> forall i | 0 <= i < d.size :: View(f)[i] == 0)
  {
    var f := e.(dirty := {}, overlay := []);
    if d.backing.Some? {
      forall i: nat | i < d.size ensures ByteAt(f, i) == ByteAt(d, i) && Under(f, i) == ByteAt(d, i) {
        assert Under(f, i) == Under(e, i);
      }
      assert View(f) == View(d) && UnderView(f) == View(d);
    }
  }

  /** Emptying the overlay shows what lies below. */
  lemma RollbackEnds(d: Disk)
    ensures var f := d.(dirty := {}, overlay := []);
            (Backed(d) && InSize(d) ==> Sound(f)) && FlatOf(f) == Flat(UnderView(d), UnderView(d))
  {
    var f := d.(dirty := {}, overlay := []);
    forall i: nat | i < d.size ensures ByteAt(f, i) == Under(d, i) && Under(f, i) == Under(d, i) {
    }
    assert View(f) == UnderView(d) && UnderView(f) == UnderView(d);
  }

  // ---- Reopening from a stale sidecar --------------------------------------

  /** Sector `l` of `e` can be read and is sector `l` of `d`. */
  ghost predicate ShownAlike(d: Disk, e: Disk, l: nat)
  {
    Readable(e, l) && SectorBytes(e, l) == SectorBytes(d, l)
  }

  /**
   * What a sidecar must say of sector `l` for a reopened disk to show it: what
   * the dirty set said, or else name a layer that holds the sector whole with
   * the bytes of the other.
   */
  ghost predicate Served(d: Disk, stale: set<nat>, l: nat)
  {
    if l in stale <==> l in d.dirty then Readable(d, l)
    else
      && (if l in stale then (l + 1) * SECTOR <= |d.overlay| else d.backing.Some? ==> (l + 1) * SECTOR <= d.backing.value)
      && forall i: nat | l * SECTOR <= i < (l + 1) * SECTOR :: (if i < |d.overlay| then d.overlay[i] else 0) == Under(d, i)
  }

  /** Reopened with the dirty set `stale`, the disk shows a sector exactly when it is served. */
  lemma ReopenedShowsExactly(d: Disk, stale: set<nat>, l: nat)
    ensures ShownAlike(d, d.(dirty := stale), l) <==> Served(d, stale, l)
  {
    var e := d.(dirty := stale);
    forall i: nat | l * SECTOR <= i < (l + 1) * SECTOR
      ensures ByteAt(e, i) == ByteAt(d, i) <==>
              (l in stale <==> l in d.dirty) || (if i < |d.overlay| then d.overlay[i] else 0) == Under(d, i)
    {
      assert i / SECTOR == l;
    }
    hide Under, ByteAt, Readable;
    if SectorBytes(e, l) == SectorBytes(d, l) {
      forall i: nat | l * SECTOR <= i < (l + 1) * SECTOR ensures ByteAt(e, i) == ByteAt(d, i) {
        var k := i - l * SECTOR;
        assert SectorBytes(e, l)[k] == SectorBytes(d, l)[k];
      }
    } else {
      SectorsDiffer(d, e, l);
    }
    StaleReadable(d, stale, l);
  }

  lemma SectorsDiffer(d: Disk, e: Disk, l: nat)
    requires SectorBytes(e, l) != SectorBytes(d, l)
    ensures exists i: nat :: l * SECTOR <= i < (l + 1) * SECTOR && ByteAt(e, i) != ByteAt(d, i)
  {
    hide ByteAt;
    var k :| 0 <= k < SECTOR && SectorBytes(e, l)[k] != SectorBytes(d, l)[k];
    assert ByteAt(e, l * SECTOR + k) != ByteAt(d, l * SECTOR + k);
  }

  lemma StaleReadable(d: Disk, stale: set<nat>, l: nat)
    ensures Readable(d.(dirty := stale), l)
       <==> if l in stale then (l + 1) * SECTOR <= |d.overlay| else d.backing.Some? ==> (l + 1) * SECTOR <= d.backing.value
    ensures (l in stale <==> l in d.dirty) ==> (Readable(d.(dirty := stale), l) <==> Readable(d, l))
  {
  }

  /**
   * The overlay holds its dirty sectors and nothing else: zeroes between them,
   * nothing after the last.  A commit or rollback leaves it so, and so does any
   * write from then on.
   */
  ghost predicate Trim(d: Disk)
  {
    && (forall i | 0 <= i < |d.overlay| :: i / SECTOR in d.dirty || d.overlay[i] == 0)
    && (d.overlay != [] ==> exists m :: m in d.dirty && |d.overlay| == (m + 1) * SECTOR)
  }

  lemma PutKeepsTrim(d: Disk, l: nat, sector: seq<byte>)
    requires Trim(d) && |sector| == SECTOR
    ensures Trim(PutSector(d, l, sector))
  {
    var e := PutSector(d, l, sector);
    forall i | 0 <= i < |e.overlay| ensures i / SECTOR in e.dirty || e.overlay[i] == 0 {
      if l * SECTOR <= i < l * SECTOR + SECTOR {
        assert i / SECTOR == l;
      }
    }
    if |d.overlay| <= (l + 1) * SECTOR {
      assert |e.overlay| == (l + 1) * SECTOR && l in e.dirty;
    } else {
      var m :| m in d.dirty && |d.overlay| == (m + 1) * SECTOR;
      assert m in e.dirty && |e.overlay| == (m + 1) * SECTOR;
    }
  }

  /** Some sector past `l` is dirty. */
  ghost predicate WrittenPast(d: Disk, l: nat)
  {
    exists m :: m in d.dirty && l < m
  }

  function Zeroes(): seq<byte>
  {
    seq(SECTOR, _ => 0)
  }

  /** In a trim overlay a clean sector is a hole: there exactly below a dirty one, and then all zeroes. */
  lemma HoleReadsZero(d: Disk, l: nat)
    requires Sound(d) && Trim(d) && l !in d.dirty
    ensures (l + 1) * SECTOR <= |d.overlay| <==> WrittenPast(d, l)
    ensures (l + 1) * SECTOR <= |d.overlay| ==> d.overlay[l * SECTOR..(l + 1) * SECTOR] == Zeroes()
  {
    if WrittenPast(d, l) {
      var m :| m in d.dirty && l < m;
      assert (m + 1) * SECTOR <= |d.overlay|;
    }
    if (l + 1) * SECTOR <= |d.overlay| {
      var m :| m in d.dirty && |d.overlay| == (m + 1) * SECTOR;
      assert l < m;
      var hole := d.overlay[l * SECTOR..(l + 1) * SECTOR];
      forall k | 0 <= k < SECTOR ensures hole[k] == 0 {
        assert (l * SECTOR + k) / SECTOR == l;
      }
    }
  }

  /**
   * A commit empties the overlay but leaves the sidecar until the next flush.
   * After it and any writes, a disk reopened from that stale sidecar reads a
   * sector the sidecar names, and no write has touched since, as zeroes if
   * some later sector was written and not at all otherwise: it shows the sector
   * exactly when a later one was written and the committed bytes are zeroes.
   */
  lemma StaleSectorAfterCommit(d: Disk, stale: set<nat>, l: nat)
    requires Sound(d) && Trim(d) && l in stale && l !in d.dirty
    ensures var e := d.(dirty := stale);
            && (Readable(e, l) <==> WrittenPast(d, l))
            && (Readable(e, l) ==> SectorBytes(e, l) == Zeroes())
            && (ShownAlike(d, e, l) <==> WrittenPast(d, l) && SectorBytes(d, l) == Zeroes())
  {
    var e := d.(dirty := stale);
    HoleReadsZero(d, l);
    if Readable(e, l) {
      forall k | 0 <= k < SECTOR ensures SectorBytes(e, l)[k] == 0 {
        assert (l * SECTOR + k) / SECTOR == l;
        assert d.overlay[l * SECTOR..(l + 1) * SECTOR][k] == Zeroes()[k];
      }
      assert SectorBytes(e, l) == Zeroes();
    }
  }

  /**
   * So the reopened disk can be read throughout exactly when past every sector
   * that the stale sidecar names and no write has touched lies a written one;
   * with no write since the commit, exactly when the sidecar named no sector.
   */
  lemma StaleSidecarAfterCommit(d: Disk, stale: set<nat>)
    requires Sound(d) && Whole(d) && Trim(d)
    requires forall l | l in stale :: l * SECTOR < d.size
    ensures AllReadable(d.(dirty := stale), 0, d.size / SECTOR)
       <==> forall l | l in stale && l !in d.dirty :: WrittenPast(d, l)
    ensures d.dirty == {} ==> (AllReadable(d.(dirty := stale), 0, d.size / SECTOR) <==> stale == {})
  {
    var e := d.(dirty := stale);
    forall l | l in stale && l !in d.dirty ensures Readable(e, l) <==> WrittenPast(d, l) {
      StaleSectorAfterCommit(d, stale, l);
    }
    forall l: nat | l < d.size / SECTOR && !(l in stale && l !in d.dirty) ensures Readable(e, l) {
      assert (l + 1) * SECTOR <= d.size;
    }
    if AllReadable(e, 0, d.size / SECTOR) {
      forall l | l in stale && l !in d.dirty ensures WrittenPast(d, l) {
        assert 0 <= l < d.size / SECTOR;
        assert Readable(e, l);
      }
    }
    if d.dirty == {} && stale != {} {
      var l :| l in stale;
      assert !WrittenPast(d, l);
    }
  }

  // ---- Discards ------------------------------------------------------------

  function DropSectors(d: Disk, first: nat, last: nat): Disk
  {
    d.(dirty := set l | l in d.dirty && !(first <= l < last))
  }

  /** A discard of whole sectors restores exactly its own bytes to what lies below. */
  lemma AlignedDiscardIsExact(d: Disk, off: nat, len: nat)
    requires Sound(d) && InRange(d, off, len) && off % SECTOR == 0 && len % SECTOR == 0
    ensures var (first, last) := SectorsFor(off, len);
            FlatOf(DropSectors(d, first, last)) == FlatDiscard(FlatOf(d), off, len)
  {
    var (first, last) := SectorsFor(off, len);
    var e := DropSectors(d, first, last);
    forall i: nat | i < d.size
      ensures ByteAt(e, i) == if off <= i < off + len then Under(d, i) else ByteAt(d, i)
      ensures Under(e, i) == Under(d, i)
    {
      DroppedByte(d, off, len, i);
    }
    hide ByteAt, Under, SectorsFor;
    assert View(e) == FlatDiscard(FlatOf(d), off, len).view;
    assert UnderView(e) == UnderView(d);
  }

  lemma DroppedByte(d: Disk, off: nat, len: nat, i: nat)
    requires off % SECTOR == 0 && len % SECTOR == 0
    ensures var (first, last) := SectorsFor(off, len); var e := DropSectors(d, first, last);
            && ByteAt(e, i) == (if off <= i < off + len then Under(d, i) else ByteAt(d, i))
            && Under(e, i) == Under(d, i)
  {
    var (first, last) := SectorsFor(off, len);
    assert first * SECTOR == off && last * SECTOR == off + len;
    assert first <= i / SECTOR < last <==> off <= i < off + len;
  }

  /**
   * A discard that is not whole sectors still drops whole sectors: a byte
   * outside the range keeps its value exactly when its sector is clear of the
   * range, was clean, or held what lies below.
   */
  lemma UnalignedDiscardSpreads(d: Disk, off: nat, len: nat, i: nat)
    requires Sound(d) && len > 0 && i < d.size && !(off <= i < off + len)
    ensures ByteAt(DropSectors(d, SectorsFor(off, len).0, SectorsFor(off, len).1), i) == ByteAt(d, i)
       <==> || !(SectorsFor(off, len).0 <= i / SECTOR < SectorsFor(off, len).1)
            || i / SECTOR !in d.dirty
            || ByteAt(d, i) == Under(d, i)
  {
  }

  /** Discarding one byte undoes the writes of its whole 512-byte sector, and of no other. */
  lemma OneByteDiscardDropsANeighbour(d: Disk, off: nat, i: nat)
    requires d == Disk(Some(1024), seq(1024, _ => 0), seq(1024, _ => 1), {0, 1}, 1024) && off < 512 && i < 1024
    ensures Sound(d) && ByteAt(d, i) == 1
    ensures ByteAt(DropSectors(d, SectorsFor(off, 1).0, SectorsFor(off, 1).1), i) == if i < 512 then 0 else 1
  {
  }
}
