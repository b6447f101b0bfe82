/**
 * The sector-oriented copy-on-write disk, which batches consecutive sectors
 * from the same file into one read.  It shows the same bytes as the layered
 * node over the same base, overlay and dirty set.
 */
module CowDisk {
  import opened Basics
  import opened CowSpec

  /** Sectors `[first, last)` of the disk, one after another. */
  function Sectors(d: Disk, first: nat, last: nat): (s: seq<byte>)
    requires first <= last
    ensures |s| == (last - first) * SECTOR
    ensures forall k | 0 <= k < |s| :: s[k] == ByteAt(d, first * SECTOR + k)
  {
    seq<byte>((last - first) * SECTOR, k requires 0 <= k < (last - first) * SECTOR => ByteAt(d, first * SECTOR + k))
  }

  /** Where sectors lie wholly on the disk they are what the byte-addressed read of them returns. */
  lemma SectorsAreTheView(d: Disk, first: nat, last: nat)
    requires first <= last && last * SECTOR <= d.size
    ensures Sectors(d, first, last) == View(d)[first * SECTOR..last * SECTOR]
    ensures SectorsFor(first * SECTOR, (last - first) * SECTOR) == (first, last)
  {
  }

  /** The file sector `l` is read from. */
  function Source(d: Disk, l: nat): seq<byte>
  {
    if l in d.dirty then d.overlay else d.base
  }

  /** A run of sectors from one file, as one read of that file. */
  lemma RunIsOneRead(d: Disk, first: nat, last: nat)
    requires d.backing == Some(|d.base|) && first < last
    requires forall l: nat | first <= l < last :: (l in d.dirty <==> first in d.dirty)
    ensures AllReadable(d, first, last) <==> last * SECTOR <= |Source(d, first)|
    ensures last * SECTOR <= |Source(d, first)| ==>
              Source(d, first)[first * SECTOR..last * SECTOR] == Sectors(d, first, last)
  {
    var file := Source(d, first);
    if last * SECTOR <= |file| {
      forall l: nat | first <= l < last ensures Readable(d, l) {
        assert (l + 1) * SECTOR <= last * SECTOR;
      }
      forall k | 0 <= k < (last - first) * SECTOR
        ensures file[first * SECTOR..last * SECTOR][k] == Sectors(d, first, last)[k]
      {
        assert first <= (first * SECTOR + k) / SECTOR < last;
      }
    } else {
      assert !Readable(d, last - 1);
    }
  }

  lemma SectorsJoin(d: Disk, a: nat, b: nat, c: nat)
    requires a <= b <= c
    ensures Sectors(d, a, b) + Sectors(d, b, c) == Sectors(d, a, c)
  {
    hide ByteAt;
    var l, r := Sectors(d, a, b), Sectors(d, b, c);
    forall k | 0 <= k < |l| + |r| ensures (l + r)[k] == Sectors(d, a, c)[k] {
      if k >= |l| {
        assert r[k - |l|] == ByteAt(d, b * SECTOR + (k - |l|));
      }
    }
  }

  class CowDisk {
    var base: seq<byte>
    var overlay: seq<byte>
    var dirty: set<nat>

    function Disk(): Disk
      reads this
    {
      CowSpec.Disk(Some(|base|), base, overlay, dirty, |base|)
    }

    /** The longest run of same-source sectors, which the scan may overshoot by one. */
    method RunLength(sector: nat, pos: nat, total: nat) returns (run: nat)
      requires pos < total && pos % SECTOR == 0 && total % SECTOR == 0
      ensures 0 < run <= (total - pos) / SECTOR
      ensures forall l: nat | sector <= l < sector + run :: (l in dirty <==> sector in dirty)
    {
      var isDirty := sector in dirty;
      run := 1;
      while pos + run * SECTOR <= total
        invariant 1 <= run && pos + (run - 1) * SECTOR <= total
        invariant forall l: nat | sector <= l < sector + run :: (l in dirty <==> isDirty)
        decreases total - pos - run * SECTOR + SECTOR
      {
        var next := sector + run;
        if (next in dirty) != isDirty {
          break;
        }
        run := run + 1;
      }
      var left := (total - pos) / SECTOR;
      if run > left {
        run := left;
      }
    }

    /**
     * Read `count` sectors: what the disk shows, or nothing exactly when some
     * sector of them cannot be read.
     */
    method ReadSectors(lba: nat, count: nat) returns (r: Option<seq<byte>>)
      ensures r.Some? <==> AllReadable(Disk(), lba, lba + count)
      ensures r.Some? ==> r.value == Sectors(Disk(), lba, lba + count)
    {
      hide ByteAt, Readable, Source;
      ghost var d := Disk();
      var total := count * SECTOR;
      var data: seq<byte> := [];
      var pos, sector := 0, lba;
      while pos < total
        invariant lba <= sector <= lba + count && pos == (sector - lba) * SECTOR
        invariant AllReadable(d, lba, sector) && data == Sectors(d, lba, sector)
        decreases total - pos
      {
        var run := RunLength(sector, pos, total);
        var next := sector + run;
        RunIsOneRead(d, sector, next);
        var file := if sector in dirty then overlay else base;
        assert file == Source(d, sector) by { SourceIs(d, sector); }
        if next * SECTOR > |file| {
          return None;
        }
        SectorsJoin(d, lba, sector, next);
        data := data + file[sector * SECTOR..next * SECTOR];
        pos, sector := pos + run * SECTOR, next;
      }
      r := Some(data);
    }

    /** Write whole sectors to the overlay only. */
    method WriteSectors(lba: nat, data: seq<byte>)
      requires |data| % SECTOR == 0
      modifies this`overlay, this`dirty
      ensures old(Held(Disk())) ==> Held(Disk())
      ensures forall l :: l in dirty <==> l in old(dirty) || lba <= l < lba + |data| / SECTOR
      ensures forall l: nat | lba <= l < lba + |data| / SECTOR :: Readable(Disk(), l)
      ensures forall i: nat :: ByteAt(Disk(), i)
                == if lba * SECTOR <= i < lba * SECTOR + |data| then data[i - lba * SECTOR] else ByteAt(old(Disk()), i)
    {
      ghost var d := Disk();
      var count := |data| / SECTOR;
      overlay := WriteAt(overlay, lba * SECTOR, data);
      var i := 0;
      while i < count
        invariant 0 <= i <= count && overlay == WriteAt(old(overlay), lba * SECTOR, data)
        invariant forall l :: l in dirty <==> l in old(dirty) || lba <= l < lba + i
      {
        dirty := dirty + {lba + i};
        i := i + 1;
      }
      OverlayWritten(d, Disk(), lba, data);
    }
  }

  lemma SourceIs(d: Disk, l: nat)
    ensures Source(d, l) == if l in d.dirty then d.overlay else d.base
  {
  }

  lemma OverlayWritten(d: Disk, e: Disk, lba: nat, data: seq<byte>)
    requires |data| % SECTOR == 0
    requires e == d.(overlay := WriteAt(d.overlay, lba * SECTOR, data), dirty := e.dirty)
    requires forall l :: l in e.dirty <==> l in d.dirty || lba <= l < lba + |data| / SECTOR
    ensures Held(d) ==> Held(e)
    ensures forall l: nat | lba <= l < lba + |data| / SECTOR :: Readable(e, l)
    ensures forall i: nat :: ByteAt(e, i)
              == if lba * SECTOR <= i < lba * SECTOR + |data| then data[i - lba * SECTOR] else ByteAt(d, i)
  {
    forall i: nat
      ensures ByteAt(e, i) == if lba * SECTOR <= i < lba * SECTOR + |data| then data[i - lba * SECTOR] else ByteAt(d, i)
    {
      assert lba <= i / SECTOR < lba + |data| / SECTOR <==> lba * SECTOR <= i < lba * SECTOR + |data|;
    }
  }
}
