/**
 * The copy-on-write overlay node.  Reads and writes may be unaligned; every
 * loop goes sector by sector.
 */
module CowNode {
  import opened Basics
  import opened CowSpec
  import opened CowSidecar

  datatype Status = Done | OutOfRange | IoError | NoBasePath

  datatype BlockState = Data | Zero | Allocated

  datatype BlockStatus = BlockStatus(state: BlockState, backingOffset: Option<nat>, len: nat)

  function StateOf(d: Disk, l: nat): BlockState
  {
    if l in d.dirty then Data else if d.backing.Some? then Allocated else Zero
  }

  function Min(a: nat, b: nat): nat { if a < b then a else b }
  function Max(a: nat, b: nat): nat { if a < b then b else a }

  /** `now` is `was` with the sectors `[first, last)`. */
  ghost predicate Added(was: set<nat>, now: set<nat>, first: nat, last: nat)
  {
    forall l: nat :: l in now <==> l in was || first <= l < last
  }

  /** How far into `[off, end)` sectors below `l` reach. */
  function Reached(off: nat, end: nat, l: nat): nat
    requires off <= end
  {
    Max(off, Min(end, l * SECTOR))
  }

  /** Reading sector `l` extends what was read of `[off, end)` up to the sector's end. */
  lemma SectorReach(off: nat, len: nat, l: nat)
    requires len > 0 && SectorsFor(off, len).0 <= l < SectorsFor(off, len).1
    ensures var end := off + len; var start, stop := Max(off, l * SECTOR), Min(end, l * SECTOR + SECTOR);
            start < stop && Reached(off, end, l) == start && Reached(off, end, l + 1) == stop && stop <= end &&
            forall i: nat | off <= i < end :: (i / SECTOR == l <==> start <= i < stop)
  {
  }

  lemma ReachEnds(off: nat, len: nat)
    requires len > 0
    ensures SectorsFor(off, len).0 < SectorsFor(off, len).1
    ensures Reached(off, off + len, SectorsFor(off, len).0) == off
    ensures Reached(off, off + len, SectorsFor(off, len).1) == off + len
    ensures forall l: nat | SectorsFor(off, len).0 <= l < SectorsFor(off, len).1 :: l * SECTOR < off + len
  {
  }

  class CowNode {
    var backing: Option<nat>
    var base: seq<byte>
    /** Whether the base image's path is known, as a commit needs. */
    const hasBasePath: bool
    var overlay: seq<byte>
    var dirty: set<nat>
    const size: nat
    /** The sidecar file, if it exists. */
    var sidecar: Option<seq<byte>>

    function Disk(): Disk
      reads this
    {
      CowSpec.Disk(backing, base, overlay, dirty, size)
    }

    ghost predicate Valid()
      reads this
    {
      Sound(Disk())
    }

    /** Open an overlay over `base`, recovering the dirty set its sidecar records. */
    constructor (backing: Option<nat>, base: seq<byte>, hasBasePath: bool, overlay: seq<byte>,
                 sidecar: Option<seq<byte>>, size: nat)
      ensures Disk() == CowSpec.Disk(backing, base, overlay, Loaded(sidecar), size)
      ensures this.sidecar == sidecar && this.hasBasePath == hasBasePath
    {
      this.backing, this.base, this.hasBasePath, this.overlay := backing, base, hasBasePath, overlay;
      this.sidecar, this.size := sidecar, size;
      new;
      var loaded := LoadDirtySidecar(sidecar);
      dirty := loaded;
    }

    /** One whole sector: from the overlay if it holds it, else the node below, else zeroes. */
    method ReadSector(l: nat) returns (ok: bool, sector: seq<byte>)
      requires Backed(Disk())
      ensures ok <==> Readable(Disk(), l)
      ensures ok ==> sector == SectorBytes(Disk(), l)
    {
      var at := l * SECTOR;
      if l in dirty {
        ok := at + SECTOR <= |overlay|;
        sector := if ok then overlay[at..at + SECTOR] else [];
      } else if backing.Some? {
        ok := at + SECTOR <= backing.value;
        sector := if ok then base[at..at + SECTOR] else [];
      } else {
        ok, sector := true, seq(SECTOR, _ => 0);
      }
      if ok {
        forall k | 0 <= k < SECTOR ensures sector[k] == SectorBytes(Disk(), l)[k] {
          assert (at + k) / SECTOR == l;
        }
      }
    }

    /**
     * Read into the whole of `buf`: the bytes the disk shows there, or an error
     * exactly when the range runs off the disk or some sector of it cannot be
     * read.
     */
    method Read(off: nat, buf: array<byte>) returns (st: Status)
      requires Backed(Disk())
      modifies buf
      ensures st.OutOfRange? <==> !InRange(Disk(), off, buf.Length)
      ensures st.Done? <==> InRange(Disk(), off, buf.Length)
                            && (buf.Length == 0
                                || AllReadable(Disk(), SectorsFor(off, buf.Length).0, SectorsFor(off, buf.Length).1))
      ensures st.Done? ==> buf[..] == View(Disk())[off..off + buf.Length]
      ensures !st.NoBasePath?
    {
      hide ByteAt, Readable, Sound, Reached, SectorsFor, Copied;
      ghost var d := Disk();
      var len := buf.Length;
      if off + len > size {
        return OutOfRange;
      }
      if len == 0 {
        return Done;
      }
      var (first, last) := SectorsFor(off, len);
      ReachEnds(off, len);
      CopiedNone(d, buf[..], off);
      var l := first;
      while l < last
        invariant first <= l <= last && AllReadable(d, first, l)
        invariant Copied(d, buf[..], off, Reached(off, off + len, l))
      {
        var ok := ReadPart(off, buf, l);
        if !ok {
          return IoError;
        }
        l := l + 1;
      }
      CopiedAll(d, buf[..], off);
      st := Done;
    }

    /** Copy out the part of sector `l` that the range wants. */
    method ReadPart(off: nat, buf: array<byte>, l: nat) returns (ok: bool)
      requires Backed(Disk()) && buf.Length > 0 && off + buf.Length <= size
      requires SectorsFor(off, buf.Length).0 <= l < SectorsFor(off, buf.Length).1
      requires Copied(Disk(), buf[..], off, Reached(off, off + buf.Length, l))
      modifies buf
      ensures ok <==> Readable(Disk(), l)
      ensures ok ==> Copied(Disk(), buf[..], off, Reached(off, off + buf.Length, l + 1))
    {
      hide ByteAt, Readable, Sound;
      ghost var d := Disk();
      var len := buf.Length;
      var sector;
      ok, sector := ReadSector(l);
      if !ok {
        return;
      }
      SectorReach(off, len, l);
      var start, stop := Max(off, l * SECTOR), Min(off + len, l * SECTOR + SECTOR);
      CopyIn(buf, start - off, sector[start - l * SECTOR..stop - l * SECTOR]);
      forall i: nat | start <= i < stop ensures buf[i - off] == ByteAt(d, i) {
        assert sector[i - l * SECTOR] == ByteAt(d, l * SECTOR + (i - l * SECTOR));
      }
    }

    static method CopyIn(buf: array<byte>, at: nat, data: seq<byte>)
      requires at + |data| <= buf.Length
      modifies buf
      ensures forall k | 0 <= k < buf.Length ::
                buf[k] == if at <= k < at + |data| then data[k - at] else old(buf[k])
    {
      forall k | 0 <= k < |data| {
        buf[at + k] := data[k];
      }
    }

    /**
     * Write `data` at `off`, copying each touched sector up first.  Done: the
     * disk shows exactly that change.  On an unreadable sector the loop stops,
     * with the bytes before it written and nothing else changed.
     */
    method Write(off: nat, data: seq<byte>) returns (st: Status)
      requires Backed(Disk())
      modifies this`overlay, this`dirty
      ensures Backed(Disk()) && (old(Valid()) ==> Valid()) && (old(InSize(Disk())) ==> InSize(Disk()))
      ensures !st.NoBasePath? && (old(Trim(Disk())) ==> Trim(Disk()))
      ensures st.OutOfRange? <==> !InRange(old(Disk()), off, |data|)
      ensures st.OutOfRange? ==> Disk() == old(Disk())
      ensures st.Done? <==> InRange(old(Disk()), off, |data|)
                            && (data == []
                                || AllReadable(old(Disk()), SectorsFor(off, |data|).0, SectorsFor(off, |data|).1))
      ensures st.Done? ==> FlatOf(Disk()) == FlatWrite(old(FlatOf(Disk())), off, data)
      ensures st.Done? && data == [] ==> dirty == old(dirty)
      ensures st.Done? && data != [] ==> Added(old(dirty), dirty, SectorsFor(off, |data|).0, SectorsFor(off, |data|).1)
      ensures st.IoError? ==> exists n :: 0 <= n < |data| && FlatOf(Disk()) == FlatWrite(old(FlatOf(Disk())), off, data[..n])
      ensures st.IoError? ==>
                exists l: nat :: SectorsFor(off, |data|).0 <= l < SectorsFor(off, |data|).1 && !Readable(old(Disk()), l)
                                 && Added(old(dirty), dirty, SectorsFor(off, |data|).0, l)
      ensures old(PartialTail(Disk())) && data != [] && off + |data| > size / SECTOR * SECTOR ==> !st.Done?
    {
      hide Held, InSize;
      hide ByteAt, Under, Readable, Sound, Reached, SectorsFor, Written, FlatOf, Trim;
      ghost var d := Disk();
      if off + |data| > size {
        return OutOfRange;
      }
      TailOutOfReach(d, off, |data|);
      WroteNone(d, off, data);
      if data == [] {
        WroteSoFar(d, d, off, data, off);
        return Done;
      }
      var (first, last) := SectorsFor(off, |data|);
      ReachEnds(off, |data|);
      var l := first;
      while l < last
        invariant first <= l <= last && (Sound(d) ==> Valid()) && AllReadable(d, first, l)
        invariant Written(d, Disk(), off, data, Reached(off, off + |data|, l))
        invariant forall m: nat | l <= m :: Readable(Disk(), m) <==> Readable(d, m)
        invariant Trim(d) ==> Trim(Disk())
        invariant Added(old(dirty), dirty, first, l)
      {
        var ok := WritePart(d, off, data, l);
        if !ok {
          ghost var upto := Reached(off, off + |data|, l);
          SectorReach(off, |data|, l);
          WroteSoFar(d, Disk(), off, data, upto);
          AddedInSize(d, Disk(), off, |data|, first, l);
          return IoError;
        }
        l := l + 1;
      }
      WroteSoFar(d, Disk(), off, data, off + |data|);
      AddedInSize(d, Disk(), off, |data|, first, last);
      st := Done;
    }

    /** Copy sector `l` up, change the bytes the range wants, and hand it to the overlay. */
    method WritePart(ghost d: CowSpec.Disk, off: nat, data: seq<byte>, l: nat) returns (ok: bool)
      requires Backed(Disk()) && data != [] && off + |data| <= size
      requires SectorsFor(off, |data|).0 <= l < SectorsFor(off, |data|).1
      requires Written(d, Disk(), off, data, Reached(off, off + |data|, l))
      requires forall m: nat | l <= m :: Readable(Disk(), m) <==> Readable(d, m)
      modifies this`overlay, this`dirty
      ensures (old(Valid()) ==> Valid()) && (ok <==> Readable(d, l)) && (old(Trim(Disk())) ==> Trim(Disk()))
      ensures !ok ==> Disk() == old(Disk())
      ensures ok ==> dirty == old(dirty) + {l}
      ensures ok ==> Written(d, Disk(), off, data, Reached(off, off + |data|, l + 1))
      ensures ok ==> forall m: nat | l < m :: Readable(Disk(), m) <==> Readable(d, m)
    {
      hide ByteAt, Under, Readable, Sound, Reached, Written, WriteAt, Trim;
      ghost var e := Disk();
      var sector;
      ok, sector := ReadSector(l);
      if !ok {
        return;
      }
      SectorReach(off, |data|, l);
      ReachEnds(off, |data|);
      var start, stop := Max(off, l * SECTOR), Min(off + |data|, l * SECTOR + SECTOR);
      sector := Spliced(sector, start - l * SECTOR, data[start - off..stop - off]);
      WroteOneMore(d, e, off, data, l, sector);
      if Sound(e) {
        PutKeepsSound(e, l, sector);
      }
      OthersReadAsBefore(e, l, sector);
      if Trim(e) {
        PutKeepsTrim(e, l, sector);
      }
      overlay := WriteAt(overlay, l * SECTOR, sector);
      dirty := dirty + {l};
    }

    /** Release the overlay's claim on every sector the range touches. */
    method Discard(off: nat, len: nat) returns (st: Status)
      modifies this`dirty
      ensures old(Valid()) ==> Valid()
      ensures st == if InRange(old(Disk()), off, len) then Done else OutOfRange
      ensures Disk() == if st.Done? && len > 0
                        then DropSectors(old(Disk()), SectorsFor(off, len).0, SectorsFor(off, len).1)
                        else old(Disk())
    {
      if off + len > size {
        return OutOfRange;
      }
      if len == 0 {
        return Done;
      }
      var (first, last) := SectorsFor(off, len);
      var l := first;
      while l < last
        invariant first <= l <= last || (last < first && l == first)
        invariant dirty == set m | m in old(dirty) && !(first <= m < l)
      {
        dirty := dirty - {l};
        l := l + 1;
      }
      st := Done;
    }

    /** The allocation state of the longest uniform run from `off`, cut at the range's end. */
    method QueryStatus(off: nat, len: nat) returns (st: Status, r: BlockStatus)
      ensures st == if InRange(Disk(), off, len) then Done else OutOfRange
      ensures st.Done? && len == 0 ==> r == BlockStatus(Data, None, 0)
      ensures st.Done? && len > 0 ==> UniformRun(Disk(), off, len, r)
    {
      r := BlockStatus(Data, None, 0);
      if off + len > size {
        return OutOfRange, r;
      }
      if len == 0 {
        return Done, r;
      }
      var first := SectorsFor(off, len).0;
      var state := StateOf(Disk(), first);
      var end := off + len;
      var l := first;
      while true
        invariant first <= l && l * SECTOR < end
        invariant forall m: nat | first <= m <= l :: StateOf(Disk(), m) == state
        decreases end - l * SECTOR
      {
        var next := l + 1;
        if next * SECTOR >= end || StateOf(Disk(), next) != state {
          break;
        }
        l := next;
      }
      var covered := Min((l + 1) * SECTOR, end) - off;
      r := BlockStatus(state, if state.Allocated? then Some(off) else None, covered);
      RunIsUniform(Disk(), off, len, r, first, l);
      st := Done;
    }

    /**
     * A caller covering a range by stepping `off += status.len`, taking each
     * run from where its status says, gets exactly what a read returns.
     */
    method ReadByStatus(off: nat, len: nat) returns (out: seq<byte>)
      requires Valid() && InRange(Disk(), off, len) && (backing.Some? ==> size <= backing.value)
      ensures out == View(Disk())[off..off + len]
    {
      hide ByteAt, SectorsFor, Sound;
      out := [];
      var pos := off;
      while pos < off + len
        invariant off <= pos <= off + len
        invariant out == View(Disk())[off..pos]
      {
        var _, r := QueryStatus(pos, off + len - pos);
        RunResolves(Disk(), pos, off + len - pos, r);
        var bytes := match r.state
          case Data => overlay[pos..pos + r.len]
          case Allocated => base[r.backingOffset.value..r.backingOffset.value + r.len]
          case Zero => seq(r.len, _ => 0);
        assert View(Disk())[off..pos] + View(Disk())[pos..pos + r.len] == View(Disk())[off..pos + r.len];
        out := out + bytes;
        pos := pos + r.len;
      }
    }

    /**
     * Fold every dirty sector into the base, in any order, and empty the
     * overlay.  A dirty sector the overlay lacks stops the walk: some of the
     * others are then in the base, and nothing shown has changed.
     */
    method CommitAll() returns (st: Status, committed: nat)
      requires Backed(Disk())
      modifies this`base, this`dirty, this`overlay
      ensures Backed(Disk()) && (old(InSize(Disk())) && !st.IoError? && old(Held(Disk())) ==> Valid())
      ensures st == if !hasBasePath then NoBasePath else if old(Held(Disk())) then Done else IoError
      ensures st.NoBasePath? ==> Disk() == old(Disk()) && committed == 0
      ensures st.IoError? ==> exists done: set<nat> :: done < old(dirty) && Committed(old(Disk()), Disk(), done)
      ensures st.Done? ==> dirty == {} && overlay == [] && Trim(Disk()) && committed == |old(dirty)|
      ensures st.Done? && backing.Some? ==> FlatOf(Disk()) == Flat(old(View(Disk())), old(View(Disk())))
      ensures st.Done? && backing.None? ==> forall i | 0 <= i < size :: View(Disk())[i] == 0
    {
      hide ByteAt, Under, WriteAt, Committed;
      committed := 0;
      if !hasBasePath {
        return NoBasePath, 0;
      }
      ghost var d := Disk();
      var todo := dirty;
      CommitStarts(d);
      while todo != {}
        invariant todo <= dirty == old(dirty) && overlay == old(overlay)
        invariant committed + |todo| == |dirty|
        invariant Committed(d, Disk(), dirty - todo)
        invariant forall l | l in dirty - todo :: (l + 1) * SECTOR <= |overlay|
        decreases todo
      {
        var l :| l in todo;
        if (l + 1) * SECTOR > |overlay| {
          assert dirty - todo < d.dirty;
          CommittedIsBacked(d, Disk(), dirty - todo);
          return IoError, committed;
        }
        CommitOneMore(d, Disk(), dirty - todo, l);
        assert dirty - todo + {l} == dirty - (todo - {l});
        base := WriteAt(base, l * SECTOR, overlay[l * SECTOR..(l + 1) * SECTOR]);
        committed := committed + 1;
        todo := todo - {l};
      }
      assert dirty - {} == d.dirty;
      CommittedIsBacked(d, Disk(), d.dirty);
      CommitEnds(d, Disk());
      dirty, overlay := {}, [];
      st := Done;
    }

    /** Forget every overlay write and the sidecar's record of them, however the disk was opened. */
    method RollbackAll()
      modifies this`dirty, this`overlay, this`sidecar
      ensures old(Backed(Disk()) && InSize(Disk())) ==> Valid()
      ensures dirty == {} && overlay == [] && sidecar == None
      ensures FlatOf(Disk()) == Flat(old(UnderView(Disk())), old(UnderView(Disk())))
    {
      RollbackEnds(Disk());
      dirty, overlay, sidecar := {}, [], None;
    }

    /** Persist the dirty set. */
    method FlushAll()
      requires InSize(Disk())
      modifies this`sidecar
      ensures Loaded(sidecar) == dirty
    {
      var file, order := SaveDirtySidecar(dirty);
      DirtyIsEncodable(Disk(), order);
      LoadRestoresTheSet(order, dirty);
      sidecar := Some(file);
    }

    /**
     * The disk as it comes up again from its files: with the dirty set of the
     * last sidecar written, and so the same disk if that was its present one.
     */
    method Reopen() returns (node: CowNode)
      ensures fresh(node) && node.sidecar == sidecar && node.Disk() == Disk().(dirty := Loaded(sidecar))
      ensures Loaded(sidecar) == dirty ==> node.Disk() == Disk()
    {
      node := new CowNode(backing, base, hasBasePath, overlay, sidecar, size);
    }

    /** The overlay and its dirty set, in ascending order, for a snapshot. */
    method ExportOverlay() returns (copy: seq<byte>, list: seq<nat>)
      ensures copy == overlay && Elements(list) == dirty
      ensures Ascending(list)
    {
      hide Ascending, Below, AtMostAll;
      copy, list := overlay, [];
      var todo := dirty;
      AscendsFromNone(todo);
      while todo != {}
        invariant todo <= dirty && (forall x :: x in list <==> x in dirty && x !in todo)
        invariant Ascending(list) && Below(list, todo)
        decreases todo
      {
        HasLeast(todo);
        var l :| l in todo && AtMostAll(l, todo);
        AscendsBy(list, todo, l);
        todo := todo - {l};
        list := list + [l];
      }
    }

    /** Take a snapshot's overlay and dirty set back; a missing one is an empty overlay. */
    method ImportOverlay(source: Option<seq<byte>>, list: seq<nat>)
      modifies this`overlay, this`dirty
      ensures Disk() == old(Disk()).(overlay := if source.Some? then source.value else [], dirty := Elements(list))
    {
      overlay := if source.Some? then source.value else [];
      dirty := set x | x in list;
    }

    /** What the flat disk asks of a request: whole sectors, and for a commit a base to commit to. */
    predicate Plain(r: Request)
      reads this
    {
      WholeSectors(r) && (r.Commit? ==> backing.Some? && hasBasePath)
    }

    /**
     * One request.  On a sound disk of whole sectors it does what the flat disk
     * does; a partial last sector that is clean stays clean whatever is asked.
     */
    method Serve(r: Request)
      requires Backed(Disk()) && InSize(Disk())
      modifies this
      ensures Backed(Disk()) && InSize(Disk()) && backing == old(backing)
      ensures old(PartialTail(Disk())) ==> PartialTail(Disk())
      ensures old(Valid() && Whole(Disk()) && Plain(r)) ==>
                Valid() && FlatOf(Disk()) == FlatStep(old(FlatOf(Disk())), r)
    {
      hide ByteAt, Under, Held;
      ghost var flat := Valid() && Whole(Disk()) && Plain(r);
      match r {
        case Write(off, data) =>
          if flat && off + |data| <= size {
            WholeDiskReads(Disk(), off, |data|);
          }
          TailOutOfReach(Disk(), off, |data|);
          var st := Write(off, data);
        case Discard(off, len) =>
          if flat && off + len <= size {
            AlignedDiscardIsExact(Disk(), off, len);
            if len == 0 {
              NothingDiscarded(Disk(), off);
            }
          }
          var st := Discard(off, len);
        case Commit =>
          var st, n := CommitAll();
          CommitKeepsSize(old(Disk()), Disk());
        case Rollback =>
          RollbackAll();
        case Flush =>
          FlushAll();
      }
    }

    /**
     * Over every run of writes, whole-sector discards, commits, rollbacks and
     * flushes the layered disk of whole sectors is the flat one.  On a disk that
     * is not whole sectors no run of any requests ever makes its clean partial
     * sector dirty, so none makes it readable.
     */
    method Run(rs: seq<Request>)
      requires Backed(Disk()) && InSize(Disk())
      modifies this
      ensures old(PartialTail(Disk())) ==> PartialTail(Disk()) && !Readable(Disk(), size / SECTOR)
      ensures old(Valid() && Whole(Disk()) && forall i | 0 <= i < |rs| :: Plain(rs[i])) ==>
                Valid() && FlatOf(Disk()) == FlatRun(old(FlatOf(Disk())), rs)
    {
      hide FlatOf, FlatStep, Backed, Held, InSize, PartialTail;
      ghost var flat := Valid() && Whole(Disk()) && forall i | 0 <= i < |rs| :: Plain(rs[i]);
      var i := 0;
      while i < |rs|
        invariant 0 <= i <= |rs| && Backed(Disk()) && InSize(Disk()) && backing == old(backing)
        invariant old(PartialTail(Disk())) ==> PartialTail(Disk())
        invariant flat ==> Valid() && FlatOf(Disk()) == FlatRun(old(FlatOf(Disk())), rs[..i])
      {
        assert rs[..i + 1][..i] == rs[..i];
        Serve(rs[i]);
        i := i + 1;
      }
      assert rs[..|rs|] == rs;
      if PartialTail(Disk()) {
        CleanTailIsUnreadable(Disk());
      }
    }
  }

  lemma AddedInSize(d: Disk, e: Disk, off: nat, len: nat, first: nat, last: nat)
    requires e.size == d.size && Added(d.dirty, e.dirty, first, last) && off + len <= d.size
    requires forall l: nat | first <= l < last :: l * SECTOR < off + len
    ensures InSize(d) ==> InSize(e)
  {
  }

  lemma CleanTailIsUnreadable(d: Disk)
    requires PartialTail(d)
    ensures !Readable(d, d.size / SECTOR)
  {
  }

  /** A write reaches a clean partial sector only to fail there, before it is dirty. */
  lemma TailOutOfReach(d: Disk, off: nat, len: nat)
    ensures PartialTail(d) && len > 0 && InRange(d, off, len) ==>
              var (first, last) := SectorsFor(off, len);
              && last <= d.size / SECTOR + 1
              && (AllReadable(d, first, last) ==> last <= d.size / SECTOR && off + len <= d.size / SECTOR * SECTOR)
  {
    if PartialTail(d) && len > 0 && InRange(d, off, len) {
      RangeKeepsToTheDisk(d, off, len);
      if off + len > d.size / SECTOR * SECTOR {
        PartialTailIsUnreadable(d, off, len);
      }
    }
  }

  /** However far a commit came, the dirty set is the old one or empty. */
  lemma CommitKeepsSize(d: Disk, e: Disk)
    requires e.size == d.size && (e.dirty == {} || e.dirty == d.dirty) && InSize(d)
    ensures InSize(e)
  {
  }

  lemma CommittedIsBacked(d: Disk, e: Disk, done: set<nat>)
    requires Committed(d, e, done)
    ensures Backed(e) && e == d.(base := e.base)
  {
  }

  // ---- Sorting the dirty set -----------------------------------------------

  predicate Ascending(list: seq<nat>)
  {
    forall i, j | 0 <= i < j < |list| :: list[i] < list[j]
  }

  predicate AtMostAll(l: nat, s: set<nat>)
  {
    forall x | x in s :: l <= x
  }

  predicate Below(list: seq<nat>, s: set<nat>)
  {
    forall i, x | 0 <= i < |list| && x in s :: list[i] < x
  }

  lemma AscendsFromNone(s: set<nat>)
    ensures Ascending([]) && Below([], s)
  {
  }

  lemma AscendsBy(list: seq<nat>, s: set<nat>, l: nat)
    requires Ascending(list) && Below(list, s) && l in s && AtMostAll(l, s)
    ensures Ascending(list + [l]) && Below(list + [l], s - {l})
  {
  }

  lemma {:induction false} HasLeast(s: set<nat>)
    requires s != {}
    ensures exists l :: l in s && AtMostAll(l, s)
  {
    var y :| y in s;
    var rest := s - {y};
    if rest == {} {
      LeastOfBoth(s, y, y);
    } else {
      HasLeast(rest);
      var l :| l in rest && AtMostAll(l, rest);
      LeastOfBoth(s, y, l);
    }
  }

  lemma LeastOfBoth(s: set<nat>, y: nat, l: nat)
    requires y in s && l in s && AtMostAll(l, s - {y})
    ensures AtMostAll(if l < y then l else y, s)
  {
    forall x | x in s ensures (if l < y then l else y) <= x {
      assert x == y || x in s - {y};
    }
  }

  // ---- Crashing between a commit and the next flush ------------------------

  const TWO_SECTORS: nat := 1024

  function Filled(b: byte): (s: seq<byte>)
    ensures |s| == SECTOR
  {
    seq(SECTOR, _ => b)
  }

  /** A disk of two sectors whose first, all ones, was flushed as dirty and then committed. */
  ghost predicate CommittedOnes(node: CowNode)
    reads node
  {
    && node.Valid() && node.size == TWO_SECTORS && node.backing == Some(TWO_SECTORS)
    && Trim(node.Disk()) && 0 !in node.dirty && Loaded(node.sidecar) == {0}
    && Readable(node.Disk(), 0) && SectorBytes(node.Disk(), 0) == Filled(1)
  }

  lemma FirstSectorOf(d: Disk, b: byte)
    requires d.size == TWO_SECTORS && View(d)[..SECTOR] == Filled(b)
    ensures SectorBytes(d, 0) == Filled(b)
  {
    hide ByteAt;
    forall k | 0 <= k < SECTOR ensures SectorBytes(d, 0)[k] == Filled(b)[k] {
      assert View(d)[k] == View(d)[..SECTOR][k];
    }
  }

  method CommitOnes() returns (node: CowNode)
    ensures fresh(node) && CommittedOnes(node) && node.dirty == {}
  {
    node := new CowNode(Some(TWO_SECTORS), seq(TWO_SECTORS, _ => 0), true, [], None, TWO_SECTORS);
    WholeDiskReads(node.Disk(), 0, SECTOR);
    var wrote := node.Write(0, Filled(1));
    assert node.dirty == {0};
    node.FlushAll();
    var st, n := node.CommitAll();
    hide ByteAt, Spliced;
    assert View(node.Disk())[..SECTOR] == Filled(1);
    FirstSectorOf(node.Disk(), 1);
  }

  /**
   * Write a sector, flush, commit, crash and reopen: the sidecar still names the
   * sector, the overlay no longer holds it, and reading the committed bytes is
   * an error.
   */
  method CommittedSectorUnreadable() returns (before: CowNode, after: CowNode, st: Status)
    ensures CommittedOnes(before) && after.Disk() == before.Disk().(dirty := {0})
    ensures st.IoError?
  {
    before := CommitOnes();
    after := before.Reopen();
    StaleSectorAfterCommit(before.Disk(), {0}, 0);
    var buf := new byte[SECTOR];
    st := after.Read(0, buf);
  }

  /**
   * The same with the second sector written between the commit and the crash:
   * now reading the committed bytes succeeds, and returns zeroes.
   */
  method CommittedSectorReadsZero() returns (before: CowNode, after: CowNode, st: Status, buf: array<byte>)
    ensures CommittedOnes(before) && after.Disk() == before.Disk().(dirty := {0})
    ensures st.Done? && buf[..] == Zeroes()
  {
    before := CommitOnes();
    ghost var d := before.Disk();
    WholeDiskReads(d, SECTOR, SECTOR);
    var wrote := before.Write(SECTOR, Filled(2));
    assert 1 in before.dirty && 0 !in before.dirty;
    SecondSectorAlone(d, before.Disk());
    FirstSectorOf(before.Disk(), 1);
    after := before.Reopen();
    StaleSectorAfterCommit(before.Disk(), {0}, 0);
    buf := new byte[SECTOR];
    st := after.Read(0, buf);
    FirstSectorShown(after.Disk());
  }

  lemma FirstSectorShown(d: Disk)
    requires d.size == TWO_SECTORS
    ensures View(d)[0..SECTOR] == SectorBytes(d, 0)
  {
    hide ByteAt;
  }

  lemma SecondSectorAlone(d: Disk, e: Disk)
    requires d.size == e.size == TWO_SECTORS && SectorBytes(d, 0) == Filled(1)
    requires FlatOf(e) == FlatWrite(FlatOf(d), SECTOR, Filled(2))
    ensures View(e)[..SECTOR] == Filled(1)
  {
    hide ByteAt;
    forall k | 0 <= k < SECTOR ensures View(e)[k] == Filled(1)[k] {
      assert View(e)[k] == View(d)[k] == SectorBytes(d, 0)[k];
    }
  }

  // ---- Allocation runs -----------------------------------------------------

  /** `r` describes a non-empty run from `off`, all in one state and as long as the range allows. */
  ghost predicate UniformRun(d: Disk, off: nat, len: nat, r: BlockStatus)
  {
    && 0 < r.len <= len
    && (forall i: nat | off <= i < off + r.len :: StateOf(d, i / SECTOR) == r.state)
    && (r.len < len ==> (off + r.len) % SECTOR == 0 && StateOf(d, (off + r.len) / SECTOR) != r.state)
    && r.backingOffset == if r.state.Allocated? then Some(off) else None
  }

  lemma RunIsUniform(d: Disk, off: nat, len: nat, r: BlockStatus, first: nat, l: nat)
    requires len > 0 && first == off / SECTOR <= l && l * SECTOR < off + len
    requires forall m: nat | first <= m <= l :: StateOf(d, m) == r.state
    requires (l + 1) * SECTOR >= off + len || StateOf(d, l + 1) != r.state
    requires r.len == Min((l + 1) * SECTOR, off + len) - off
    requires r.backingOffset == if r.state.Allocated? then Some(off) else None
    ensures UniformRun(d, off, len, r)
  {
    hide StateOf;
    forall i: nat | off <= i < off + r.len ensures StateOf(d, i / SECTOR) == r.state {
      assert first <= i / SECTOR <= l;
    }
    if r.len < len {
      assert off + r.len == (l + 1) * SECTOR;
      assert (off + r.len) / SECTOR == l + 1;
    }
  }

  /** A run taken from where its status says is what the disk shows. */
  lemma RunResolves(d: Disk, off: nat, len: nat, r: BlockStatus)
    requires Sound(d) && len > 0 && InRange(d, off, len) && UniformRun(d, off, len, r)
    requires d.backing.Some? ==> d.size <= d.backing.value
    ensures r.state.Data? ==> off + r.len <= |d.overlay| && d.overlay[off..off + r.len] == View(d)[off..off + r.len]
    ensures r.state.Allocated? ==> off + r.len <= |d.base| && d.base[off..off + r.len] == View(d)[off..off + r.len]
    ensures r.state.Zero? ==> View(d)[off..off + r.len] == seq(r.len, _ => 0)
  {
    var last := off + r.len - 1;
    assert StateOf(d, last / SECTOR) == r.state;
    if r.state.Data? {
      assert (last / SECTOR + 1) * SECTOR <= |d.overlay|;
    }
    hide StateOf;
    var v := View(d)[off..off + r.len];
    var source := match r.state
      case Data => d.overlay[off..off + r.len]
      case Allocated => d.base[off..off + r.len]
      case Zero => seq(r.len, _ => 0);
    forall k | 0 <= k < r.len ensures v[k] == source[k] {
      assert StateOf(d, (off + k) / SECTOR) == r.state;
      ByteByState(d, off + k);
    }
    assert v == source;
  }

  /** Where a byte comes from, by the state of its sector. */
  lemma ByteByState(d: Disk, i: nat)
    ensures StateOf(d, i / SECTOR).Data? && i < |d.overlay| ==> ByteAt(d, i) == d.overlay[i]
    ensures StateOf(d, i / SECTOR).Allocated? && i < |d.base| ==> ByteAt(d, i) == d.base[i]
    ensures StateOf(d, i / SECTOR).Zero? ==> ByteAt(d, i) == 0
  {
  }

  // ---- Small facts ---------------------------------------------------------

  lemma CommitStarts(d: Disk)
    requires Backed(d)
    ensures Committed(d, d, d.dirty - d.dirty)
  {
  }

  lemma NothingDiscarded(d: Disk, off: nat)
    requires off <= d.size
    ensures FlatDiscard(FlatOf(d), off, 0) == FlatOf(d)
  {
    assert FlatDiscard(FlatOf(d), off, 0).view == View(d);
  }

  lemma DirtyIsEncodable(d: Disk, order: seq<nat>)
    requires InSize(d) && Walks(order, d.dirty) && |order| == |d.dirty|
    ensures Encodable(order)
  {
    BoundedSetIsSmall(d.dirty, d.size);
    forall i | 0 <= i < |order| ensures order[i] < U64 {
      assert order[i] in d.dirty;
    }
  }

  // ---- Writing, sector by sector -------------------------------------------

  /** `e` shows `d` with the bytes of `[off, upto)` replaced by `data`'s, over the same base. */
  ghost predicate Written(d: Disk, e: Disk, off: nat, data: seq<byte>, upto: nat)
  {
    && e.size == d.size && off <= upto <= off + |data| <= d.size
    && (forall i: nat | i < d.size :: ByteAt(e, i) == if off <= i < upto then data[i - off] else ByteAt(d, i))
    && forall i: nat | i < d.size :: Under(e, i) == Under(d, i)
  }

  lemma WroteNone(d: Disk, off: nat, data: seq<byte>)
    requires off + |data| <= d.size
    ensures Written(d, d, off, data, off)
  {
  }

  lemma WroteSoFar(d: Disk, e: Disk, off: nat, data: seq<byte>, upto: nat)
    requires Written(d, e, off, data, upto)
    ensures FlatOf(e) == FlatWrite(FlatOf(d), off, data[..upto - off])
    ensures upto == off + |data| ==> data[..upto - off] == data
  {
    hide ByteAt, Under;
    assert View(e) == Spliced(View(d), off, data[..upto - off]);
    assert UnderView(e) == UnderView(d);
  }

  // ---- Reading, sector by sector -------------------------------------------

  /** `buf` holds what the disk shows of `[off, upto)`. */
  ghost predicate Copied(d: Disk, buf: seq<byte>, off: nat, upto: nat)
  {
    off <= upto <= off + |buf| && forall i: nat | off <= i < upto :: buf[i - off] == ByteAt(d, i)
  }

  lemma CopiedNone(d: Disk, buf: seq<byte>, off: nat)
    ensures Copied(d, buf, off, off)
  {
  }

  lemma CopiedAll(d: Disk, buf: seq<byte>, off: nat)
    requires off + |buf| <= d.size && Copied(d, buf, off, off + |buf|)
    ensures buf == View(d)[off..off + |buf|]
  {
    hide ByteAt;
    forall k | 0 <= k < |buf| ensures buf[k] == View(d)[off..off + |buf|][k] {
      assert buf[off + k - off] == ByteAt(d, off + k);
    }
  }

  lemma OthersReadAsBefore(e: Disk, l: nat, sector: seq<byte>)
    requires |sector| == SECTOR
    ensures forall m: nat | l < m :: Readable(PutSector(e, l, sector), m) <==> Readable(e, m)
  {
  }

  lemma WroteOneMore(d: Disk, e: Disk, off: nat, data: seq<byte>, l: nat, sector: seq<byte>)
    requires data != [] && SectorsFor(off, |data|).0 <= l < SectorsFor(off, |data|).1
    requires Written(d, e, off, data, Reached(off, off + |data|, l))
    requires var start, stop := Max(off, l * SECTOR), Min(off + |data|, l * SECTOR + SECTOR);
             start - l * SECTOR + (stop - start) <= SECTOR && start < stop &&
             sector == Spliced(SectorBytes(e, l), start - l * SECTOR, data[start - off..stop - off])
    ensures Written(d, PutSector(e, l, sector), off, data, Reached(off, off + |data|, l + 1))
  {
    hide ByteAt, Under, WriteAt, Spliced, SectorBytes, SectorsFor;
    SectorReach(off, |data|, l);
    var f := PutSector(e, l, sector);
    forall i: nat | i < d.size
      ensures ByteAt(f, i) == if off <= i < Reached(off, off + |data|, l + 1) then data[i - off] else ByteAt(d, i)
      ensures Under(f, i) == Under(d, i)
    {
      WroteByte(d, e, off, data, l, sector, i);
    }
  }

  lemma WroteByte(d: Disk, e: Disk, off: nat, data: seq<byte>, l: nat, sector: seq<byte>, i: nat)
    requires data != [] && SectorsFor(off, |data|).0 <= l < SectorsFor(off, |data|).1 && i < d.size
    requires Written(d, e, off, data, Reached(off, off + |data|, l))
    requires var start, stop := Max(off, l * SECTOR), Min(off + |data|, l * SECTOR + SECTOR);
             start - l * SECTOR + (stop - start) <= SECTOR && start < stop &&
             sector == Spliced(SectorBytes(e, l), start - l * SECTOR, data[start - off..stop - off])
    ensures var f := PutSector(e, l, sector);
            && ByteAt(f, i) == (if off <= i < Reached(off, off + |data|, l + 1) then data[i - off] else ByteAt(d, i))
            && Under(f, i) == Under(d, i)
  {
    hide ByteAt, Under, PutSector;
    SectorReach(off, |data|, l);
    ByteAfterPut(e, l, sector, i);
    if i / SECTOR == l {
      assert i == l * SECTOR + i % SECTOR;
      assert SectorBytes(e, l)[i % SECTOR] == ByteAt(e, i);
    }
  }
}
