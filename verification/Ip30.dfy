/**
 * The Octane's widget windows: a decode table of 4 KiB slots patched as the
 * Crossbow's links go up and down and as PCI BARs move.
 */
module Ip30 {
  import opened Basics

  /** What answers a slot: the bus error, or some device. */
  datatype Device = BusError | Device(id: nat)

  /** A run of a widget's small window and what answers it; offsets in bytes. */
  datatype BarRun = BarRun(start: nat, end: nat, dev: Device)

  datatype Widget = Widget(dev: Device, large: bool)

  const SLOT: nat := 0x1000
  const SLOTS: nat := 0x1000_0000
  const WIDGET_SMALL_SIZE: nat := 0x0100_0000
  const WIDGET_LARGE_SIZE: nat := 0x10_0000_0000

  function SmallBase(w: nat): nat
  {
    0x1000_0000 + w * 0x0100_0000
  }

  function LargeBase(w: nat): nat
  {
    w * 0x10_0000_0000
  }

  /** The ports the Crossbow switches. */
  predicate IsPort(w: nat)
  {
    9 <= w < 16
  }

  // ---- Windows -------------------------------------------------------------

  type Table = t: seq<Device> | |t| == SLOTS witness seq(SLOTS, _ => BusError)

  /** Point the slots of `base..end` at `dev`, whole slots rounded up. */
  function Filled(t: Table, base: nat, end: nat, dev: Device): Table
  {
    seq(SLOTS, i requires 0 <= i < SLOTS => if base / SLOT <= i < (end + SLOT - 1) / SLOT then dev else t[i])
  }

  /** A slot of 4 KiB is filled exactly if it begins before the end and not before the base's slot. */
  lemma FilledRoundsUp(t: Table, base: nat, end: nat, dev: Device, i: nat)
    requires i < SLOTS
    ensures Filled(t, base, end, dev)[i] == if base / 0x1000 <= i && i * 0x1000 < end then dev else t[i]
  {
  }

  const SMALL_SLOTS: nat := WIDGET_SMALL_SIZE / SLOT
  const LARGE_SLOTS: nat := WIDGET_LARGE_SIZE / SLOT

  /** Slot `o` of port `w`'s small window. */
  function SmallAt(t: Table, w: nat, o: nat): Device
    requires IsPort(w) && o < SMALL_SLOTS
  {
    t[SmallBase(w) / SLOT + o]
  }

  function LargeAt(t: Table, w: nat, o: nat): Device
    requires IsPort(w) && o < LARGE_SLOTS
  {
    t[LargeBase(w) / SLOT + o]
  }

  predicate InSmall(w: nat, x: nat)
  {
    SmallBase(w) / SLOT <= x < SmallBase(w) / SLOT + SMALL_SLOTS
  }

  predicate InLarge(w: nat, x: nat)
  {
    LargeBase(w) / SLOT <= x < LargeBase(w) / SLOT + LARGE_SLOTS
  }

  /** Slots outside the two windows of `w` are as they were. */
  ghost predicate SameElsewhere(t: Table, u: Table, w: nat)
  {
    forall x: nat | x < SLOTS && !InSmall(w, x) && !InLarge(w, x) :: u[x] == t[x]
  }

  /** The windows of different ports, and the two windows of one, do not meet. */
  lemma WindowsApart(w: nat, v: nat, x: nat)
    requires IsPort(w) && IsPort(v)
    ensures InSmall(w, x) && InSmall(v, x) ==> w == v
    ensures InLarge(w, x) && InLarge(v, x) ==> w == v
    ensures !(InSmall(w, x) && InLarge(v, x))
  {
  }

  /** Which addresses a port's windows take, in bytes: 16 MiB from 256 MiB on, and 64 GiB, port by port. */
  lemma WindowAddresses(w: nat, addr: nat)
    ensures IsPort(w) <==> w in {9, 10, 11, 12, 13, 14, 15}
    ensures InSmall(w, addr / 0x1000) <==> 0x1000_0000 + w * 0x100_0000 <= addr < 0x1000_0000 + (w + 1) * 0x100_0000
    ensures InLarge(w, addr / 0x1000) <==> w * 0x10_0000_0000 <= addr < (w + 1) * 0x10_0000_0000
  {
  }

  // ---- Runs ----------------------------------------------------------------

  /** Slot-aligned, inside the window, and clear of its first page (the widget's own registers). */
  predicate GoodRun(r: BarRun)
  {
    r.start % SLOT == 0 && r.end % SLOT == 0 && SLOT <= r.start <= r.end <= WIDGET_SMALL_SIZE
  }

  predicate GoodRuns(rs: seq<BarRun>)
  {
    forall i | 0 <= i < |rs| :: GoodRun(rs[i])
  }

  predicate Covers(r: BarRun, o: nat)
  {
    r.start / SLOT <= o < r.end / SLOT
  }

  /** What answers slot `o` of a window where `rs` lie over `dev`: the last run covering it. */
  function Laid(dev: Device, rs: seq<BarRun>, o: nat): Device
  {
    if rs == [] then dev
    else if Covers(rs[|rs| - 1], o) then rs[|rs| - 1].dev
    else Laid(dev, rs[..|rs| - 1], o)
  }

  predicate Covered(rs: seq<BarRun>, o: nat)
  {
    exists i :: 0 <= i < |rs| && Covers(rs[i], o)
  }

  lemma {:induction false} LaidWhereUncovered(dev: Device, rs: seq<BarRun>, o: nat)
    requires !Covered(rs, o)
    ensures Laid(dev, rs, o) == dev
  {
    if rs != [] {
      assert !Covers(rs[|rs| - 1], o);
      assert forall i | 0 <= i < |rs| - 1 :: rs[..|rs| - 1][i] == rs[i];
      LaidWhereUncovered(dev, rs[..|rs| - 1], o);
    }
  }

  /** Where runs overlap the one listed last answers. */
  lemma {:induction false} LastRunWins(dev: Device, rs: seq<BarRun>, i: nat, o: nat)
    requires i < |rs| && Covers(rs[i], o) && forall j | i < j < |rs| :: !Covers(rs[j], o)
    ensures Laid(dev, rs, o) == rs[i].dev
  {
    if i < |rs| - 1 {
      LastRunWins(dev, rs[..|rs| - 1], i, o);
    }
  }

  /** Filling one run lays it over what was there. */
  lemma FilledRun(t: Table, w: nat, r: BarRun, dev: Device, o: nat)
    requires IsPort(w) && GoodRun(r) && o < SMALL_SLOTS
    ensures SmallAt(Filled(t, SmallBase(w) + r.start, SmallBase(w) + r.end, dev), w, o)
         == if Covers(r, o) then dev else SmallAt(t, w, o)
  {
  }

  ghost predicate SameOutsideSmall(t: Table, u: Table, w: nat)
  {
    forall x: nat | x < SLOTS && !InSmall(w, x) :: u[x] == t[x]
  }

  lemma FilledRunStaysInside(t: Table, w: nat, r: BarRun, dev: Device)
    requires IsPort(w) && GoodRun(r)
    ensures SameOutsideSmall(t, Filled(t, SmallBase(w) + r.start, SmallBase(w) + r.end, dev), w)
  {
  }

  lemma FilledSmall(t: Table, w: nat, dev: Device)
    requires IsPort(w)
    ensures var u := Filled(t, SmallBase(w), SmallBase(w) + WIDGET_SMALL_SIZE, dev);
            SameOutsideSmall(t, u, w) && forall o: nat | o < SMALL_SLOTS :: SmallAt(u, w, o) == dev
  {
  }

  lemma FilledLarge(t: Table, w: nat, dev: Device)
    requires IsPort(w)
    ensures var u := Filled(t, LargeBase(w), LargeBase(w) + WIDGET_LARGE_SIZE, dev);
            && (forall x: nat | x < SLOTS && !InLarge(w, x) :: u[x] == t[x])
            && forall o: nat | o < LARGE_SLOTS :: LargeAt(u, w, o) == dev
  {
  }

  /** Patching one port's windows leaves what the other ports' windows answer. */
  lemma OtherPortsUntouched(t: Table, u: Table, w: nat, v: nat)
    requires IsPort(w) && IsPort(v) && w != v && SameElsewhere(t, u, w)
    ensures forall o: nat | o < SMALL_SLOTS :: SmallAt(u, v, o) == SmallAt(t, v, o)
    ensures forall o: nat | o < LARGE_SLOTS :: LargeAt(u, v, o) == LargeAt(t, v, o)
  {
    forall o: nat | o < SMALL_SLOTS ensures SmallAt(u, v, o) == SmallAt(t, v, o) {
      WindowsApart(w, v, SmallBase(v) / SLOT + o);
      WindowsApart(v, w, SmallBase(v) / SLOT + o);
    }
    forall o: nat | o < LARGE_SLOTS ensures LargeAt(u, v, o) == LargeAt(t, v, o) {
      WindowsApart(w, v, LargeBase(v) / SLOT + o);
    }
  }

  /** Patching a port's small window leaves its large one. */
  lemma LargeUntouched(t: Table, u: Table, w: nat)
    requires IsPort(w) && SameOutsideSmall(t, u, w)
    ensures forall o: nat | o < LARGE_SLOTS :: LargeAt(u, w, o) == LargeAt(t, w, o)
  {
    forall o: nat | o < LARGE_SLOTS ensures LargeAt(u, w, o) == LargeAt(t, w, o) {
      WindowsApart(w, w, LargeBase(w) / SLOT + o);
    }
  }

  /** Patching a port's large window leaves its small one. */
  lemma SmallUntouched(t: Table, u: Table, w: nat)
    requires IsPort(w) && forall x: nat | x < SLOTS && !InLarge(w, x) :: u[x] == t[x]
    ensures forall o: nat | o < SMALL_SLOTS :: SmallAt(u, w, o) == SmallAt(t, w, o)
  {
    forall o: nat | o < SMALL_SLOTS ensures SmallAt(u, w, o) == SmallAt(t, w, o) {
      WindowsApart(w, w, SmallBase(w) / SLOT + o);
    }
  }

  // ---- The bus -------------------------------------------------------------

  class Ip30Bus {
    var phys: Table
    var widgets: seq<Option<Widget>>
    var runs: seq<seq<BarRun>>
    /** The last link state the Crossbow reported; the code keeps no such field. */
    ghost var up: seq<bool>

    /** What slot `o` of port `w`'s small window must answer. */
    ghost function SmallSpec(w: nat, o: nat): Device
      requires Shaped() && IsPort(w)
      reads this
    {
      if widgets[w].None? || !up[w] then BusError else Laid(widgets[w].value.dev, runs[w], o)
    }

    ghost function LargeSpec(w: nat): Device
      requires Shaped() && IsPort(w)
      reads this
    {
      if widgets[w].None? || !up[w] || !widgets[w].value.large then BusError else widgets[w].value.dev
    }

    ghost predicate Shaped()
      reads this
    {
      && |widgets| == |runs| == |up| == 16
      && (forall w | 0 <= w < 16 && widgets[w].Some? :: widgets[w].value.dev != BusError)
      && forall w | 0 <= w < 16 :: GoodRuns(runs[w])
    }

    ghost predicate WindowOk(w: nat)
      requires Shaped() && IsPort(w)
      reads this
    {
      && (forall o | 0 <= o < SMALL_SLOTS :: SmallAt(phys, w, o) == SmallSpec(w, o))
      && forall o | 0 <= o < LARGE_SLOTS :: LargeAt(phys, w, o) == LargeSpec(w)
    }

    /** Every port's windows are the function of its link state and latest runs. */
    ghost predicate Valid()
      reads this
    {
      Shaped() && forall w: nat | IsPort(w) :: WindowOk(w)
    }

    constructor ()
      ensures Valid()
      ensures forall w | 0 <= w < 16 :: widgets[w].None? && !up[w] && runs[w] == []
    {
      phys := seq(SLOTS, _ => BusError);
      widgets, runs, up := seq(16, _ => None), seq(16, _ => []), seq(16, _ => false);
    }

    /** The windows of every port but `w` are as they must be. */
    ghost predicate OthersOk(w: nat)
      reads this
    {
      Shaped() && forall v: nat | IsPort(v) && v != w :: WindowOk(v)
    }

    /** Port `w`'s small window is as it must be. */
    ghost predicate SmallOk(w: nat)
      requires Shaped() && IsPort(w)
      reads this
    {
      forall o | 0 <= o < SMALL_SLOTS :: SmallAt(phys, w, o) == SmallSpec(w, o)
    }

    /** A link report on `w` settles its large window: the widget has one, or it is a bus error already. */
    ghost predicate LargeSettles(w: nat)
      requires Shaped() && IsPort(w)
      reads this
    {
      (widgets[w].Some? && widgets[w].value.large) || forall o | 0 <= o < LARGE_SLOTS :: LargeAt(phys, w, o) == BusError
    }

    lemma ValidSettles(w: nat)
      requires Valid() && IsPort(w)
      ensures OthersOk(w) && LargeSettles(w)
    {
      hide SmallAt, LargeAt;
      assert WindowOk(w);
    }

    /**
     * Put a widget on port `w`.  The windows stay as they are, which is right
     * exactly while the link is down or the same widget was there; after the
     * first widget of a port the next link report puts them right.
     */
    method AttachWidget(w: nat, dev: Device, large: bool)
      requires Valid() && IsPort(w) && dev != BusError
      modifies this`widgets
      ensures widgets == old(widgets)[w := Some(Widget(dev, large))]
      ensures OthersOk(w) && (old(widgets[w]).None? ==> LargeSettles(w))
      ensures Valid() <==> !up[w] || old(widgets[w]) == Some(Widget(dev, large))
    {
      hide SmallAt, LargeAt, Laid;
      ValidSettles(w);
      assert WindowOk(w);
      FirstSlotIsTheWidgets(dev, runs[w]);
      if widgets[w].Some? {
        FirstSlotIsTheWidgets(widgets[w].value.dev, runs[w]);
      }
      widgets := widgets[w := Some(Widget(dev, large))];
      forall v: nat | IsPort(v) && v != w ensures WindowOk(v) {
        assert old(WindowOk(v));
      }
      assert Valid() <==> WindowOk(w);
      if up[w] && old(widgets[w]) != Some(Widget(dev, large)) {
        assert SmallAt(phys, w, 0) != SmallSpec(w, 0) || LargeAt(phys, w, 0) != LargeSpec(w);
      }
    }

    /** Lay `rs` over port `w`'s small window, the later over the earlier. */
    method MapRuns(w: nat, rs: seq<BarRun>)
      requires IsPort(w) && GoodRuns(rs)
      modifies this`phys
      ensures SameOutsideSmall(old(phys), phys, w)
      ensures forall o: nat | o < SMALL_SLOTS :: SmallAt(phys, w, o) == Laid(SmallAt(old(phys), w, o), rs, o)
    {
      hide Filled, SmallAt;
      var i := 0;
      while i < |rs|
        invariant 0 <= i <= |rs| && SameOutsideSmall(old(phys), phys, w)
        invariant forall o: nat | o < SMALL_SLOTS :: SmallAt(phys, w, o) == Laid(SmallAt(old(phys), w, o), rs[..i], o)
      {
        assert rs[..i + 1][..i] == rs[..i];
        ghost var before := phys;
        phys := Filled(phys, SmallBase(w) + rs[i].start, SmallBase(w) + rs[i].end, rs[i].dev);
        FilledRunStaysInside(before, w, rs[i], rs[i].dev);
        forall o: nat | o < SMALL_SLOTS
          ensures SmallAt(phys, w, o) == Laid(SmallAt(old(phys), w, o), rs[..i + 1], o)
        {
          FilledRun(before, w, rs[i], rs[i].dev, o);
        }
        i := i + 1;
      }
      assert rs[..|rs|] == rs;
    }

    /** Give every run of `rs` back to `dev`. */
    method GiveBack(w: nat, rs: seq<BarRun>, dev: Device)
      requires IsPort(w) && GoodRuns(rs)
      requires forall o: nat | o < SMALL_SLOTS :: SmallAt(phys, w, o) == Laid(dev, rs, o)
      modifies this`phys
      ensures SameOutsideSmall(old(phys), phys, w)
      ensures forall o: nat | o < SMALL_SLOTS :: SmallAt(phys, w, o) == dev
    {
      hide Filled, SmallAt;
      var i := 0;
      while i < |rs|
        invariant 0 <= i <= |rs| && SameOutsideSmall(old(phys), phys, w)
        invariant forall o: nat | o < SMALL_SLOTS ::
                    SmallAt(phys, w, o) == if Covered(rs[..i], o) then dev else Laid(dev, rs, o)
      {
        ghost var before := phys;
        phys := Filled(phys, SmallBase(w) + rs[i].start, SmallBase(w) + rs[i].end, dev);
        FilledRunStaysInside(before, w, rs[i], dev);
        forall o: nat | o < SMALL_SLOTS
          ensures SmallAt(phys, w, o) == if Covered(rs[..i + 1], o) then dev else Laid(dev, rs, o)
        {
          FilledRun(before, w, rs[i], dev, o);
          CoveredByOneMore(rs, i, o);
        }
        i := i + 1;
      }
      assert rs[..|rs|] == rs;
      forall o: nat | o < SMALL_SLOTS ensures SmallAt(phys, w, o) == dev {
        if !Covered(rs, o) {
          LaidWhereUncovered(dev, rs, o);
        }
      }
    }

    /**
     * The Crossbow brought port `w`'s link up or took it down.  Its small window
     * is then right whatever came before; its large one exactly when the widget
     * has one or it already was a bus error, for the code leaves it otherwise.
     */
    method SetWidgetLink(w: nat, alive: bool)
      requires IsPort(w) ==> OthersOk(w)
      modifies this`phys, this`up
      ensures !IsPort(w) ==> phys == old(phys) && up == old(up)
      ensures IsPort(w) ==>
                && up == old(up)[w := alive] && SameElsewhere(old(phys), phys, w)
                && OthersOk(w) && SmallOk(w) && (Valid() <==> old(LargeSettles(w)))
                && (widgets[w].None? || !widgets[w].value.large ==>
                      forall o: nat | o < LARGE_SLOTS :: LargeAt(phys, w, o) == LargeAt(old(phys), w, o))
    {
      if !IsPort(w) {
        return;
      }
      hide Filled, SmallAt, LargeAt;
      up := up[w := alive];
      if widgets[w].None? {
        phys := Filled(phys, SmallBase(w), SmallBase(w) + WIDGET_SMALL_SIZE, BusError);
        FilledSmall(old(phys), w, BusError);
        LargeUntouched(old(phys), phys, w);
      } else {
        var widget := widgets[w].value;
        var target := if alive then widget.dev else BusError;
        phys := Filled(phys, SmallBase(w), SmallBase(w) + WIDGET_SMALL_SIZE, target);
        FilledSmall(old(phys), w, target);
        LargeUntouched(old(phys), phys, w);
        if widget.large {
          ghost var before := phys;
          phys := Filled(phys, LargeBase(w), LargeBase(w) + WIDGET_LARGE_SIZE, target);
          FilledLarge(before, w, target);
          SmallUntouched(before, phys, w);
        }
        if alive {
          ghost var before := phys;
          MapRuns(w, runs[w]);
          LargeUntouched(before, phys, w);
        }
      }
      forall v: nat | IsPort(v) && v != w ensures WindowOk(v) {
        assert old(WindowOk(v));
        OtherPortsUntouched(old(phys), phys, w, v);
      }
      assert Valid() <==> WindowOk(w);
    }

    /** Port `w`'s bridge reports the runs its BARs now decode. */
    method SetWidgetRuns(w: nat, next: seq<BarRun>)
      requires Valid() && GoodRuns(next)
      modifies this`phys, this`runs
      ensures Valid()
      ensures runs == if IsPort(w) then old(runs)[w := next] else old(runs)
      ensures if IsPort(w) then SameOutsideSmall(old(phys), phys, w) else phys == old(phys)
    {
      if !IsPort(w) {
        return;
      }
      hide Filled;
      assert WindowOk(w);
      var gone := runs[w];
      runs := runs[w := next];
      if widgets[w].Some? {
        var dev := widgets[w].value.dev;
        FirstSlotIsTheWidgets(dev, gone);
        if SmallAt(phys, w, 0) == dev {
          hide SmallAt, LargeAt;
          GiveBack(w, gone, dev);
          MapRuns(w, next);
          LargeUntouched(old(phys), phys, w);
        }
      }
      hide SmallAt, LargeAt;
      forall v: nat | IsPort(v) && v != w ensures WindowOk(v) {
        assert old(WindowOk(v));
        OtherPortsUntouched(old(phys), phys, w, v);
      }
    }

    /**
     * What answers slot `o` of a port's windows, said of the table itself: the
     * bus error while the link is down or nothing is attached; else in the small
     * window the last run covering the slot, or the widget where none does, and
     * in the large window the widget if it has one.
     */
    lemma WindowsAnswer(w: nat, o: nat, i: nat)
      requires Valid() && 9 <= w < 16
      ensures o < 0x1000 ==>
                var slot := phys[0x1_0000 + w * 0x1000 + o];
                && (!up[w] || widgets[w].None? ==> slot == BusError)
                && (up[w] && widgets[w].Some? ==>
                      && ((forall j | 0 <= j < |runs[w]| :: !Covers(runs[w][j], o)) ==> slot == widgets[w].value.dev)
                      && (i < |runs[w]| && Covers(runs[w][i], o) && (forall j | i < j < |runs[w]| :: !Covers(runs[w][j], o)) ==>
                            slot == runs[w][i].dev))
      ensures o < 0x100_0000 ==>
                phys[w * 0x100_0000 + o]
                == if up[w] && widgets[w].Some? && widgets[w].value.large then widgets[w].value.dev else BusError
    {
      assert WindowOk(w);
      if o < 0x1000 {
        assert phys[0x1_0000 + w * 0x1000 + o] == SmallAt(phys, w, o);
        if up[w] && widgets[w].Some? {
          if i < |runs[w]| && Covers(runs[w][i], o) && forall j | i < j < |runs[w]| :: !Covers(runs[w][j], o) {
            LastRunWins(widgets[w].value.dev, runs[w], i, o);
          }
          if forall j | 0 <= j < |runs[w]| :: !Covers(runs[w][j], o) {
            LaidWhereUncovered(widgets[w].value.dev, runs[w], o);
          }
        }
      }
      if o < 0x100_0000 {
        assert phys[w * 0x100_0000 + o] == LargeAt(phys, w, o);
      }
    }

    /** The link state, which the code keeps nowhere, can be read off the table. */
    lemma LinkReadsOffTheTable(w: nat)
      requires Valid() && IsPort(w) && widgets[w].Some?
      ensures SmallAt(phys, w, 0) == widgets[w].value.dev <==> up[w]
    {
      assert WindowOk(w);
      FirstSlotIsTheWidgets(widgets[w].value.dev, runs[w]);
    }

    /**
     * After any sequence of link and BAR events each window answers as its
     * latest link state and latest runs say, whatever came before.
     */
    method Replay(events: seq<Event>)
      requires Valid() && forall i | 0 <= i < |events| && events[i].Runs? :: GoodRuns(events[i].rs)
      modifies this`phys, this`up, this`runs
      ensures Valid()
      ensures forall w: nat | IsPort(w) :: up[w] == LatestLink(events, w, old(up)[w])
      ensures forall w: nat | IsPort(w) :: runs[w] == LatestRuns(events, w, old(runs)[w])
    {
      var i := 0;
      while i < |events|
        invariant 0 <= i <= |events| && Valid()
        invariant forall w: nat | IsPort(w) :: up[w] == LatestLink(events[..i], w, old(up)[w])
        invariant forall w: nat | IsPort(w) :: runs[w] == LatestRuns(events[..i], w, old(runs)[w])
      {
        hide WindowOk;
        assert events[..i + 1][..i] == events[..i];
        match events[i] {
          case Link(w, alive) =>
            if IsPort(w) {
              ValidSettles(w);
            }
            SetWidgetLink(w, alive);
          case Runs(w, rs) => SetWidgetRuns(w, rs);
        }
        i := i + 1;
      }
      assert events[..|events|] == events;
    }
  }

  /**
   * A widget with a large window is replaced by one without while the link is
   * up, and the link then goes down: the first widget still answers in the
   * large window of a dead port.
   */
  method OldWidgetStaysInLargeWindow(w: nat, first: Device, second: Device) returns (bus: Ip30Bus)
    requires IsPort(w) && first != BusError && second != BusError
    ensures bus.OthersOk(w) && bus.widgets[w] == Some(Widget(second, false)) && !bus.up[w]
    ensures !bus.Valid() && LargeAt(bus.phys, w, 0) == first
  {
    hide SmallAt, LargeAt;
    bus := new Ip30Bus();
    bus.AttachWidget(w, first, true);
    bus.SetWidgetLink(w, true);
    assert bus.WindowOk(w);
    assert LargeAt(bus.phys, w, 0) == first;
    bus.AttachWidget(w, second, false);
    bus.SetWidgetLink(w, false);
  }

  datatype Event = Link(w: nat, alive: bool) | Runs(w: nat, rs: seq<BarRun>)

  /** The last link state `events` report for `w`, or `was`. */
  function LatestLink(events: seq<Event>, w: nat, was: bool): bool
  {
    if events == [] then was
    else
      var e := events[|events| - 1];
      if e.Link? && e.w == w then e.alive else LatestLink(events[..|events| - 1], w, was)
  }

  function LatestRuns(events: seq<Event>, w: nat, was: seq<BarRun>): seq<BarRun>
  {
    if events == [] then was
    else
      var e := events[|events| - 1];
      if e.Runs? && e.w == w then e.rs else LatestRuns(events[..|events| - 1], w, was)
  }

  /** The first slot of a window answers as the widget itself: no run covers it. */
  lemma {:induction false} FirstSlotIsTheWidgets(dev: Device, rs: seq<BarRun>)
    requires GoodRuns(rs)
    ensures Laid(dev, rs, 0) == dev
  {
    forall i | 0 <= i < |rs| ensures !Covers(rs[i], 0) {
      assert GoodRun(rs[i]);
    }
    LaidWhereUncovered(dev, rs, 0);
  }

  lemma CoveredByOneMore(rs: seq<BarRun>, i: nat, o: nat)
    requires i < |rs|
    ensures Covered(rs[..i + 1], o) <==> Covered(rs[..i], o) || Covers(rs[i], o)
  {
    var xs, ys := rs[..i], rs[..i + 1];
    if Covered(xs, o) {
      var k :| 0 <= k < |xs| && Covers(xs[k], o);
      assert Covers(ys[k], o);
    }
    if Covers(rs[i], o) {
      assert Covers(ys[i], o);
    }
    if Covered(ys, o) {
      var k :| 0 <= k < |ys| && Covers(ys[k], o);
      assert k < i ==> Covers(xs[k], o);
    }
  }
}
