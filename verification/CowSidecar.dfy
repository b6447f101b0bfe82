/**
 * The file beside an overlay that records which of its sectors are dirty: a
 * 64-bit little-endian count and that many 64-bit little-endian sector numbers.
 */
module CowSidecar {
  import opened Basics
  import opened CowSpec

  const U64: nat := 0x1_0000_0000_0000_0000

  // ---- Encoding ------------------------------------------------------------

  function Power256(k: nat): (p: nat)
    ensures p > 0
  {
    if k == 0 then 1 else 256 * Power256(k - 1)
  }

  function LeBytes(n: nat, k: nat): (bs: seq<byte>)
    ensures |bs| == k
    decreases k
  {
    if k == 0 then [] else [n % 256] + LeBytes(n / 256, k - 1)
  }

  function FromLe(bs: seq<byte>): nat
  {
    if bs == [] then 0 else bs[0] + 256 * FromLe(bs[1..])
  }

  lemma {:induction false} FromLeOfLeBytes(n: nat, k: nat)
    requires n < Power256(k)
    ensures FromLe(LeBytes(n, k)) == n
    decreases k
  {
    if k > 0 {
      FromLeOfLeBytes(n / 256, k - 1);
      assert LeBytes(n, k)[1..] == LeBytes(n / 256, k - 1);
    }
  }

  lemma EightBytesAreEnough(n: nat)
    requires n < U64
    ensures FromLe(LeBytes(n, 8)) == n
  {
    assert Power256(4) == 0x1_0000_0000;
    assert Power256(8) == U64;
    FromLeOfLeBytes(n, 8);
  }

  /** The entries of a sidecar, in the order the dirty set was walked. */
  function Entries(order: seq<nat>): (bs: seq<byte>)
    ensures |bs| == 8 * |order|
  {
    if order == [] then [] else LeBytes(order[0], 8) + Entries(order[1..])
  }

  function Saved(order: seq<nat>): seq<byte>
  {
    LeBytes(|order|, 8) + Entries(order)
  }

  /** At most `count` entries, stopping at the first that is cut short. */
  function LoadedEntries(bs: seq<byte>, count: nat): set<nat>
    decreases count
  {
    if count == 0 || |bs| < 8 then {} else {FromLe(bs[..8])} + LoadedEntries(bs[8..], count - 1)
  }

  function Loaded(file: Option<seq<byte>>): set<nat>
  {
    if file.None? || |file.value| < 8 then {}
    else LoadedEntries(file.value[8..], FromLe(file.value[..8]))
  }

  /** `order` walks the set `s`, each element once. */
  ghost predicate Walks(order: seq<nat>, s: set<nat>)
  {
    && (forall x :: x in order <==> x in s)
    && forall i, j | 0 <= i < j < |order| :: order[i] != order[j]
  }

  ghost predicate Encodable(order: seq<nat>)
  {
    |order| < U64 && forall i | 0 <= i < |order| :: order[i] < U64
  }

  function Elements(order: seq<nat>): set<nat>
  {
    set x | x in order
  }

  lemma ElementsFirst(order: seq<nat>)
    requires order != []
    ensures Elements(order) == {order[0]} + Elements(order[1..])
  {
    assert order == [order[0]] + order[1..];
  }

  lemma EntriesFirst(order: seq<nat>)
    requires order != []
    ensures Entries(order)[..8] == LeBytes(order[0], 8) && Entries(order)[8..] == Entries(order[1..])
  {
  }

  lemma {:induction false} EntriesLoad(order: seq<nat>)
    requires forall i | 0 <= i < |order| :: order[i] < U64
    ensures LoadedEntries(Entries(order), |order|) == Elements(order)
  {
    hide LeBytes, FromLe, Elements;
    if order == [] {
      assert Elements(order) == {} by { ElementsOfNone(); }
    } else {
      EntriesFirst(order);
      EightBytesAreEnough(order[0]);
      EntriesLoad(order[1..]);
      ElementsFirst(order);
    }
  }

  lemma ElementsOfNone()
    ensures Elements([]) == {}
  {
  }

  /** Whatever order the set was walked in, loading restores it. */
  lemma LoadRestoresTheSet(order: seq<nat>, dirty: set<nat>)
    requires Walks(order, dirty) && Encodable(order)
    ensures Loaded(Some(Saved(order))) == dirty
  {
    var bs := Saved(order);
    assert bs[..8] == LeBytes(|order|, 8) && bs[8..] == Entries(order);
    EightBytesAreEnough(|order|);
    EntriesLoad(order);
  }

  lemma {:induction false} CutEntriesLoadFewer(order: seq<nat>, k: nat, count: nat)
    requires (forall i | 0 <= i < |order| :: order[i] < U64) && k <= 8 * |order|
    ensures LoadedEntries(Entries(order)[..k], count) <= Elements(order)
    decreases count
  {
    hide LeBytes, FromLe, Elements, Entries;
    if count > 0 && k >= 8 {
      var bs := Entries(order);
      EntriesFirst(order);
      assert bs[..k][..8] == bs[..8] && bs[..k][8..] == bs[8..][..k - 8];
      EightBytesAreEnough(order[0]);
      CutEntriesLoadFewer(order[1..], k - 8, count - 1);
      ElementsFirst(order);
    }
  }

  /** A sidecar cut short anywhere never invents a dirty sector. */
  lemma CutSidecarLoadsFewer(order: seq<nat>, dirty: set<nat>, k: nat)
    requires Walks(order, dirty) && Encodable(order) && k <= |Saved(order)|
    ensures Loaded(Some(Saved(order)[..k])) <= dirty
  {
    hide LeBytes, FromLe, Entries, LoadedEntries;
    var bs := Saved(order)[..k];
    if k >= 8 {
      assert bs[8..] == Entries(order)[..k - 8];
      CutEntriesLoadFewer(order, k - 8, FromLe(bs[..8]));
    }
  }

  /** The eight bytes of a 64-bit value, low byte first. */
  lemma LowByteFirst(n: nat)
    requires n < U64
    ensures LeBytes(n, 8) == [n % 0x100, n / 0x100 % 0x100, n / 0x1_0000 % 0x100, n / 0x100_0000 % 0x100,
                              n / 0x1_0000_0000 % 0x100, n / 0x100_0000_0000 % 0x100,
                              n / 0x1_0000_0000_0000 % 0x100, n / 0x100_0000_0000_0000 % 0x100]
  {
    var a := n / 0x100;
    var b := a / 0x100;
    var c := b / 0x100;
    var d := c / 0x100;
    var e := d / 0x100;
    var f := e / 0x100;
    var g := f / 0x100;
    assert b == n / 0x1_0000 && c == n / 0x100_0000 && d == n / 0x1_0000_0000;
    assert e == n / 0x100_0000_0000 && f == n / 0x1_0000_0000_0000 && g == n / 0x100_0000_0000_0000;
    LeBytesStep(n, 8);
    LeBytesStep(a, 7);
    LeBytesStep(b, 6);
    LeBytesStep(c, 5);
    LeBytesStep(d, 4);
    LeBytesStep(e, 3);
    LeBytesStep(f, 2);
    LeBytesStep(g, 1);
    hide LeBytes;
  }

  lemma LeBytesStep(n: nat, k: nat)
    requires k > 0
    ensures LeBytes(n, k) == [n % 256] + LeBytes(n / 256, k - 1)
    ensures LeBytes(n, 0) == []
  {
  }

  /** The file is the count and then the entries in the order walked, eight bytes each, and no more. */
  lemma SidecarLayout(order: seq<nat>, k: nat)
    requires k < |order|
    ensures |Saved(order)| == 8 + 8 * |order| && Saved(order)[..8] == LeBytes(|order|, 8)
    ensures Saved(order)[8..][8 * k..8 * k + 8] == LeBytes(order[k], 8)
  {
    hide LeBytes, Entries;
    TwoParts(LeBytes(|order|, 8), Entries(order));
    EntryAt(order, k);
  }

  lemma {:induction false} EntryAt(order: seq<nat>, k: nat)
    requires k < |order|
    ensures Entries(order)[8 * k..8 * k + 8] == LeBytes(order[k], 8)
  {
    hide LeBytes, Entries;
    EntriesFirst(order);
    if k > 0 {
      EntryAt(order[1..], k - 1);
      var rest := Entries(order)[8..];
      assert rest[8 * (k - 1)..8 * (k - 1) + 8] == Entries(order)[8 * k..8 * k + 8];
    }
  }

  lemma {:induction false} CountedEntriesLoad(order: seq<nat>, more: seq<byte>)
    requires forall i | 0 <= i < |order| :: order[i] < U64
    ensures LoadedEntries(Entries(order) + more, |order|) == Elements(order)
  {
    hide LeBytes, FromLe, Elements;
    if order == [] {
      ElementsOfNone();
    } else {
      EightBytesAreEnough(order[0]);
      CountedEntriesLoad(order[1..], more);
      ElementsFirst(order);
      var first, rest := LeBytes(order[0], 8), Entries(order[1..]);
      assert Entries(order) + more == first + (rest + more);
      hide Entries;
      TwoParts(first, rest + more);
    }
  }

  lemma TwoParts(x: seq<byte>, y: seq<byte>)
    ensures (x + y)[..|x|] == x && (x + y)[|x|..] == y
  {
  }

  /** The count is believed: what follows the entries it counts is not read. */
  lemma BytesPastTheCountAreIgnored(order: seq<nat>, more: seq<byte>)
    requires Encodable(order)
    ensures Loaded(Some(Saved(order) + more)) == Elements(order)
  {
    hide Elements, LoadedEntries, LeBytes, FromLe, Entries;
    var count, rest := LeBytes(|order|, 8), Entries(order) + more;
    assert Saved(order) + more == count + rest;
    TwoParts(count, rest);
    EightBytesAreEnough(|order|);
    CountedEntriesLoad(order, more);
  }

  // ---- Size of the set -----------------------------------------------------

  lemma {:induction false} BoundedSetIsSmall(s: set<nat>, n: nat)
    requires forall x | x in s :: x < n
    ensures |s| <= n
    decreases n
  {
    if n == 0 {
      assert s == {};
    } else {
      var t := s - {n - 1};
      BoundedSetIsSmall(t, n - 1);
    }
  }

  // ---- Walking the set -----------------------------------------------------

  lemma {:induction false} EntriesSnoc(order: seq<nat>, x: nat)
    ensures Entries(order + [x]) == Entries(order) + LeBytes(x, 8)
  {
    if order == [] {
      assert order + [x] == [x];
    } else {
      assert (order + [x])[1..] == order[1..] + [x];
      EntriesSnoc(order[1..], x);
    }
  }

  /** Write the sidecar, walking the dirty set in any order. */
  method SaveDirtySidecar(dirty: set<nat>) returns (file: seq<byte>, ghost order: seq<nat>)
    ensures Walks(order, dirty) && |order| == |dirty| && file == Saved(order)
  {
    hide LeBytes;
    var count := |dirty|;
    file := LeBytes(count, 8);
    order := [];
    var todo := dirty;
    while todo != {}
      invariant todo <= dirty && |order| + |todo| == count
      invariant (forall x :: x in order <==> x in dirty && x !in todo)
      invariant forall i, j | 0 <= i < j < |order| :: order[i] != order[j]
      invariant file == LeBytes(count, 8) + Entries(order)
      decreases todo
    {
      var x :| x in todo;
      todo := todo - {x};
      file := file + LeBytes(x, 8);
      EntriesSnoc(order, x);
      assert x !in order;
      order := order + [x];
    }
  }

  /** Read it back, stopping at the first entry that is cut short. */
  method LoadDirtySidecar(file: Option<seq<byte>>) returns (dirty: set<nat>)
    ensures dirty == Loaded(file)
  {
    if file.None? || |file.value| < 8 {
      return {};
    }
    var f := file.value;
    var count := FromLe(f[..8]);
    dirty := {};
    var pos, k := 8, 0;
    while k < count
      invariant 0 <= k <= count && 8 <= pos <= |f|
      invariant Loaded(file) == dirty + LoadedEntries(f[pos..], count - k)
    {
      if |f| - pos < 8 {
        break;
      }
      assert f[pos..][..8] == f[pos..pos + 8] && f[pos..][8..] == f[pos + 8..];
      dirty := dirty + {FromLe(f[pos..pos + 8])};
      pos, k := pos + 8, k + 1;
    }
  }
}
