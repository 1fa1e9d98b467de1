/**
 What the init and exit functions register with the kernel and give back: `05-char-device-full/twodev.c`,
 `04-char-block-net/block/ramdisk.c`, `11-mmap/mmapbuf.c` and `09-irq-bottom-half/irqbh.c`.  Which of the
 fallible steps fail is an arbitrary predicate; the numbers of devices and pages are arbitrary.
 */
module Registration {

  datatype Resource =
    | ChrdevRegion | DeviceClass | Cdev(minor: nat) | DeviceNode(minor: nat)
    | DiskMemory | TagSet | Gendisk | BlkdevMajor | LiveDisk
    | PageBuffer | ReservedPage(page: nat) | MiscDevice
    | Gpio | Irq

  /** What is registered, in the order of registration.  Nothing can be given back that is not held. */
  class Kernel {
    var held: seq<Resource>

    method Acquire(r: Resource, fails: bool) returns (ok: bool)
      modifies this
      ensures ok == !fails
      ensures held == if ok then old(held) + [r] else old(held)
    {
      ok := !fails;
      if ok {
        held := held + [r];
      }
    }

    /** Gives back the most recent registration. */
    method ReleaseLast(r: Resource)
      requires held != [] && held[|held| - 1] == r
      modifies this
      ensures held == old(held)[..|old(held)| - 1]
    {
      held := held[..|held| - 1];
    }

    /** Gives back a registration; `k` is its place. */
    method Release(r: Resource, k: nat)
      requires k < |held| && held[k] == r
      modifies this
      ensures held == old(held)[..k] + old(held)[k + 1..]
    {
      held := held[..k] + held[k + 1..];
    }
  }

  // ----- twodev -----

  /** The cdev and device node of minors lo to hi. */
  function Minors(lo: nat, hi: nat): seq<Resource>
    requires lo <= hi
  {
    if lo == hi then [] else Minors(lo, hi - 1) + [Cdev(hi - 1), DeviceNode(hi - 1)]
  }

  function TwodevLoaded(n: nat): seq<Resource> { [ChrdevRegion, DeviceClass] + Minors(0, n) }

  /** One turn of the loop of `td_init`: cdev_add, then device_create, which undoes the cdev if it fails. */
  method TwodevAdd(k: Kernel, i: nat, fails: Resource -> bool) returns (ok: bool)
    modifies k
    ensures ok <==> !fails(Cdev(i)) && !fails(DeviceNode(i))
    ensures k.held == if ok then old(k.held) + [Cdev(i), DeviceNode(i)] else old(k.held)
  {
    ok := k.Acquire(Cdev(i), fails(Cdev(i)));
    if ok {
      ok := k.Acquire(DeviceNode(i), fails(DeviceNode(i)));
      if !ok {
        k.ReleaseLast(Cdev(i));
      }
    }
  }

  /** The label err_undo, reached with `i` devices complete. */
  method TwodevUndo(k: Kernel, n: nat, ghost base: seq<Resource>)
    requires k.held == base + TwodevLoaded(n)
    modifies k
    ensures k.held == base
  {
    var i := n;
    while i > 0
      invariant 0 <= i <= n && k.held == base + TwodevLoaded(i)
    {
      i := i - 1;
      k.ReleaseLast(DeviceNode(i));
      k.ReleaseLast(Cdev(i));
      assert k.held == base + TwodevLoaded(i);
    }
    k.ReleaseLast(DeviceClass);
    k.ReleaseLast(ChrdevRegion);
  }

  /**
   `td_init` for `n` devices: it succeeds exactly if no step fails, and a failure at any point, with every
   registration undone in reverse order, leaves exactly what was registered before.
   */
  method TwodevInit(k: Kernel, n: nat, fails: Resource -> bool) returns (ok: bool)
    modifies k
    ensures ok <==> !fails(ChrdevRegion) && forall i | 0 <= i < n :: !fails(Cdev(i)) && !fails(DeviceNode(i))
    ensures k.held == if ok then old(k.held) + TwodevLoaded(n) else old(k.held)
  {
    ghost var base := k.held;
    ok := k.Acquire(ChrdevRegion, fails(ChrdevRegion));
    if !ok {
      return;
    }
    ok := k.Acquire(DeviceClass, false);
    assert k.held == base + TwodevLoaded(0);
    var i := 0;
    while i < n
      invariant i <= n && k.held == base + TwodevLoaded(i)
      invariant ok && forall j | 0 <= j < i :: !fails(Cdev(j)) && !fails(DeviceNode(j))
    {
      ok := TwodevAdd(k, i, fails);
      if !ok {
        TwodevUndo(k, i, base);
        return;
      }
      i := i + 1;
      assert k.held == base + TwodevLoaded(i);
    }
  }

  /** `td_exit`: gives back, each exactly once, what a successful `td_init` registered. */
  method TwodevExit(k: Kernel, n: nat, ghost base: seq<Resource>)
    requires k.held == base + TwodevLoaded(n)
    modifies k
    ensures k.held == base
  {
    var b := |k.held| - 2 * n;
    MinorsLength(0, n);
    var i := 0;
    while i < n
      invariant i <= n && b == |base| + 2
      invariant k.held == base + [ChrdevRegion, DeviceClass] + Minors(i, n)
    {
      MinorsFirst(i, n);
      k.Release(DeviceNode(i), b + 1);
      k.Release(Cdev(i), b);
      i := i + 1;
    }
    k.Release(DeviceClass, b - 1);
    k.Release(ChrdevRegion, b - 2);
  }

  lemma {:induction false} MinorsLength(lo: nat, hi: nat)
    requires lo <= hi
    ensures |Minors(lo, hi)| == 2 * (hi - lo)
    decreases hi - lo
  {
    if lo == hi {
    } else {
      MinorsLength(lo, hi - 1);
    }
  }

  lemma {:induction false} MinorsFirst(lo: nat, hi: nat)
    requires lo < hi
    ensures Minors(lo, hi) == [Cdev(lo), DeviceNode(lo)] + Minors(lo + 1, hi)
    decreases hi - lo
  {
    if hi == lo + 1 {
    } else {
      MinorsFirst(lo, hi - 1);
    }
  }

  // ----- ramdisk -----

  const RAMDISK_LOADED := [DiskMemory, TagSet, Gendisk, BlkdevMajor, LiveDisk]

  /** `rb_init` with its chain of goto labels. */
  method RamdiskInit(k: Kernel, fails: Resource -> bool) returns (ok: bool)
    modifies k
    ensures ok <==> !fails(DiskMemory) && !fails(TagSet) && !fails(Gendisk) && !fails(BlkdevMajor) && !fails(LiveDisk)
    ensures k.held == if ok then old(k.held) + RAMDISK_LOADED else old(k.held)
  {
    ghost var base := k.held;
    ok := k.Acquire(DiskMemory, fails(DiskMemory));
    if !ok {
      return;
    }
    ok := k.Acquire(TagSet, fails(TagSet));
    if ok {
      ok := k.Acquire(Gendisk, fails(Gendisk));
      if ok {
        ok := k.Acquire(BlkdevMajor, fails(BlkdevMajor));
        if ok {
          ok := k.Acquire(LiveDisk, fails(LiveDisk));
          if ok {
            return;
          }
          k.ReleaseLast(BlkdevMajor);
        }
        k.ReleaseLast(Gendisk);
      }
      k.ReleaseLast(TagSet);
    }
    k.ReleaseLast(DiskMemory);
    assert k.held == base;
  }

  /** `rb_exit`, in its own order. */
  method RamdiskExit(k: Kernel, ghost base: seq<Resource>)
    requires k.held == base + RAMDISK_LOADED
    modifies k
    ensures k.held == base
  {
    var b := |k.held| - 5;
    k.Release(LiveDisk, b + 4);
    assert k.held == base + [DiskMemory, TagSet, Gendisk, BlkdevMajor];
    k.Release(Gendisk, b + 2);
    assert k.held == base + [DiskMemory, TagSet, BlkdevMajor];
    k.Release(TagSet, b + 1);
    assert k.held == base + [DiskMemory, BlkdevMajor];
    k.Release(BlkdevMajor, b + 1);
    assert k.held == base + [DiskMemory];
    k.Release(DiskMemory, b);
  }

  // ----- mmapbuf -----

  function Pages(lo: nat, hi: nat): seq<Resource>
    requires lo <= hi
  {
    seq(hi - lo, i requires 0 <= i < hi - lo => ReservedPage(lo + i))
  }

  /** `mbuf_init`: every page that was reserved is unreserved again when the last step fails. */
  method MmapbufInit(k: Kernel, n: nat, fails: Resource -> bool) returns (ok: bool)
    modifies k
    ensures ok <==> !fails(PageBuffer) && !fails(MiscDevice)
    ensures k.held == if ok then old(k.held) + [PageBuffer] + Pages(0, n) + [MiscDevice] else old(k.held)
  {
    ghost var base := k.held;
    ok := k.Acquire(PageBuffer, fails(PageBuffer));
    if !ok {
      return;
    }
    var i := 0;
    while i < n
      invariant i <= n && k.held == base + [PageBuffer] + Pages(0, i)
    {
      var reserved := k.Acquire(ReservedPage(i), false);
      i := i + 1;
    }
    ok := k.Acquire(MiscDevice, fails(MiscDevice));
    if !ok {
      ClearPages(k, n, base);
    }
  }

  /** The loop of ClearPageReserved and the kfree, as the failure path and the exit share it. */
  method ClearPages(k: Kernel, n: nat, ghost base: seq<Resource>)
    requires k.held == base + [PageBuffer] + Pages(0, n)
    modifies k
    ensures k.held == base
  {
    var b := |k.held| - n;
    var i := 0;
    while i < n
      invariant i <= n && b == |base| + 1 && k.held == base + [PageBuffer] + Pages(i, n)
    {
      assert Pages(i, n) == [ReservedPage(i)] + Pages(i + 1, n);
      k.Release(ReservedPage(i), b);
      i := i + 1;
    }
    k.Release(PageBuffer, b - 1);
  }

  method MmapbufExit(k: Kernel, n: nat, ghost base: seq<Resource>)
    requires k.held == base + [PageBuffer] + Pages(0, n) + [MiscDevice]
    modifies k
    ensures k.held == base
  {
    k.ReleaseLast(MiscDevice);
    ClearPages(k, n, base);
  }

  // ----- irqbh -----

  /**
   `bh_init` returns what the final misc_register returns without undoing anything, so a failed load leaves
   nothing behind exactly when it is not that last step that failed.
   */
  method IrqbhInit(k: Kernel, fails: Resource -> bool) returns (ok: bool)
    modifies k
    ensures ok <==> !fails(Gpio) && !fails(Irq) && !fails(MiscDevice)
    ensures ok ==> k.held == old(k.held) + [Gpio, Irq, MiscDevice]
    ensures !ok ==> (k.held == old(k.held) <==> fails(Gpio) || fails(Irq))
    ensures !ok && !fails(Gpio) && !fails(Irq) ==> k.held == old(k.held) + [Gpio, Irq]
  {
    ok := k.Acquire(Gpio, fails(Gpio));
    if !ok {
      return;
    }
    ok := k.Acquire(Irq, fails(Irq));
    if !ok {
      k.ReleaseLast(Gpio);
      return;
    }
    ok := k.Acquire(MiscDevice, fails(MiscDevice));
  }

  /** `bh_exit` */
  method IrqbhExit(k: Kernel, ghost base: seq<Resource>)
    requires k.held == base + [Gpio, Irq, MiscDevice]
    modifies k
    ensures k.held == base
  {
    k.ReleaseLast(MiscDevice);
    k.ReleaseLast(Irq);
    k.ReleaseLast(Gpio);
  }
}
