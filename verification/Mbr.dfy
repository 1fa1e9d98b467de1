/**
 The partition-table lab of `00-dev-and-partitions/experiments/partition-table-lab/ptab_lab.c`: the MBR
 writer and parser, the three ways to damage a table, and the difference between the medium and what the
 kernel remembers of it.  How the kernel scans a table is an assumption taken from the chapter's README
 (lines 160-170): no valid signature, no partition nodes; an entry of zero sectors gives no node.
 */
module Mbr {
  import opened Bytes

  const SECTOR := 512
  const PART_OFF := 0x1BE
  const SIG_OFF := 0x1FE
  const DISKSIG_OFF := 0x1B8
  const TWO32 := 0x1_0000_0000
  const START := 2048

  // ----- Little-endian words -----

  function Le32(p: seq<byte>): (v: nat)
    requires |p| == 4
    ensures v < TWO32
  {
    (p[0] as nat) + 0x100 * (p[1] as nat) + 0x1_0000 * (p[2] as nat) + 0x100_0000 * (p[3] as nat)
  }

  function PutLe32(v: nat): (p: seq<byte>)
    requires v < TWO32
    ensures |p| == 4
  {
    [(v % 0x100) as byte, (v / 0x100 % 0x100) as byte, (v / 0x1_0000 % 0x100) as byte, (v / 0x100_0000) as byte]
  }

  lemma Le32InvertsPutLe32(v: nat)
    requires v < TWO32
    ensures Le32(PutLe32(v)) == v
  {
    assert v / 0x1_0000 == v / 0x100 / 0x100 && v / 0x100_0000 == v / 0x1_0000 / 0x100;
  }

  lemma PutLe32InvertsLe32(p: seq<byte>)
    requires |p| == 4
    ensures PutLe32(Le32(p)) == p
  {
    var a, b, c, d := p[0] as nat, p[1] as nat, p[2] as nat, p[3] as nat;
    LowByte(Le32(p), b + 0x100 * c + 0x1_0000 * d, a);
    LowByte(b + 0x100 * c + 0x1_0000 * d, c + 0x100 * d, b);
    LowByte(c + 0x100 * d, d, c);
    assert Le32(p) / 0x1_0000 == Le32(p) / 0x100 / 0x100 && Le32(p) / 0x100_0000 == Le32(p) / 0x1_0000 / 0x100;
  }

  lemma LowByte(v: nat, q: nat, r: nat)
    requires r < 0x100 && v == r + 0x100 * q
    ensures v % 0x100 == r && v / 0x100 == q
  {
  }

  // ----- The table on the medium -----

  datatype Entry = Entry(status: byte, kind: byte, start: nat, sectors: nat)
  datatype Table = Table(signed: bool, diskSig: nat, entries: seq<Entry>)

  predicate IsSector(s: seq<byte>) { |s| == SECTOR }

  function EntryAt(mbr: seq<byte>, at: nat): Entry
    requires at + 16 <= |mbr|
  {
    Entry(mbr[at], mbr[at + 4], Le32(mbr[at + 8..at + 12]), Le32(mbr[at + 12..at + 16]))
  }

  /** What `cmd_dump` reads out of LBA 0. */
  function Parse(mbr: seq<byte>): Table
    requires IsSector(mbr)
  {
    Table(mbr[SIG_OFF] == 0x55 && mbr[SIG_OFF + 1] == 0xAA, Le32(mbr[DISKSIG_OFF..DISKSIG_OFF + 4]),
          [EntryAt(mbr, PART_OFF), EntryAt(mbr, PART_OFF + 16),
           EntryAt(mbr, PART_OFF + 32), EntryAt(mbr, PART_OFF + 48)])
  }

  const EMPTY := Entry(0, 0, 0, 0)
  const NO_ENTRIES := [EMPTY, EMPTY, EMPTY, EMPTY]

  /** A partition node of the kernel: number, first sector, sector count. */
  datatype Node = Node(number: nat, start: nat, sectors: nat)

  function NodesFrom(entries: seq<Entry>, number: nat): seq<Node> {
    if entries == [] then []
    else
      (if entries[0].sectors == 0 then [] else [Node(number, entries[0].start, entries[0].sectors)])
      + NodesFrom(entries[1..], number + 1)
  }

  /** The nodes the kernel makes when it scans a medium. */
  function Scan(mbr: seq<byte>): seq<Node>
    requires IsSector(mbr)
  {
    if Parse(mbr).signed then NodesFrom(Parse(mbr).entries, 1) else []
  }

  /** (uint32_t)(total - start) in 64-bit arithmetic */
  function PartSectors(total: nat): nat { (total - START) % TWO32 }

  /** The table `cmd_mkpt` is meant to write: one Linux partition from sector 2048 on. */
  function OnePartition(total: nat, sig: nat): Table {
    Table(true, sig, [Entry(0, 0x83, START, PartSectors(total)), EMPTY, EMPTY, EMPTY])
  }

  /** The partition ends with the disk exactly when the disk reaches past 1 MiB and the rest fits 32 bits. */
  lemma PartitionFillsDisk(total: nat)
    ensures START + PartSectors(total) == total <==> START <= total < START + TWO32
  {
  }

  lemma EntryOfCut(a: seq<byte>, lo: nat, hi: nat, i: nat)
    requires lo + i + 16 <= hi <= |a|
    ensures EntryAt(a, lo + i) == EntryAt(a[lo..hi], i)
  {
    SubSlice(a, lo, hi, i + 8, i + 12);
    SubSlice(a, lo, hi, i + 12, i + 16);
    assert a[lo + i + 8..lo + i + 12] == a[lo..hi][i + 8..i + 12];
    assert a[lo + i + 12..lo + i + 16] == a[lo..hi][i + 12..i + 16];
  }

  /** The entries depend on the 64 bytes of the table alone. */
  lemma EntriesOfCut(a: seq<byte>)
    requires IsSector(a)
    ensures var t := a[PART_OFF..PART_OFF + 64];
      Parse(a).entries == [EntryAt(t, 0), EntryAt(t, 16), EntryAt(t, 32), EntryAt(t, 48)]
  {
    EntryOfCut(a, PART_OFF, PART_OFF + 64, 0);
    EntryOfCut(a, PART_OFF, PART_OFF + 64, 16);
    EntryOfCut(a, PART_OFF, PART_OFF + 64, 32);
    EntryOfCut(a, PART_OFF, PART_OFF + 64, 48);
  }

  lemma ZeroEntry(a: seq<byte>, at: nat)
    requires at + 16 <= |a| && forall k | at <= k < at + 16 :: a[k] == 0
    ensures EntryAt(a, at) == EMPTY
  {
    assert a[at + 8..at + 12] == [0, 0, 0, 0] && a[at + 12..at + 16] == [0, 0, 0, 0];
  }

  lemma NoEntries(a: seq<byte>)
    requires IsSector(a) && forall k | PART_OFF <= k < PART_OFF + 64 :: a[k] == 0
    ensures Parse(a).entries == NO_ENTRIES
  {
    ZeroEntry(a, PART_OFF);
    ZeroEntry(a, PART_OFF + 16);
    ZeroEntry(a, PART_OFF + 32);
    ZeroEntry(a, PART_OFF + 48);
  }

  // ----- Images: what the commands write -----

  function Zeros(n: nat): seq<byte> { seq(n, _ => 0) }

  /** LBA 0 as `cmd_mkpt` writes it. */
  function Image(total: nat, sig: nat): (r: seq<byte>)
    requires sig < TWO32
    ensures IsSector(r)
  {
    Zeros(DISKSIG_OFF) + PutLe32(sig) + [0, 0]
    + [0, 0, 0, 0, 0x83, 0, 0, 0] + PutLe32(START) + PutLe32(PartSectors(total))
    + Zeros(48) + [0x55, 0xAA]
  }

  lemma ImageAt(total: nat, sig: nat, m: seq<byte>)
    requires sig < TWO32 && IsSector(m)
    requires forall k | 0 <= k < SECTOR :: m[k] ==
               if DISKSIG_OFF <= k < DISKSIG_OFF + 4 then PutLe32(sig)[k - DISKSIG_OFF]
               else if k == PART_OFF + 4 then 0x83
               else if PART_OFF + 8 <= k < PART_OFF + 12 then PutLe32(START)[k - PART_OFF - 8]
               else if PART_OFF + 12 <= k < PART_OFF + 16 then PutLe32(PartSectors(total))[k - PART_OFF - 12]
               else if k == SIG_OFF then 0x55
               else if k == SIG_OFF + 1 then 0xAA
               else 0
    ensures m == Image(total, sig)
  {
  }

  /** Parsing what `mkpt` wrote gives the table it was meant to write. */
  lemma {:induction false} ParseInvertsImage(total: nat, sig: nat)
    requires sig < TWO32
    ensures Parse(Image(total, sig)) == OnePartition(total, sig)
  {
    var m := Image(total, sig);
    Le32InvertsPutLe32(sig);
    Le32InvertsPutLe32(START);
    Le32InvertsPutLe32(PartSectors(total));
    assert m[DISKSIG_OFF..DISKSIG_OFF + 4] == PutLe32(sig);
    assert m[PART_OFF + 8..PART_OFF + 12] == PutLe32(START);
    assert m[PART_OFF + 12..PART_OFF + 16] == PutLe32(PartSectors(total));
    assert forall k | PART_OFF + 16 <= k < SIG_OFF :: m[k] == 0;
    ZeroEntry(m, PART_OFF + 16);
    ZeroEntry(m, PART_OFF + 32);
    ZeroEntry(m, PART_OFF + 48);
  }

  datatype Mode = Sig | Entries | All

  /** LBA 0 after `cmd_corrupt`. */
  function Corrupted(m: seq<byte>, mode: Mode): (r: seq<byte>)
    requires IsSector(m)
    ensures IsSector(r)
  {
    match mode
    case Sig => m[..SIG_OFF] + [0, 0]
    case Entries => m[..PART_OFF] + Zeros(64) + m[PART_OFF + 64..]
    case All => Zeros(SECTOR)
  }

  /**
   What each mode destroys and what it spares: `sig` keeps every entry readable on the medium, `entry` keeps
   the signature; after either of them, or `all`, a scan finds no partition.
   */
  lemma {:induction false} CorruptionIsSelective(m: seq<byte>, mode: Mode)
    requires IsSector(m)
    ensures var t := Parse(Corrupted(m, mode));
      match mode
      case Sig => t == Parse(m).(signed := false)
      case Entries => t == Parse(m).(entries := NO_ENTRIES)
      case All => t == Table(false, 0, NO_ENTRIES)
    ensures Scan(Corrupted(m, mode)) == []
  {
    var r := Corrupted(m, mode);
    match mode
    case Sig =>
      assert r[PART_OFF..PART_OFF + 64] == m[PART_OFF..PART_OFF + 64];
      assert r[DISKSIG_OFF..DISKSIG_OFF + 4] == m[DISKSIG_OFF..DISKSIG_OFF + 4];
      EntriesOfCut(r);
      EntriesOfCut(m);
    case Entries =>
      assert r[DISKSIG_OFF..DISKSIG_OFF + 4] == m[DISKSIG_OFF..DISKSIG_OFF + 4];
      NoEntries(r);
      NoNodes(NO_ENTRIES, 1);
    case All =>
      assert r[DISKSIG_OFF..DISKSIG_OFF + 4] == [0, 0, 0, 0];
      NoEntries(r);
  }

  /** The bytes of the first sector a mode clears; it leaves every other one as it was. */
  predicate Cleared(mode: Mode, k: nat) {
    match mode
    case Sig => k == 510 || k == 511
    case Entries => 446 <= k < 510
    case All => true
  }

  lemma CorruptionByBytes(m: seq<byte>, mode: Mode, k: nat)
    requires IsSector(m) && k < 512
    ensures Corrupted(m, mode)[k] == if Cleared(mode, k) then 0 else m[k]
  {
  }

  /** Byte `i` of a number, the least significant one first. */
  function ByteOf(v: nat, i: nat): nat { if i == 0 then v % 256 else ByteOf(v / 256, i - 1) }

  lemma PutLe32Bytes(v: nat, i: nat)
    requires v < TWO32 && i < 4
    ensures PutLe32(v)[i] as nat == ByteOf(v, i)
  {
    assert v / 0x1_0000 == v / 0x100 / 0x100 && v / 0x100_0000 == v / 0x100 / 0x100 / 0x100;
    assert ByteOf(v, 1) == v / 256 % 256 && ByteOf(v, 2) == v / 256 / 256 % 256;
    assert ByteOf(v / 256, 2) == v / 256 / 256 / 256 % 256;
  }

  /**
   The sector `mkpt` writes, byte by byte: the disk signature at 440, type 0x83 at 450, first sector 2048 at 454 and the
   number of sectors at 458, each least significant byte first, 55 AA at the end, and zeros.
   */
  lemma {:induction false} ImageByBytes(total: nat, sig: nat, k: nat)
    requires sig < TWO32 && k < 512
    ensures Image(total, sig)[k] as nat
         == if 440 <= k < 444 then ByteOf(sig, k - 440)
            else if k == 450 then 0x83
            else if k == 455 then 8
            else if 458 <= k < 462 then ByteOf((total - 2048) % 0x1_0000_0000, k - 458)
            else if k == 510 then 0x55
            else if k == 511 then 0xAA
            else 0
  {
    if 440 <= k < 444 { PutLe32Bytes(sig, k - 440); }
    if 458 <= k < 462 { PutLe32Bytes(PartSectors(total), k - 458); }
    assert PutLe32(START) == [0, 8, 0, 0];
  }

  /** What a dump shows of entry `e` is at 446 + 16 * e: status, type, first sector and number of sectors. */
  lemma EntryByBytes(m: seq<byte>, e: nat)
    requires IsSector(m) && e < 4
    ensures var at, x := 446 + 16 * e, Parse(m).entries[e];
      && x.status == m[at] && x.kind == m[at + 4]
      && (forall i | 0 <= i < 4 :: ByteOf(x.start, i) == m[at + 8 + i] as nat)
      && (forall i | 0 <= i < 4 :: ByteOf(x.sectors, i) == m[at + 12 + i] as nat)
  {
    var at := 446 + 16 * e;
    WordByBytes(m[at + 8..at + 12]);
    WordByBytes(m[at + 12..at + 16]);
  }

  /** The disk signature a dump shows is at 440, and the table is valid exactly if 55 AA is at the end. */
  lemma HeaderByBytes(m: seq<byte>)
    requires IsSector(m)
    ensures forall i | 0 <= i < 4 :: ByteOf(Parse(m).diskSig, i) == m[440 + i] as nat
    ensures Parse(m).signed <==> m[510] == 0x55 && m[511] == 0xAA
  {
    WordByBytes(m[440..444]);
  }

  lemma WordByBytes(p: seq<byte>)
    requires |p| == 4
    ensures forall i | 0 <= i < 4 :: ByteOf(Le32(p), i) == p[i] as nat
  {
    PutLe32InvertsLe32(p);
    forall i | 0 <= i < 4 ensures ByteOf(Le32(p), i) == p[i] as nat { PutLe32Bytes(Le32(p), i); }
  }

  lemma {:induction false} NoNodes(entries: seq<Entry>, n: nat)
    requires forall e | e in entries :: e.sectors == 0
    ensures NodesFrom(entries, n) == []
  {
    if entries == [] {
    } else {
      NoNodes(entries[1..], n + 1);
    }
  }

  lemma {:induction false} NodesFromAre(entries: seq<Entry>, number: nat, x: Node)
    ensures x in NodesFrom(entries, number) <==>
            && number <= x.number < number + |entries| && x.sectors != 0
            && entries[x.number - number].start == x.start && entries[x.number - number].sectors == x.sectors
  {
    if entries == [] {
    } else {
      NodesFromAre(entries[1..], number + 1, x);
    }
  }

  /** Where entry n - 1 says node `x`, of number n, is. */
  predicate PlacedBy(m: seq<byte>, x: Node)
    requires IsSector(m) && 1 <= x.number <= 4
  {
    var at := 446 + 16 * (x.number - 1);
    x.start == Le32(m[at + 8..at + 12]) && x.sectors == Le32(m[at + 12..at + 16])
  }

  lemma NodeOfTable(t: Table, x: Node)
    requires |t.entries| == 4
    ensures x in (if t.signed then NodesFrom(t.entries, 1) else []) <==>
            && t.signed && 1 <= x.number <= 4 && x.sectors != 0
            && t.entries[x.number - 1].start == x.start && t.entries[x.number - 1].sectors == x.sectors
  {
    NodesFromAre(t.entries, 1, x);
  }

  lemma EntryPlace(m: seq<byte>, t: Table, x: Node)
    requires IsSector(m) && t == Parse(m) && 1 <= x.number <= 4
    ensures |t.entries| == 4
    ensures PlacedBy(m, x) <==> t.entries[x.number - 1].start == x.start && t.entries[x.number - 1].sectors == x.sectors
  {
  }

  /** A scan makes node n exactly if the table is valid and its n-th entry, which says where, is not empty. */
  lemma {:induction false} ScanIs(m: seq<byte>, x: Node)
    requires IsSector(m)
    ensures x in Scan(m) <==>
            m[510] == 0x55 && m[511] == 0xAA && 1 <= x.number <= 4 && x.sectors != 0 && PlacedBy(m, x)
  {
    HeaderByBytes(m);
    var t := Parse(m);
    NodeOfTable(t, x);
    if 1 <= x.number <= 4 { EntryPlace(m, t, x); }
  }

  // ----- Medium and kernel view -----

  /** The disk size in sectors, the first sector of the medium, and the partition nodes the kernel shows. */
  datatype State = State(total: nat, medium: seq<byte>, nodes: seq<Node>)

  /**
   `Reread(ok)`: BLKRRPART, which fails for instance on a loop device without partscan.  Attaching the medium with
   partscan scans it as well; attached without, or detached, it has no partition node.
   */
  datatype Op = Mkpt(sig: nat) | Corrupt(mode: Mode) | Reread(ok: bool) | Attach(partscan: bool) | Detach

  predicate ValidOp(op: Op) { op.Mkpt? ==> op.sig < TWO32 }

  /** The steps with which the kernel takes a new view of the medium. */
  predicate Refreshes(op: Op) { op == Reread(true) || op.Attach? || op.Detach? }

  /** The view it takes. */
  function View(medium: seq<byte>, op: Op): seq<Node>
    requires IsSector(medium)
  {
    if op == Reread(true) || op == Attach(true) then Scan(medium) else []
  }

  function Apply(s: State, op: Op): (t: State)
    requires IsSector(s.medium) && ValidOp(op)
    ensures IsSector(t.medium)
  {
    match op
    case Mkpt(sig) => s.(medium := Image(s.total, sig))
    case Corrupt(mode) => s.(medium := Corrupted(s.medium, mode))
    case Reread(ok) => if ok then s.(nodes := Scan(s.medium)) else s
    case Attach(partscan) => s.(nodes := if partscan then Scan(s.medium) else [])
    case Detach => s.(nodes := [])
  }

  predicate ValidOps(ops: seq<Op>) { forall o | o in ops :: ValidOp(o) }

  function Run(s: State, ops: seq<Op>): (t: State)
    requires IsSector(s.medium) && ValidOps(ops)
    ensures IsSector(t.medium)
  {
    if ops == [] then s else Apply(Run(s, ops[..|ops| - 1]), ops[|ops| - 1])
  }

  lemma OnlyRefreshChangesNodes(s: State, op: Op)
    requires IsSector(s.medium) && ValidOp(op)
    ensures Apply(s, op).nodes == if Refreshes(op) then View(s.medium, op) else s.nodes
  {
  }

  lemma NodesAfterLast(s: State, ops: seq<Op>)
    requires IsSector(s.medium) && ValidOps(ops) && ops != []
    ensures var front, last := Run(s, ops[..|ops| - 1]), ops[|ops| - 1];
      Run(s, ops).nodes == if Refreshes(last) then View(front.medium, last) else front.nodes
  {
    OnlyRefreshChangesNodes(Run(s, ops[..|ops| - 1]), ops[|ops| - 1]);
  }

  predicate NoRefresh(ops: seq<Op>) { forall o | o in ops :: !Refreshes(o) }

  lemma {:induction false} NodesKeptSince(s: State, ops: seq<Op>, k: nat)
    requires IsSector(s.medium) && ValidOps(ops) && k <= |ops| && NoRefresh(ops[k..])
    ensures Run(s, ops).nodes == Run(s, ops[..k]).nodes
    decreases |ops|
  {
    if k == |ops| {
      assert ops[..k] == ops;
    } else {
      var front, last := ops[..|ops| - 1], ops[|ops| - 1];
      assert ops[k..] == front[k..] + [last] && front[..k] == ops[..k];
      NodesAfterLast(s, ops);
      NodesKeptSince(s, front, k);
    }
  }

  /**
   In every run the partition nodes are the view of the medium taken at the last successful scan, attach or detach (the
   one at `k`), whatever has been done to the medium since.
   */
  lemma {:induction false} NodesAreTheLastScan(s: State, ops: seq<Op>, k: nat)
    requires IsSector(s.medium) && ValidOps(ops) && k < |ops| && Refreshes(ops[k]) && NoRefresh(ops[k + 1..])
    ensures Run(s, ops).nodes == View(Run(s, ops[..k]).medium, ops[k])
  {
    NodesKeptSince(s, ops, k + 1);
    NodesAfterLast(s, ops[..k + 1]);
    assert ops[..k + 1][..k] == ops[..k];
  }

  /** Without any of these the nodes never change. */
  lemma {:induction false} NoScanNoChange(s: State, ops: seq<Op>)
    requires IsSector(s.medium) && ValidOps(ops) && NoRefresh(ops)
    ensures Run(s, ops).nodes == s.nodes
  {
    NodesKeptSince(s, ops, 0);
    assert ops[..0] == [];
  }

  /** A medium that carries the table, attached and scanned. */
  predicate Shown(s: State, sig: nat)
    requires sig < TWO32
  {
    s.medium == Image(s.total, sig) && s.nodes == [Node(1, START, PartSectors(s.total))]
  }

  /** Attached without partscan the written table stays unseen. */
  lemma {:induction false} LabUnseen(s: State, sig: nat) returns (unseen: State)
    requires IsSector(s.medium) && sig < TWO32
    ensures unseen == Apply(Apply(Apply(s, Attach(false)), Mkpt(sig)), Reread(false)) && IsSector(unseen.medium)
    ensures unseen.nodes == [] && unseen.medium == Image(s.total, sig) && unseen.total == s.total
  {
    unseen := State(s.total, Image(s.total, sig), []);
  }

  lemma AttachScans(s: State)
    requires IsSector(s.medium)
    ensures Apply(Apply(s, Detach), Attach(true)) == s.(nodes := Scan(s.medium))
  {
  }

  /** Attached with it, the node is there. */
  lemma {:induction false} LabAttach(s: State, sig: nat) returns (written: State)
    requires IsSector(s.medium) && sig < TWO32 && PartSectors(s.total) != 0 && s.medium == Image(s.total, sig)
    ensures written == Apply(Apply(s, Detach), Attach(true))
    ensures Shown(written, sig) && written.total == s.total
  {
    AttachScans(s);
    ScanOfImage(s.total, sig);
    written := s.(nodes := Scan(s.medium));
  }

  /** However the table is damaged, its nodes stay until the reread and are gone after it. */
  lemma {:induction false} LabDamage(w: State, mode: Mode) returns (damaged: State, seen: State)
    requires IsSector(w.medium)
    ensures damaged == Apply(w, Corrupt(mode)) && IsSector(damaged.medium)
    ensures seen == Apply(damaged, Reread(true)) && IsSector(seen.medium)
    ensures damaged.nodes == w.nodes && seen.nodes == [] && seen.total == w.total
  {
    CorruptionIsSelective(w.medium, mode);
    damaged := Apply(w, Corrupt(mode));
    seen := Apply(damaged, Reread(true));
  }

  /** Writing the table and rereading it shows one and the same node, whatever was there before. */
  lemma {:induction false} LabRestore(s: State, sig: nat, w: State) returns (restored: State)
    requires IsSector(s.medium) && sig < TWO32 && PartSectors(s.total) != 0 && Shown(w, sig) && w.total == s.total
    ensures restored == Apply(Apply(s, Mkpt(sig)), Reread(true)) == w
    ensures Apply(restored, Detach).nodes == []
  {
    ScanOfImage(s.total, sig);
    restored := w;
  }

  /**
   The lab: attached without partscan the written table stays unseen, attached with it the node is there; however the
   table is damaged, the node stays until the reread and is gone after it, writing the table again brings the very same
   node back, and detaching removes it.
   */
  lemma {:induction false} LabOutcome(s: State, sig: nat, mode: Mode)
      returns (unseen: State, written: State, damaged: State, seen: State, restored: State)
    requires IsSector(s.medium) && sig < TWO32 && PartSectors(s.total) != 0
    ensures unseen == Apply(Apply(Apply(s, Attach(false)), Mkpt(sig)), Reread(false)) && IsSector(unseen.medium)
    ensures written == Apply(Apply(unseen, Detach), Attach(true)) && IsSector(written.medium)
    ensures damaged == Apply(written, Corrupt(mode)) && IsSector(damaged.medium)
    ensures seen == Apply(damaged, Reread(true)) && IsSector(seen.medium)
    ensures restored == Apply(Apply(seen, Mkpt(sig)), Reread(true)) == written
    ensures unseen.nodes == [] && Shown(written, sig) && written.total == s.total
    ensures damaged.nodes == written.nodes && seen.nodes == [] && Apply(restored, Detach).nodes == []
  {
    unseen := LabUnseen(s, sig);
    written := LabAttach(unseen, sig);
    damaged, seen := LabDamage(written, mode);
    restored := LabRestore(seen, sig, written);
  }

  lemma ScanOfImage(total: nat, sig: nat)
    requires sig < TWO32 && PartSectors(total) != 0
    ensures Scan(Image(total, sig)) == [Node(1, START, PartSectors(total))]
  {
    ParseInvertsImage(total, sig);
    OneNode(total, sig);
  }

  lemma OneNode(total: nat, sig: nat)
    requires PartSectors(total) != 0
    ensures NodesFrom(OnePartition(total, sig).entries, 1) == [Node(1, START, PartSectors(total))]
  {
    var es := OnePartition(total, sig).entries;
    assert es[1..] == [EMPTY, EMPTY, EMPTY];
    NoNodes(es[1..], 2);
  }

  // ----- The device -----

  method WriteLe32(a: array<byte>, at: nat, v: nat)
    requires at + 4 <= a.Length && v < TWO32
    modifies a
    ensures forall k | at <= k < at + 4 :: a[k] == PutLe32(v)[k - at]
    ensures forall k | 0 <= k < a.Length && !(at <= k < at + 4) :: a[k] == old(a[k])
  {
    var p := PutLe32(v);
    a[at], a[at + 1], a[at + 2], a[at + 3] := p[0], p[1], p[2], p[3];
  }

  class BlockDev {
    const total: nat
    var lba0: seq<byte>      // the medium
    var nodes: seq<Node>     // the kernel's memory of it
    var partscan: bool

    /** An empty image, not attached. */
    constructor (total: nat)
      ensures Valid() && View() == State(total, seq(SECTOR, _ => 0), [])
    {
      this.total, lba0, nodes, partscan := total, seq(SECTOR, _ => 0), [], false;
    }

    ghost predicate Valid()
      reads this
    {
      IsSector(lba0)
    }

    ghost function View(): State
      reads this
    {
      State(total, lba0, nodes)
    }

    method Mkpt(sig: nat)
      requires Valid() && sig < TWO32
      modifies this`lba0
      ensures Valid() && View() == Apply(old(View()), Op.Mkpt(sig))
    {
      var mbr := new byte[SECTOR](_ => 0);
      WriteLe32(mbr, DISKSIG_OFF, sig);
      mbr[PART_OFF] := 0;
      mbr[PART_OFF + 4] := 0x83;
      WriteLe32(mbr, PART_OFF + 8, START);
      WriteLe32(mbr, PART_OFF + 12, PartSectors(total));
      mbr[SIG_OFF], mbr[SIG_OFF + 1] := 0x55, 0xAA;
      ImageAt(total, sig, mbr[..]);
      lba0 := mbr[..];
    }

    method Corrupt(mode: Mode)
      requires Valid()
      modifies this`lba0
      ensures Valid() && View() == Apply(old(View()), Op.Corrupt(mode))
    {
      var mbr := new byte[SECTOR](i requires 0 <= i < SECTOR reads this requires Valid() => lba0[i]);
      assert mbr[..] == lba0;
      match mode {
      case Sig =>
        mbr[SIG_OFF], mbr[SIG_OFF + 1] := 0, 0;
      case Entries =>
        forall k | PART_OFF <= k < PART_OFF + 64 { mbr[k] := 0; }
      case All =>
        forall k | 0 <= k < SECTOR { mbr[k] := 0; }
      }
      assert mbr[..] == Corrupted(lba0, mode);
      lba0 := mbr[..];
    }

    /** cmd_loop_attach: with partscan the kernel scans the medium at once. */
    method Attach(partscan: bool)
      requires Valid()
      modifies this`nodes, this`partscan
      ensures Valid() && this.partscan == partscan && View() == Apply(old(View()), Op.Attach(partscan))
    {
      this.partscan := partscan;
      nodes := if partscan then Scan(lba0) else [];
    }

    /** cmd_loop_detach */
    method Detach()
      requires Valid()
      modifies this`nodes
      ensures Valid() && View() == Apply(old(View()), Op.Detach)
    {
      nodes := [];
    }

    /** BLKRRPART; `busy` is the environment's reason to refuse it. */
    method Reread(busy: bool) returns (ok: bool)
      requires Valid()
      modifies this`nodes
      ensures Valid() && ok == (partscan && !busy) && View() == Apply(old(View()), Op.Reread(ok))
    {
      ok := partscan && !busy;
      if ok {
        nodes := Scan(lba0);
      }
    }
  }
}
