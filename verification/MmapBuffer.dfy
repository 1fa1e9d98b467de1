/**
 The shared buffer of `11-mmap/mmapbuf.c`: a physically contiguous kernel buffer of any number of pages, mapped
 any number of times, shared or privately, and read through the read call.  A user access goes through the page table
 that remap_pfn_range filled in.  The memory manager enters with two facts: mappings are page aligned, and the first
 store to a page of a private mapping moves that page to a fresh anonymous frame (11-mmap/README.md:117).
 */
module MmapBuffer {
  import opened Bytes
  import opened Errno
  import opened Text

  const PAGE := 4096

  /** The page frames of one accepted mapping, first page first. */
  type Pte = seq<nat>

  /** The table remap_pfn_range fills in for `n` pages from frame `pfn` on. */
  function Remap(pfn: nat, n: nat): Pte { seq(n, i requires 0 <= i < n => pfn + i) }

  predicate Mapped(pte: Pte, o: nat) { o / PAGE < |pte| }

  /** The physical address behind offset `o` of a mapping. */
  function Translate(pte: Pte, o: nat): nat
    requires Mapped(pte, o)
  {
    pte[o / PAGE] * PAGE + o % PAGE
  }

  /** Shifting the address right and mapping from that frame is right exactly for page-aligned buffers. */
  lemma {:induction false} TranslationIsExactForAlignedBuffers(phys: nat, n: nat)
    requires n > 0
    ensures (forall o: nat | o < n * PAGE :: Mapped(Remap(phys / PAGE, n), o)
                                             && Translate(Remap(phys / PAGE, n), o) == phys + o)
            <==> phys % PAGE == 0
  {
    var pte := Remap(phys / PAGE, n);
    if phys % PAGE == 0 {
      forall o: nat | o < n * PAGE ensures Mapped(pte, o) && Translate(pte, o) == phys + o {
        TranslateAligned(phys, n, o);
      }
    } else {
      assert Mapped(pte, 0) && Translate(pte, 0) == phys / PAGE * PAGE;
    }
  }

  lemma TranslateAligned(phys: nat, n: nat, o: nat)
    requires phys % PAGE == 0 && o < n * PAGE
    ensures Mapped(Remap(phys / PAGE, n), o) && Translate(Remap(phys / PAGE, n), o) == phys + o
  {
  }

  // ----- The machine as a value -----

  /** One accepted mmap: its page table, and whether it was MAP_SHARED. */
  datatype Mapping = Mapping(pte: Pte, shared: bool)

  /**
   Physical memory, the buffer of `pages` pages at address `kbuf` in it, the mappings, and the anonymous frames that
   were handed out, each for one page of one mapping.
   */
  datatype State = State(memory: seq<byte>, kbuf: nat, pages: nat, maps: seq<Mapping>, owner: map<nat, (nat, nat)>) {
    function Home(i: nat): nat { kbuf / PAGE + i }

    predicate Anonymous(f: nat) {
      !(Home(0) <= f < Home(pages)) && (f + 1) * PAGE <= |memory|
    }

    /** A frame the memory manager can hand out. */
    predicate Free(f: nat) { Anonymous(f) && f !in owner }

    /** An entry holds the buffer's frame, or for a private mapping the frame of its own copy. */
    predicate Entry(m: nat, i: nat)
      requires m < |maps| && i < |maps[m].pte|
    {
      var f := maps[m].pte[i];
      i < pages && (f == Home(i) || (!maps[m].shared && f in owner && owner[f] == (m, i)))
    }

    predicate Valid() {
      && kbuf % PAGE == 0 && kbuf + pages * PAGE <= |memory|
      && (forall f | f in owner :: Anonymous(f))
      && forall m: nat, i: nat {:trigger Entry(m, i)} | m < |maps| && i < |maps[m].pte| :: Entry(m, i)
    }

    predicate Reaches(m: nat, o: nat) { m < |maps| && Mapped(maps[m].pte, o) }

    /** The page of offset `o` has left the buffer for a copy. */
    predicate Copied(m: nat, o: nat)
      requires Reaches(m, o)
    {
      maps[m].pte[o / PAGE] != Home(o / PAGE)
    }

    /** Where an access to offset `o` of mapping `m` goes. */
    function Address(m: nat, o: nat): nat
      requires Reaches(m, o)
    {
      Translate(maps[m].pte, o)
    }

    function Buffer(): seq<byte>
      requires Valid()
    {
      memory[kbuf..kbuf + pages * PAGE]
    }

    /**
     An access stays inside the buffer, at its own offset, unless the page has been copied; then the mapping is
     private, and the access goes to a frame that is this page's alone.
     */
    lemma PteIsInside(m: nat, o: nat)
      requires Valid() && Reaches(m, o)
      ensures o < pages * PAGE && Address(m, o) < |memory|
      ensures var f := Address(m, o) / PAGE;
        if Copied(m, o) then !maps[m].shared && Anonymous(f) && f in owner && owner[f] == (m, o / PAGE)
        else Address(m, o) == kbuf + o
    {
      assert Entry(m, o / PAGE);
    }
  }

  /**
   mmap(2) of `n` pages at page offset `pgoff`, user accesses at offset `o` of mapping `m`, and read(2).  `frame` is
   what the memory manager has to offer if the store makes it copy a page.
   */
  datatype Op =
    | Mmap(pgoff: nat, n: nat, shared: bool, remapFails: bool)
    | Store(m: nat, o: nat, v: byte, frame: nat)
    | Load(m: nat, o: nat)
    | Read(pos: nat, cnt: nat, fault: bool)

  datatype Reply = NewMapping(m: nat) | Stored | Data(bytes: seq<byte>) | Failed(errno: Errno) | Fault

  lemma PutIsValid(s: State, a: nat, v: byte)
    requires s.Valid() && a < |s.memory|
    ensures var t := s.(memory := s.memory[a := v]); t.Valid() && Keeps(s, t)
  {
    var t := s.(memory := s.memory[a := v]);
    forall m: nat, i: nat | m < |t.maps| && i < |t.maps[m].pte| ensures t.Entry(m, i) { assert s.Entry(m, i); }
  }

  lemma MapIsValid(s: State, n: nat, shared: bool)
    requires s.Valid() && n <= s.pages
    ensures var t := s.(maps := s.maps + [Mapping(Remap(s.kbuf / PAGE, n), shared)]); t.Valid() && Keeps(s, t)
  {
    var t := s.(maps := s.maps + [Mapping(Remap(s.kbuf / PAGE, n), shared)]);
    forall m: nat, i: nat | m < |t.maps| && i < |t.maps[m].pte| ensures t.Entry(m, i) {
      if m < |s.maps| { assert s.Entry(m, i); }
    }
  }

  function Moved(s: State, m: nat, i: nat, frame: nat, memory: seq<byte>): State
    requires m < |s.maps| && i < |s.maps[m].pte|
  {
    State(memory, s.kbuf, s.pages, s.maps[m := s.maps[m].(pte := s.maps[m].pte[i := frame])], s.owner[frame := (m, i)])
  }

  lemma MoveIsValid(s: State, m: nat, i: nat, frame: nat, memory: seq<byte>)
    requires s.Valid() && m < |s.maps| && i < |s.maps[m].pte| && !s.maps[m].shared && s.Free(frame)
    requires |memory| == |s.memory|
    ensures var t := Moved(s, m, i, frame, memory); t.Valid() && Keeps(s, t)
  {
    var t := Moved(s, m, i, frame, memory);
    forall n: nat, j: nat | n < |t.maps| && j < |t.maps[n].pte| ensures t.Entry(n, j) {
      assert s.Entry(n, j);
    }
    forall f | f in t.owner ensures t.Anonymous(f) {
      assert f == frame || s.Anonymous(f);
    }
  }

  /** The page of offset `o` of mapping `m` moves to `frame`, with what the buffer holds there now. */
  function CopyPage(s: State, m: nat, o: nat, frame: nat): (t: State)
    requires s.Valid() && s.Reaches(m, o) && !s.Copied(m, o) && !s.maps[m].shared && s.Free(frame)
    ensures t.Valid() && t.Reaches(m, o) && t.Copied(m, o) && Keeps(s, t)
  {
    s.PteIsInside(m, o);
    var i, at := o / PAGE, s.kbuf + o / PAGE * PAGE;
    var memory := Splice(s.memory, frame * PAGE, s.memory[at..at + PAGE]);
    MoveIsValid(s, m, i, frame, memory);
    Moved(s, m, i, frame, memory)
  }

  /** `t` is a later state of the same machine. */
  predicate Keeps(s: State, t: State) {
    && t.kbuf == s.kbuf && t.pages == s.pages && |t.memory| == |s.memory| && |t.maps| >= |s.maps|
    && s.owner.Keys <= t.owner.Keys
  }

  function Put(s: State, m: nat, o: nat, v: byte): (t: State)
    requires s.Valid() && s.Reaches(m, o)
    ensures t.Valid() && Keeps(s, t)
  {
    s.PteIsInside(m, o);
    PutIsValid(s, s.Address(m, o), v);
    s.(memory := s.memory[s.Address(m, o) := v])
  }

  /** A store finds its page, or a frame to copy it to. */
  predicate Succeeds(s: State, op: Op)
    requires op.Store?
  {
    s.Reaches(op.m, op.o) && (s.maps[op.m].shared || s.Copied(op.m, op.o) || s.Free(op.frame))
  }

  function Apply(s: State, op: Op): (t: State)
    requires s.Valid()
    ensures t.Valid() && Keeps(s, t)
  {
    match op
    case Mmap(pgoff, n, shared, remapFails) =>
      if pgoff == 0 && n <= s.pages && !remapFails then
        MapIsValid(s, n, shared);
        s.(maps := s.maps + [Mapping(Remap(s.kbuf / PAGE, n), shared)])
      else s
    case Store(m, o, v, frame) =>
      if !Succeeds(s, op) then s
      else if s.maps[m].shared || s.Copied(m, o) then Put(s, m, o, v)
      else Put(CopyPage(s, m, o, frame), m, o, v)
    case _ => s
  }

  function Answer(s: State, op: Op): Reply
    requires s.Valid()
  {
    match op
    case Mmap(pgoff, n, _, remapFails) =>
      if pgoff != 0 || n > s.pages then Failed(EINVAL) else if remapFails then Failed(EAGAIN) else NewMapping(|s.maps|)
    case Store(_, _, _, _) => if Succeeds(s, op) then Stored else Fault
    case Load(m, o) =>
      if s.Reaches(m, o) then
        s.PteIsInside(m, o);
        Data([s.memory[s.Address(m, o)]])
      else Fault
    case Read(pos, cnt, fault) =>
      var size := s.pages * PAGE;
      var got := if pos >= size then [] else s.memory[s.kbuf + pos..s.kbuf + pos + Min(cnt, size - pos)];
      if got != [] && fault then Failed(EFAULT) else Data(got)
  }

  // ----- What one step changes -----

  /** Two accesses meet exactly at the same offset of the buffer, or of one mapping. */
  lemma SameAddress(s: State, m: nat, o: nat, n: nat, q: nat)
    requires s.Valid() && s.Reaches(m, o) && s.Reaches(n, q)
    ensures s.Address(m, o) == s.Address(n, q) <==> o == q && (m == n || (!s.Copied(m, o) && !s.Copied(n, q)))
  {
    s.PteIsInside(m, o);
    s.PteIsInside(n, q);
    FrameOf(s, m, o);
    FrameOf(s, n, q);
  }

  lemma FrameOf(s: State, m: nat, o: nat)
    requires s.Reaches(m, o)
    ensures s.Address(m, o) / PAGE == s.maps[m].pte[o / PAGE] && s.Address(m, o) % PAGE == o % PAGE
  {
  }

  lemma CopyChanges(s: State, m: nat, o: nat, frame: nat, a: nat)
    requires s.Valid() && s.Reaches(m, o) && !s.Copied(m, o) && !s.maps[m].shared && s.Free(frame) && a < |s.memory|
    ensures o / PAGE < s.pages
    ensures CopyPage(s, m, o, frame).memory[a]
         == if a / PAGE == frame then s.memory[s.kbuf + o / PAGE * PAGE + a % PAGE] else s.memory[a]
  {
    s.PteIsInside(m, o);
    var at := s.kbuf + o / PAGE * PAGE;
    SpliceAt(s.memory, frame * PAGE, s.memory[at..at + PAGE], a);
    FrameSpan(frame, a);
  }

  lemma FrameSpan(frame: nat, a: nat)
    ensures a / PAGE == frame <==> frame * PAGE <= a < frame * PAGE + PAGE
    ensures a / PAGE == frame ==> a - frame * PAGE == a % PAGE
  {
  }

  lemma SpliceAt(s: seq<byte>, pos: nat, payload: seq<byte>, a: nat)
    requires pos + |payload| <= |s| && a < |s|
    ensures Splice(s, pos, payload)[a] == if pos <= a < pos + |payload| then payload[a - pos] else s[a]
  {
  }

  /** A frame outside the buffer and a page of the buffer do not overlap. */
  lemma FrameApart(s: State, i: nat, frame: nat)
    requires s.Valid() && i < s.pages && s.Anonymous(frame)
    ensures s.kbuf + i * PAGE + PAGE <= |s.memory|
    ensures (frame + 1) * PAGE <= s.kbuf + i * PAGE || s.kbuf + i * PAGE + PAGE <= frame * PAGE
  {
  }

  lemma BufferFrame(s: State, o: nat)
    requires s.Valid() && o < s.pages * PAGE
    ensures s.kbuf + o < |s.memory| && s.Home(0) <= (s.kbuf + o) / PAGE < s.Home(s.pages)
  {
  }

  /** A byte of the buffer changes only by a store at its offset through a shared mapping. */
  lemma StepChangesBuffer(s: State, op: Op, o: nat)
    requires s.Valid() && o < s.pages * PAGE
    ensures var hit := op.Store? && Succeeds(s, op) && s.maps[op.m].shared && op.o == o;
      Apply(s, op).memory[s.kbuf + o] == if hit then op.v else s.memory[s.kbuf + o]
  {
    if op.Store? && Succeeds(s, op) {
      BufferFrame(s, o);
      s.PteIsInside(op.m, op.o);
      if !s.maps[op.m].shared && !s.Copied(op.m, op.o) {
        var t := CopyPage(s, op.m, op.o, op.frame);
        CopyChanges(s, op.m, op.o, op.frame, s.kbuf + o);
        t.PteIsInside(op.m, op.o);
      }
    }
  }

  /** Memory outside the buffer changes only in frames that have been handed out for copies. */
  lemma StepChangesOutside(s: State, op: Op, a: nat)
    requires s.Valid() && a < |s.memory| && !(s.kbuf <= a < s.kbuf + s.pages * PAGE)
    requires a / PAGE !in Apply(s, op).owner
    ensures Apply(s, op).memory[a] == s.memory[a]
  {
    if op.Store? && Succeeds(s, op) {
      s.PteIsInside(op.m, op.o);
      if !s.maps[op.m].shared && !s.Copied(op.m, op.o) {
        var t := CopyPage(s, op.m, op.o, op.frame);
        CopyChanges(s, op.m, op.o, op.frame, a);
        t.PteIsInside(op.m, op.o);
      }
    }
  }

  /** A successful store through mapping `m` to the page of offset `o`. */
  predicate StoresPage(s: State, op: Op, m: nat, o: nat) {
    op.Store? && op.m == m && op.o / PAGE == o / PAGE && Succeeds(s, op)
  }

  /** What mapping `m` shows at offset `o`. */
  function Seen(s: State, m: nat, o: nat): byte
    requires s.Valid() && s.Reaches(m, o)
  {
    s.PteIsInside(m, o);
    s.memory[s.Address(m, o)]
  }

  /** Copying a page changes nothing that any mapping shows. */
  lemma CopyShowsTheSame(s: State, n: nat, q: nat, frame: nat, m: nat, o: nat)
    requires s.Valid() && s.Reaches(n, q) && !s.Copied(n, q) && !s.maps[n].shared && s.Free(frame) && s.Reaches(m, o)
    ensures var t := CopyPage(s, n, q, frame);
      && t.Reaches(m, o) && (t.Copied(m, o) <==> s.Copied(m, o) || (m == n && o / PAGE == q / PAGE))
      && Seen(t, m, o) == Seen(s, m, o)
  {
    var t := CopyPage(s, n, q, frame);
    s.PteIsInside(n, q);
    s.PteIsInside(m, o);
    t.PteIsInside(m, o);
    FrameOf(t, m, o);
    CopyChanges(s, n, q, frame, t.Address(m, o));
  }

  lemma PutShows(s: State, n: nat, q: nat, v: byte, m: nat, o: nat)
    requires s.Valid() && s.Reaches(n, q) && s.Reaches(m, o)
    ensures var t, meets := Put(s, n, q, v), o == q && (m == n || (!s.Copied(m, o) && !s.Copied(n, q)));
      t.Reaches(m, o) && (t.Copied(m, o) <==> s.Copied(m, o)) && Seen(t, m, o) == if meets then v else Seen(s, m, o)
  {
    SameAddress(s, m, o, n, q);
    s.PteIsInside(m, o);
    s.PteIsInside(n, q);
  }

  /** What a private mapping shows after a step: its copy is its own, and is made by its first store to the page. */
  lemma StepChangesPrivate(s: State, op: Op, m: nat, o: nat)
    requires s.Valid() && s.Reaches(m, o) && !s.maps[m].shared
    ensures var t, own := Apply(s, op), StoresPage(s, op, m, o);
      && t.Reaches(m, o) && (t.Copied(m, o) <==> s.Copied(m, o) || own)
      && (t.Copied(m, o) ==> Seen(t, m, o) == if own && op.o == o then op.v else Seen(s, m, o))
  {
    if op.Store? && Succeeds(s, op) {
      if s.maps[op.m].shared || s.Copied(op.m, op.o) {
        PutShows(s, op.m, op.o, op.v, m, o);
      } else {
        var t := CopyPage(s, op.m, op.o, op.frame);
        CopyShowsTheSame(s, op.m, op.o, op.frame, m, o);
        PutShows(t, op.m, op.o, op.v, m, o);
      }
    }
  }

  // ----- Any interleaving of mappings and accesses -----

  function Run(s: State, ops: seq<Op>): (t: State)
    requires s.Valid()
    ensures t.Valid() && Keeps(s, t)
  {
    if ops == [] then s else Apply(Run(s, ops[..|ops| - 1]), ops[|ops| - 1])
  }

  /** Whose stores are meant: those through all shared mappings, or those through mapping `m`. */
  datatype Via = AnyShared | Only(m: nat)

  /** Step `k` of a run is a successful store at offset `o`. */
  ghost predicate Stores(s: State, ops: seq<Op>, k: int, via: Via, o: nat)
    requires s.Valid()
  {
    0 <= k < |ops| && ops[k].Store? && ops[k].o == o
    && var t := Run(s, ops[..k]);
       Succeeds(t, ops[k]) && if via.AnyShared? then t.maps[ops[k].m].shared else ops[k].m == via.m
  }

  /** From step `c` on, the last store at offset `o` is step `k`; `c - 1` when there is none. */
  ghost predicate LastStore(s: State, ops: seq<Op>, c: nat, k: int, via: Via, o: nat)
    requires s.Valid()
  {
    && c - 1 <= k < |ops| && (k >= c ==> Stores(s, ops, k, via, o))
    && forall j | k < j < |ops| :: !Stores(s, ops, j, via, o)
  }

  lemma StoresInFront(s: State, ops: seq<Op>, k: int, via: Via, o: nat)
    requires s.Valid() && 0 <= k < |ops| - 1
    ensures Stores(s, ops, k, via, o) <==> Stores(s, ops[..|ops| - 1], k, via, o)
  {
    assert ops[..|ops| - 1][..k] == ops[..k];
  }

  lemma LastStoreInFront(s: State, ops: seq<Op>, c: nat, k: int, via: Via, o: nat)
    requires s.Valid() && LastStore(s, ops, c, k, via, o) && k < |ops| - 1
    ensures LastStore(s, ops[..|ops| - 1], c, k, via, o)
  {
    var n := |ops| - 1;
    forall j | 0 <= j < n ensures Stores(s, ops, j, via, o) <==> Stores(s, ops[..n], j, via, o) {
      StoresInFront(s, ops, j, via, o);
    }
  }

  lemma {:induction false} SomeStoreIsLast(s: State, ops: seq<Op>, c: nat, via: Via, o: nat) returns (k: int)
    requires s.Valid() && c <= |ops|
    ensures LastStore(s, ops, c, k, via, o)
    decreases |ops|
  {
    var n := |ops| - 1;
    if n < c || Stores(s, ops, n, via, o) {
      k := n;
    } else {
      k := SomeStoreIsLast(s, ops[..n], c, via, o);
      forall j | 0 <= j < n ensures Stores(s, ops, j, via, o) <==> Stores(s, ops[..n], j, via, o) {
        StoresInFront(s, ops, j, via, o);
      }
    }
  }

  /** The byte the stores at offset `o` leave from step `c` on, where there was `first`. */
  ghost function Left(s: State, ops: seq<Op>, c: nat, via: Via, o: nat, first: byte): byte
    requires s.Valid()
  {
    var n := |ops| - 1;
    if n < c then first else if Stores(s, ops, n, via, o) then ops[n].v else Left(s, ops[..n], c, via, o, first)
  }

  lemma {:induction false} LeftIsLastStore(s: State, ops: seq<Op>, c: nat, k: int, via: Via, o: nat, first: byte)
    requires s.Valid() && LastStore(s, ops, c, k, via, o)
    ensures Left(s, ops, c, via, o, first) == if k >= c then ops[k].v else first
    decreases |ops|
  {
    var n := |ops| - 1;
    if n < c || k == n {
    } else {
      assert !Stores(s, ops, n, via, o);
      LastStoreInFront(s, ops, c, k, via, o);
      LeftIsLastStore(s, ops[..n], c, k, via, o, first);
    }
  }

  /** After any run the buffer holds at each offset the byte of the last store there through a shared mapping. */
  lemma {:induction false} BufferIsLastSharedStores(s: State, ops: seq<Op>, k: int, o: nat)
    requires s.Valid() && o < s.pages * PAGE && LastStore(s, ops, 0, k, AnyShared, o)
    ensures Run(s, ops).memory[s.kbuf + o] == if k < 0 then s.memory[s.kbuf + o] else ops[k].v
  {
    BufferKeepsSharedStores(s, ops, o);
    LeftIsLastStore(s, ops, 0, k, AnyShared, o, s.memory[s.kbuf + o]);
  }

  lemma {:induction false} BufferKeepsSharedStores(s: State, ops: seq<Op>, o: nat)
    requires s.Valid() && o < s.pages * PAGE
    ensures Run(s, ops).memory[s.kbuf + o] == Left(s, ops, 0, AnyShared, o, s.memory[s.kbuf + o])
    decreases |ops|
  {
    if ops == [] {
    } else {
      BufferKeepsSharedStores(s, ops[..|ops| - 1], o);
      StepChangesBuffer(Run(s, ops[..|ops| - 1]), ops[|ops| - 1], o);
    }
  }

  /** No run changes a byte of memory outside the buffer, but in the frames it hands out for private copies. */
  lemma {:induction false} OnlyCopiesChangeOutside(s: State, ops: seq<Op>, a: nat)
    requires s.Valid() && a < |s.memory| && !(s.kbuf <= a < s.kbuf + s.pages * PAGE)
    requires a / PAGE !in Run(s, ops).owner
    ensures Run(s, ops).memory[a] == s.memory[a]
    decreases |ops|
  {
    if ops == [] {
    } else {
      var t := Run(s, ops[..|ops| - 1]);
      OnlyCopiesChangeOutside(s, ops[..|ops| - 1], a);
      StepChangesOutside(t, ops[|ops| - 1], a);
    }
  }

  /** The first offset of the buffer that an access shows, and how many it shows. */
  function From(op: Op): nat
    requires op.Load? || op.Read?
  {
    if op.Load? then op.o else op.pos
  }

  function Count(s: State, op: Op): nat
    requires op.Load? || op.Read?
  {
    var size := s.pages * PAGE;
    if op.Load? then 1 else if op.pos < size then Min(op.cnt, size - op.pos) else 0
  }

  /** What a read call shows, and a load through a shared mapping, is the buffer from its offset on. */
  lemma AnswerIsBuffer(t: State, op: Op, b: nat)
    requires t.Valid() && (op.Read? || (op.Load? && t.Reaches(op.m, op.o) && t.maps[op.m].shared))
    requires Answer(t, op).Data? && b < Count(t, op)
    ensures From(op) + b < t.pages * PAGE && |Answer(t, op).bytes| == Count(t, op)
    ensures Answer(t, op).bytes[b] == t.memory[t.kbuf + (From(op) + b)]
  {
    if op.Load? { t.PteIsInside(op.m, op.o); }
  }

  /**
   After any run of mappings, stores and reads, shared and private: a read call, and a load through any shared mapping,
   returns at every offset the byte of the last store there through any shared mapping, or what the buffer held first.
   */
  lemma {:induction false} ReadsSeeLastSharedStore(s: State, ops: seq<Op>, op: Op, b: nat, o: nat, k: int)
    requires s.Valid()
    requires var t := Run(s, ops); op.Read? || (op.Load? && t.Reaches(op.m, op.o) && t.maps[op.m].shared)
    requires Answer(Run(s, ops), op).Data? && b < Count(s, op) && o == From(op) + b
    requires LastStore(s, ops, 0, k, AnyShared, o)
    ensures o < s.pages * PAGE
    ensures var got := Answer(Run(s, ops), op).bytes;
      |got| == Count(s, op) && got[b] == if k < 0 then s.memory[s.kbuf + o] else ops[k].v
  {
    var t := Run(s, ops);
    assert Count(t, op) == Count(s, op);
    AnswerIsBuffer(t, op, b);
    BufferIsLastSharedStores(s, ops, k, o);
  }

  // ----- Private mappings -----

  /** Step `k` of a run is a successful store through mapping `m` to the page of offset `o`. */
  ghost predicate Touches(s: State, ops: seq<Op>, k: int, m: nat, o: nat)
    requires s.Valid()
  {
    0 <= k < |ops| && StoresPage(Run(s, ops[..k]), ops[k], m, o)
  }

  /** Step `c` is the first such step of a run; its length when there is none. */
  ghost predicate FirstTouch(s: State, ops: seq<Op>, c: nat, m: nat, o: nat)
    requires s.Valid()
  {
    c <= |ops| && (c < |ops| ==> Touches(s, ops, c, m, o)) && forall j | 0 <= j < c :: !Touches(s, ops, j, m, o)
  }

  lemma TouchesInFront(s: State, ops: seq<Op>, c: nat, m: nat, o: nat)
    requires s.Valid() && ops != [] && FirstTouch(s, ops, c, m, o)
    ensures var n := |ops| - 1; FirstTouch(s, ops[..n], if c < n then c else n, m, o)
  {
    var n := |ops| - 1;
    forall j | 0 <= j < n ensures Touches(s, ops, j, m, o) <==> Touches(s, ops[..n], j, m, o) {
      assert ops[..n][..j] == ops[..j];
    }
  }

  /** A private mapping stays private and as long as it is. */
  lemma {:induction false} PrivateStays(s: State, ops: seq<Op>, m: nat, o: nat)
    requires s.Valid() && s.Reaches(m, o) && !s.maps[m].shared
    ensures Run(s, ops).Reaches(m, o) && !Run(s, ops).maps[m].shared
    decreases |ops|
  {
    if ops == [] {
    } else {
      PrivateStays(s, ops[..|ops| - 1], m, o);
    }
  }

  /** What a private mapping shows after a run, told from what it showed one step before. */
  lemma {:induction false} RunPrivateStep(s: State, ops: seq<Op>, m: nat, o: nat)
    requires s.Valid() && s.Reaches(m, o) && !s.maps[m].shared && ops != []
    ensures var n := |ops| - 1;
      var t, u, own := Run(s, ops[..n]), Run(s, ops), Touches(s, ops, n, m, o);
      && t.Reaches(m, o) && u.Reaches(m, o) && (u.Copied(m, o) <==> t.Copied(m, o) || own)
      && (u.Copied(m, o) ==> Seen(u, m, o) == if Stores(s, ops, n, Only(m), o) then ops[n].v else Seen(t, m, o))
  {
    PrivateStays(s, ops[..|ops| - 1], m, o);
    StepChangesPrivate(Run(s, ops[..|ops| - 1]), ops[|ops| - 1], m, o);
  }

  lemma UncopiedShowsBuffer(s: State, m: nat, o: nat)
    requires s.Valid() && s.Reaches(m, o)
    ensures o < s.pages * PAGE && (!s.Copied(m, o) ==> Seen(s, m, o) == s.memory[s.kbuf + o])
  {
    s.PteIsInside(m, o);
  }

  lemma {:induction false} CopiedByTouch(s: State, ops: seq<Op>, m: nat, o: nat, c: nat)
    requires s.Valid() && s.Reaches(m, o) && !s.maps[m].shared && !s.Copied(m, o) && FirstTouch(s, ops, c, m, o)
    ensures Run(s, ops).Reaches(m, o) && (Run(s, ops).Copied(m, o) <==> c < |ops|)
    decreases |ops|
  {
    if ops == [] {
    } else {
      var n := |ops| - 1;
      TouchesInFront(s, ops, c, m, o);
      CopiedByTouch(s, ops[..n], m, o, if c < n then c else n);
      RunPrivateStep(s, ops, m, o);
    }
  }

  lemma FirstTouchCopies(s: State, ops: seq<Op>, m: nat, o: nat, c: nat)
    requires s.Valid() && s.Reaches(m, o) && !s.maps[m].shared && !s.Copied(m, o)
    requires FirstTouch(s, ops, c, m, o) && c < |ops|
    ensures Copies(s, ops, c, m, o)
  {
    forall j | 0 <= j < c ensures !Touches(s, ops[..c], j, m, o) {
      assert ops[..c][..j] == ops[..j] && !Touches(s, ops, j, m, o);
    }
    CopiedByTouch(s, ops[..c], m, o, c);
  }

  /** Step `c` copies the page of offset `o` for mapping `m`. */
  ghost predicate Copies(s: State, ops: seq<Op>, c: nat, m: nat, o: nat)
    requires s.Valid()
  {
    c < |ops| && Touches(s, ops, c, m, o) && var t := Run(s, ops[..c]); t.Reaches(m, o) && !t.Copied(m, o)
  }

  lemma CopiesInFront(s: State, ops: seq<Op>, c: nat, m: nat, o: nat)
    requires s.Valid() && Copies(s, ops, c, m, o) && c < |ops| - 1
    ensures ops[..|ops| - 1][..c] == ops[..c] && Copies(s, ops[..|ops| - 1], c, m, o)
  {
    assert ops[..|ops| - 1][..c] == ops[..c];
  }

  lemma {:induction false} NewCopyShows(s: State, ops: seq<Op>, m: nat, o: nat)
    requires s.Valid() && s.Reaches(m, o) && !s.maps[m].shared && o < s.pages * PAGE
    requires ops != [] && Copies(s, ops, |ops| - 1, m, o)
    ensures var u, n := Run(s, ops), |ops| - 1;
      && u.Reaches(m, o) && u.Copied(m, o)
      && Seen(u, m, o) == if Stores(s, ops, n, Only(m), o) then ops[n].v else Run(s, ops[..n]).memory[s.kbuf + o]
  {
    RunPrivateStep(s, ops, m, o);
    UncopiedShowsBuffer(Run(s, ops[..|ops| - 1]), m, o);
  }

  /** From the step that makes it on, a copy holds what the buffer held then, and the mapping's own stores. */
  lemma {:induction false} CopyHoldsOwnStores(s: State, ops: seq<Op>, m: nat, o: nat, c: nat, held: byte)
    requires s.Valid() && s.Reaches(m, o) && !s.maps[m].shared && o < s.pages * PAGE
    requires Copies(s, ops, c, m, o) && held == Run(s, ops[..c]).memory[s.kbuf + o]
    ensures Run(s, ops).Reaches(m, o) && Run(s, ops).Copied(m, o)
    ensures Seen(Run(s, ops), m, o) == Left(s, ops, c, Only(m), o, held)
    decreases |ops|
  {
    var n := |ops| - 1;
    if c == n {
      NewCopyShows(s, ops, m, o);
      assert Left(s, ops[..n], c, Only(m), o, held) == held;
    } else {
      CopiesInFront(s, ops, c, m, o);
      CopyHoldsOwnStores(s, ops[..n], m, o, c, held);
      RunPrivateStep(s, ops, m, o);
    }
  }

  /**
   A load through a private mapping sees the buffer until the page is first stored to through that mapping; from then on
   it sees the copy made at that moment, and in it the mapping's own stores and nothing else.
   */
  lemma {:induction false} PrivateLoadSeesItsCopy(s: State, ops: seq<Op>, m: nat, o: nat, c: nat, k: int)
    requires s.Valid() && s.Reaches(m, o) && !s.maps[m].shared && !s.Copied(m, o)
    requires FirstTouch(s, ops, c, m, o) && LastStore(s, ops, c, k, Only(m), o)
    ensures o < s.pages * PAGE
    ensures Answer(Run(s, ops), Load(m, o))
         == Data([if k >= c then ops[k].v else Run(s, ops[..c]).memory[s.kbuf + o]])
  {
    UncopiedShowsBuffer(s, m, o);
    if c < |ops| {
      FirstTouchCopies(s, ops, m, o, c);
      var held := Run(s, ops[..c]).memory[s.kbuf + o];
      CopyHoldsOwnStores(s, ops, m, o, c, held);
      LeftIsLastStore(s, ops, c, k, Only(m), o, held);
    } else {
      CopiedByTouch(s, ops, m, o, c);
      UncopiedShowsBuffer(Run(s, ops), m, o);
      assert ops[..c] == ops;
    }
  }

  lemma OneByteRead(t: State, o: nat)
    requires t.Valid() && o < t.pages * PAGE
    ensures Answer(t, Read(o, 1, false)) == Data([t.memory[t.kbuf + o]])
  {
  }

  /** A store through mapping `m` is what the read call sees, whatever its value, if and only if `m` is shared. */
  lemma {:induction false} StoreIsReadExactlyIfShared(s: State, m: nat, o: nat, frame: nat)
    requires s.Valid() && s.Reaches(m, o)
    ensures (forall v :: Answer(Apply(s, Store(m, o, v, frame)), Read(o, 1, false)) == Data([v])) <==> s.maps[m].shared
  {
    s.PteIsInside(m, o);
    forall v ensures var t := Apply(s, Store(m, o, v, frame));
        && Answer(t, Read(o, 1, false)) == Data([t.memory[s.kbuf + o]])
        && t.memory[s.kbuf + o] == if s.maps[m].shared then v else s.memory[s.kbuf + o] {
      OneByteRead(Apply(s, Store(m, o, v, frame)), o);
      StepChangesBuffer(s, Store(m, o, v, frame), o);
    }
    var other: byte := if s.memory[s.kbuf + o] == 0 then 1 else 0;
    assert s.maps[m].shared || Answer(Apply(s, Store(m, o, other, frame)), Read(o, 1, false)) != Data([other]);
  }

  lemma RunOfTwo(s: State, a: Op, b: Op)
    requires s.Valid()
    ensures Run(s, [a, b]) == Apply(Apply(s, a), b)
  {
    assert [a, b][..1] == [a] && [a][..0] == [];
    assert Run(s, []) == s && Run(s, [a]) == Apply(s, a);
  }

  /** The first store through a private mapping lands in the frame offered. */
  lemma FirstStoreGoesToFrame(s: State, m: nat, o: nat, v: byte, frame: nat)
    requires s.Valid() && s.Reaches(m, o) && !s.maps[m].shared && !s.Copied(m, o) && s.Free(frame)
    ensures var t := Apply(s, Store(m, o, v, frame));
      t.Reaches(m, o) && t.Address(m, o) == frame * PAGE + o % PAGE && Seen(t, m, o) == v
  {
    StepChangesPrivate(s, Store(m, o, v, frame), m, o);
  }

  /** A run that loses a store: one page mapped privately, a new value stored at its start, and the read call. */
  lemma {:induction false} PrivateStoreIsLost(s: State, v: byte, frame: nat)
    requires s.Valid() && s.pages > 0 && s.Free(frame)
    ensures var m := |s.maps|;
      var t := Run(s, [Mmap(0, 1, false, false), Store(m, 0, v, frame)]);
      && Answer(t, Read(0, 1, false)) == Data([s.memory[s.kbuf]])
      && t.Reaches(m, 0) && t.Address(m, 0) == frame * PAGE && Seen(t, m, 0) == v
  {
    var m, mmap, store := |s.maps|, Mmap(0, 1, false, false), Store(|s.maps|, 0, v, frame);
    RunOfTwo(s, mmap, store);
    NewPrivateMapping(s, frame);
    var u := Apply(s, mmap);
    StepChangesBuffer(u, store, 0);
    OneByteRead(Apply(u, store), 0);
    FirstStoreGoesToFrame(u, m, 0, v, frame);
  }

  lemma NewPrivateMapping(s: State, frame: nat)
    requires s.Valid() && s.pages > 0 && s.Free(frame)
    ensures var u, m := Apply(s, Mmap(0, 1, false, false)), |s.maps|;
      && u.Reaches(m, 0) && !u.Copied(m, 0) && !u.maps[m].shared && u.Free(frame)
      && u.memory == s.memory
  {
  }

  // ----- The machine as an object -----

  class Machine {
    const memory: array<byte>   // physical memory
    const kbuf: nat             // physical address of the buffer
    const pages: nat
    var maps: seq<Mapping>
    var owner: map<nat, (nat, nat)>

    ghost function View(): State
      reads this, memory
    {
      State(memory[..], kbuf, pages, maps, owner)
    }

    /** The loaded module: a page-aligned buffer somewhere in memory, no mapping, no copy. */
    constructor (memory: array<byte>, kbuf: nat, pages: nat)
      requires kbuf % PAGE == 0 && kbuf + pages * PAGE <= memory.Length
      ensures View() == State(memory[..], kbuf, pages, [], map[]) && View().Valid() && this.memory == memory
    {
      this.memory, this.kbuf, this.pages, maps, owner := memory, kbuf, pages, [], map[];
    }

    /** mbuf_mmap for a mapping of `n` pages at page offset `pgoff`; it does not look at the sharing flag. */
    method Mmap(pgoff: nat, n: nat, shared: bool, remapFails: bool) returns (r: Result<nat>)
      requires View().Valid()
      modifies this`maps
      ensures r == if pgoff != 0 || n > pages then Err(EINVAL)
                   else if remapFails then Err(EAGAIN)
                   else Ok(|old(maps)|)
      ensures maps == if r.Ok? then old(maps) + [Mapping(Remap(kbuf / PAGE, n), shared)] else old(maps)
      ensures View() == Apply(old(View()), Op.Mmap(pgoff, n, shared, remapFails)) && View().Valid()
    {
      if pgoff != 0 || n * PAGE > pages * PAGE {
        return Err(EINVAL);
      }
      var pfn := kbuf / PAGE;
      if remapFails {
        return Err(EAGAIN);
      }
      maps := maps + [Mapping(Remap(pfn, n), shared)];
      return Ok(|maps| - 1);
    }

    method CopyBytes(frame: nat, at: nat)
      requires (frame + 1) * PAGE <= memory.Length && at + PAGE <= memory.Length
      requires (frame + 1) * PAGE <= at || at + PAGE <= frame * PAGE
      modifies memory
      ensures memory[..] == Splice(old(memory[..]), frame * PAGE, old(memory[..])[at..at + PAGE])
    {
      assert memory[at..at + PAGE] == memory[..][at..at + PAGE];
      Memcpy(memory, frame * PAGE, memory, at, PAGE);
    }

    /** The memory manager's copy on write: the page moves to `frame` and its entry follows. */
    method Copy(m: nat, o: nat, frame: nat)
      requires View().Valid() && View().Reaches(m, o) && !View().Copied(m, o) && !maps[m].shared && View().Free(frame)
      modifies this`maps, this`owner, memory
      ensures View() == CopyPage(old(View()), m, o, frame)
    {
      var i := o / PAGE;
      var at := kbuf + i * PAGE;
      View().PteIsInside(m, o);
      FrameApart(View(), i, frame);
      CopyBytes(frame, at);
      maps := maps[m := maps[m].(pte := maps[m].pte[i := frame])];
      owner := owner[frame := (m, i)];
    }

    /** A user store: through the page table, after a copy if the page is private and still the buffer's. */
    method Store(m: nat, o: nat, v: byte, frame: nat) returns (ok: bool)
      requires View().Valid()
      modifies this`maps, this`owner, memory
      ensures var op := Op.Store(m, o, v, frame);
        ok == Succeeds(old(View()), op) && View() == Apply(old(View()), op) && View().Valid()
    {
      if m >= |maps| || o / PAGE >= |maps[m].pte| {
        return false;
      }
      View().PteIsInside(m, o);
      if !maps[m].shared && maps[m].pte[o / PAGE] == kbuf / PAGE + o / PAGE {
        if frame in owner || kbuf / PAGE <= frame < kbuf / PAGE + pages || (frame + 1) * PAGE > memory.Length {
          return false;
        }
        Copy(m, o, frame);
        View().PteIsInside(m, o);
      }
      memory[Translate(maps[m].pte, o)] := v;
      return true;
    }

    /** A user load. */
    method Load(m: nat, o: nat) returns (r: Reply)
      requires View().Valid()
      ensures r == Answer(View(), Op.Load(m, o))
    {
      if m >= |maps| || o / PAGE >= |maps[m].pte| {
        return Fault;
      }
      View().PteIsInside(m, o);
      return Data([memory[Translate(maps[m].pte, o)]]);
    }

    /** mbuf_read at `pos`. */
    method Read(pos: nat, cnt: nat, fault: bool) returns (r: Result<seq<byte>>, pos': nat)
      requires View().Valid()
      ensures var all := View().Buffer();
        var got := if pos >= |all| then [] else all[pos..pos + Min(cnt, |all| - pos)];
        if got != [] && fault then r == Err(EFAULT) && pos' == pos else r == Ok(got) && pos' == pos + |got|
      ensures Answer(View(), Op.Read(pos, cnt, fault)) == if r.Ok? then Data(r.value) else Failed(EFAULT)
    {
      var size := pages * PAGE;
      if pos >= size {
        return Ok([]), pos;
      }
      var n := Min(cnt, size - pos);
      if n > 0 && fault {
        return Err(EFAULT), pos;
      }
      SubSlice(memory[..], kbuf, kbuf + size, pos, pos + n);
      assert memory[kbuf + pos..kbuf + pos + n] == memory[..][kbuf + pos..kbuf + pos + n];
      return Ok(memory[kbuf + pos..kbuf + pos + n]), pos + n;
    }
  }
}
