/**
 The RAM disk of `04-char-block-net/block/ramdisk.c`: `rb_transfer` moves a request's segments to or from
 the disk memory one after the other.  Capacity and segmentation are arbitrary.  The block layer's promises
 are preconditions: a request lies within the capacity, and the segments of a read do not overlap.
 */
module Ramdisk {
  import opened Bytes

  const SECTOR := 512

  /** One bio_vec: `len` bytes of a page-cache page. */
  datatype Segment = Segment(page: array<byte>, offset: nat, len: nat)

  ghost predicate Fits(segs: seq<Segment>) {
    forall i | 0 <= i < |segs| :: segs[i].offset + segs[i].len <= segs[i].page.Length
  }

  ghost predicate Overlap(s: Segment, t: Segment) {
    && s.page == t.page && s.len > 0 && t.len > 0
    && s.offset < t.offset + t.len && t.offset < s.offset + s.len
  }

  ghost function Pages(segs: seq<Segment>): set<array<byte>> { set s | s in segs :: s.page }

  ghost function Held(s: Segment): seq<byte>
    requires s.offset + s.len <= s.page.Length
    reads s.page
  {
    s.page[s.offset..s.offset + s.len]
  }

  ghost predicate Covered(segs: seq<Segment>, page: array<byte>, b: int) {
    exists i | 0 <= i < |segs| :: segs[i].page == page && segs[i].offset <= b < segs[i].offset + segs[i].len
  }

  /** `pieces` are the bytes the segments hold, one piece each. */
  ghost predicate Holds(segs: seq<Segment>, pieces: seq<seq<byte>>)
    requires Fits(segs)
    reads Pages(segs)
  {
    && |pieces| == |segs|
    && forall i | 0 <= i < |segs| :: segs[i].page in Pages(segs) && Held(segs[i]) == pieces[i]
  }

  /** The pieces joined in order. */
  function Concat(pieces: seq<seq<byte>>): seq<byte> {
    if pieces == [] then [] else Concat(pieces[..|pieces| - 1]) + pieces[|pieces| - 1]
  }

  /** The bytes the segments hold, joined. */
  ghost function Joined(segs: seq<Segment>): seq<byte>
    requires Fits(segs)
    reads Pages(segs)
  {
    if segs == [] then []
    else
      var k := |segs| - 1;
      assert Pages(segs[..k]) <= Pages(segs) && segs[k].page in Pages(segs);
      Joined(segs[..k]) + Held(segs[k])
  }

  lemma JoinedStep(segs: seq<Segment>, n: nat)
    requires Fits(segs) && 0 < n <= |segs|
    ensures Joined(segs[..n]) == Joined(segs[..n - 1]) + Held(segs[n - 1])
  {
    assert segs[..n][..n - 1] == segs[..n - 1];
  }

  /** The bytes the segments hold, one piece each. */
  lemma {:induction false} Gather(segs: seq<Segment>) returns (pieces: seq<seq<byte>>)
    requires Fits(segs)
    ensures Holds(segs, pieces) && Concat(pieces) == Joined(segs)
  {
    if segs == [] {
      pieces := [];
    } else {
      var k := |segs| - 1;
      var front := Gather(segs[..k]);
      pieces := front + [Held(segs[k])];
      assert pieces[..k] == front;
      forall i | 0 <= i < |segs| ensures segs[i].page in Pages(segs) && Held(segs[i]) == pieces[i] {
        if i < k { assert segs[..k][i] == segs[i] && Held(segs[..k][i]) == front[i]; }
      }
    }
  }

  /** Where each segment of a request at `start` begins on the disk, and where the last one ends. */
  function Offsets(segs: seq<Segment>, start: nat): (at: seq<nat>)
    ensures |at| == |segs| + 1 && at[0] == start
  {
    if segs == [] then [start]
    else
      var front := Offsets(segs[..|segs| - 1], start);
      front + [front[|segs| - 1] + segs[|segs| - 1].len]
  }

  lemma {:induction false} OffsetsStep(segs: seq<Segment>, start: nat, j: nat)
    requires j < |segs|
    ensures var at := Offsets(segs, start); at[j] + segs[j].len == at[j + 1] <= at[|segs|]
    decreases |segs|
  {
    if j == |segs| - 1 {
    } else {
      OffsetsStep(segs[..|segs| - 1], start, j);
    }
  }

  lemma {:induction false} PieceAt(pieces: seq<seq<byte>>, j: nat)
    requires j < |pieces|
    ensures Concat(pieces[..j + 1]) == Concat(pieces[..j]) + pieces[j]
    ensures |Concat(pieces[..j + 1])| <= |Concat(pieces)|
    decreases |pieces|
  {
    assert pieces[..j + 1][..j] == pieces[..j];
    if j == |pieces| - 1 {
      assert pieces[..j + 1] == pieces;
    } else {
      var front := pieces[..|pieces| - 1];
      assert front[..j] == pieces[..j] && front[..j + 1] == pieces[..j + 1];
      PieceAt(front, j);
    }
  }

  class Disk {
    const data: array<byte>

    constructor (sectors: nat)
      ensures fresh(data) && data.Length == sectors * SECTOR
      ensures forall b | 0 <= b < data.Length :: data[b] == 0
    {
      data := new byte[sectors * SECTOR](_ => 0);
    }

    /** memcpy(dst, kaddr + bv_offset, bv_len) */
    method CopyIn(pos: nat, s: Segment, ghost held: seq<byte>)
      requires s.offset + s.len <= s.page.Length && s.page != data && held == Held(s)
      requires pos + s.len <= data.Length
      modifies data
      ensures data[..] == Splice(old(data[..]), pos, held)
    {
      Memcpy(data, pos, s.page, s.offset, s.len);
    }

    /** One turn of the loop of a write: segment `j` lands behind those before it. */
    method WriteSegment(segs: seq<Segment>, j: nat, pos: nat, ghost pieces: seq<seq<byte>>,
                        ghost before: seq<byte>, ghost start: nat)
        returns (pos': nat)
      requires Fits(segs) && data !in Pages(segs) && Holds(segs, pieces) && j < |segs|
      requires |before| == data.Length && start + |Concat(pieces)| <= data.Length
      requires pos == start + |Concat(pieces[..j])| && start + |Concat(pieces[..j])| <= |before|
      requires data[..] == Splice(before, start, Concat(pieces[..j]))
      modifies data
      ensures pos' == start + |Concat(pieces[..j + 1])| <= data.Length
      ensures data[..] == Splice(before, start, Concat(pieces[..j + 1]))
    {
      PieceAt(pieces, j);
      assert segs[j].page in Pages(segs) && Held(segs[j]) == pieces[j];
      ghost var mid := data[..];
      CopyIn(pos, segs[j], pieces[j]);
      ExtendWrite(before, start, pieces, j, mid, data[..]);
      pos' := pos + segs[j].len;
    }

    /** A write request: the segments land one after the other from the start sector on; nothing else changes. */
    method TransferWrite(sector: nat, segs: seq<Segment>, ghost pieces: seq<seq<byte>>)
      requires Fits(segs) && data !in Pages(segs) && Holds(segs, pieces)
      requires sector * SECTOR + |Concat(pieces)| <= data.Length
      modifies data
      ensures data[..] == Splice(old(data[..]), sector * SECTOR, Concat(pieces))
    {
      ghost var start, before := sector * SECTOR, data[..];
      var pos := sector * SECTOR;
      var j := 0;
      while j < |segs|
        invariant j <= |segs| && pos == start + |Concat(pieces[..j])| <= data.Length
        invariant data[..] == Splice(before, start, Concat(pieces[..j]))
      {
        pos := WriteSegment(segs, j, pos, pieces, before, start);
        j := j + 1;
      }
      assert pieces[..|segs|] == pieces;
    }

    /** memcpy(kaddr + bv_offset, dst, bv_len) */
    method CopyOut(pos: nat, s: Segment)
      requires s.offset + s.len <= s.page.Length && s.page != data
      requires pos + s.len <= data.Length
      modifies s.page
      ensures forall b | 0 <= b < s.page.Length ::
                s.page[b] == if s.offset <= b < s.offset + s.len then data[pos + b - s.offset] else old(s.page[b])
    {
      Memcpy(s.page, s.offset, data, pos, s.len);
      SpliceIs(old(s.page[..]), s.offset, data[pos..pos + s.len], s.page[..]);
      assert forall b | 0 <= b < s.page.Length :: s.page[b] == s.page[..][b];
    }

    /** Segment `s` holds the part of the disk that starts at `at`. */
    ghost predicate Received(s: Segment, at: nat)
      reads s.page, data
    {
      && s.offset + s.len <= s.page.Length && at + s.len <= data.Length
      && forall b | s.offset <= b < s.offset + s.len :: s.page[b] == data[at + b - s.offset]
    }

    /** Every segment of a request at `start` holds its part of the disk. */
    ghost predicate AllReceived(segs: seq<Segment>, start: nat)
      reads Pages(segs), data
    {
      var at := Offsets(segs, start);
      && at[|segs|] <= data.Length
      && forall i | 0 <= i < |segs| :: segs[i].page in Pages(segs) && Received(segs[i], at[i])
    }

    /** One turn of the loop of a read: segment `j` receives its part, those before it keep theirs. */
    method ReadSegment(segs: seq<Segment>, j: nat, pos: nat, ghost at: seq<nat>) returns (pos': nat)
      requires Fits(segs) && data !in Pages(segs) && j < |segs| && |at| == |segs| + 1
      requires forall i | 0 <= i < j :: !Overlap(segs[i], segs[j]) && Received(segs[i], at[i])
      requires pos == at[j] && at[j] + segs[j].len == at[j + 1] <= data.Length
      modifies segs[j].page
      ensures pos' == at[j + 1] && forall i | 0 <= i <= j :: Received(segs[i], at[i])
      ensures var s := segs[j];
        forall b | 0 <= b < s.page.Length && !(s.offset <= b < s.offset + s.len) :: s.page[b] == old(s.page[b])
    {
      assert segs[j].page in Pages(segs);
      CopyOut(pos, segs[j]);
      forall i | 0 <= i < j ensures Received(segs[i], at[i]) {
        var s := segs[i];
        assert old(Received(s, at[i])) && !Overlap(s, segs[j]);
        forall b | s.offset <= b < s.offset + s.len ensures s.page[b] == old(s.page[b]) {}
      }
      pos' := pos + segs[j].len;
    }

    /** A read request: every segment receives its part of the disk, in order, and no other byte changes. */
    method TransferRead(sector: nat, segs: seq<Segment>, ghost at: seq<nat>)
      requires Fits(segs) && data !in Pages(segs)
      requires forall i, j | 0 <= i < j < |segs| :: !Overlap(segs[i], segs[j])
      requires at == Offsets(segs, sector * SECTOR) && at[|segs|] <= data.Length
      modifies Pages(segs)
      ensures AllReceived(segs, sector * SECTOR)
      ensures forall p, b | p in Pages(segs) && 0 <= b < p.Length && !Covered(segs, p, b) :: p[b] == old(p[b])
    {
      var pos := sector * SECTOR;
      var j := 0;
      while j < |segs|
        invariant j <= |segs| && pos == at[j]
        invariant forall i | 0 <= i < j :: Received(segs[i], at[i])
        invariant forall p, b | p in Pages(segs) && 0 <= b < p.Length && !Covered(segs, p, b) :: p[b] == old(p[b])
      {
        assert segs[j].page in Pages(segs);
        OffsetsStep(segs, sector * SECTOR, j);
        pos := ReadSegment(segs, j, pos, at);
        j := j + 1;
      }
    }

    lemma ReceivedPart(s: Segment, at: nat)
      requires Received(s, at)
      ensures at + s.len <= |data[..]| && Held(s) == data[..][at..at + s.len]
    {
    }

    lemma {:induction false} ReceivedUpTo(segs: seq<Segment>, start: nat, n: nat)
      requires Fits(segs) && AllReceived(segs, start) && n <= |segs|
      ensures var end := Offsets(segs, start)[n];
        start <= end <= data.Length && Joined(segs[..n]) == data[..][start..end]
    {
      if n == 0 {
        assert Offsets(segs, start)[0] == start;
      } else {
        var mid := Offsets(segs, start)[n - 1];
        ReceivedUpTo(segs, start, n - 1);
        OffsetsStep(segs, start, n - 1);
        assert Received(segs[n - 1], mid);
        ReceivedPart(segs[n - 1], mid);
        JoinedStep(segs, n);
        SpansJoin(data[..], start, mid, mid + segs[n - 1].len);
      }
    }

    /** What the segments of a served read hold, joined, is the span of the disk: the output of a ReadReq. */
    lemma {:induction false} ReceivedJoins(segs: seq<Segment>, start: nat)
      requires Fits(segs) && AllReceived(segs, start)
      ensures var n := |Joined(segs)|;
        start + n == Offsets(segs, start)[|segs|] <= data.Length && Joined(segs) == data[..][start..start + n]
    {
      ReceivedUpTo(segs, start, |segs|);
      assert segs[..|segs|] == segs;
    }
  }

  lemma SpansJoin(s: seq<byte>, a: nat, b: nat, c: nat)
    requires a <= b <= c <= |s|
    ensures s[a..b] + s[b..c] == s[a..c]
  {
  }

  // ----- Runs of requests -----

  /** A served request, its segments joined: what TransferWrite and TransferRead do to the flat disk. */
  datatype Request = WriteReq(pos: nat, payload: seq<byte>) | ReadReq(pos: nat, len: nat) {
    predicate InCapacity(capacity: nat) {
      pos + (if WriteReq? then |payload| else len) <= capacity
    }

    predicate Covers(b: nat) { WriteReq? && pos <= b < pos + |payload| }

    function Serve(disk: seq<byte>): (r: seq<byte>)
      requires InCapacity(|disk|)
      ensures |r| == |disk|
    {
      if WriteReq? then Splice(disk, pos, payload) else disk
    }

    function Output(disk: seq<byte>): seq<byte>
      requires InCapacity(|disk|)
    {
      if ReadReq? then disk[pos..pos + len] else []
    }
  }

  predicate AllInCapacity(rs: seq<Request>, capacity: nat) {
    forall r | r in rs :: r.InCapacity(capacity)
  }

  function Final(disk: seq<byte>, rs: seq<Request>): (r: seq<byte>)
    requires AllInCapacity(rs, |disk|)
    ensures |r| == |disk|
  {
    if rs == [] then disk else rs[|rs| - 1].Serve(Final(disk, rs[..|rs| - 1]))
  }

  function Blank(capacity: nat): seq<byte> { seq(capacity, _ => 0) }

  /** The last write of a run that covers byte `b` is request `k`; -1 when none does. */
  ghost predicate LastWriter(rs: seq<Request>, k: int, b: nat) {
    -1 <= k < |rs| && (k >= 0 ==> rs[k].Covers(b)) && forall i | k < i < |rs| :: !rs[i].Covers(b)
  }

  lemma {:induction false} SomeWriterIsLast(rs: seq<Request>, b: nat) returns (k: int)
    ensures LastWriter(rs, k, b)
  {
    var n := |rs| - 1;
    if rs == [] || rs[n].Covers(b) {
      k := n;
    } else {
      k := SomeWriterIsLast(rs[..n], b);
      assert forall i | 0 <= i < n :: rs[..n][i] == rs[i];
    }
  }

  lemma ServeAt(disk: seq<byte>, r: Request, b: nat)
    requires r.InCapacity(|disk|) && b < |disk|
    ensures r.Serve(disk)[b] == if r.Covers(b) then r.payload[b - r.pos] else disk[b]
  {
    if r.WriteReq? { SpliceIs(disk, r.pos, r.payload, Splice(disk, r.pos, r.payload)); }
  }

  /** After any run, a byte of the disk is the byte of the last write that covers it, or zero if none does. */
  lemma {:induction false} DiskIsLastWrites(capacity: nat, rs: seq<Request>, k: int, b: nat)
    requires AllInCapacity(rs, capacity) && b < capacity && LastWriter(rs, k, b)
    ensures Final(Blank(capacity), rs)[b] == if k < 0 then 0 else rs[k].payload[b - rs[k].pos]
    decreases |rs|
  {
    if rs == [] {
    } else {
      var n := |rs| - 1;
      assert rs[n] in rs;
      ServeAt(Final(Blank(capacity), rs[..n]), rs[n], b);
      if k < n {
        assert !rs[n].Covers(b) && forall i | k < i < n :: rs[..n][i] == rs[i];
        DiskIsLastWrites(capacity, rs[..n], k, b);
      }
    }
  }

  /** So a read anywhere in a run returns, byte by byte, what the last write before it left there. */
  lemma {:induction false} ReadsReturnLastWrites(capacity: nat, rs: seq<Request>, n: nat, b: nat, k: int)
    requires AllInCapacity(rs, capacity) && n < |rs| && rs[n].ReadReq? && b < rs[n].len
    requires LastWriter(rs[..n], k, rs[n].pos + b)
    ensures AllInCapacity(rs[..n], capacity) && rs[n].InCapacity(capacity)
    ensures rs[n].Output(Final(Blank(capacity), rs[..n]))[b]
         == if k < 0 then 0 else rs[k].payload[rs[n].pos + b - rs[k].pos]
  {
    assert rs[n] in rs;
    DiskIsLastWrites(capacity, rs[..n], k, rs[n].pos + b);
  }

  /** Replacing a stretch of a run by one with the same effect leaves the final disk the same. */
  lemma {:induction false} SameEffect(disk: seq<byte>, before: seq<Request>, x: seq<Request>, y: seq<Request>,
                                      after: seq<Request>)
    requires AllInCapacity(before + x + after, |disk|) && AllInCapacity(before + y + after, |disk|)
    requires AllInCapacity(before, |disk|) && AllInCapacity(x, |disk|) && AllInCapacity(y, |disk|)
    requires Final(Final(disk, before), x) == Final(Final(disk, before), y)
    ensures Final(disk, before + x + after) == Final(disk, before + y + after)
    decreases |after|
  {
    if after == [] {
      assert before + x + after == before + x && before + y + after == before + y;
      FinalAppend(disk, before, x);
      FinalAppend(disk, before, y);
    } else {
      var n := |after| - 1;
      var rx, ry := before + x + after, before + y + after;
      assert rx[..|rx| - 1] == before + x + after[..n] && ry[..|ry| - 1] == before + y + after[..n];
      SameEffect(disk, before, x, y, after[..n]);
    }
  }

  lemma {:induction false} FinalAppend(disk: seq<byte>, xs: seq<Request>, ys: seq<Request>)
    requires AllInCapacity(xs, |disk|) && AllInCapacity(ys, |disk|) && AllInCapacity(xs + ys, |disk|)
    ensures Final(disk, xs + ys) == Final(Final(disk, xs), ys)
    decreases |ys|
  {
    if ys == [] {
      assert xs + ys == xs;
    } else {
      assert (xs + ys)[..|xs + ys| - 1] == xs + ys[..|ys| - 1];
      FinalAppend(disk, xs, ys[..|ys| - 1]);
    }
  }

  function Writes(pos: nat, pieces: seq<seq<byte>>): seq<Request> {
    if pieces == [] then []
    else
      var front := pieces[..|pieces| - 1];
      Writes(pos, front) + [WriteReq(pos + |Concat(front)|, pieces[|pieces| - 1])]
  }

  /**
   Merging: anywhere in a run, adjacent writes may be merged into one write, or one write cut into any
   pieces, without a difference to the final disk.
   */
  lemma {:induction false} MergingIsInvisible(disk: seq<byte>, before: seq<Request>, pos: nat, pieces: seq<seq<byte>>,
                                              after: seq<Request>)
    requires pos + |Concat(pieces)| <= |disk| && AllInCapacity(before, |disk|) && AllInCapacity(after, |disk|)
    ensures AllInCapacity(before + Writes(pos, pieces) + after, |disk|)
    ensures AllInCapacity(before + [WriteReq(pos, Concat(pieces))] + after, |disk|)
    ensures Final(disk, before + Writes(pos, pieces) + after)
         == Final(disk, before + [WriteReq(pos, Concat(pieces))] + after)
  {
    var d := Final(disk, before);
    PiecewiseWrite(d, pos, pieces);
    var one := [WriteReq(pos, Concat(pieces))];
    assert one[..0] == [];
    assert Final(d, one) == one[0].Serve(Final(d, []));
    SameEffect(disk, before, Writes(pos, pieces), one, after);
  }

  lemma {:induction false} PiecewiseWrite(disk: seq<byte>, pos: nat, pieces: seq<seq<byte>>)
    requires pos + |Concat(pieces)| <= |disk|
    ensures AllInCapacity(Writes(pos, pieces), |disk|)
    ensures Final(disk, Writes(pos, pieces)) == Splice(disk, pos, Concat(pieces))
  {
    if pieces == [] {
    } else {
      var front, last := pieces[..|pieces| - 1], pieces[|pieces| - 1];
      PiecewiseWrite(disk, pos, front);
      var ws := Writes(pos, pieces);
      assert ws[..|ws| - 1] == Writes(pos, front);
      MergedWrite(disk, pos, Concat(front), last);
    }
  }

  predicate Apart(r: Request, t: Request) {
    || r.pos + (if r.WriteReq? then |r.payload| else r.len) <= t.pos
    || t.pos + (if t.WriteReq? then |t.payload| else t.len) <= r.pos
  }

  lemma {:induction false} DisjointRequestsCommute(disk: seq<byte>, r: Request, t: Request)
    requires r.InCapacity(|disk|) && t.InCapacity(|disk|) && Apart(r, t)
    ensures t.Serve(r.Serve(disk)) == r.Serve(t.Serve(disk))
    ensures t.Output(r.Serve(disk)) == t.Output(disk) && r.Output(t.Serve(disk)) == r.Output(disk)
  {
    if r.WriteReq? && t.WriteReq? {
      if r.pos + |r.payload| <= t.pos {
        SplicesCommute(disk, r.pos, r.payload, t.pos, t.payload);
      } else {
        SplicesCommute(disk, t.pos, t.payload, r.pos, r.payload);
      }
    } else if r.WriteReq? {
      SpliceElsewhere(disk, r.pos, r.payload, t.pos, t.len);
    } else if t.WriteReq? {
      SpliceElsewhere(disk, t.pos, t.payload, r.pos, r.len);
    }
  }

  lemma SplicesCommute(disk: seq<byte>, p: nat, a: seq<byte>, q: nat, b: seq<byte>)
    requires p + |a| <= q && q + |b| <= |disk|
    ensures Splice(Splice(disk, p, a), q, b) == Splice(Splice(disk, q, b), p, a)
  {
    assert Splice(Splice(disk, p, a), q, b) == disk[..p] + a + disk[p + |a|..q] + b + disk[q + |b|..];
    assert Splice(Splice(disk, q, b), p, a) == disk[..p] + a + disk[p + |a|..q] + b + disk[q + |b|..];
  }

  lemma SpliceElsewhere(disk: seq<byte>, p: nat, a: seq<byte>, q: nat, n: nat)
    requires p + |a| <= |disk| && q + n <= |disk| && (p + |a| <= q || q + n <= p)
    ensures Splice(disk, p, a)[q..q + n] == disk[q..q + n]
  {
  }

  /** Reordering: anywhere in a run two requests on disjoint ranges may be swapped; disk and data read stay the same. */
  lemma {:induction false} ReorderingIsInvisible(disk: seq<byte>, before: seq<Request>, r: Request, t: Request,
                                                 after: seq<Request>)
    requires AllInCapacity(before, |disk|) && AllInCapacity(after, |disk|)
    requires r.InCapacity(|disk|) && t.InCapacity(|disk|) && Apart(r, t)
    ensures AllInCapacity(before + [r, t] + after, |disk|) && AllInCapacity(before + [t, r] + after, |disk|)
    ensures Final(disk, before + [r, t] + after) == Final(disk, before + [t, r] + after)
    ensures var d := Final(disk, before);
            t.Output(r.Serve(d)) == t.Output(d) && r.Output(t.Serve(d)) == r.Output(d)
  {
    var d := Final(disk, before);
    DisjointRequestsCommute(d, r, t);
    TwoRequests(d, r, t);
    TwoRequests(d, t, r);
    SameEffect(disk, before, [r, t], [t, r], after);
  }

  lemma TwoRequests(d: seq<byte>, r: Request, t: Request)
    requires r.InCapacity(|d|) && t.InCapacity(|d|)
    ensures Final(d, [r, t]) == t.Serve(r.Serve(d))
  {
    assert [r, t][..1] == [r] && [r][..0] == [];
    assert Final(d, []) == d && Final(d, [r]) == r.Serve(d);
  }

  lemma ExtendWrite(before: seq<byte>, start: nat, pieces: seq<seq<byte>>, j: nat, mid: seq<byte>, after: seq<byte>)
    requires j < |pieces| && start + |Concat(pieces[..j])| + |pieces[j]| <= |before|
    requires mid == Splice(before, start, Concat(pieces[..j]))
    requires after == Splice(mid, start + |Concat(pieces[..j])|, pieces[j])
    ensures start + |Concat(pieces[..j + 1])| <= |before| && after == Splice(before, start, Concat(pieces[..j + 1]))
  {
    PieceAt(pieces, j);
    MergedWrite(before, start, Concat(pieces[..j]), pieces[j]);
  }

  lemma MergedWrite(s: seq<byte>, pos: nat, a: seq<byte>, b: seq<byte>)
    requires pos + |a| + |b| <= |s|
    ensures Splice(Splice(s, pos, a), pos + |a|, b) == Splice(s, pos, a + b)
  {
  }

  // ----- Runs of segmented requests on the disk object -----

  datatype SegRequest = SegRequest(isWrite: bool, sector: nat, segs: seq<Segment>) {
    /** The block layer's promises for a disk of `capacity` bytes with the memory `data`. */
    ghost predicate Ready(data: array<byte>) {
      && Fits(segs) && data !in Pages(segs) && Offsets(segs, sector * SECTOR)[|segs|] <= data.Length
      && (!isWrite ==> forall i, j | 0 <= i < j < |segs| :: !Overlap(segs[i], segs[j]))
    }

    /** `r` is this request with its segments joined; what a write brings is for the pages to say. */
    ghost predicate Joins(r: Request) {
      && r.pos == sector * 512 && r.WriteReq? == isWrite
      && r.pos + (if r.WriteReq? then |r.payload| else r.len) == Offsets(segs, sector * SECTOR)[|segs|]
    }
  }

  lemma {:induction false} JoinedLength(segs: seq<Segment>, start: nat)
    requires Fits(segs)
    ensures start + |Joined(segs)| == Offsets(segs, start)[|segs|]
  {
    if segs == [] {
    } else {
      JoinedLength(segs[..|segs| - 1], start);
    }
  }

  method QueueWrite(disk: Disk, rq: SegRequest) returns (ghost r: Request)
    requires rq.Ready(disk.data) && rq.isWrite
    modifies disk.data
    ensures r == WriteReq(rq.sector * SECTOR, old(Joined(rq.segs))) && rq.Joins(r) && r.InCapacity(disk.data.Length)
    ensures disk.data[..] == r.Serve(old(disk.data[..]))
  {
    r := WriteReq(rq.sector * SECTOR, Joined(rq.segs));
    JoinedLength(rq.segs, rq.sector * SECTOR);
    ghost var pieces := Gather(rq.segs);
    disk.TransferWrite(rq.sector, rq.segs, pieces);
  }

  method QueueRead(disk: Disk, rq: SegRequest) returns (ghost r: Request)
    requires rq.Ready(disk.data) && !rq.isWrite
    modifies Pages(rq.segs)
    ensures r.ReadReq? && rq.Joins(r) && r.InCapacity(disk.data.Length)
    ensures Joined(rq.segs) == r.Output(disk.data[..])
  {
    ghost var start := rq.sector * SECTOR;
    disk.TransferRead(rq.sector, rq.segs, Offsets(rq.segs, start));
    disk.ReceivedJoins(rq.segs, start);
    r := ReadReq(start, |Joined(rq.segs)|);
  }

  /** rb_queue_rq: one request, in either direction. */
  method QueueRq(disk: Disk, rq: SegRequest) returns (ghost r: Request)
    requires rq.Ready(disk.data)
    modifies if rq.isWrite then {disk.data} else Pages(rq.segs)
    ensures rq.Joins(r) && r.InCapacity(disk.data.Length)
    ensures disk.data[..] == r.Serve(old(disk.data[..]))
    ensures rq.isWrite ==> r.payload == old(Joined(rq.segs))
    ensures !rq.isWrite ==> Joined(rq.segs) == r.Output(disk.data[..])
  {
    if rq.isWrite {
      r := QueueWrite(disk, rq);
    } else {
      r := QueueRead(disk, rq);
    }
  }

  /** The pages that the read requests of a run are served into. */
  ghost function ReadPages(rqs: seq<SegRequest>): set<array<byte>> {
    set rq, page | rq in rqs && !rq.isWrite && page in Pages(rq.segs) :: page
  }

  /** The pages of `rq` hold `bytes`, unless they are among `changed`. */
  ghost predicate Holding(rq: SegRequest, bytes: seq<byte>, changed: set<array<byte>>)
    reads Pages(rq.segs)
  {
    Fits(rq.segs) && (Pages(rq.segs) !! changed ==> Joined(rq.segs) == bytes)
  }

  /** `r` is what becomes of `rq` where its pages hold `bytes`, unless they are among `changed`. */
  ghost predicate Becomes(rq: SegRequest, r: Request, bytes: seq<byte>, changed: set<array<byte>>) {
    rq.Joins(r) && (r.WriteReq? && Pages(rq.segs) !! changed ==> r.payload == bytes)
  }

  /** So becomes each request of a run; a page read into counts as changed for the requests after that. */
  ghost predicate AllBecome(rqs: seq<SegRequest>, rs: seq<Request>, contents: seq<seq<byte>>)
    requires |contents| == |rqs|
  {
    |rs| == |rqs| && forall i | 0 <= i < |rqs| :: Becomes(rqs[i], rs[i], contents[i], ReadPages(rqs[..i]))
  }

  lemma OneMoreBecomes(rqs: seq<SegRequest>, rs: seq<Request>, contents: seq<seq<byte>>, r: Request)
    requires |contents| == |rqs| > 0
    requires var k := |rqs| - 1;
      AllBecome(rqs[..k], rs, contents[..k]) && Becomes(rqs[k], r, contents[k], ReadPages(rqs[..k]))
    ensures AllBecome(rqs, rs + [r], contents)
  {
    var k := |rqs| - 1;
    forall i | 0 <= i < k ensures Becomes(rqs[i], rs[i], contents[i], ReadPages(rqs[..i])) {
      assert rqs[..k][..i] == rqs[..i];
      assert Becomes(rqs[..k][i], rs[i], contents[..k][i], ReadPages(rqs[..k][..i]));
    }
  }

  lemma FinalExtends(disk: seq<byte>, rs: seq<Request>, r: Request)
    requires AllInCapacity(rs, |disk|) && r.InCapacity(|disk|)
    ensures AllInCapacity(rs + [r], |disk|) && Final(disk, rs + [r]) == r.Serve(Final(disk, rs))
  {
    assert (rs + [r])[..|rs|] == rs;
  }

  /** What request `i` of a run puts out: the disk as the requests before it have left it. */
  function OutputAt(disk: seq<byte>, rs: seq<Request>, i: nat): seq<byte>
    requires AllInCapacity(rs, |disk|) && i < |rs|
  {
    rs[i].Output(Final(disk, rs[..i]))
  }

  ghost predicate AllOutputs(disk: seq<byte>, rs: seq<Request>, outs: seq<seq<byte>>)
    requires AllInCapacity(rs, |disk|)
  {
    |outs| == |rs| && forall i | 0 <= i < |rs| :: outs[i] == OutputAt(disk, rs, i)
  }

  lemma OneMoreOutput(disk: seq<byte>, rs: seq<Request>, outs: seq<seq<byte>>, r: Request)
    requires AllInCapacity(rs, |disk|) && r.InCapacity(|disk|) && AllOutputs(disk, rs, outs)
    ensures AllInCapacity(rs + [r], |disk|) && AllOutputs(disk, rs + [r], outs + [r.Output(Final(disk, rs))])
  {
    var all := rs + [r];
    assert all[..|rs|] == rs;
    forall i | 0 <= i < |rs| ensures OutputAt(disk, all, i) == OutputAt(disk, rs, i) {
      assert all[..i] == rs[..i];
    }
  }

  /** The pages of a read hold `out`, unless a later read went into one of them. */
  ghost predicate Delivered(rq: SegRequest, out: seq<byte>, later: set<array<byte>>)
    reads Pages(rq.segs)
  {
    Fits(rq.segs) && (!rq.isWrite && Pages(rq.segs) !! later ==> Joined(rq.segs) == out)
  }

  /** The pages read into after request `i` of a run. */
  ghost function ReadAfter(rqs: seq<SegRequest>, i: nat): set<array<byte>>
    requires i < |rqs|
  {
    ReadPages(rqs[i + 1..])
  }

  lemma ReadAfterStep(rqs: seq<SegRequest>, i: nat)
    requires i < |rqs| - 1
    ensures var k := |rqs| - 1;
      ReadAfter(rqs, i) == ReadAfter(rqs[..k], i) + (if rqs[k].isWrite then {} else Pages(rqs[k].segs))
  {
    var k := |rqs| - 1;
    assert rqs[i + 1..] == rqs[..k][i + 1..] + [rqs[k]];
  }

  lemma RunGrows(disk: seq<byte>, rqs: seq<SegRequest>, rs: seq<Request>, contents: seq<seq<byte>>,
                 outs: seq<seq<byte>>, r: Request)
    requires |contents| == |rqs| > 0 && AllInCapacity(rs, |disk|) && r.InCapacity(|disk|)
    requires AllOutputs(disk, rs, outs)
    requires var k := |rqs| - 1;
      AllBecome(rqs[..k], rs, contents[..k]) && Becomes(rqs[k], r, contents[k], ReadPages(rqs[..k]))
    ensures AllBecome(rqs, rs + [r], contents)
    ensures AllInCapacity(rs + [r], |disk|) && Final(disk, rs + [r]) == r.Serve(Final(disk, rs))
    ensures AllOutputs(disk, rs + [r], outs + [r.Output(Final(disk, rs))])
  {
    FinalExtends(disk, rs, r);
    OneMoreBecomes(rqs, rs, contents, r);
    OneMoreOutput(disk, rs, outs, r);
  }

  /**
   Any run of requests: the disk is the flat disk after the requests with their segments joined.  A write brings what
   its pages held at first (`contents`), as long as no read before it was served into one of them; a read puts into its
   pages what the flat disk held when it was served, and there it stays as long as no later read goes there.
   */
  method ServeAll(disk: Disk, rqs: seq<SegRequest>, ghost contents: seq<seq<byte>>)
      returns (ghost rs: seq<Request>, ghost outs: seq<seq<byte>>)
    requires |contents| == |rqs|
    requires forall i | 0 <= i < |rqs| :: rqs[i].Ready(disk.data) && Holding(rqs[i], contents[i], {})
    modifies disk.data, ReadPages(rqs)
    ensures AllBecome(rqs, rs, contents)
    ensures AllInCapacity(rs, disk.data.Length) && disk.data[..] == Final(old(disk.data[..]), rs)
    ensures AllOutputs(old(disk.data[..]), rs, outs)
    ensures forall i | 0 <= i < |rqs| :: Delivered(rqs[i], outs[i], ReadAfter(rqs, i))
    decreases |rqs|
  {
    rs, outs := [], [];
    if rqs != [] {
      var k := |rqs| - 1;
      ghost var before := disk.data[..];
      rs, outs := ServeAll(disk, rqs[..k], contents[..k]);
      assert Holding(rqs[k], contents[k], ReadPages(rqs[..k]));
      ghost var r := ServeLast(disk, rqs, outs);
      RunGrows(before, rqs, rs, contents, outs, r);
      rs, outs := rs + [r], outs + [r.Output(Final(before, rs))];
    }
  }

  /** The last request of a run leaves what the reads before it have delivered, but where it reads itself. */
  method ServeLast(disk: Disk, rqs: seq<SegRequest>, ghost outs: seq<seq<byte>>) returns (ghost r: Request)
    requires rqs != [] && |outs| == |rqs| - 1 && forall i | 0 <= i < |rqs| :: rqs[i].Ready(disk.data)
    requires forall i | 0 <= i < |outs| :: Delivered(rqs[i], outs[i], ReadAfter(rqs[..|outs|], i))
    modifies if rqs[|outs|].isWrite then {disk.data} else Pages(rqs[|outs|].segs)
    ensures var rq := rqs[|outs|];
      && Fits(rq.segs) && rq.Joins(r) && r.InCapacity(disk.data.Length)
      && disk.data[..] == r.Serve(old(disk.data[..])) && (rq.isWrite ==> r.payload == old(Joined(rq.segs)))
      && Delivered(rq, r.Output(old(disk.data[..])), {})
    ensures forall i | 0 <= i < |outs| :: Delivered(rqs[i], outs[i], ReadAfter(rqs, i))
  {
    ghost var k := |outs|;
    forall i | 0 <= i < k
      ensures ReadAfter(rqs, i)
           == ReadAfter(rqs[..k], i) + (if rqs[k].isWrite then {} else Pages(rqs[k].segs))
    {
      ReadAfterStep(rqs, i);
    }
    r := QueueRq(disk, rqs[|rqs| - 1]);
  }
}
