/**
 The kernel log buffer as `02-log-levels/docs/kernel-log-buffer.md` (lines 60-121) describes it: a FIFO with a
 byte budget.  Records carry consecutive sequence numbers, and a new record pushes out as many of the
 oldest ones as it needs.  What a record costs beyond its text is left open.
 */
module LogRing {
  import opened Text

  datatype Record = Record(seqNo: nat, cost: nat, text: string, level: nat, stamp: nat, flags: string, extra: string)

  /** The live records, oldest first, and the number the next record will get. */
  datatype Buffer = Buffer(records: seq<Record>, nextSeq: nat)

  function Cost(rs: seq<Record>): nat {
    if rs == [] then 0 else rs[0].cost + Cost(rs[1..])
  }

  /** What is left when the oldest records are dropped until the rest fits into `room`. */
  function Trim(rs: seq<Record>, room: nat): seq<Record> {
    if Cost(rs) <= room then rs else Trim(rs[1..], room)
  }

  /** `b` after one more record. */
  function Appended(b: Buffer, capacity: nat, r: Record): Buffer
    requires r.cost <= capacity
  {
    Buffer(Trim(b.records, capacity - r.cost) + [r], b.nextSeq + 1)
  }

  predicate Numbered(b: Buffer) {
    && |b.records| <= b.nextSeq
    && forall i | 0 <= i < |b.records| :: b.records[i].seqNo == b.nextSeq - |b.records| + i
  }

  predicate WithinBudget(b: Buffer, capacity: nat) { Cost(b.records) <= capacity }

  function OldestSeq(b: Buffer): int {
    if b.records == [] then -1 else b.records[0].seqNo
  }

  /** Trimming keeps a suffix that fits, and drops a record only when it has to. */
  lemma {:induction false} TrimIsLongestFit(rs: seq<Record>, room: nat) returns (d: nat)
    ensures d <= |rs| && Trim(rs, room) == rs[d..] && Cost(rs[d..]) <= room
    ensures forall k | 0 <= k < d :: Cost(rs[k..]) > room
    decreases |rs|
  {
    if Cost(rs) <= room {
      d := 0;
    } else {
      var e := TrimIsLongestFit(rs[1..], room);
      d := e + 1;
      forall k | 0 <= k < d ensures Cost(rs[k..]) > room {
        if k > 0 { assert rs[1..][k - 1..] == rs[k..]; } else { assert rs[0..] == rs; }
      }
    }
  }

  lemma {:induction false} CostAppend(xs: seq<Record>, ys: seq<Record>)
    ensures Cost(xs + ys) == Cost(xs) + Cost(ys)
    decreases |xs|
  {
    if xs == [] {
      assert xs + ys == ys;
    } else {
      assert (xs + ys)[1..] == xs[1..] + ys;
      CostAppend(xs[1..], ys);
    }
  }

  /** Appending keeps the numbers consecutive and the budget, and makes the oldest number grow or stay. */
  lemma {:induction false} AppendKeeps(b: Buffer, capacity: nat, r: Record)
    requires Numbered(b) && r.cost <= capacity && r.seqNo == b.nextSeq
    ensures var b' := Appended(b, capacity, r);
            && Numbered(b') && b'.records != [] && b'.nextSeq == b.nextSeq + 1
            && |b'.records| <= |b.records| + 1
  {
    var d := TrimIsLongestFit(b.records, capacity - r.cost);
    var rs := b.records[d..] + [r];
    forall i | 0 <= i < |rs| ensures rs[i].seqNo == b.nextSeq + 1 - |rs| + i {
      if i < |rs| - 1 { assert rs[i] == b.records[d + i]; }
    }
  }

  lemma {:induction false} AppendStaysWithinBudget(b: Buffer, capacity: nat, r: Record)
    requires r.cost <= capacity
    ensures WithinBudget(Appended(b, capacity, r), capacity)
  {
    var d := TrimIsLongestFit(b.records, capacity - r.cost);
    CostAppend(b.records[d..], [r]);
    assert [r][1..] == [] && Cost([r]) == r.cost;
  }

  /** `b` after records of any costs and texts, from any writers, one after the other. */
  function AppendedAll(b: Buffer, capacity: nat, rs: seq<Record>): Buffer
    requires forall r | r in rs :: r.cost <= capacity
  {
    if rs == [] then b
    else
      var front, r := AppendedAll(b, capacity, rs[..|rs| - 1]), rs[|rs| - 1];
      assert r in rs;
      Appended(front, capacity, r.(seqNo := front.nextSeq))
  }

  lemma {:induction false} AppendedAllKeeps(b: Buffer, capacity: nat, rs: seq<Record>)
    requires Numbered(b) && forall r | r in rs :: r.cost <= capacity
    ensures var b' := AppendedAll(b, capacity, rs);
            && Numbered(b') && b'.nextSeq == b.nextSeq + |rs| && |b'.records| <= |b.records| + |rs|
            && (b.records != [] || rs != [] ==> b'.records != [])
    decreases |rs|
  {
    if rs == [] {
    } else {
      var r := rs[|rs| - 1];
      assert r in rs;
      AppendedAllKeeps(b, capacity, rs[..|rs| - 1]);
      var front := AppendedAll(b, capacity, rs[..|rs| - 1]);
      AppendKeeps(front, capacity, r.(seqNo := front.nextSeq));
    }
  }

  /**
   The advance of the oldest number accounts for every record that was pushed out, whoever wrote how much:
   live before + appended == live after + advance.
   */
  lemma {:induction false} AdvanceCountsEvictions(b: Buffer, capacity: nat, rs: seq<Record>)
    requires Numbered(b) && b.records != [] && forall r | r in rs :: r.cost <= capacity
    ensures var b' := AppendedAll(b, capacity, rs);
            && |b.records| + |rs| == |b'.records| + (OldestSeq(b') - OldestSeq(b))
            && OldestSeq(b) <= OldestSeq(b')
  {
    AppendedAllKeeps(b, capacity, rs);
  }

  /** The buffer as an object: appending drops records from the front one at a time. */
  class Kmsg {
    const capacity: nat
    var records: seq<Record>
    var nextSeq: nat

    ghost function View(): Buffer
      reads this
    {
      Buffer(records, nextSeq)
    }

    constructor (capacity: nat, b: Buffer)
      ensures View() == b && this.capacity == capacity
    {
      this.capacity, records, nextSeq := capacity, b.records, b.nextSeq;
    }

    method Append(r: Record)
      requires r.cost <= capacity
      modifies this
      ensures View() == Appended(old(View()), capacity, r)
    {
      ghost var before := records;
      var used := Used();
      while used + r.cost > capacity
        invariant used == Cost(records) && nextSeq == old(nextSeq)
        invariant Trim(records, capacity - r.cost) == Trim(before, capacity - r.cost)
        decreases |records|
      {
        assert Cost(records) > capacity - r.cost && records != [];
        used := used - records[0].cost;
        records := records[1..];
      }
      assert Trim(records, capacity - r.cost) == records;
      records := records + [r];
      nextSeq := nextSeq + 1;
    }

    /** Other writers append records of their own. */
    method AppendAll(rs: seq<Record>)
      requires forall r | r in rs :: r.cost <= capacity
      modifies this
      ensures View() == AppendedAll(old(View()), capacity, rs)
    {
      ghost var b := View();
      var i := 0;
      while i < |rs|
        invariant i <= |rs| && View() == AppendedAll(b, capacity, rs[..i])
      {
        assert rs[i] in rs && rs[..i + 1][..i] == rs[..i];
        Append(rs[i].(seqNo := nextSeq));
        i := i + 1;
      }
      assert rs[..|rs|] == rs;
    }

    method Used() returns (n: nat)
      ensures n == Cost(records)
    {
      n := 0;
      var i := |records|;
      assert records[i..] == [];
      while i > 0
        invariant i <= |records| && n == Cost(records[i..])
      {
        i := i - 1;
        n := n + records[i].cost;
        assert records[i..][1..] == records[i + 1..];
      }
      assert records[0..] == records;
    }
  }

  // ----- A run of equal records -----

  /** What one run writes: its tag, payload length, and the cost of one of its records. */
  datatype Job = Job(tag: string, pay: nat, cost: nat)

  function Zeros(n: nat): string { seq(n, _ => '0') }

  /** `%05ld` */
  function Dec5(n: nat): string { Zeros(if |Dec(n)| < 5 then 5 - |Dec(n)| else 0) + Dec(n) }

  /** The text of the `i`-th record of a run. */
  function Payload(job: Job, i: nat): string { job.tag + " " + Dec5(i) + " " + seq(job.pay, _ => 'x') }

  function JobRecord(job: Job, i: nat, seqNo: nat): Record {
    Record(seqNo, job.cost, Payload(job, i), 4, seqNo, "-", "")
  }

  /** The buffer after the first `k` writes of a run that starts from `b`. */
  function Filled(b: Buffer, capacity: nat, job: Job, k: nat): Buffer
    requires job.cost <= capacity
  {
    if k == 0 then b
    else
      var f := Filled(b, capacity, job, k - 1);
      Appended(f, capacity, JobRecord(job, k, f.nextSeq))
  }

  // ----- The steady state -----

  /** Records `lo + 1` to `hi` of a run whose first record has number `base`. */
  function Own(job: Job, base: nat, lo: nat, hi: nat): seq<Record>
    requires lo <= hi
  {
    seq(hi - lo, j requires 0 <= j < hi - lo => JobRecord(job, lo + j + 1, base + lo + j))
  }

  lemma {:induction false} OwnCost(job: Job, base: nat, lo: nat, hi: nat)
    requires lo <= hi
    ensures Cost(Own(job, base, lo, hi)) == (hi - lo) * job.cost
    decreases hi - lo
  {
    if lo == hi {
    } else {
      assert Own(job, base, lo, hi)[1..] == Own(job, base, lo + 1, hi);
      assert Own(job, base, lo, hi)[0] == JobRecord(job, lo + 0 + 1, base + lo + 0);
      OwnCost(job, base, lo + 1, hi);
      assert (hi - lo) * job.cost == (hi - lo - 1) * job.cost + job.cost;
    }
  }

  lemma {:induction false} TrimConcat(xs: seq<Record>, ys: seq<Record>, room: nat)
    ensures Trim(xs + ys, room) == if Cost(ys) <= room then Trim(xs, room - Cost(ys)) + ys else Trim(ys, room)
    decreases |xs|
  {
    CostAppend(xs, ys);
    if xs == [] {
      assert xs + ys == ys;
    } else {
      assert (xs + ys)[1..] == xs[1..] + ys;
      TrimConcat(xs[1..], ys, room);
    }
  }

  lemma {:induction false} TrimTwice(rs: seq<Record>, room: nat, less: nat)
    requires less <= room
    ensures Trim(Trim(rs, room), less) == Trim(rs, less)
    decreases |rs|
  {
    if Cost(rs) <= room {
    } else {
      TrimTwice(rs[1..], room, less);
    }
  }

  /** With `q` of the run's records filling the capacity, room for one more is made by dropping one. */
  lemma {:induction false} TrimOwn(job: Job, base: nat, lo: nat, hi: nat, capacity: nat)
    requires 0 < job.cost <= capacity && lo < hi && hi - lo == capacity / job.cost
    ensures Trim(Own(job, base, lo, hi), capacity - job.cost) == Own(job, base, lo + 1, hi)
  {
    var c, q := job.cost, capacity / job.cost;
    assert q * c <= capacity < q * c + c && (q - 1) * c == q * c - c;
    OwnCost(job, base, lo, hi);
    OwnCost(job, base, lo + 1, hi);
    assert Own(job, base, lo, hi)[1..] == Own(job, base, lo + 1, hi);
  }

  /** What the buffer holds after `k` writes of a run, whatever mix of records it held before. */
  function Survivors(b: Buffer, capacity: nat, job: Job, k: nat): seq<Record>
    requires 0 < job.cost <= capacity
  {
    var q := capacity / job.cost;
    if k == 0 then b.records
    else if k <= q then
      Trim(b.records, if k * job.cost <= capacity then capacity - k * job.cost else 0) + Own(job, b.nextSeq, 0, k)
    else Own(job, b.nextSeq, k - q, k)
  }

  /**
   While the run's own records fit, all of them survive behind what is left of the old ones; from then on the
   survivors are exactly the newest floor(capacity / cost) of the run.
   */
  lemma {:induction false} FillReachesSteadyState(b: Buffer, capacity: nat, job: Job, k: nat)
    requires 0 < job.cost <= capacity
    ensures Filled(b, capacity, job, k) == Buffer(Survivors(b, capacity, job, k), b.nextSeq + k)
  {
    if k > 0 {
      FillReachesSteadyState(b, capacity, job, k - 1);
      var r := JobRecord(job, k, b.nextSeq + k - 1);
      if k <= capacity / job.cost {
        RunFits(b, capacity, job, k, r);
      } else {
        RunEvicts(b, capacity, job, k, r);
      }
    }
  }

  lemma {:induction false} RunFits(b: Buffer, capacity: nat, job: Job, k: nat, r: Record)
    requires 0 < job.cost <= capacity && 0 < k <= capacity / job.cost && r == JobRecord(job, k, b.nextSeq + k - 1)
    ensures Trim(Survivors(b, capacity, job, k - 1), capacity - job.cost) + [r] == Survivors(b, capacity, job, k)
  {
    var c := job.cost;
    Fits(k, capacity / c, c, capacity);
    Fits(k - 1, capacity / c, c, capacity);
    var own := Own(job, b.nextSeq, 0, k - 1);
    var rest := if k == 1 then b.records else Trim(b.records, capacity - (k - 1) * c);
    assert Survivors(b, capacity, job, k - 1) == rest + own;
    OwnCost(job, b.nextSeq, 0, k - 1);
    TrimConcat(rest, own, capacity - c);
    if k > 1 { TrimTwice(b.records, capacity - (k - 1) * c, capacity - k * c); }
    OwnGrows(job, b.nextSeq, 0, k - 1);
    var left := Trim(b.records, capacity - k * c);
    assert left + own + [r] == left + (own + [r]);
  }

  lemma {:induction false} RunEvicts(b: Buffer, capacity: nat, job: Job, k: nat, r: Record)
    requires 0 < job.cost <= capacity && k > capacity / job.cost && r == JobRecord(job, k, b.nextSeq + k - 1)
    ensures Trim(Survivors(b, capacity, job, k - 1), capacity - job.cost) + [r] == Survivors(b, capacity, job, k)
  {
    var c, q := job.cost, capacity / job.cost;
    Fits(q, q, c, capacity);
    var own := Own(job, b.nextSeq, k - 1 - q, k - 1);
    OwnCost(job, b.nextSeq, k - 1 - q, k - 1);
    if k - 1 == q {
      TrimConcat(Trim(b.records, capacity - q * c), own, capacity - c);
    }
    TrimOwn(job, b.nextSeq, k - 1 - q, k - 1, capacity);
    OwnGrows(job, b.nextSeq, k - q, k - 1);
  }

  lemma OwnGrows(job: Job, base: nat, lo: nat, hi: nat)
    requires lo <= hi
    ensures Own(job, base, lo, hi) + [JobRecord(job, hi + 1, base + hi)] == Own(job, base, lo, hi + 1)
  {
    assert Own(job, base, lo, hi + 1)[hi - lo] == JobRecord(job, lo + (hi - lo) + 1, base + lo + (hi - lo));
  }

  lemma Fits(k: nat, q: nat, c: nat, capacity: nat)
    requires 0 < c <= capacity && q == capacity / c
    ensures k <= q <==> k * c <= capacity
    ensures k > 0 ==> (k - 1) * c == k * c - c
    ensures capacity < q * c + c && q >= 1
  {
    assert q * c <= capacity < q * c + c;
    if k <= q { assert k * c <= q * c; } else { assert k * c >= (q + 1) * c == q * c + c; }
  }
}
