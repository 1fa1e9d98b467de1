/**
 The observer of `02-log-levels/experiments/log-buffer-fill/rbfill.c`: it parses what /dev/kmsg delivers,
 sums it up, and detects the moment the buffer starts to overwrite.  Here its numbers are related to the
 buffer it looks at.
 */
module LogObserver {
  import opened Text
  import opened LogRing

  // ----- The /dev/kmsg format -----

  /** "level,seq,timestamp,flags;text\n", then possibly continuation lines. */
  function KmsgLine(r: Record): string { Prefix(r) + ";" + r.text + "\n" + r.extra }

  function Prefix(r: Record): string { Dec(r.level) + "," + Dec(r.seqNo) + "," + Dec(r.stamp) + "," + r.flags }

  /** The kernel escapes control characters of the text, and flags hold no separators. */
  predicate Clean(r: Record) {
    && '\0' !in r.text && '\n' !in r.text
    && '\0' !in r.flags && '\n' !in r.flags && ';' !in r.flags
  }

  datatype Entry = Entry(seqNo: int, msg: string)

  function UpTo(s: string, c: char): string { s[..IndexOf(s, c)] }

  /** The strchr and atol calls of `sample_ring` on one delivered record. */
  function ParseLine(raw: string): Entry { ParseFields(UpTo(CString(raw), '\n')) }

  function ParseFields(line: string): Entry {
    var semi, comma := IndexOf(line, ';'), IndexOf(line, ',');
    Entry(if semi < |line| && comma < semi then Atol(line[comma + 1..]) else -1,
          if semi < |line| then line[semi + 1..] else line)
  }

  lemma {:induction false} UpToIs(s: string, c: char, head: string, tail: string)
    requires s == head + [c] + tail && c !in head
    ensures UpTo(s, c) == head && IndexOf(s, c) == |head|
  {
    assert s[..|head|] == head;
    IndexOfIs(s, c, |head|);
  }

  lemma PrefixHasNo(r: Record, c: char)
    requires !IsDigit(c) && c != ',' && c !in r.flags
    ensures c !in Prefix(r)
  {
    assert c !in Dec(r.level) && c !in Dec(r.seqNo) && c !in Dec(r.stamp);
  }

  /** Parsing a record the kernel formatted gives back its number and its text, whatever the other fields are. */
  lemma {:induction false} ParseInvertsFormat(r: Record)
    requires Clean(r)
    ensures ParseLine(KmsgLine(r)) == Entry(r.seqNo, r.text)
  {
    var head := Prefix(r) + ";" + r.text;
    PrefixHasNo(r, '\0');
    PrefixHasNo(r, '\n');
    PrefixHasNo(r, ';');
    FirstLineOf(KmsgLine(r), head, r.extra);
    var rest := "," + Dec(r.stamp) + "," + r.flags + ";" + r.text;
    assert head == Dec(r.level) + [','] + (Dec(r.seqNo) + rest);
    FieldsOf(head, Prefix(r), r.text, Dec(r.level), r.seqNo, rest);
  }

  lemma {:induction false} FieldsOf(line: string, prefix: string, text: string, level: string, n: nat, rest: string)
    requires line == prefix + [';'] + text && ';' !in prefix
    requires line == level + [','] + (Dec(n) + rest) && ',' !in level && |level| < |prefix|
    requires rest != [] && !IsDigit(rest[0])
    ensures ParseFields(line) == Entry(n, text)
  {
    UpToIs(line, ';', prefix, text);
    UpToIs(line, ',', level, Dec(n) + rest);
    AtolOfDec(n, rest);
    assert line[|level| + 1..] == Dec(n) + rest;
    assert line[|prefix| + 1..] == text;
  }

  /** A line without a semicolon is all text, and only a comma before the semicolon announces a number. */
  lemma {:induction false} NumberMissing(line: string, prefix: string, text: string)
    ensures ';' !in line ==> ParseFields(line) == Entry(-1, line)
    ensures line == prefix + [';'] + text && ';' !in prefix && ',' !in prefix ==> ParseFields(line) == Entry(-1, text)
  {
    if line == prefix + [';'] + text && ';' !in prefix {
      UpToIs(line, ';', prefix, text);
      assert line[..|prefix|] == prefix && line[|prefix| + 1..] == text;
      assert forall i | 0 <= i < |prefix| :: line[i] == prefix[i];
    }
  }

  lemma {:induction false} FirstLineOf(raw: string, head: string, tail: string)
    requires raw == head + "\n" + tail && '\0' !in head && '\n' !in head
    ensures UpTo(CString(raw), '\n') == head
  {
    var k := IndexOf(raw, '\0');
    assert forall i | 0 <= i <= |head| :: raw[i] != '\0';
    assert k > |head|;
    UpToIs(CString(raw), '\n', head, raw[..k][|head| + 1..]);
  }

  // ----- Sampling -----

  /** The possible outcomes of one read(2). */
  datatype ReadResult = Line(raw: string) | Interrupted | Again | Overrun | Failed

  datatype Stat = Stat(total: nat, tagged: nat, firstSeq: int, oldestSeq: int, lastSeq: int, textBytes: nat,
                       oldest: string, oldestTag: string, newest: string, overrun: bool)

  /** snprintf("%s") into a 128-byte copy. */
  function Copied(msg: string): string { Take(msg, 127) }

  /** The records delivered before the first result that ends the sampling. */
  function Delivered(results: seq<ReadResult>): seq<string> {
    if results == [] then []
    else match results[0]
      case Line(raw) => if raw == "" then [] else [raw] + Delivered(results[1..])
      case Interrupted => Delivered(results[1..])
      case _ => []
  }

  predicate Overran(results: seq<ReadResult>) {
    results != [] &&
    match results[0]
    case Line(raw) => raw != "" && Overran(results[1..])
    case Interrupted => Overran(results[1..])
    case _ => results[0].Overrun?
  }

  predicate Contains(s: string, t: string) {
    exists i | 0 <= i <= |s| :: t <= s[i..]
  }

  /** strstr: `t` occurs in `s` exactly if `s` is some text, `t`, and some text. */
  lemma ContainsMiddle(a: string, t: string, b: string)
    ensures Contains(a + t + b, t)
  {
    assert (a + t + b)[|a|..] == t + b;
  }

  lemma ContainsSplits(s: string, t: string) returns (a: string, b: string)
    requires Contains(s, t)
    ensures s == a + t + b
  {
    var i :| 0 <= i <= |s| && t <= s[i..];
    a, b := s[..i], s[i + |t|..];
    assert s[i..i + |t|] == s[i..][..|t|] == t;
  }

  function CountTagged(es: seq<Entry>, tag: string): nat {
    if es == [] then 0
    else CountTagged(es[..|es| - 1], tag) + (if Contains(es[|es| - 1].msg, tag) then 1 else 0)
  }

  /** Text with the newline that parsing cut off. */
  function TextBytes(es: seq<Entry>): nat {
    if es == [] then 0 else TextBytes(es[..|es| - 1]) + |es[|es| - 1].msg| + 1
  }

  /** The tagged entry with the smallest number (a negative one never sticks), its text as it is copied. */
  function FirstTagged(es: seq<Entry>, tag: string): Entry {
    if es == [] then Entry(-1, "")
    else
      var before, e := FirstTagged(es[..|es| - 1], tag), es[|es| - 1];
      if Contains(e.msg, tag) && (before.seqNo < 0 || e.seqNo < before.seqNo) then Entry(e.seqNo, Copied(e.msg))
      else before
  }

  function Summary(es: seq<Entry>, tag: string, overrun: bool): Stat {
    var none := Entry(-1, "");
    var oldest, newest := if es == [] then none else es[0], if es == [] then none else es[|es| - 1];
    var first := FirstTagged(es, tag);
    Stat(|es|, CountTagged(es, tag), first.seqNo, oldest.seqNo, newest.seqNo, TextBytes(es),
         Copied(oldest.msg), first.msg, Copied(newest.msg), overrun)
  }

  function Parsed(lines: seq<string>): seq<Entry> {
    seq(|lines|, i requires 0 <= i < |lines| => ParseLine(lines[i]))
  }

  /** `sample_ring`, for any sequence of read results. */
  method SampleRing(results: seq<ReadResult>, tag: string) returns (st: Stat)
    ensures st == Summary(Parsed(Delivered(results)), tag, Overran(results))
  {
    st := Stat(0, 0, -1, -1, -1, 0, "", "", "", false);
    ghost var seen: seq<string> := [];
    var k := 0;
    while k < |results|
      invariant k <= |results| && Delivered(results) == seen + Delivered(results[k..])
      invariant Overran(results) == Overran(results[k..])
      invariant st == Summary(Parsed(seen), tag, false)
    {
      var r := results[k];
      assert results[k..][0] == r && results[k..][1..] == results[k + 1..];
      k := k + 1;
      if r == Interrupted {
        continue;
      }
      if !r.Line? || r.raw == "" {
        assert Delivered(results) == seen;
        return if r == Overrun then st.(overrun := true) else st;
      }
      var e := ParseLine(r.raw);
      assert Parsed(seen + [r.raw]) == Parsed(seen) + [e];
      st := Account(st, Parsed(seen), e, tag);
      seen := seen + [r.raw];
    }
    assert Delivered(results) == seen;
  }

  /** The bookkeeping for one more record. */
  method Account(before: Stat, ghost es: seq<Entry>, e: Entry, tag: string) returns (st: Stat)
    requires before == Summary(es, tag, false)
    ensures st == Summary(es + [e], tag, false)
  {
    assert (es + [e])[..|es|] == es;
    st := before;
    st := st.(total := st.total + 1, textBytes := st.textBytes + |e.msg| + 1, lastSeq := e.seqNo);
    if st.total == 1 {
      st := st.(oldestSeq := e.seqNo, oldest := Copied(e.msg));
    }
    st := st.(newest := Copied(e.msg));
    if Contains(e.msg, tag) {
      st := st.(tagged := st.tagged + 1);
      if st.firstSeq < 0 || e.seqNo < st.firstSeq {
        st := st.(firstSeq := e.seqNo, oldestTag := Copied(e.msg));
      }
    }
  }

  // ----- What the statistics are, apart from how they are summed up -----

  predicate Ends(r: ReadResult) { !r.Interrupted? && !(r.Line? && r.raw != "") }

  /** The records among read results, in order. */
  function RawLines(results: seq<ReadResult>): seq<string> {
    if results == [] then []
    else
      var r := results[|results| - 1];
      RawLines(results[..|results| - 1]) + (if r.Line? then [r.raw] else [])
  }

  lemma RawLinesFirst(r: ReadResult, rest: seq<ReadResult>)
    ensures RawLines([r] + rest) == (if r.Line? then [r.raw] else []) + RawLines(rest)
    decreases |rest|
  {
    if rest == [] {
      assert [r] + rest == [r] && [r][..0] == [];
    } else {
      var n := |rest| - 1;
      assert ([r] + rest)[..|rest|] == [r] + rest[..n];
      RawLinesFirst(r, rest[..n]);
    }
  }

  /**
   The first result that is neither a record nor an interruption ends the sampling, at `k`, or nothing does: the records
   before it are delivered, and the sample overran exactly if it is an overrun.
   */
  lemma {:induction false} SamplingEndsAt(results: seq<ReadResult>, k: nat)
    requires k <= |results| && (k < |results| ==> Ends(results[k])) && forall i | 0 <= i < k :: !Ends(results[i])
    ensures Delivered(results) == RawLines(results[..k])
    ensures Overran(results) <==> k < |results| && results[k] == Overrun
  {
    if k == 0 {
      assert results[..0] == [];
    } else {
      SamplingEndsAt(results[1..], k - 1);
      RawLinesFirst(results[0], results[1..][..k - 1]);
      assert results[..k] == [results[0]] + results[1..][..k - 1];
    }
  }

  /** Interrupted reads make no difference. */
  lemma {:induction false} InterruptionsDoNotMatter(a: seq<ReadResult>, b: seq<ReadResult>)
    ensures Delivered(a + [Interrupted] + b) == Delivered(a + b)
    ensures Overran(a + [Interrupted] + b) <==> Overran(a + b)
    decreases |a|
  {
    if a == [] {
      assert a + [Interrupted] + b == [Interrupted] + b && a + b == b;
      assert ([Interrupted] + b)[1..] == b;
    } else {
      InterruptionsDoNotMatter(a[1..], b);
      assert (a + [Interrupted] + b)[1..] == a[1..] + [Interrupted] + b && (a + b)[1..] == a[1..] + b;
    }
  }

  /** `c` is what a 128-byte buffer holds of `s`. */
  predicate IsCopy(c: string, s: string) { c <= s && |c| == if |s| < 127 then |s| else 127 }

  /** Indices of the entries whose text contains the tag. */
  function Tagged(es: seq<Entry>, tag: string): set<nat> { set i: nat | i < |es| && Contains(es[i].msg, tag) }

  lemma {:induction false} TaggedIsCounted(es: seq<Entry>, tag: string)
    ensures CountTagged(es, tag) == |Tagged(es, tag)|
  {
    if es == [] {
      assert Tagged(es, tag) == {};
    } else {
      var n := |es| - 1;
      TaggedIsCounted(es[..n], tag);
      assert Tagged(es, tag) == Tagged(es[..n], tag) + (if Contains(es[n].msg, tag) then {n} else {});
    }
  }

  lemma {:induction false} TextBytesAdd(xs: seq<Entry>, ys: seq<Entry>)
    ensures TextBytes(xs + ys) == TextBytes(xs) + TextBytes(ys)
    decreases |ys|
  {
    if ys == [] {
      assert xs + ys == xs;
    } else {
      assert (xs + ys)[..|xs + ys| - 1] == xs + ys[..|ys| - 1];
      TextBytesAdd(xs, ys[..|ys| - 1]);
    }
  }

  /** Every number of the statistics, and the copies of the oldest and the newest text. */
  lemma {:induction false} SummaryMeans(es: seq<Entry>, tag: string, overrun: bool)
    ensures var st := Summary(es, tag, overrun);
      && st.total == |es| && st.tagged == |Tagged(es, tag)| && st.overrun == overrun
      && (es == [] ==> st.oldestSeq == st.lastSeq == st.firstSeq == -1 && st.textBytes == 0
                       && st.oldest == st.newest == st.oldestTag == "")
      && (es != [] ==>
            && st.oldestSeq == es[0].seqNo && IsCopy(st.oldest, es[0].msg)
            && st.lastSeq == es[|es| - 1].seqNo && IsCopy(st.newest, es[|es| - 1].msg)
            && st.textBytes == Summary(es[..|es| - 1], tag, overrun).textBytes + |es[|es| - 1].msg| + 1)
  {
    TaggedIsCounted(es, tag);
  }

  /** The search for the smallest number starts anew at `cut`: behind a tagged entry with a negative number, or at 0. */
  predicate Restart(es: seq<Entry>, tag: string, cut: nat) {
    && cut <= |es|
    && (cut > 0 ==> Contains(es[cut - 1].msg, tag) && es[cut - 1].seqNo < 0)
    && forall i | cut <= i < |es| && Contains(es[i].msg, tag) :: es[i].seqNo >= 0
  }

  /** Entry `at` is the first tagged one from `cut` on with the least number. */
  predicate Least(es: seq<Entry>, tag: string, cut: nat, at: nat) {
    && cut <= at < |es| && Contains(es[at].msg, tag)
    && (forall i | cut <= i < |es| && Contains(es[i].msg, tag) :: es[at].seqNo <= es[i].seqNo)
    && forall i | cut <= i < at && Contains(es[i].msg, tag) :: es[at].seqNo < es[i].seqNo
  }

  lemma {:induction false} FirstTaggedFrom(es: seq<Entry>, tag: string, cut: nat) returns (at: int)
    requires Restart(es, tag, cut)
    ensures var e := FirstTagged(es, tag);
      if at < 0 then e.seqNo < 0 && forall i | cut <= i < |es| :: !Contains(es[i].msg, tag)
      else Least(es, tag, cut, at) && e == Entry(es[at].seqNo, Copied(es[at].msg))
    decreases |es|
  {
    var n := |es| - 1;
    if |es| == cut {
      at := -1;
    } else {
      var front := es[..n];
      assert forall i | 0 <= i < n :: front[i] == es[i];
      at := FirstTaggedFrom(front, tag, cut);
      if Contains(es[n].msg, tag) && (at < 0 || es[n].seqNo < es[at].seqNo) {
        at := n;
      }
    }
  }

  lemma LeastIsOne(es: seq<Entry>, tag: string, cut: nat, a: nat, b: nat)
    requires Least(es, tag, cut, a) && Least(es, tag, cut, b)
    ensures a == b
  {
  }

  /**
   The first number is the least of the tagged entries, and the copy is of that entry's text, as far as no tagged entry
   has a negative number; from such an entry on the search starts anew.
   */
  lemma {:induction false} FirstTaggedIsLeast(es: seq<Entry>, tag: string, overrun: bool, cut: nat, at: nat)
    requires Restart(es, tag, cut) && Least(es, tag, cut, at)
    ensures var st := Summary(es, tag, overrun); st.firstSeq == es[at].seqNo && IsCopy(st.oldestTag, es[at].msg)
  {
    var l := FirstTaggedFrom(es, tag, cut);
    assert Contains(es[at].msg, tag) && l >= 0;
    LeastIsOne(es, tag, cut, at, l);
  }

  /** It is negative exactly if there is no tagged entry from there on. */
  lemma {:induction false} NoFirstWithoutTag(es: seq<Entry>, tag: string, overrun: bool, cut: nat)
    requires Restart(es, tag, cut)
    ensures Summary(es, tag, overrun).firstSeq < 0 <==> forall i | cut <= i < |es| :: !Contains(es[i].msg, tag)
  {
    var l := FirstTaggedFrom(es, tag, cut);
  }

  /** A tagged line without a number, between two that have one, makes the observer forget the smaller number. */
  lemma {:induction false} NumberlessLineHidesSmaller(tag: string)
    ensures var es := [Entry(5, tag), Entry(-1, tag), Entry(9, tag)];
      Summary(es, tag, false).firstSeq == 9
  {
    var es := [Entry(5, tag), Entry(-1, tag), Entry(9, tag)];
    assert tag <= tag[0..];
    assert Least(es, tag, 2, 2);
    FirstTaggedIsLeast(es, tag, false, 2, 2);
  }

  // ----- What a sample says about the buffer -----

  predicate AllClean(rs: seq<Record>) { forall r | r in rs :: Clean(r) }

  /** The read results of draining a buffer nobody writes to. */
  function Drain(rs: seq<Record>): seq<ReadResult> {
    if rs == [] then [Again] else [Line(KmsgLine(rs[0]))] + Drain(rs[1..])
  }

  function Entries(rs: seq<Record>): seq<Entry> {
    seq(|rs|, i requires 0 <= i < |rs| => Entry(rs[i].seqNo, rs[i].text))
  }

  lemma DeliveredFirst(line: string, rest: seq<ReadResult>)
    requires line != ""
    ensures Parsed(Delivered([Line(line)] + rest)) == [ParseLine(line)] + Parsed(Delivered(rest))
    ensures Overran([Line(line)] + rest) == Overran(rest)
  {
    assert ([Line(line)] + rest)[1..] == rest;
  }

  lemma EntriesFirst(rs: seq<Record>)
    requires rs != []
    ensures Entries(rs) == [Entry(rs[0].seqNo, rs[0].text)] + Entries(rs[1..])
  {
  }

  lemma {:induction false} DrainDelivers(rs: seq<Record>)
    requires AllClean(rs)
    ensures Parsed(Delivered(Drain(rs))) == Entries(rs) && !Overran(Drain(rs))
  {
    if rs == [] {
      assert Entries(rs) == [];
    } else {
      DrainDelivers(rs[1..]);
      ParseInvertsFormat(rs[0]);
      DeliveredFirst(KmsgLine(rs[0]), Drain(rs[1..]));
      EntriesFirst(rs);
    }
  }

  /** What sampling buffer `b` yields. */
  function Sample(b: Buffer, tag: string): Stat { Summary(Entries(b.records), tag, false) }

  method SampleBuffer(ring: Kmsg, tag: string) returns (st: Stat)
    requires AllClean(ring.records)
    ensures st == Sample(ring.View(), tag)
  {
    DrainDelivers(ring.records);
    st := SampleRing(Drain(ring.records), tag);
  }

  // ----- The fill-and-detect loop -----

  predicate CleanTag(tag: string) { '\0' !in tag && '\n' !in tag }

  lemma PayloadIsClean(job: Job, i: nat)
    requires CleanTag(job.tag)
    ensures '\0' !in Payload(job, i) && '\n' !in Payload(job, i)
  {
    assert forall c | c in Dec5(i) :: IsDigit(c);
  }

  lemma {:induction false} TrimIsClean(rs: seq<Record>, room: nat)
    requires AllClean(rs)
    ensures AllClean(Trim(rs, room))
  {
    if Cost(rs) <= room {
    } else {
      TrimIsClean(rs[1..], room);
    }
  }

  /**
   One run of the tool: the buffer and the job it starts with, and what others append ahead of each of its writes and
   behind it, that is before the sample of the same turn (nothing where a list has ended).
   */
  datatype Session = Session(start: Buffer, capacity: nat, job: Job,
                             ahead: seq<seq<Record>>, behind: seq<seq<Record>>) {
    ghost predicate Valid() {
      && Numbered(start) && AllClean(start.records) && CleanTag(job.tag) && job.cost <= capacity
      && forall k :: Foreign(Slot(ahead, k), capacity) && Foreign(Slot(behind, k), capacity)
    }

    function Ahead(k: nat): seq<Record> { Slot(ahead, k) }

    function Behind(k: nat): seq<Record> { Slot(behind, k) }

    /** The buffer after the first `k` turns, before anything more is appended. */
    ghost function After(k: nat): Buffer
      requires Valid()
    {
      if k == 0 then start else Turned(After(k - 1), capacity, Ahead(k - 1), job, k, Behind(k - 1))
    }

    /** The buffer when the final sample is taken: others may have appended since turn `k`. */
    ghost function Final(k: nat): Buffer
      requires Valid()
    {
      AppendedAll(After(k), capacity, Ahead(k))
    }

    /** Records appended by everybody in the first `k` turns, and up to the final sample. */
    function Appends(k: nat): nat {
      if k == 0 then 0 else Appends(k - 1) + |Ahead(k - 1)| + 1 + |Behind(k - 1)|
    }

    function AllAppends(k: nat): nat { Appends(k) + |Ahead(k)| }
  }

  function Slot(slots: seq<seq<Record>>, k: nat): seq<Record> { if k < |slots| then slots[k] else [] }

  /** Records of other writers that the buffer can take. */
  predicate Foreign(rs: seq<Record>, capacity: nat) { forall r | r in rs :: r.cost <= capacity && Clean(r) }

  /** One turn: what others append, the `k`-th record of the run, what others append. */
  function Turned(b: Buffer, capacity: nat, ahead: seq<Record>, job: Job, k: nat, behind: seq<Record>): Buffer
    requires job.cost <= capacity && Foreign(ahead, capacity) && Foreign(behind, capacity)
  {
    var f := AppendedAll(b, capacity, ahead);
    AppendedAll(Appended(f, capacity, JobRecord(job, k, f.nextSeq)), capacity, behind)
  }

  /** Without other writers the buffer goes through the states of the undisturbed run. */
  lemma {:induction false} AloneIsFilled(s: Session, k: nat)
    requires s.Valid() && s.ahead == [] && s.behind == []
    ensures s.After(k) == s.Final(k) == Filled(s.start, s.capacity, s.job, k) && s.AllAppends(k) == k
  {
    if k == 0 {
    } else {
      AloneIsFilled(s, k - 1);
    }
  }

  /** One turn keeps numbers consecutive, and what it appends is what the next number moves by. */
  lemma {:induction false} TurnKeeps(b: Buffer, capacity: nat, ahead: seq<Record>, job: Job, k: nat,
                                     behind: seq<Record>)
    requires job.cost <= capacity && Foreign(ahead, capacity) && Foreign(behind, capacity) && Numbered(b)
    ensures var g, n := Turned(b, capacity, ahead, job, k, behind), |ahead| + 1 + |behind|;
      && Numbered(g) && g.nextSeq == b.nextSeq + n && g.records != [] && |g.records| <= |b.records| + n
  {
    AppendedAllKeeps(b, capacity, ahead);
    var f := AppendedAll(b, capacity, ahead);
    AppendKeeps(f, capacity, JobRecord(job, k, f.nextSeq));
    AppendedAllKeeps(Appended(f, capacity, JobRecord(job, k, f.nextSeq)), capacity, behind);
  }

  lemma {:induction false} SessionKeeps(s: Session, k: nat)
    requires s.Valid()
    ensures var f := s.After(k);
      && Numbered(f) && f.nextSeq == s.start.nextSeq + s.Appends(k)
      && (k > 0 || s.start.records != [] ==> f.records != [])
      && |f.records| <= |s.start.records| + s.Appends(k)
  {
    if k == 0 {
    } else {
      SessionKeeps(s, k - 1);
      TurnKeeps(s.After(k - 1), s.capacity, s.Ahead(k - 1), s.job, k, s.Behind(k - 1));
    }
  }

  /** Nothing is lost unseen: live before + appended == live in the end + advance of the oldest number. */
  lemma {:induction false} SessionConserves(s: Session, k: nat)
    requires s.Valid() && s.start.records != []
    ensures |s.start.records| + s.AllAppends(k) == |s.Final(k).records| + (OldestSeq(s.Final(k)) - OldestSeq(s.start))
  {
    SessionKeeps(s, k);
    AppendedAllKeeps(s.After(k), s.capacity, s.Ahead(k));
  }

  /** The oldest number after each of the first `k` writes, and before them. */
  ghost function Oldest(s: Session, k: nat): (r: seq<int>)
    requires s.Valid()
    ensures |r| == k + 1 && forall i | 0 <= i <= k :: r[i] == OldestSeq(s.After(i))
  {
    if k == 0 then [OldestSeq(s.start)] else Oldest(s, k - 1) + [OldestSeq(s.After(k))]
  }

  /** The number of records likewise. */
  ghost function Counts(s: Session, k: nat): (r: seq<nat>)
    requires s.Valid()
    ensures |r| == k + 1 && forall i | 0 <= i <= k :: r[i] == |s.After(i).records|
  {
    if k == 0 then [|s.start.records|] else Counts(s, k - 1) + [|s.After(k).records|]
  }

  lemma HistoryGrows(s: Session, k: nat)
    requires s.Valid() && k > 0
    ensures Oldest(s, k) == Oldest(s, k - 1) + [OldestSeq(s.After(k))]
    ensures Counts(s, k) == Counts(s, k - 1) + [|s.After(k).records|]
  {
  }

  predicate Rising(xs: seq<int>) { forall i, j | 0 <= i <= j < |xs| :: xs[i] <= xs[j] }

  lemma {:induction false} OldestStepsUp(s: Session, k: nat)
    requires s.Valid() && s.start.records != []
    ensures 0 <= OldestSeq(s.After(k)) <= OldestSeq(s.After(k + 1))
  {
    SessionKeeps(s, k);
    TurnKeeps(s.After(k), s.capacity, s.Ahead(k), s.job, k + 1, s.Behind(k));
  }

  /** On a baseline that is not empty, the oldest number never goes back. */
  lemma {:induction false} OldestRises(s: Session, k: nat)
    requires s.Valid() && s.start.records != []
    ensures Rising(Oldest(s, k))
  {
    if k == 0 {
    } else {
      OldestRises(s, k - 1);
      OldestStepsUp(s, k - 1);
      RisingExtends(Oldest(s, k - 1), OldestSeq(s.After(k)));
    }
  }

  lemma RisingExtends(xs: seq<int>, x: int)
    requires xs != [] && Rising(xs) && xs[|xs| - 1] <= x
    ensures Rising(xs + [x])
  {
    forall i | 0 <= i < |xs| ensures xs[i] <= x { assert xs[i] <= xs[|xs| - 1]; }
  }

  lemma {:induction false} AppendedAllIsClean(b: Buffer, capacity: nat, rs: seq<Record>)
    requires AllClean(b.records) && AllClean(rs) && forall r | r in rs :: r.cost <= capacity
    ensures AllClean(AppendedAll(b, capacity, rs).records)
    decreases |rs|
  {
    if rs == [] {
    } else {
      AppendedAllIsClean(b, capacity, rs[..|rs| - 1]);
      assert rs[|rs| - 1] in rs;
      TrimIsClean(AppendedAll(b, capacity, rs[..|rs| - 1]).records, capacity - rs[|rs| - 1].cost);
    }
  }

  lemma {:induction false} TurnIsClean(b: Buffer, capacity: nat, ahead: seq<Record>, job: Job, k: nat,
                                       behind: seq<Record>)
    requires job.cost <= capacity && Foreign(ahead, capacity) && Foreign(behind, capacity)
    requires AllClean(b.records) && CleanTag(job.tag)
    ensures AllClean(Turned(b, capacity, ahead, job, k, behind).records)
  {
    AppendedAllIsClean(b, capacity, ahead);
    var f := AppendedAll(b, capacity, ahead);
    TrimIsClean(f.records, capacity - job.cost);
    PayloadIsClean(job, k);
    AppendedAllIsClean(Appended(f, capacity, JobRecord(job, k, f.nextSeq)), capacity, behind);
  }

  lemma {:induction false} SessionIsClean(s: Session, k: nat)
    requires s.Valid()
    ensures AllClean(s.After(k).records) && AllClean(s.Final(k).records)
  {
    if k == 0 {
    } else {
      SessionIsClean(s, k - 1);
      TurnIsClean(s.After(k - 1), s.capacity, s.Ahead(k - 1), s.job, k, s.Behind(k - 1));
    }
    AppendedAllIsClean(s.After(k), s.capacity, s.Ahead(k));
  }

  /** The largest of the counts at the baseline and at the boundaries. */
  function PeakOf(counts: seq<nat>, batch: nat): nat
    requires counts != [] && batch > 0
  {
    var k := |counts| - 1;
    if k == 0 then counts[0]
    else
      var p := PeakOf(counts[..k], batch);
      if k % batch == 0 && counts[k] > p then counts[k] else p
  }

  /** The boundary at which the observer first notices that the oldest number has moved, or -1. */
  function WrapOf(oldest: seq<int>, batch: nat): int
    requires oldest != [] && batch > 0
  {
    var k := |oldest| - 1;
    if k == 0 then -1
    else
      var w := WrapOf(oldest[..k], batch);
      if w < 0 && k % batch == 0 && oldest[0] >= 0 && oldest[k] > oldest[0] then k else w
  }

  lemma PeakGrows(counts: seq<nat>, c: nat, batch: nat)
    requires counts != [] && batch > 0
    ensures var p := PeakOf(counts, batch);
      PeakOf(counts + [c], batch) == if |counts| % batch == 0 && c > p then c else p
  {
    assert (counts + [c])[..|counts|] == counts;
  }

  lemma WrapGrows(oldest: seq<int>, x: int, batch: nat)
    requires oldest != [] && batch > 0
    ensures var w := WrapOf(oldest, batch);
      WrapOf(oldest + [x], batch)
      == if w < 0 && |oldest| % batch == 0 && oldest[0] >= 0 && x > oldest[0] then |oldest| else w
  {
    assert (oldest + [x])[..|oldest|] == oldest;
  }

  /** Whatever others append, one record of the run, and whatever others append before the sample. */
  method WriteOnce(ring: Kmsg, s: Session, i: nat)
    requires i > 0 && s.Valid() && s.capacity == ring.capacity && ring.View() == s.After(i - 1)
    modifies ring
    ensures ring.View() == s.After(i)
  {
    ring.AppendAll(s.Ahead(i - 1));
    ring.Append(JobRecord(s.job, i, ring.nextSeq));
    ring.AppendAll(s.Behind(i - 1));
  }

  /** The run in `main`: the baseline sample, the loop, and the final sample. */
  method Fill(ring: Kmsg, n: nat, batch: nat, s: Session, writesThatSucceed: nat)
      returns (base: Stat, st: Stat, peak: nat, wrapAt: int, written: nat)
    requires batch > 0 && s.Valid() && s.start == ring.View() && s.capacity == ring.capacity
    modifies ring
    ensures written == Min(n, writesThatSucceed)
    ensures ring.View() == s.Final(written)
    ensures base == Sample(s.start, s.job.tag) && st == Sample(s.Final(written), s.job.tag)
    ensures peak == PeakOf(Counts(s, written), batch) && wrapAt == WrapOf(Oldest(s, written), batch)
    ensures base.total > 0 ==> base.total + s.AllAppends(written) == st.total + (st.oldestSeq - base.oldestSeq)
  {
    base := SampleBuffer(ring, s.job.tag);
    peak, wrapAt, written := WriteAndWatch(ring, n, batch, s, base, writesThatSucceed);
    ring.AppendAll(s.Ahead(written));
    SessionIsClean(s, written);
    st := SampleBuffer(ring, s.job.tag);
    if base.total > 0 { SessionConserves(s, written); }
  }

  /** The loop: write, sample every `batch` writes, note peak and wrap point; a failed write ends it. */
  method WriteAndWatch(ring: Kmsg, n: nat, batch: nat, s: Session, base: Stat, writesThatSucceed: nat)
      returns (peak: nat, wrapAt: int, written: nat)
    requires batch > 0 && s.Valid() && s.start == ring.View() && s.capacity == ring.capacity
    requires base.total == |s.start.records| && base.oldestSeq == OldestSeq(s.start)
    modifies ring
    ensures written == Min(n, writesThatSucceed) && ring.View() == s.After(written)
    ensures peak == PeakOf(Counts(s, written), batch) && wrapAt == WrapOf(Oldest(s, written), batch)
  {
    peak, wrapAt, written := base.total, -1, 0;
    ghost var counts, oldest := [|s.start.records|], [OldestSeq(s.start)];
    var i := 1;
    while i <= n
      invariant 1 <= i <= n + 1 && written == i - 1 <= writesThatSucceed
      invariant ring.View() == s.After(written)
      invariant counts == Counts(s, written) && peak == PeakOf(counts, batch)
      invariant oldest == Oldest(s, written) && oldest[0] == base.oldestSeq && wrapAt == WrapOf(oldest, batch)
    {
      if i > writesThatSucceed {
        break;
      }
      peak, wrapAt, counts, oldest := Turn(ring, s, i, batch, base, peak, wrapAt, counts, oldest);
      written := i;
      i := i + 1;
    }
  }

  /** Turn `i` of the loop. */
  method Turn(ring: Kmsg, s: Session, i: nat, batch: nat, base: Stat, before: nat, wrapBefore: int,
              ghost counts: seq<nat>, ghost oldest: seq<int>)
      returns (peak: nat, wrapAt: int, ghost counts': seq<nat>, ghost oldest': seq<int>)
    requires batch > 0 && i > 0 && s.Valid() && s.capacity == ring.capacity && ring.View() == s.After(i - 1)
    requires counts == Counts(s, i - 1) && oldest == Oldest(s, i - 1) && base.oldestSeq == oldest[0]
    requires before == PeakOf(counts, batch) && wrapBefore == WrapOf(oldest, batch)
    modifies ring
    ensures ring.View() == s.After(i)
    ensures counts' == Counts(s, i) && oldest' == Oldest(s, i) && oldest'[0] == oldest[0]
    ensures peak == PeakOf(counts', batch) && wrapAt == WrapOf(oldest', batch)
  {
    WriteOnce(ring, s, i);
    SessionIsClean(s, i);
    peak, wrapAt := Note(ring, s.job.tag, i, batch, base, before, wrapBefore, counts, oldest);
    counts', oldest' := counts + [|ring.records|], oldest + [OldestSeq(ring.View())];
    HistoryGrows(s, i);
  }

  /** The rest of turn `i`: at a boundary, sample and compare; the histories are those of the turns before. */
  method Note(ring: Kmsg, tag: string, i: nat, batch: nat, base: Stat, before: nat, wrapBefore: int,
              ghost counts: seq<nat>, ghost oldest: seq<int>)
      returns (peak: nat, wrapAt: int)
    requires batch > 0 && |counts| == |oldest| == i > 0 && base.oldestSeq == oldest[0] && AllClean(ring.records)
    requires before == PeakOf(counts, batch) && wrapBefore == WrapOf(oldest, batch)
    ensures peak == PeakOf(counts + [|ring.records|], batch)
    ensures wrapAt == WrapOf(oldest + [OldestSeq(ring.View())], batch)
  {
    peak, wrapAt := before, wrapBefore;
    PeakGrows(counts, |ring.records|, batch);
    WrapGrows(oldest, OldestSeq(ring.View()), batch);
    if i % batch == 0 {
      var st := SampleBuffer(ring, tag);
      if st.total > peak {
        peak := st.total;
      }
      if wrapAt < 0 && base.oldestSeq >= 0 && st.oldestSeq > base.oldestSeq {
        wrapAt := i;
      }
    }
  }

  // ----- What the observer's numbers mean -----

  /** `e` is the first write with which the oldest record of the baseline is gone. */
  predicate FirstEviction(oldest: seq<int>, e: nat) {
    0 < e < |oldest| && oldest[e] > oldest[0] && oldest[e - 1] == oldest[0]
  }

  /** `m` is the first batch boundary at or after write `e`. */
  predicate FirstBoundary(e: nat, batch: nat, m: nat)
    requires batch > 0
  {
    m % batch == 0 && e <= m && forall j | e <= j < m :: j % batch != 0
  }

  lemma {:induction false} WrapOfRising(oldest: seq<int>, batch: nat, e: nat, m: nat)
    requires Rising(oldest) && oldest != [] && oldest[0] >= 0 && batch > 0 && FirstBoundary(e, batch, m) && e > 0
    requires forall i | 0 <= i < |oldest| :: oldest[i] > oldest[0] <==> i >= e
    ensures WrapOf(oldest, batch) == if m < |oldest| then m else -1
  {
    var k := |oldest| - 1;
    if k == 0 {
    } else {
      WrapOfRising(oldest[..k], batch, e, m);
    }
  }

  /**
   Detection is exact: the noted write is the first sampled boundary at or after the first eviction, if it was
   reached; whether the number of records changes plays no part.
   */
  lemma {:induction false} WrapIsFirstBoundaryAfterEviction(s: Session, batch: nat, k: nat, e: nat, m: nat)
    requires s.Valid() && s.start.records != [] && batch > 0
    requires FirstEviction(Oldest(s, k), e) && FirstBoundary(e, batch, m)
    ensures WrapOf(Oldest(s, k), batch) == if m <= k then m else -1
  {
    var oldest := Oldest(s, k);
    OldestRises(s, k);
    assert oldest[0] >= 0 by { SessionKeeps(s, 0); }
    forall i | 0 <= i < |oldest| ensures oldest[i] > oldest[0] <==> i >= e {
      if i < e { assert oldest[i] <= oldest[e - 1]; } else { assert oldest[e] <= oldest[i]; }
    }
    WrapOfRising(oldest, batch, e, m);
  }

  /** As long as the oldest record stays nothing is reported, and on an empty baseline nothing ever is. */
  lemma {:induction false} NoEvictionNoWrap(oldest: seq<int>, batch: nat)
    requires oldest != [] && batch > 0
    requires oldest[0] < 0 || forall i | 0 <= i < |oldest| :: oldest[i] <= oldest[0]
    ensures WrapOf(oldest, batch) == -1
  {
    if |oldest| == 1 {
    } else {
      NoEvictionNoWrap(oldest[..|oldest| - 1], batch);
    }
  }

  /** The peak is the largest count sampled: reached at some boundary (0 is the baseline), exceeded at none. */
  lemma {:induction false} PeakIsMaximum(counts: seq<nat>, batch: nat) returns (at: nat)
    requires counts != [] && batch > 0
    ensures at < |counts| && at % batch == 0 && PeakOf(counts, batch) == counts[at]
    ensures forall m | 0 <= m < |counts| && m % batch == 0 :: counts[m] <= counts[at]
  {
    var k := |counts| - 1;
    if k == 0 {
      at := 0;
    } else {
      at := PeakIsMaximum(counts[..k], batch);
      if k % batch == 0 && counts[k] > counts[at] {
        at := k;
      }
    }
  }

  /** `per` in `main`: one record's text with its newline, as long as the number has five digits. */
  function PerRecord(job: Job): nat { |job.tag| + 1 + 5 + 1 + job.pay + 1 }

  lemma {:induction false} ZerosDoNotCount(z: nat, n: nat, rest: string)
    requires rest == "" || !IsDigit(rest[0])
    ensures Atol(Zeros(z) + Dec(n) + rest) == n
  {
    var s := Zeros(z) + Dec(n);
    LeadingZeros(z, Dec(n));
    DigitsValueOfDec(n);
    assert forall i | 0 <= i < |s| :: IsDigit(s[i]) && (s + rest)[i] == s[i];
    DigitSpanIs(s + rest, |s|);
    assert (s + rest)[..|s|] == s;
  }

  lemma {:induction false} LeadingZeros(z: nat, d: string)
    requires forall i | 0 <= i < |d| :: IsDigit(d[i])
    ensures DigitsValue(Zeros(z) + d) == DigitsValue(d)
    decreases |d|
  {
    if d == "" {
      ZerosAreNothing(z);
      assert Zeros(z) + d == Zeros(z);
    } else {
      var n := |d| - 1;
      assert (Zeros(z) + d)[..z + n] == Zeros(z) + d[..n];
      LeadingZeros(z, d[..n]);
    }
  }

  lemma {:induction false} ZerosAreNothing(z: nat)
    ensures DigitsValue(Zeros(z)) == 0
  {
    if z == 0 {
    } else {
      assert Zeros(z)[..z - 1] == Zeros(z - 1);
      ZerosAreNothing(z - 1);
    }
  }

  /** A record of the run is the tag, its number in at least five digits, and the padding, a blank between each two. */
  lemma {:induction false} PayloadReadsBack(job: Job, i: nat) returns (number: string, padding: string)
    ensures Payload(job, i) == job.tag + " " + number + " " + padding
    ensures |number| >= 5 && (forall k | 0 <= k < |number| :: IsDigit(number[k])) && Atol(number) == i
    ensures |padding| == job.pay && forall k | 0 <= k < job.pay :: padding[k] == 'x'
  {
    number, padding := Dec5(i), seq(job.pay, _ => 'x');
    var z := if |Dec(i)| < 5 then 5 - |Dec(i)| else 0;
    ZerosDoNotCount(z, i, "");
    assert Zeros(z) + Dec(i) + "" == number;
  }

  lemma {:induction false} PayloadLength(job: Job, i: nat)
    ensures |Payload(job, i)| + 1 == PerRecord(job) <==> i <= 99999
  {
    DecLength(i, 5);
    assert Pow10(5) == 100000 by {
      assert Pow10(2) == 100 && Pow10(3) == 10 * Pow10(2) && Pow10(4) == 10 * Pow10(3);
    }
  }

  lemma OwnEntriesGrow(job: Job, base: nat, lo: nat, hi: nat)
    requires lo < hi
    ensures Entries(Own(job, base, lo, hi))
         == Entries(Own(job, base, lo, hi - 1)) + [Entry(base + hi - 1, Payload(job, hi))]
  {
    OwnGrows(job, base, lo, hi - 1);
  }

  lemma SummedGrow(es: seq<Entry>, e: Entry, tag: string)
    ensures TextBytes(es + [e]) == TextBytes(es) + |e.msg| + 1
    ensures var before := FirstTagged(es, tag);
      FirstTagged(es + [e], tag) == if Contains(e.msg, tag) && (before.seqNo < 0 || e.seqNo < before.seqNo)
                                    then Entry(e.seqNo, Copied(e.msg)) else before
  {
    assert (es + [e])[..|es|] == es;
  }

  lemma {:induction false} OwnTextBytes(job: Job, base: nat, lo: nat, hi: nat)
    requires lo <= hi <= 99999
    ensures TextBytes(Entries(Own(job, base, lo, hi))) == (hi - lo) * PerRecord(job)
    decreases hi
  {
    var per := PerRecord(job);
    if lo == hi {
    } else {
      OwnTextBytes(job, base, lo, hi - 1);
      OwnEntriesGrow(job, base, lo, hi);
      SummedGrow(Entries(Own(job, base, lo, hi - 1)), Entry(base + hi - 1, Payload(job, hi)), job.tag);
      PayloadLength(job, hi);
      OneMoreTimes(hi - 1 - lo, per);
    }
  }

  lemma OneMoreTimes(n: nat, per: nat)
    ensures (n + 1) * per == n * per + per
  {
  }

  /** The test of `main` for a buffer of its own: it holds exactly when every record contains the tag. */
  lemma {:induction false} AllTagged(es: seq<Entry>, tag: string)
    ensures CountTagged(es, tag) <= |es|
    ensures CountTagged(es, tag) == |es| <==> forall i | 0 <= i < |es| :: Contains(es[i].msg, tag)
  {
    if es == [] {
    } else {
      AllTagged(es[..|es| - 1], tag);
    }
  }

  /** So a record of another writer that happens to contain the tag passes for one of the run. */
  lemma {:induction false} ForeignRecordPassesForOwn(job: Job) returns (b: Buffer)
    ensures |b.records| == 1 && forall i :: b.records[0].text != Payload(job, i)
    ensures var st := Sample(b, job.tag); st.tagged == st.total == 1
  {
    b := Buffer([Record(0, 1, job.tag, 4, 0, "-", "")], 1);
    var es := Entries(b.records);
    assert job.tag <= es[0].msg[0..];
    AllTagged(es, job.tag);
  }

  lemma PayloadIsTagged(job: Job, i: nat)
    ensures Contains(Payload(job, i), job.tag)
  {
    assert job.tag <= Payload(job, i)[0..];
  }

  lemma {:induction false} OwnFirstTagged(job: Job, base: nat, lo: nat, hi: nat)
    requires lo < hi
    ensures FirstTagged(Entries(Own(job, base, lo, hi)), job.tag) == Entry(base + lo, Copied(Payload(job, lo + 1)))
    decreases hi
  {
    OwnEntriesGrow(job, base, lo, hi);
    SummedGrow(Entries(Own(job, base, lo, hi - 1)), Entry(base + hi - 1, Payload(job, hi)), job.tag);
    PayloadIsTagged(job, hi);
    if hi == lo + 1 {
      assert Own(job, base, lo, hi - 1) == [];
    } else {
      OwnFirstTagged(job, base, lo, hi - 1);
    }
  }

  /**
   The steady state as the observer sees it: once the run's own records no longer fit, the count stays at
   floor(capacity / cost), all of it tagged and the oldest one the first, every further write moves the oldest number by
   exactly one, and for numbers of at most five digits the text adds up to count times the length of one record.
   */
  lemma {:induction false} SteadyStateSample(b: Buffer, capacity: nat, job: Job, k: nat)
    requires Numbered(b) && 0 < job.cost <= capacity && k * job.cost > capacity
    ensures var st := Sample(Filled(b, capacity, job, k), job.tag);
            && st.total == st.tagged == capacity / job.cost && st.total <= k
            && st.oldestSeq == st.firstSeq == b.nextSeq + k - st.total && st.lastSeq == b.nextSeq + k - 1
            && st.oldestTag == Copied(Payload(job, k - st.total + 1))
            && Sample(Filled(b, capacity, job, k + 1), job.tag).oldestSeq == st.oldestSeq + 1
            && (k <= 99999 ==> st.textBytes == st.total * PerRecord(job))
  {
    var q := capacity / job.cost;
    Fits(k, q, job.cost, capacity);
    FillReachesSteadyState(b, capacity, job, k);
    FillReachesSteadyState(b, capacity, job, k + 1);
    OwnSample(job, b.nextSeq, k - q, k, b.nextSeq + k);
    OwnSample(job, b.nextSeq, k + 1 - q, k + 1, b.nextSeq + k + 1);
    if k <= 99999 {
      OwnTextBytes(job, b.nextSeq, k - q, k);
    }
  }

  lemma {:induction false} OwnSample(job: Job, base: nat, lo: nat, hi: nat, next: nat)
    requires lo < hi
    ensures var st := Sample(Buffer(Own(job, base, lo, hi), next), job.tag);
            && st.total == st.tagged == hi - lo
            && st.oldestSeq == st.firstSeq == base + lo && st.lastSeq == base + hi - 1
            && st.oldestTag == Copied(Payload(job, lo + 1))
            && st.textBytes == TextBytes(Entries(Own(job, base, lo, hi)))
  {
    var es := Entries(Own(job, base, lo, hi));
    forall j | 0 <= j < hi - lo
      ensures Contains(es[j].msg, job.tag) && es[j].seqNo == base + lo + j
    {
      assert Own(job, base, lo, hi)[j] == JobRecord(job, lo + j + 1, base + lo + j);
      PayloadIsTagged(job, lo + j + 1);
    }
    AllTagged(es, job.tag);
    OwnFirstTagged(job, base, lo, hi);
  }

  // ----- Is the first record of the baseline still there? -----

  /** The answer of `main`, by the texts. */
  predicate StillThere(base: Stat, st: Stat) { Contains(st.oldest, base.oldest) }

  /** The oldest number has not gone back, and where it is the same, so is the record. */
  predicate Follows(b: Buffer, g: Buffer) {
    && b.records != [] && g.records != [] && b.records[0].seqNo <= g.records[0].seqNo
    && (b.records[0].seqNo == g.records[0].seqNo ==> b.records[0] == g.records[0])
  }

  lemma {:induction false} AppendFollows(b: Buffer, capacity: nat, r: Record)
    requires Numbered(b) && b.records != [] && r.cost <= capacity && r.seqNo == b.nextSeq
    ensures Numbered(Appended(b, capacity, r)) && Follows(b, Appended(b, capacity, r))
  {
    AppendKeeps(b, capacity, r);
    var d := TrimIsLongestFit(b.records, capacity - r.cost);
    assert Appended(b, capacity, r).records[0] == if d < |b.records| then b.records[d] else r;
  }

  lemma {:induction false} AppendedAllFollows(b: Buffer, capacity: nat, rs: seq<Record>)
    requires Numbered(b) && b.records != [] && forall r | r in rs :: r.cost <= capacity
    ensures Numbered(AppendedAll(b, capacity, rs)) && Follows(b, AppendedAll(b, capacity, rs))
    decreases |rs|
  {
    if rs == [] {
    } else {
      var k := |rs| - 1;
      assert rs[k] in rs;
      AppendedAllFollows(b, capacity, rs[..k]);
      var f := AppendedAll(b, capacity, rs[..k]);
      AppendFollows(f, capacity, rs[k].(seqNo := f.nextSeq));
    }
  }

  lemma {:induction false} SessionFollows(s: Session, k: nat)
    requires s.Valid() && s.start.records != []
    ensures Numbered(s.After(k)) && Follows(s.start, s.After(k)) && Follows(s.start, s.Final(k))
  {
    if k == 0 {
    } else {
      SessionFollows(s, k - 1);
      AppendedAllFollows(s.After(k - 1), s.capacity, s.Ahead(k - 1));
      var f := AppendedAll(s.After(k - 1), s.capacity, s.Ahead(k - 1));
      var r := JobRecord(s.job, k, f.nextSeq);
      AppendFollows(f, s.capacity, r);
      AppendedAllFollows(Appended(f, s.capacity, r), s.capacity, s.Behind(k - 1));
    }
    AppendedAllFollows(s.After(k), s.capacity, s.Ahead(k));
  }

  predicate Shows(r: Record, t: string) { Contains(Copied(r.text), t) }

  /** At any time the answer is wrong exactly if the first record is gone and the one now first shows its text. */
  lemma {:induction false} StillThereIsWrongExactlyIf(s: Session, k: nat)
    requires s.Valid() && s.start.records != []
    ensures s.Final(k).records != []
    ensures var base, st := Sample(s.start, s.job.tag), Sample(s.Final(k), s.job.tag);
      (StillThere(base, st) <==> st.oldestSeq == base.oldestSeq)
      <==> !(st.oldestSeq > base.oldestSeq && Shows(s.Final(k).records[0], Copied(s.start.records[0].text)))
  {
    SessionFollows(s, k);
    var t := Copied(s.start.records[0].text);
    assert t <= t[0..];
  }

  predicate NoneShows(rs: seq<Record>, t: string) { forall r | r in rs :: !Shows(r, t) }

  /** No record behind the first of the baseline, and none appended, shows the text `t`. */
  ghost predicate Unlike(s: Session, t: string)
    requires s.start.records != []
  {
    && NoneShows(s.start.records[1..], t)
    && (forall k :: NoneShows(s.Ahead(k), t) && NoneShows(s.Behind(k), t))
    && forall i :: !Contains(Copied(Payload(s.job, i)), t)
  }

  /** What is in `xs` and not in `bs` does not show `t`. */
  predicate Brings(xs: seq<Record>, bs: seq<Record>, t: string) { forall x | x in xs :: x in bs || !Shows(x, t) }

  lemma {:induction false} TrimBrings(rs: seq<Record>, room: nat, bs: seq<Record>, t: string)
    requires Brings(rs, bs, t)
    ensures Brings(Trim(rs, room), bs, t)
  {
    if Cost(rs) <= room {
    } else {
      TrimBrings(rs[1..], room, bs, t);
    }
  }

  lemma {:induction false} AppendBrings(b: Buffer, capacity: nat, r: Record, bs: seq<Record>, t: string)
    requires r.cost <= capacity && Brings(b.records, bs, t) && !Shows(r, t)
    ensures Brings(Appended(b, capacity, r).records, bs, t)
  {
    TrimBrings(b.records, capacity - r.cost, bs, t);
  }

  lemma {:induction false} AppendedAllBrings(b: Buffer, capacity: nat, rs: seq<Record>, bs: seq<Record>, t: string)
    requires Foreign(rs, capacity) && Brings(b.records, bs, t) && NoneShows(rs, t)
    ensures Brings(AppendedAll(b, capacity, rs).records, bs, t)
    decreases |rs|
  {
    if rs == [] {
    } else {
      var k := |rs| - 1;
      assert rs[k] in rs && !Shows(rs[k], t);
      AppendedAllBrings(b, capacity, rs[..k], bs, t);
      var f := AppendedAll(b, capacity, rs[..k]);
      AppendBrings(f, capacity, rs[k].(seqNo := f.nextSeq), bs, t);
    }
  }

  lemma {:induction false} SessionBrings(s: Session, k: nat, t: string)
    requires s.Valid() && s.start.records != [] && Unlike(s, t)
    ensures Brings(s.After(k).records, s.start.records, t) && Brings(s.Final(k).records, s.start.records, t)
  {
    var bs := s.start.records;
    if k == 0 {
    } else {
      SessionBrings(s, k - 1, t);
      assert NoneShows(s.Ahead(k - 1), t) && NoneShows(s.Behind(k - 1), t);
      AppendedAllBrings(s.After(k - 1), s.capacity, s.Ahead(k - 1), bs, t);
      var f := AppendedAll(s.After(k - 1), s.capacity, s.Ahead(k - 1));
      var r := JobRecord(s.job, k, f.nextSeq);
      AppendBrings(f, s.capacity, r, bs, t);
      AppendedAllBrings(Appended(f, s.capacity, r), s.capacity, s.Behind(k - 1), bs, t);
    }
    assert NoneShows(s.Ahead(k), t);
    AppendedAllBrings(s.After(k), s.capacity, s.Ahead(k), bs, t);
  }

  /** So it is right all along if no other record, there at first or appended, shows that text. */
  lemma {:induction false} StillThereIsRight(s: Session, k: nat)
    requires s.Valid() && s.start.records != [] && Unlike(s, Copied(s.start.records[0].text))
    ensures var base, st := Sample(s.start, s.job.tag), Sample(s.Final(k), s.job.tag);
      StillThere(base, st) <==> st.oldestSeq == base.oldestSeq
  {
    StillThereIsWrongExactlyIf(s, k);
    SessionBrings(s, k, Copied(s.start.records[0].text));
    var x := s.Final(k).records[0];
    assert x in s.Final(k).records;
    if x in s.start.records && x != s.start.records[0] { assert x in s.start.records[1..]; }
  }

  /** It is wrong where that text is empty: a record that is gone is said to be still there. */
  lemma {:induction false} GoneButSaidToBeThere(job: Job) returns (s: Session)
    requires 0 < job.cost && CleanTag(job.tag)
    ensures s.Valid() && s.job == job && s.start.records != []
    ensures var base, st := Sample(s.start, job.tag), Sample(s.Final(1), job.tag);
      StillThere(base, st) && st.oldestSeq > base.oldestSeq
  {
    s := Session(Buffer([Record(0, job.cost, "", 4, 0, "-", "")], 1), job.cost, job, [], []);
    var b, r := s.start, JobRecord(job, 1, 1);
    assert b.records[1..] == [] && Trim([], 0) == [];
    assert Trim(b.records, 0) == [] by { assert Cost(b.records) == job.cost; }
    assert s.After(0) == b && s.After(1) == Appended(b, job.cost, r);
    assert s.Final(1).records == [r];
    assert Sample(s.start, job.tag).oldest == "";
    assert "" <= Sample(s.Final(1), job.tag).oldest[0..];
  }
}
