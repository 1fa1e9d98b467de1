/**
 The buffered character devices `05-char-device-full/twodev.c` and `04-char-block-net/char/misc_echo.c` (the
 latter is one instance whose limit is never changed).  Each call is one atomic step.  A faulting
 copy_from_user may leave anything in the bytes it was to fill; what it leaves is a parameter.
 */
module CharDevice {
  import opened Bytes
  import opened Errno
  import opened Text

  const BUF_MAX := 256

  // ----- One instance as a value -----

  datatype Dev = Dev(buf: seq<byte>, len: nat, bufsz: nat) {
    predicate Valid() { |buf| == BUF_MAX && len <= BUF_MAX && 1 <= bufsz <= BUF_MAX }

    function Message(): seq<byte>
      requires Valid()
    {
      buf[..len]
    }

    /** What one read of at most `cnt` bytes at `pos` returns. */
    function ReadAt(pos: nat, cnt: nat): seq<byte>
      requires Valid()
    {
      if pos >= len then [] else buf[pos..pos + Min(cnt, len - pos)]
    }

    /** The instance after a write; `left` is what a faulting copy leaves behind. */
    function Written(u: seq<byte>, fault: bool, left: seq<byte>): (d: Dev)
      requires Valid() && |left| == BUF_MAX
      ensures d.Valid()
    {
      var cnt := Min(|u|, bufsz);
      if fault && cnt > 0 then Dev(left[..cnt] + buf[cnt..], len, bufsz) else Dev(u[..cnt] + buf[cnt..], cnt, bufsz)
    }

    function Resized(v: int): (d: Dev)
      requires Valid()
      ensures d.Valid()
    {
      if 1 <= v <= BUF_MAX then this.(bufsz := v) else this
    }
  }

  function Sum(sizes: seq<nat>): nat { if sizes == [] then 0 else sizes[0] + Sum(sizes[1..]) }

  /** Reads of the given sizes one after the other on one file, joined. */
  function ReadMany(d: Dev, pos: nat, sizes: seq<nat>): seq<byte>
    requires d.Valid()
    decreases |sizes|
  {
    if sizes == [] then []
    else
      var got := d.ReadAt(pos, sizes[0]);
      got + ReadMany(d, pos + |got|, sizes[1..])
  }

  /** How far reads of these sizes get from `pos`. */
  function Reach(d: Dev, pos: nat, sizes: seq<nat>): nat
    requires pos <= d.len
  {
    pos + Min(Sum(sizes), d.len - pos)
  }

  lemma ReadAtIs(d: Dev, m: seq<byte>, pos: nat, cnt: nat, mid: nat)
    requires d.Valid() && m == d.Message() && pos <= d.len && mid == pos + Min(cnt, d.len - pos)
    ensures d.ReadAt(pos, cnt) == m[pos..mid]
  {
    SubSlice(d.buf, 0, d.len, pos, mid);
    assert d.buf[0..d.len] == m && d.buf[0 + pos..0 + mid] == d.buf[pos..mid];
  }

  lemma ReachStep(d: Dev, pos: nat, sizes: seq<nat>, mid: nat)
    requires pos <= d.len && sizes != [] && mid == pos + Min(sizes[0], d.len - pos)
    ensures mid <= Reach(d, pos, sizes) == Reach(d, mid, sizes[1..])
  {
  }

  lemma {:induction false} ReadsJoin(d: Dev, m: seq<byte>, pos: nat, sizes: seq<nat>, end: nat)
    requires d.Valid() && m == d.Message() && pos <= d.len && end == Reach(d, pos, sizes)
    ensures ReadMany(d, pos, sizes) == m[pos..end]
    decreases |sizes|
  {
    if sizes == [] {
    } else {
      var mid := pos + Min(sizes[0], d.len - pos);
      ReadAtIs(d, m, pos, sizes[0], mid);
      ReachStep(d, pos, sizes, mid);
      ReadsJoin(d, m, mid, sizes[1..], end);
      SlicesJoin(m, pos, mid, end);
      assert ReadMany(d, pos, sizes) == m[pos..mid] + m[mid..end];
    }
  }

  /**
   With no write in between, reads of any sizes join to the stored message from the position on, without a gap
   or a repetition, as far as the sizes reach.
   */
  lemma {:induction false} ReadsJoinToMessage(d: Dev, pos: nat, sizes: seq<nat>)
    requires d.Valid() && pos <= d.len
    ensures ReadMany(d, pos, sizes) == d.Message()[pos..Reach(d, pos, sizes)]
  {
    ReadsJoin(d, d.Message(), pos, sizes, Reach(d, pos, sizes));
  }

  /** Once the sizes reach the end, every further read says end of file. */
  lemma EndOfFileIsReached(d: Dev, pos: nat, sizes: seq<nat>, cnt: nat)
    requires d.Valid() && pos <= d.len && Sum(sizes) >= d.len - pos
    ensures d.ReadAt(pos + |ReadMany(d, pos, sizes)|, cnt) == []
  {
    ReadsJoinToMessage(d, pos, sizes);
  }

  lemma SlicesJoin(s: seq<byte>, a: nat, b: nat, c: nat)
    requires a <= b <= c <= |s|
    ensures s[a..b] + s[b..c] == s[a..c]
  {
  }

  /** What was written is what is read back, cut to the limit in force. */
  lemma WriteThenRead(d: Dev, u: seq<byte>, left: seq<byte>, sizes: seq<nat>)
    requires d.Valid() && |left| == BUF_MAX && Sum(sizes) >= BUF_MAX
    ensures ReadMany(d.Written(u, false, left), 0, sizes) == u[..Min(|u|, d.bufsz)]
  {
    var e := d.Written(u, false, left);
    ReadsJoinToMessage(e, 0, sizes);
    assert e.Message() == u[..Min(|u|, d.bufsz)];
  }

  // ----- Many instances behind one table of open files -----

  /** `private_data` of an open file, as the number of its instance, and its position. */
  datatype OpenFile = OpenFile(at: nat, pos: nat)

  datatype World = World(devs: seq<Dev>, files: map<nat, OpenFile>) {
    predicate Valid() {
      && (forall i | 0 <= i < |devs| :: devs[i].Valid())
      && forall fd | fd in files :: files[fd].at < |devs|
    }
  }

  /**
   The calls on file descriptors.  Only Open names an instance, by the minor number of the node it opens; `left`
   is what a faulting copy leaves behind.
   */
  datatype Call =
    | Open(fd: nat, minor: nat)
    | Release(fd: nat)
    | Read(fd: nat, cnt: nat, fault: bool)
    | Write(fd: nat, u: seq<byte>, fault: bool, left: seq<byte>)
    | SetBufsz(fd: nat, v: int, fault: bool)
    | GetBufsz(fd: nat, fault: bool)
  {
    predicate Valid() { Write? ==> |left| == BUF_MAX }
  }

  datatype Reply = Done(n: nat) | Data(bytes: seq<byte>) | Failed(errno: Errno) | NoFile

  /** What one call on an open file leaves of its instance and of its position, and the reply. */
  datatype Served = Served(dev: Dev, pos: nat, reply: Reply)

  function ServeFile(d: Dev, pos: nat, c: Call): (r: Served)
    requires d.Valid() && c.Valid()
    ensures r.dev.Valid()
  {
    match c
    case Read(_, cnt, fault) =>
      var got := d.ReadAt(pos, cnt);
      if got != [] && fault then Served(d, pos, Failed(EFAULT)) else Served(d, pos + |got|, Data(got))
    case Write(_, u, fault, left) =>
      Served(d.Written(u, fault, left), pos, if fault && u != [] then Failed(EFAULT) else Done(Min(|u|, d.bufsz)))
    case SetBufsz(_, v, fault) =>
      if fault then Served(d, pos, Failed(EFAULT))
      else Served(d.Resized(v), pos, if 1 <= v <= BUF_MAX then Done(0) else Failed(EINVAL))
    case GetBufsz(_, fault) => Served(d, pos, if fault then Failed(EFAULT) else Done(d.bufsz))
    case _ => Served(d, pos, Done(0))
  }

  /** The instance a call reaches: the one being opened, or the one the file was opened on; -1 if there is none. */
  function Target(w: World, c: Call): int {
    if c.Open? then (if c.fd in w.files || c.minor >= |w.devs| then -1 else c.minor)
    else if c.fd in w.files then w.files[c.fd].at
    else -1
  }

  function Answer(w: World, c: Call): Reply
    requires w.Valid() && c.Valid()
  {
    if Target(w, c) < 0 then NoFile
    else if c.Open? || c.Release? then Done(0)
    else ServeFile(w.devs[w.files[c.fd].at], w.files[c.fd].pos, c).reply
  }

  /** Open is the only call that enters a file; afterwards the table alone says where its calls go. */
  function Step(w: World, c: Call): (r: World)
    requires w.Valid() && c.Valid()
    ensures r.Valid() && |r.devs| == |w.devs|
  {
    if Target(w, c) < 0 then w
    else if c.Open? then w.(files := w.files[c.fd := OpenFile(c.minor, 0)])
    else if c.Release? then w.(files := w.files - {c.fd})
    else
      var f := w.files[c.fd];
      var s := ServeFile(w.devs[f.at], f.pos, c);
      World(w.devs[f.at := s.dev], w.files[c.fd := f.(pos := s.pos)])
  }

  predicate AllCalls(calls: seq<Call>) { forall c | c in calls :: c.Valid() }

  /** The world after a schedule of calls. */
  function Run(w: World, calls: seq<Call>): (r: World)
    requires w.Valid() && AllCalls(calls)
    ensures r.Valid() && |r.devs| == |w.devs|
  {
    if calls == [] then w
    else
      assert calls[|calls| - 1] in calls;
      Step(Run(w, calls[..|calls| - 1]), calls[|calls| - 1])
  }

  /** The calls of a schedule that reach instance `i` when they are made. */
  function Own(w: World, calls: seq<Call>, i: nat): (r: seq<Call>)
    requires w.Valid() && AllCalls(calls)
    ensures AllCalls(r)
  {
    if calls == [] then []
    else
      var front, c := calls[..|calls| - 1], calls[|calls| - 1];
      assert c in calls;
      Own(w, front, i) + (if Target(Run(w, front), c) == i then [c] else [])
  }

  /** The open files of instance `i`. */
  function FilesOf(w: World, i: nat): map<nat, OpenFile> {
    map fd | fd in w.files && w.files[fd].at == i :: w.files[fd]
  }

  /** The world without the files that are open on other instances. */
  function Alone(w: World, i: nat): (r: World)
    requires w.Valid()
    ensures r.Valid()
  {
    w.(files := FilesOf(w, i))
  }

  /** `v` shows of instance `i`, its files and their positions the same as `w`, and has no other file. */
  predicate Same(w: World, v: World, i: nat) {
    && i < |w.devs| == |v.devs| && w.devs[i] == v.devs[i] && v.files == FilesOf(w, i)
  }

  /** A call that reaches another instance, or none, leaves instance `i` and its files as they are. */
  lemma ForeignCallKeeps(w: World, v: World, c: Call, i: nat)
    requires w.Valid() && c.Valid() && Same(w, v, i) && Target(w, c) != i
    ensures Same(Step(w, c), v, i)
  {
    var t := Step(w, c);
    assert forall fd | fd in FilesOf(t, i) :: fd in FilesOf(w, i) && t.files[fd] == w.files[fd];
    assert forall fd | fd in FilesOf(w, i) :: fd in FilesOf(t, i);
  }

  /** A call that reaches instance `i` does so wherever the instance and its files are the same, and alike. */
  lemma OwnCallAgrees(w: World, v: World, c: Call, i: nat)
    requires w.Valid() && v.Valid() && c.Valid() && Same(w, v, i) && Target(w, c) == i
    ensures Target(v, c) == i && Answer(v, c) == Answer(w, c) && Same(Step(w, c), Step(v, c), i)
  {
    assert c.Open? || (c.fd in v.files && v.files[c.fd] == w.files[c.fd]);
    assert Step(v, c).files == FilesOf(Step(w, c), i);
  }

  /**
   Isolation: under any schedule an instance, its open files and their positions end up as if only the calls that
   reached it had been made and no other file been open, and the next call on it gets the reply it would then get.
   */
  lemma {:induction false} InstancesAreIsolated(w: World, calls: seq<Call>, i: nat, last: Call)
    requires w.Valid() && AllCalls(calls) && i < |w.devs| && last.Valid()
    ensures Same(Run(w, calls), Run(Alone(w, i), Own(w, calls, i)), i)
    ensures Target(Run(w, calls), last) == i ==>
              var v := Run(Alone(w, i), Own(w, calls, i));
              Target(v, last) == i && Answer(v, last) == Answer(Run(w, calls), last)
  {
    OwnScheduleAgrees(w, calls, i);
    if Target(Run(w, calls), last) == i {
      OwnCallAgrees(Run(w, calls), Run(Alone(w, i), Own(w, calls, i)), last, i);
    }
  }

  lemma {:induction false} OwnScheduleAgrees(w: World, calls: seq<Call>, i: nat)
    requires w.Valid() && AllCalls(calls) && i < |w.devs|
    ensures Same(Run(w, calls), Run(Alone(w, i), Own(w, calls, i)), i)
  {
    if calls == [] {
    } else {
      var front, c := calls[..|calls| - 1], calls[|calls| - 1];
      assert c in calls;
      OwnScheduleAgrees(w, front, i);
      var before, own := Run(w, front), Own(w, front, i);
      if Target(before, c) == i {
        OwnCallAgrees(before, Run(Alone(w, i), own), c, i);
        assert (own + [c])[..|own|] == own;
      } else {
        ForeignCallKeeps(before, Run(Alone(w, i), own), c, i);
        assert own + [] == own;
      }
    }
  }

  // ----- The limit, as calls on descriptors show it -----

  /** Descriptors `f` and `g` are open on the same instance. */
  predicate SameDevice(w: World, f: nat, g: nat) { f in w.files && g in w.files && w.files[f].at == w.files[g].at }

  /** An accepted limit is the limit, whichever descriptor of the instance asks; a refused one changes nothing. */
  lemma {:induction false} LimitIsSet(w: World, fd: nat, v: int, fault: bool, g: nat)
    requires w.Valid() && SameDevice(w, fd, g)
    ensures var resize, get := SetBufsz(fd, v, fault), GetBufsz(g, false);
      && Answer(w, resize) == (if fault then Failed(EFAULT) else if 1 <= v <= 256 then Done(0) else Failed(EINVAL))
      && Answer(Step(w, resize), get) == if !fault && 1 <= v <= 256 then Done(v) else Answer(w, get)
  {
  }

  /** A file starts at the front of its instance's message. */
  lemma {:induction false} OpenStartsAtFront(w: World, fd: nat, minor: nat, cnt: nat)
    requires w.Valid() && fd !in w.files && minor < |w.devs|
    ensures var open, m := Open(fd, minor), w.devs[minor].Message();
      Answer(w, open) == Done(0)
      && Answer(Step(w, open), Read(fd, cnt, false)) == Data(m[..if cnt < |m| then cnt else |m|])
  {
    var m := w.devs[minor].Message();
    ReadAtIs(w.devs[minor], m, 0, cnt, Min(cnt, |m|));
    assert m[0..Min(cnt, |m|)] == m[..Min(cnt, |m|)];
  }

  /** After the release of a descriptor every call on it finds no file, and it can be opened again. */
  lemma {:induction false} ReleaseCloses(w: World, fd: nat, c: Call, minor: nat)
    requires w.Valid() && fd in w.files && c.Valid() && c.fd == fd && !c.Open? && minor < |w.devs|
    ensures var t := Step(w, Release(fd));
      && Answer(w, Release(fd)) == Done(0) && Answer(t, c) == NoFile && Answer(t, Open(fd, minor)) == Done(0)
      && t.devs == w.devs && forall g | g in w.files && g != fd :: g in t.files && t.files[g] == w.files[g]
  {
  }

  /** Setting the limit changes nothing that any descriptor reads. */
  lemma {:induction false} LimitLeavesContent(w: World, fd: nat, v: int, fault: bool, h: nat, cnt: nat, readFault: bool)
    requires w.Valid() && fd in w.files && h in w.files
    ensures Answer(Step(w, SetBufsz(fd, v, fault)), Read(h, cnt, readFault)) == Answer(w, Read(h, cnt, readFault))
  {
  }

  /** Nothing but an accepted SET_BUFSZ on the instance changes its limit. */
  lemma {:induction false} OnlySetChangesLimit(w: World, c: Call, g: nat)
    requires w.Valid() && c.Valid() && g in w.files && c != Release(g)
    requires c.SetBufsz? ==> !SameDevice(w, c.fd, g) || c.fault || !(1 <= c.v <= 256)
    ensures Answer(Step(w, c), GetBufsz(g, false)) == Answer(w, GetBufsz(g, false))
  {
  }

  /** The bytes of successive reads on descriptor `h`, joined. */
  function ReadCalls(w: World, h: nat, sizes: seq<nat>): seq<byte>
    requires w.Valid() && h in w.files
    decreases |sizes|
  {
    if sizes == [] then []
    else
      var c := Read(h, sizes[0], false);
      Answer(w, c).bytes + ReadCalls(Step(w, c), h, sizes[1..])
  }

  /** The first of several reads, and the world `t` it leaves for the others. */
  lemma ReadCallStep(w: World, h: nat, sizes: seq<nat>, d: Dev, pos: nat) returns (t: World)
    requires w.Valid() && h in w.files && d == w.devs[w.files[h].at] && pos == w.files[h].pos && sizes != []
    ensures t.Valid() && h in t.files && t.devs[t.files[h].at] == d
    ensures t.files[h].pos == pos + |d.ReadAt(pos, sizes[0])|
    ensures ReadCalls(w, h, sizes) == d.ReadAt(pos, sizes[0]) + ReadCalls(t, h, sizes[1..])
  {
    t := Step(w, Read(h, sizes[0], false));
  }

  lemma {:induction false} ReadCallsAreReadMany(w: World, h: nat, sizes: seq<nat>, d: Dev, pos: nat)
    requires w.Valid() && h in w.files && d == w.devs[w.files[h].at] && pos == w.files[h].pos && d.Valid()
    ensures ReadCalls(w, h, sizes) == ReadMany(d, pos, sizes)
    decreases |sizes|
  {
    if sizes == [] {
    } else {
      var t := ReadCallStep(w, h, sizes, d, pos);
      ReadCallsAreReadMany(t, h, sizes[1..], d, pos + |d.ReadAt(pos, sizes[0])|);
    }
  }

  /**
   A write is accepted up to the limit last set, through whichever descriptors the two calls go, and a descriptor at
   position 0 reads back what was accepted, in reads of any sizes that reach far enough.
   */
  lemma {:induction false} WriteObeysLimit(w: World, fd: nat, v: int, g: nat, u: seq<byte>, left: seq<byte>,
                                           h: nat, sizes: seq<nat>)
    requires w.Valid() && SameDevice(w, fd, g) && SameDevice(w, g, h) && w.files[h].pos == 0
    requires 1 <= v <= 256 && |left| == BUF_MAX && Sum(sizes) >= 256
    ensures var write := Write(g, u, false, left);
      var limited := Step(w, SetBufsz(fd, v, false));
      var n := if |u| < v then |u| else v;
      Answer(limited, write) == Done(n) && ReadCalls(Step(limited, write), h, sizes) == u[..n]
  {
    var limited := Step(w, SetBufsz(fd, v, false));
    var d := limited.devs[w.files[g].at];
    ReadCallsAreReadMany(Step(limited, Write(g, u, false, left)), h, sizes, d.Written(u, false, left), 0);
    WriteThenRead(d, u, left, sizes);
  }

  /** A write that faults is refused; the length stays, and so does every byte beyond what it was to copy. */
  lemma {:induction false} FaultyWriteKeepsLength(w: World, g: nat, u: seq<byte>, left: seq<byte>, k: nat)
    requires w.Valid() && g in w.files && u != [] && |left| == BUF_MAX && k < BUF_MAX
    ensures var write, at := Write(g, u, true, left), w.files[g].at;
      var d, e := w.devs[at], Step(w, write).devs[at];
      && Answer(w, write) == Failed(EFAULT) && e.len == d.len && e.bufsz == d.bufsz
      && e.buf[k] == if k < |u| && k < d.bufsz then left[k] else d.buf[k]
  {
  }

  // ----- The objects -----

  /** An instance after module load. */
  function NewDev(): Dev { Dev(seq(BUF_MAX, _ => 0), 0, BUF_MAX) }

  class Device {
    const buf: array<byte>
    var len: nat
    var bufsz: nat

    ghost predicate Valid()
      reads this, buf
    {
      buf.Length == BUF_MAX && len <= BUF_MAX && 1 <= bufsz <= BUF_MAX
    }

    ghost function View(): Dev
      reads this, buf
    {
      Dev(buf[..], len, bufsz)
    }

    constructor ()
      ensures Valid() && fresh(buf) && View() == NewDev()
    {
      buf := new byte[BUF_MAX](_ => 0);
      len, bufsz := 0, BUF_MAX;
    }
  }

  /** An open file: td_open stores the instance, the `at`-th one, in private_data. */
  class File {
    const dev: Device
    ghost const at: nat
    var pos: nat

    constructor (dev: Device, ghost at: nat)
      ensures this.dev == dev && this.at == at && pos == 0
    {
      this.dev, this.at, pos := dev, at, 0;
    }

    /** td_write / ed_write: touches this file's instance only. */
    method Write(u: seq<byte>, fault: bool, left: seq<byte>) returns (r: Result<nat>)
      requires dev.Valid() && |left| == BUF_MAX
      modifies dev`len, dev.buf
      ensures dev.Valid() && dev.View() == old(dev.View()).Written(u, fault, left)
      ensures r == if fault && u != [] then Err(EFAULT) else Ok(Min(|u|, dev.bufsz))
      ensures if r.Ok? then r.value <= |u| && dev.View().Message() == u[..r.value] else dev.len == old(dev.len)
    {
      var cnt := Min(|u|, dev.bufsz);
      var faulted := fault && cnt > 0;
      var src := if faulted then left else u;
      forall k | 0 <= k < cnt {
        dev.buf[k] := src[k];
      }
      assert dev.buf[..] == src[..cnt] + old(dev.buf[..])[cnt..];
      if faulted {
        return Err(EFAULT);
      }
      dev.len := cnt;
      return Ok(cnt);
    }

    /** td_read / ed_read: the position advances by what was returned, and only if it could be delivered. */
    method Read(cnt: nat, fault: bool) returns (r: Result<seq<byte>>)
      requires dev.Valid()
      modifies this
      ensures var got := dev.View().ReadAt(old(pos), cnt);
        if got != [] && fault then r == Err(EFAULT) && pos == old(pos)
        else r == Ok(got) && pos == old(pos) + |got|
    {
      if pos >= dev.len {
        return Ok([]);
      }
      var n := Min(cnt, dev.len - pos);
      if n > 0 && fault {
        return Err(EFAULT);
      }
      var got := dev.buf[pos..pos + n];
      pos := pos + n;
      return Ok(got);
    }

    /** TWODEV_SET_BUFSZ */
    method SetBufsz(v: int, fault: bool) returns (r: Result<nat>)
      requires dev.Valid()
      modifies dev`bufsz
      ensures dev.Valid() && dev.View() == if fault then old(dev.View()) else old(dev.View()).Resized(v)
      ensures dev.bufsz == if !fault && 1 <= v <= 256 then v else old(dev.bufsz)
      ensures r == if fault then Err(EFAULT) else if 1 <= v <= BUF_MAX then Ok(0) else Err(EINVAL)
    {
      if fault {
        return Err(EFAULT);
      }
      if v < 1 || v > BUF_MAX {
        return Err(EINVAL);
      }
      dev.bufsz := v;
      return Ok(0);
    }

    /** TWODEV_GET_BUFSZ */
    method GetBufsz(fault: bool) returns (r: Result<nat>)
      ensures r == if fault then Err(EFAULT) else Ok(dev.bufsz)
    {
      var val := dev.bufsz;
      return if fault then Err(EFAULT) else Ok(val);
    }

    /** A call on this file: through private_data to its instance. */
    method Serve(c: Call) returns (r: Reply)
      requires dev.Valid() && c.Valid() && !c.Open? && !c.Release?
      modifies this, dev, dev.buf
      ensures dev.Valid() && Served(dev.View(), pos, r) == ServeFile(old(dev.View()), old(pos), c)
    {
      match c
      case Write(_, u, fault, left) =>
        var n := Write(u, fault, left);
        r := ReplyOf(n);
      case Read(_, cnt, fault) =>
        var got := Read(cnt, fault);
        r := if got.Ok? then Data(got.value) else Failed(got.errno);
      case SetBufsz(_, v, fault) =>
        var n := SetBufsz(v, fault);
        r := ReplyOf(n);
      case GetBufsz(_, fault) =>
        var n := GetBufsz(fault);
        r := ReplyOf(n);
    }
  }

  function ReplyOf(r: Result<nat>): Reply { if r.Ok? then Done(r.value) else Failed(r.errno) }

  /** The loaded module: its instances, and the kernel's table of the files open on them. */
  class Driver {
    const devs: seq<Device>
    var files: map<nat, File>

    ghost function Buffers(): set<array<byte>> { set d | d in devs :: d.buf }

    /** No two instances are the same object or share a buffer. */
    ghost predicate Distinct() {
      && (forall i | 0 <= i < |devs| :: devs[i].buf in Buffers())
      && forall i, j | 0 <= i < j < |devs| :: devs[i] != devs[j] && devs[i].buf != devs[j].buf
    }

    /** The instances show `ds`. */
    ghost predicate ShowsDevs(ds: seq<Dev>)
      reads devs, Buffers()
    {
      Distinct() && |ds| == |devs| && forall i | 0 <= i < |devs| :: devs[i].Valid() && devs[i].View() == ds[i]
    }

    /** The table shows `fs`: every file leads to its own instance, and no two descriptors share a file. */
    ghost predicate ShowsFiles(fs: map<nat, OpenFile>)
      reads this, files.Values
    {
      && fs.Keys == files.Keys
      && (forall fd | fd in files :: Leads(files[fd]) && fs[fd] == OpenFile(files[fd].at, files[fd].pos))
      && forall f, g | f in files && g in files && f != g :: files[f] != files[g]
    }

    ghost predicate Leads(f: File) { f.at < |devs| && f.dev == devs[f.at] }

    ghost predicate Shows(w: World)
      reads this, devs, Buffers(), files.Values
    {
      ShowsDevs(w.devs) && ShowsFiles(w.files)
    }

    /** Module load: `n` empty instances with a buffer each, and no open file. */
    constructor (n: nat)
      ensures Shows(World(seq(n, _ => NewDev()), map[]))
      ensures fresh(devs) && fresh(Buffers())
    {
      var ds: seq<Device> := [];
      while |ds| < n
        invariant |ds| <= n && forall i | 0 <= i < |ds| :: fresh(ds[i]) && fresh(ds[i].buf)
        invariant forall i | 0 <= i < |ds| :: ds[i].Valid() && ds[i].View() == NewDev()
        invariant forall i, j | 0 <= i < j < |ds| :: ds[i] != ds[j] && ds[i].buf != ds[j].buf
      {
        var d := new Device();
        ds := ds + [d];
      }
      devs, files := ds, map[];
    }

    method Enter(fd: nat, at: nat, ghost fs: map<nat, OpenFile>)
      requires ShowsFiles(fs) && fd !in files && at < |devs|
      modifies this`files
      ensures ShowsFiles(fs[fd := OpenFile(at, 0)])
    {
      var f := new File(devs[at], at);
      files := files[fd := f];
    }

    /** td_open on the node of instance `minor`: container_of finds the instance, and the new file keeps it. */
    method Open(fd: nat, minor: nat, ghost w: World) returns (r: Reply)
      requires Shows(w) && w.Valid()
      modifies this`files
      ensures Shows(Step(w, Call.Open(fd, minor))) && r == Answer(w, Call.Open(fd, minor))
    {
      if fd in files || minor >= |devs| {
        return NoFile;
      }
      Enter(fd, minor, w.files);
      return Done(0);
    }

    method Remove(fd: nat, ghost fs: map<nat, OpenFile>)
      requires ShowsFiles(fs)
      modifies this`files
      ensures ShowsFiles(fs - {fd})
    {
      files := files - {fd};
    }

    method Release(fd: nat, ghost w: World) returns (r: Reply)
      requires Shows(w) && w.Valid()
      modifies this`files
      ensures Shows(Step(w, Call.Release(fd))) && r == Answer(w, Call.Release(fd))
    {
      if fd !in files {
        return NoFile;
      }
      Remove(fd, w.files);
      return Done(0);
    }

    /** A call on one file changes that file and its instance, and no other instance. */
    method ServeOn(f: File, c: Call, ghost ds: seq<Dev>) returns (r: Reply)
      requires ShowsDevs(ds) && Leads(f) && c.Valid() && !c.Open? && !c.Release?
      modifies f, devs, Buffers()
      ensures var s := ServeFile(ds[f.at], old(f.pos), c);
        ShowsDevs(ds[f.at := s.dev]) && f.pos == s.pos && r == s.reply
    {
      assert devs[f.at].Valid() && devs[f.at].View() == ds[f.at];
      r := f.Serve(c);
    }

    /** The same through the table: the other files keep their positions. */
    method ServeFd(c: Call, ghost ds: seq<Dev>, ghost fs: map<nat, OpenFile>) returns (r: Reply)
      requires ShowsDevs(ds) && ShowsFiles(fs) && c.fd in files && c.Valid() && !c.Open? && !c.Release?
      modifies devs, Buffers(), files.Values
      ensures var f := fs[c.fd]; f.at < |ds|
      ensures var f := fs[c.fd];
        var s := ServeFile(ds[f.at], f.pos, c);
        ShowsDevs(ds[f.at := s.dev]) && ShowsFiles(fs[c.fd := f.(pos := s.pos)]) && r == s.reply
    {
      var f := files[c.fd];
      assert Leads(f) && fs[c.fd] == OpenFile(f.at, f.pos);
      r := ServeOn(f, c, ds);
      forall fd | fd in files && fd != c.fd ensures Leads(files[fd]) && files[fd].pos == old(files[fd].pos) {
        assert files[fd] != f;
      }
    }

    /** Any call but open and close: it reaches the instance the file was opened on. */
    method Serve(c: Call, ghost w: World) returns (r: Reply)
      requires Shows(w) && w.Valid() && c.Valid() && !c.Open? && !c.Release?
      modifies devs, Buffers(), files.Values
      ensures Shows(Step(w, c)) && r == Answer(w, c)
    {
      if c.fd !in files {
        return NoFile;
      }
      r := ServeFd(c, w.devs, w.files);
    }
  }
}
