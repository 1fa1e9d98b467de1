/**
 The message list device of `07-list-head/listmsg.c`: a circular doubly linked list on the heap with a
 sentinel head, a message counter, and any number of open readers, each with a cursor of its own.
 Every mutex section is one method.  Allocation failures and faulting user addresses are parameters.
 */
module ListMsg {
  import opened Errno
  import opened Text
  import PrintBlock

  const MSG_MAX := 120

  // ----- What a reader is shown -----

  /** The text `lm_read` formats: "%d: %.*s\n", where %.*s stops at a NUL. */
  function Line(idx: nat, data: string): string { Dec(idx) + ": " + CString(data) + "\n" }

  /** The numbered lines of a message sequence, in append order. */
  function Numbered(ms: seq<string>): seq<string> { seq(|ms|, i requires 0 <= i < |ms| => Line(i + 1, ms[i])) }

  function LineNumber(line: string): int { Atol(line) }

  function LinePayload(line: string): string {
    var k := DigitSpan(line);
    if k + 2 < |line| then line[k + 2..|line| - 1] else ""
  }

  /** A line determines its number and its message up to the first NUL. */
  lemma {:induction false} LineDecodes(idx: nat, data: string)
    ensures LineNumber(Line(idx, data)) == idx && LinePayload(Line(idx, data)) == CString(data)
  {
    var rest := ": " + CString(data) + "\n";
    var line := Line(idx, data);
    assert line == Dec(idx) + rest;
    AtolOfDec(idx, rest);
    var d := |Dec(idx)|;
    assert line[d] == ':';
    assert forall i | 0 <= i < d :: line[i] == Dec(idx)[i];
    DigitSpanIs(line, d);
    assert line[d + 2..|line| - 1] == CString(data);
  }

  /** A line without its newline: the number, a colon, a blank, the message. */
  function Head(idx: nat, data: string): string { Dec(idx) + ": " + CString(data) }

  function Heads(ms: seq<string>): seq<string> { seq(|ms|, i requires 0 <= i < |ms| => Head(i + 1, ms[i])) }

  /** What successive reads with large buffers give, joined. */
  function Joined(lines: seq<string>): string {
    if lines == [] then "" else Joined(lines[..|lines| - 1]) + lines[|lines| - 1]
  }

  lemma {:induction false} JoinedIsUnsplit(ms: seq<string>)
    ensures Joined(Numbered(ms)) == PrintBlock.Unsplit(Heads(ms))
  {
    if ms == [] {
    } else {
      var n := |ms| - 1;
      JoinedIsUnsplit(ms[..n]);
      assert Numbered(ms)[..n] == Numbered(ms[..n]) && Heads(ms)[..n] == Heads(ms[..n]);
      LineIsHead(n + 1, ms[n], PrintBlock.Unsplit(Heads(ms[..n])));
      assert Numbered(ms)[n] == Line(n + 1, ms[n]) && Heads(ms)[n] == Head(n + 1, ms[n]);
    }
  }

  lemma LineIsHead(idx: nat, data: string, before: string)
    ensures before + Line(idx, data) == before + Head(idx, data) + "\n"
  {
  }

  /** A head gives its number and its message. */
  lemma {:induction false} HeadDecodes(idx: nat, data: string)
    ensures var h := Head(idx, data); Atol(h) == idx && h[DigitSpan(h)..] == ": " + CString(data)
  {
    var d, rest := Dec(idx), ": " + CString(data);
    assert Head(idx, data) == d + rest;
    AtolOfDec(idx, rest);
    assert forall i | 0 <= i < |d| :: (d + rest)[i] == d[i];
    DigitSpanIs(d + rest, |d|);
  }

  /** The joined lines of all reads split into the messages, numbered from 1, where none of them holds a newline. */
  lemma {:induction false} ReadsSplitBack(ms: seq<string>, i: nat)
    requires (forall m | m in ms :: '\n' !in CString(m)) && i < |ms|
    ensures var text := Joined(Numbered(ms));
      && PrintBlock.RestOf(text) == "" && |PrintBlock.LinesOf(text)| == |ms|
      && var l := PrintBlock.LinesOf(text)[i]; Atol(l) == i + 1 && l[DigitSpan(l)..] == ": " + CString(ms[i])
  {
    var text := Joined(Numbered(ms));
    JoinedIsUnsplit(ms);
    forall k | 0 <= k < |ms| ensures PrintBlock.OneLine(Heads(ms)[k]) {
      assert ms[k] in ms;
      HeadIsOneLine(k + 1, ms[k]);
    }
    assert text == PrintBlock.Unsplit(Heads(ms)) + "";
    PrintBlock.SplitIsComplete(text);
    PrintBlock.SplitIsUnique(text, PrintBlock.LinesOf(text), PrintBlock.RestOf(text), Heads(ms), "");
    HeadDecodes(i + 1, ms[i]);
  }

  lemma HeadIsOneLine(idx: nat, data: string)
    requires '\n' !in CString(data)
    ensures PrintBlock.OneLine(Head(idx, data))
  {
    var d, c := Dec(idx), CString(data);
    forall k | 0 <= k < |Head(idx, data)| ensures Head(idx, data)[k] != '\n' {
      if k < |d| { assert IsDigit(d[k]); }
      if k >= |d| + 2 { assert Head(idx, data)[k] == c[k - |d| - 2] && c[k - |d| - 2] in c; }
    }
  }

  lemma JoinedOfTwo(x: string, y: string)
    ensures Joined([x]) == x && Joined([x, y]) == x + y
  {
    assert [x][..0] == [] && [x, y][..1] == [x];
    assert Joined([]) + x == x;
  }

  lemma ShortLine(idx: nat, data: string)
    requires 0 < idx < 10 && '\0' !in data
    ensures Line(idx, data) == ["0123456789"[idx]] + ": " + data + "\n"
  {
    var k := IndexOf(data, '\0');
    assert k == |data| || '\0' in data;
    DecIs(0, idx);
  }

  lemma TwoInOne(a: string, b: string)
    ensures "1" + ": " + (a + "\n2: " + b) + "\n" == ("1" + ": " + a + "\n") + ("2" + ": " + b + "\n")
  {
  }

  /** With a newline in it, one message can read like two: this is where the condition is needed. */
  lemma {:induction false} NewlineMakesTwo(a: string, b: string)
    requires '\0' !in a && '\0' !in b
    ensures Joined(Numbered([a + "\n2: " + b])) == Joined(Numbered([a, b]))
  {
    var m := a + "\n2: " + b;
    ShortLine(1, a);
    ShortLine(2, b);
    ShortLine(1, m);
    assert Numbered([m]) == [Line(1, m)] && Numbered([a, b]) == [Line(1, a), Line(2, b)];
    JoinedOfTwo(Line(1, m), "");
    JoinedOfTwo(Line(1, a), Line(2, b));
    TwoInOne(a, b);
  }

  /** A line fits its 152-byte buffer for every number an int can hold. */
  lemma {:induction false} LineFits(idx: nat, data: string)
    requires |data| <= MSG_MAX && idx < 0x8000_0000
    ensures |Line(idx, data)| < MSG_MAX + 32
  {
    assert Pow10(10) > idx by {
      assert Pow10(2) == 100;
      assert Pow10(4) == 10000;
      assert Pow10(6) == 1000000;
      assert Pow10(8) == 100000000;
    }
    DecLength(idx, 10);
  }

  // ----- The heap -----

  /** `struct list_head` in its host; `data` is the flexible array.  A deleted entry's links are poisoned. */
  class Node {
    var next: Node?
    var prev: Node?
    const data: string

    constructor (data: string)
      ensures this.data == data
    {
      this.data := data;
    }
  }

  class Cursor {
    var pos: Node?
    var idx: nat
    ghost var epoch: nat          // which generation of messages this reader was opened on
    ghost var seen: seq<string>   // the lines it has been given

    constructor (pos: Node?, ghost epoch: nat)
      ensures this.pos == pos && idx == 1 && this.epoch == epoch && seen == []
    {
      this.pos, idx, this.epoch, seen := pos, 1, epoch, [];
    }
  }

  class Device {
    const head: Node
    var msgCount: nat
    ghost var nodes: seq<Node>            // the ring without its head
    ghost var freed: set<Node>            // nodes given back to kfree
    ghost var created: set<Node>
    ghost var epochs: seq<seq<string>>    // the messages of each generation; CLEAR starts the next one
    ghost var cursors: set<Cursor>        // the open readers

    /** `next` and `prev` go round the ring and are mutually inverse. */
    ghost predicate Ring()
      reads this, head, nodes
    {
      && head !in nodes
      && (forall i, j | 0 <= i < j < |nodes| :: nodes[i] != nodes[j])
      && head.next == (if nodes == [] then head else nodes[0])
      && head.prev == (if nodes == [] then head else nodes[|nodes| - 1])
      && (forall i {:trigger nodes[i].next} | 0 <= i < |nodes| ::
            nodes[i].next == if i + 1 < |nodes| then nodes[i + 1] else head)
      && (forall i {:trigger nodes[i].prev} | 0 <= i < |nodes| ::
            nodes[i].prev == if i > 0 then nodes[i - 1] else head)
    }

    ghost function Messages(): seq<string>
      reads this
      requires epochs != []
    {
      epochs[|epochs| - 1]
    }

    /** What the reader behind `c` has been shown: a gap-free numbered prefix of its generation. */
    ghost predicate Transcript(c: Cursor)
      reads this, c
    {
      && c.epoch < |epochs|
      && c.idx == |c.seen| + 1 && |c.seen| <= |epochs[c.epoch]|
      && c.seen == Numbered(epochs[c.epoch][..|c.seen|])
    }

    ghost predicate Valid()
      reads this, head, nodes, cursors
    {
      && Ring()
      && epochs != [] && msgCount == |nodes| == |Messages()|
      && (forall i | 0 <= i < |nodes| :: nodes[i].data == Messages()[i])
      && Ledger()
      && (forall c | c in cursors :: Transcript(c))
    }

    /** Every node ever allocated is either linked or freed, never both. */
    ghost predicate Ledger()
      reads this
    {
      && freed <= created && head !in created
      && (forall n | n in created :: n in nodes <==> n !in freed)
      && (forall n | n in nodes :: n in created)
    }

    /** The cursor is at EOF or at the next message of the current generation; it does not dangle. */
    ghost predicate Safe(c: Cursor)
      reads this, c
    {
      c.pos != null ==>
        c.epoch == |epochs| - 1 && |c.seen| < |nodes| && c.pos == nodes[|c.seen|]
    }

    ghost predicate AllSafe()
      reads this, cursors
    {
      forall c | c in cursors :: Safe(c)
    }

    /** Of two readers of one generation, the one that is behind has been shown a prefix of the other's lines. */
    lemma ReadersAgree(c: Cursor, d: Cursor)
      requires Valid() && c in cursors && d in cursors && c.epoch == d.epoch && |c.seen| <= |d.seen|
      ensures c.seen == d.seen[..|c.seen|]
    {
      assert Transcript(c) && Transcript(d);
      forall i | 0 <= i < |c.seen| ensures c.seen[i] == d.seen[i] {
        assert epochs[c.epoch][..|c.seen|][i] == epochs[d.epoch][..|d.seen|][i];
      }
    }

    /** Module load: a self-looped head, no reader. */
    constructor ()
      ensures Valid() && AllSafe() && nodes == [] && epochs == [[]] && cursors == {} && created == {}
      ensures fresh(head)
    {
      var h := new Node("");
      head := h;
      msgCount, nodes, freed, created, epochs, cursors := 0, [], {}, {}, [[]], {};
      new;
      head.next, head.prev := head, head;
    }

    /** list_add_tail */
    method AddTail(m: Node)
      requires Ring() && m !in nodes && m != head
      modifies this`nodes, head, nodes, m
      ensures Ring() && nodes == old(nodes) + [m]
    {
      var last := head.prev;
      m.next, m.prev := head, last;
      head.prev := m;
      last.next := m;
      nodes := nodes + [m];
    }

    /** list_del of the first entry, as the clearing loops do it. */
    method DelFirst()
      requires Ring() && nodes != []
      modifies this`nodes, head, nodes
      ensures Ring() && nodes == old(nodes)[1..]
    {
      var m := head.next;
      var next, prev := m.next, m.prev;
      next.prev := prev;
      prev.next := next;
      m.next, m.prev := null, null;
      nodes := nodes[1..];
    }

    /** The locked section of `lm_write`: the node joins the ring and is counted. */
    method Publish(m: Node)
      requires Valid() && m !in created && m != head
      modifies this`nodes, this`msgCount, this`created, this`epochs, head, nodes, m
      ensures Valid() && nodes == old(nodes) + [m] && created == old(created) + {m}
      ensures epochs == old(epochs)[|old(epochs)| - 1 := old(Messages()) + [m.data]]
      ensures forall c | c in cursors && old(Safe(c)) :: Safe(c)
    {
      AddTail(m);
      msgCount := msgCount + 1;
      created := created + {m};
      ghost var before := epochs;
      epochs := epochs[|epochs| - 1 := Messages() + [m.data]];
      forall c | c in cursors ensures Transcript(c) {
        assert old(Transcript(c));
        assert before[c.epoch][..|c.seen|] == epochs[c.epoch][..|c.seen|];
      }
    }

    method Write(u: string, allocFails: bool, faults: bool) returns (r: Result<nat>)
      requires Valid()
      modifies this`nodes, this`msgCount, this`created, this`freed, this`epochs, head, nodes
      ensures Valid()
      ensures r == if u == "" then Ok(0)
                   else if allocFails then Err(ENOMEM)
                   else if faults then Err(EFAULT)
                   else Ok(Min(|u|, 120))
      ensures r.Err? || u == "" ==> nodes == old(nodes) && epochs == old(epochs)
      ensures r.Ok? && u != "" ==>
                && |nodes| == |old(nodes)| + 1 && nodes[..|old(nodes)|] == old(nodes)
                && epochs == old(epochs)[|old(epochs)| - 1 := old(Messages()) + [u[..Min(|u|, 120)]]]
      ensures r.Ok? && u != "" ==> fresh(nodes[|old(nodes)|])
      ensures old(freed) <= freed && (r.Ok? ==> freed == old(freed))
      ensures forall c | c in cursors && old(Safe(c)) :: Safe(c)
    {
      var cnt := Min(|u|, MSG_MAX);
      if cnt == 0 {
        return Ok(0);
      }
      if allocFails {
        return Err(ENOMEM);
      }
      var m := new Node(u[..cnt]);
      if faults {
        created, freed := created + {m}, freed + {m};
        return Err(EFAULT);
      }
      Publish(m);
      return Ok(cnt);
    }

    /**
     One call gives one line and moves this cursor only.  At EOF it stays at EOF.  A short buffer gets a
     truncated line, and a faulting one nothing, but the cursor advances all the same.
     */
    method Read(c: Cursor, cnt: nat, faults: bool) returns (r: Result<string>)
      requires Valid() && c in cursors && Safe(c)
      modifies c
      ensures Valid() && Safe(c) && c.epoch == old(c.epoch)
      ensures old(c.pos) == null ==> r == Ok("") && c.pos == null && c.seen == old(c.seen)
      ensures old(c.pos) != null ==>
                && |old(c.seen)| < |Messages()|
                && (var k := |old(c.seen)|;
                    var line := Line(k + 1, Messages()[k]);
                    && c.seen == old(c.seen) + [line]
                    && r == (if faults && cnt > 0 then Err(EFAULT) else Ok(line[..Min(cnt, |line|)]))
                    && (c.pos == null <==> c.seen == Numbered(Messages())))
    {
      if c.pos == null {
        return Ok("");
      }
      var line := Line(c.idx, c.pos.data);
      ghost var k := |c.seen|;
      assert Transcript(c) && c.pos == nodes[k];
      c.pos := if c.pos.next == head then null else c.pos.next;
      c.idx := c.idx + 1;
      c.seen := c.seen + [line];
      assert Messages()[..k + 1] == Messages()[..k] + [Messages()[k]];
      assert Transcript(c);
      assert k + 1 == |nodes| ==> Messages()[..k + 1] == Messages();
      var n := Min(cnt, |line|);
      return if faults && n > 0 then Err(EFAULT) else Ok(line[..n]);
    }

    method Open(allocFails: bool) returns (r: Result<Cursor>)
      requires Valid()
      modifies this`cursors
      ensures Valid()
      ensures allocFails ==> r == Err(ENOMEM) && cursors == old(cursors)
      ensures !allocFails ==> r.Ok? && fresh(r.value) && cursors == old(cursors) + {r.value}
      ensures r.Ok? ==> Safe(r.value) && r.value.seen == [] && r.value.epoch == |epochs| - 1
      ensures r.Ok? ==> (r.value.pos == null <==> nodes == [])
      ensures old(AllSafe()) ==> AllSafe()
    {
      if allocFails {
        return Err(ENOMEM);
      }
      var c := new Cursor(if head.next == head then null else head.next, |epochs| - 1);
      cursors := cursors + {c};
      return Ok(c);
    }

    method Release(c: Cursor)
      requires Valid() && c in cursors
      modifies this`cursors
      ensures Valid() && cursors == old(cursors) - {c}
      ensures old(AllSafe()) ==> AllSafe()
    {
      cursors := cursors - {c};
    }

    method Count() returns (n: nat)
      requires Valid()
      ensures n == |Messages()|
    {
      n := msgCount;
    }

    /** One turn of the clearing loops: list_del and kfree of the first entry, which was not freed before. */
    method FreeFirst()
      requires Ring() && Ledger() && nodes != []
      modifies this`nodes, this`freed, head, nodes
      ensures Ring() && Ledger() && nodes == old(nodes)[1..]
      ensures old(nodes)[0] !in old(freed) && freed == old(freed) + {old(nodes)[0]}
    {
      ghost var m := nodes[0];
      DelFirst();
      freed := freed + {m};
      assert old(nodes) == [m] + nodes;
    }

    /** The clearing loop: each node is freed exactly once and the head ends up linked to itself. */
    method FreeAll()
      requires Ring() && Ledger()
      modifies this`nodes, this`freed, head, nodes
      ensures Ring() && nodes == [] && head.next == head == head.prev
      ensures freed == created
    {
      var m, tmp := head.next, head.next.next;
      ghost var k := 0;
      while m != head
        invariant k <= |old(nodes)| && nodes == old(nodes)[k..]
        invariant Ring() && Ledger() && m == head.next && tmp == m.next
        decreases |nodes|
      {
        FreeFirst();
        k := k + 1;
        m, tmp := tmp, tmp.next;
      }
    }

    /** The list part of LISTMSG_CLEAR: every message is freed, and a new, empty generation begins. */
    method Empty() returns (cleared: nat)
      requires Valid()
      modifies this`nodes, this`freed, this`msgCount, this`epochs, head, nodes
      ensures Valid() && nodes == [] && epochs == old(epochs) + [[]] && freed == created
      ensures cleared == |old(Messages())|
    {
      FreeAll();
      cleared, msgCount := msgCount, 0;
      ghost var before := epochs;
      epochs := epochs + [[]];
      forall d | d in cursors ensures Transcript(d) {
        assert old(Transcript(d));
        assert before[d.epoch] == epochs[d.epoch];
      }
    }

    /**
     LISTMSG_CLEAR on the file behind `c`.  It resets only the caller's cursor: the readers are all safe afterwards
     exactly when every other one was at EOF, and one that was not is left on a freed node.
     */
    method Clear(c: Cursor) returns (cleared: nat)
      requires Valid() && c in cursors
      modifies this`nodes, this`freed, this`msgCount, this`epochs, head, nodes, c
      ensures Valid() && nodes == [] && epochs == old(epochs) + [[]] && freed == created
      ensures cleared == |old(Messages())| && c.seen == old(c.seen)
      ensures AllSafe() <==> forall d | d in cursors && d != c :: d.pos == null
      ensures forall d | d in cursors && d != c && old(Safe(d)) && d.pos != null :: d.pos in freed
    {
      cleared := Empty();
      c.pos := null;
      assert Transcript(c);
      forall d | d in cursors && d != c && old(Safe(d)) && d.pos != null ensures d.pos in freed {
        assert d.pos in old(nodes);
      }
    }

    /** Module exit; an open file pins the module, so there is no reader. */
    method Exit()
      requires Valid() && cursors == {}
      modifies this`nodes, this`freed, head, nodes
      ensures Ring() && nodes == [] && head.next == head && freed == created
    {
      FreeAll();
    }
  }

  /** A run that leaves a reader on freed memory: two readers of one message, and CLEAR through the first. */
  method ClearUnderReader() returns (dev: Device, reader: Cursor)
    ensures dev.Valid() && reader in dev.cursors && !dev.Safe(reader)
    ensures reader.pos != null && reader.pos in dev.freed && reader.pos !in dev.nodes
  {
    dev := new Device();
    var n := dev.Write("x", false, false);
    var a := dev.Open(false);
    var b := dev.Open(false);
    reader := b.value;
    assert dev.Safe(reader);
    var cleared := dev.Clear(a.value);
  }
}
