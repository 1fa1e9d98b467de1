/**
 The bounded text loops: `print_arr` of `03-module-param/param_demo.c` and `drain_until` of
 `02-log-levels/experiments/console-path/run_pty.c`.  Buffer sizes are arbitrary.
 */
module TextLoops {
  import opened Text

  // ----- print_arr -----

  function Items(a: seq<int>): string {
    if a == [] then "" else Items(a[..|a| - 1]) + " " + DecInt(a[|a| - 1])
  }

  function Heading(name: string, n: nat): string { name + "[" + Dec(n) + "] = {" }

  /** The text `print_arr` would print into an unbounded buffer. */
  function Rendering(name: string, a: seq<int>): string { Heading(name, |a|) + Items(a) + " }" }

  lemma AppendTaken(all: string, s: string, max: nat)
    ensures var n := Min(|s|, max - |Take(all, max)|); Take(all, max) + s[..n] == Take(all + s, max)
  {
    var t := Take(all, max);
    var n := Min(|s|, max - |t|);
    assert |all| >= max ==> n == 0 && s[..0] == [];
    assert |all| < max ==> t == all;
  }

  /**
   scnprintf(buf + off, sizeof buf - off, ...): appends what fits before the final NUL and returns how much that
   was.  `all` is the text printed so far without a bound.
   */
  method Scnprintf(buf: array<char>, off: nat, s: string, ghost all: string) returns (n: nat)
    requires off < buf.Length && buf[..off] == Take(all, buf.Length - 1)
    modifies buf
    ensures off + n < buf.Length && buf[off + n] == '\0'
    ensures buf[..off + n] == Take(all + s, buf.Length - 1)
  {
    n := Min(|s|, buf.Length - off - 1);
    forall k | 0 <= k < n { buf[off + k] := s[k]; }
    buf[off + n] := '\0';
    assert buf[..off + n] == old(buf[..off]) + s[..n];
    AppendTaken(all, s, buf.Length - 1);
  }

  lemma ItemsNext(heading: string, a: seq<int>, i: nat)
    requires i < |a|
    ensures heading + Items(a[..i]) + (" " + DecInt(a[i])) == heading + Items(a[..i + 1])
  {
    assert a[..i + 1][..i] == a[..i];
    Reassociate(heading, Items(a[..i]), " ", DecInt(a[i]));
  }

  lemma Reassociate(h: string, x: string, b: string, y: string)
    ensures h + x + (b + y) == h + (x + b + y)
  {
  }

  /** `print_arr` prints exactly the first size-1 characters of the full rendering. */
  method PrintArr(name: string, a: seq<int>, size: nat) returns (text: string)
    requires size > 0
    ensures text == Take(Rendering(name, a), size - 1)
  {
    var buf := new char[size](_ => '\0');
    var off := Scnprintf(buf, 0, Heading(name, |a|), "");
    ghost var all := Heading(name, |a|);
    assert "" + all == all;
    var i := 0;
    while i < |a|
      invariant i <= |a| && 0 <= off < size && all == Heading(name, |a|) + Items(a[..i])
      invariant buf[..off] == Take(all, size - 1)
    {
      var n := Scnprintf(buf, off, " " + DecInt(a[i]), all);
      ItemsNext(Heading(name, |a|), a, i);
      all := all + (" " + DecInt(a[i]));
      off := off + n;
      i := i + 1;
    }
    assert a[..|a|] == a;
    var n := Scnprintf(buf, off, " }", all);
    text := buf[..off + n];
  }

  // ----- Reading a rendering back -----

  function NumberSpan(s: string): nat { if s != "" && s[0] == '-' then 1 + DigitSpan(s[1..]) else DigitSpan(s) }

  /** The numbers a text goes on with, each behind one blank. */
  function ReadNumbers(s: string): seq<int>
    decreases |s|
  {
    if |s| >= 2 && s[0] == ' ' && (s[1] == '-' || IsDigit(s[1])) then
      [Atol(s[1..])] + ReadNumbers(s[1..][Min(NumberSpan(s[1..]), |s| - 1)..])
    else []
  }

  lemma {:induction false} DigitsReadBack(n: nat, rest: string)
    requires rest != "" && !IsDigit(rest[0])
    ensures var s := Dec(n) + rest;
      IsDigit(s[0]) && DigitSpan(s) == |Dec(n)| && DigitsValue(s[..DigitSpan(s)]) == n
  {
    var d := Dec(n);
    assert forall i | 0 <= i < |d| :: (d + rest)[i] == d[i];
    DigitSpanIs(d + rest, |d|);
    assert (d + rest)[..|d|] == d;
    DigitsValueOfDec(n);
  }

  lemma MinusReads(x: string)
    ensures Atol("-" + x) == -(DigitsValue(x[..DigitSpan(x)]) as int) && NumberSpan("-" + x) == 1 + DigitSpan(x)
  {
    assert ("-" + x)[1..] == x;
  }

  lemma DigitReads(x: string)
    requires x != "" && IsDigit(x[0])
    ensures Atol(x) == DigitsValue(x[..DigitSpan(x)]) && NumberSpan(x) == DigitSpan(x)
  {
  }

  lemma {:induction false} NumberReadsBack(n: int, d: string, rest: string)
    requires rest != "" && !IsDigit(rest[0]) && d == DecInt(n)
    ensures var s := d + rest;
      && |d| > 0 && Atol(s) == n && NumberSpan(s) == |d| && (s[0] == '-' || IsDigit(s[0]))
  {
    if n < 0 {
      var x := Dec(-n) + rest;
      DigitsReadBack(-n, rest);
      MinusReads(x);
      assert d + rest == "-" + x;
    } else {
      var x := Dec(n) + rest;
      DigitsReadBack(n, rest);
      DigitReads(x);
      assert d + rest == x;
    }
  }

  lemma {:induction false} ReadOne(n: int, d: string, rest: string)
    requires rest != "" && !IsDigit(rest[0]) && d == DecInt(n)
    ensures ReadNumbers(" " + (d + rest)) == [n] + ReadNumbers(rest)
  {
    NumberReadsBack(n, d, rest);
    var t := d + rest;
    assert (" " + t)[1..] == t && t[|d|..] == rest;
  }

  /** Texts, each behind a blank. */
  function Spaced(ds: seq<string>): string { if ds == [] then "" else " " + ds[0] + Spaced(ds[1..]) }

  lemma {:induction false} SpacedLast(ds: seq<string>, d: string)
    ensures Spaced(ds + [d]) == Spaced(ds) + " " + d
  {
    if ds == [] {
      assert ds + [d] == [d] && [d][1..] == [];
      assert " " + d + "" == "" + " " + d;
    } else {
      assert (ds + [d])[0] == ds[0] && (ds + [d])[1..] == ds[1..] + [d];
      SpacedLast(ds[1..], d);
      Regroup(" " + ds[0], Spaced(ds[1..]), " ", d);
    }
  }

  lemma Regroup(h: string, x: string, b: string, y: string)
    ensures h + (x + b + y) == h + x + b + y
  {
  }

  lemma {:induction false} ItemsAreSpaced(a: seq<int>, ds: seq<string>)
    requires |ds| == |a| && forall i | 0 <= i < |a| :: ds[i] == DecInt(a[i])
    ensures Items(a) == Spaced(ds)
  {
    if a == [] {
    } else {
      var n := |a| - 1;
      var front, d := ds[..n], ds[n];
      assert d == DecInt(a[n]) && front + [d] == ds;
      ItemsAreSpaced(a[..n], front);
      SpacedLast(front, d);
      OneMoreItem(a, d, Spaced(front));
    }
  }

  lemma OneMoreItem(a: seq<int>, d: string, before: string)
    requires a != [] && before == Items(a[..|a| - 1]) && d == DecInt(a[|a| - 1])
    ensures Items(a) == before + " " + d
  {
  }

  lemma SpacedUnfolds(ds: seq<string>)
    ensures (Spaced(ds) + " }")[0] == ' '
    ensures ds != [] ==> Spaced(ds) + " }" == " " + (ds[0] + (Spaced(ds[1..]) + " }"))
  {
    if ds != [] { FourJoin(" ", ds[0], Spaced(ds[1..]), " }"); }
  }

  lemma FourJoin(a: string, b: string, c: string, d: string)
    ensures a + b + c + d == a + (b + (c + d))
  {
  }

  /** The numbers, negative ones included, read back in order up to the closing brace. */
  lemma {:induction false} NumbersReadBack(a: seq<int>, ds: seq<string>)
    requires |ds| == |a| && forall i | 0 <= i < |a| :: ds[i] == DecInt(a[i])
    ensures ReadNumbers(Spaced(ds) + " }") == a
  {
    SpacedUnfolds(ds);
    if a == [] {
      assert Spaced(ds) + " }" == " }";
    } else {
      NumbersReadBack(a[1..], ds[1..]);
      SpacedUnfolds(ds[1..]);
      ReadOne(a[0], ds[0], Spaced(ds[1..]) + " }");
    }
  }

  /** A rendering is the name, the count in brackets and the numbers in braces, and count and numbers read back. */
  lemma {:induction false} RenderingReadsBack(name: string, a: seq<int>) returns (count: string, list: string)
    ensures Rendering(name, a) == name + "[" + count + "] = {" + list + " }"
    ensures (forall i | 0 <= i < |count| :: IsDigit(count[i])) && Atol(count) == |a|
    ensures ReadNumbers(list + " }") == a
  {
    var ds := seq(|a|, i requires 0 <= i < |a| => DecInt(a[i]));
    count, list := Dec(|a|), Spaced(ds);
    ItemsAreSpaced(a, ds);
    NumbersReadBack(a, ds);
    AtolOfDec(|a|, "");
    assert count + "" == count;
  }

  // ----- drain_until -----

  /**
   What one turn of the loop meets.  `Chunk(s)`: the terminal is readable and a read with room to spare would
   return `s`, where nothing means end of input.  `ChildGone(rest)`: nothing to read and the child has exited;
   `rest` is what each of the reads that follow would return.
   */
  datatype Event = Chunk(s: string) | Interrupted | Idle | ReadError | Deadline | ChildGone(rest: seq<string>)

  /** What the reads of the last loop would yield: it ends with the first that returns nothing. */
  function Join(chunks: seq<string>): string {
    if chunks == [] || chunks[0] == "" then "" else chunks[0] + Join(chunks[1..])
  }

  /** The text a buffer without a bound would receive. */
  function Received(events: seq<Event>): string {
    if events == [] then ""
    else match events[0]
      case Chunk(s) => if s == "" then "" else s + Received(events[1..])
      case Interrupted => Received(events[1..])
      case Idle => Received(events[1..])
      case ChildGone(rest) => Join(rest)
      case _ => ""
  }

  lemma Join3(a: string, b: string, c: string)
    ensures a + (b + c) == a + b + c && a + "" == a
  {
  }

  // What is received, apart from how the loops go on: folds over the pieces.

  function Pieces(ps: seq<string>): string { if ps == [] then "" else Pieces(ps[..|ps| - 1]) + ps[|ps| - 1] }

  function Chunks(events: seq<Event>): string {
    if events == [] then ""
    else
      var e := events[|events| - 1];
      Chunks(events[..|events| - 1]) + (if e.Chunk? then e.s else "")
  }

  /** A piece of input, an interruption, or a wait in vain: the loop goes on. */
  predicate GoesOn(e: Event) { e.Interrupted? || e.Idle? || (e.Chunk? && e.s != "") }

  lemma {:induction false} PiecesFirst(p: string, ps: seq<string>)
    ensures Pieces([p] + ps) == p + Pieces(ps)
    decreases |ps|
  {
    if ps == [] {
      assert [p] + ps == [p] && [p][..0] == [];
    } else {
      var n := |ps| - 1;
      assert ([p] + ps)[..|ps|] == [p] + ps[..n];
      PiecesFirst(p, ps[..n]);
      Join3(p, Pieces(ps[..n]), ps[n]);
    }
  }

  lemma {:induction false} ChunksFirst(e: Event, es: seq<Event>)
    ensures Chunks([e] + es) == (if e.Chunk? then e.s else "") + Chunks(es)
    decreases |es|
  {
    if es == [] {
      assert [e] + es == [e] && [e][..0] == [];
    } else {
      var n := |es| - 1;
      assert ([e] + es)[..|es|] == [e] + es[..n];
      ChunksFirst(e, es[..n]);
      Join3(if e.Chunk? then e.s else "", Chunks(es[..n]), if es[n].Chunk? then es[n].s else "");
    }
  }

  /** The last reads join up to the first that returns nothing, at `m`. */
  lemma {:induction false} JoinIs(rest: seq<string>, m: nat)
    requires m <= |rest| && (m < |rest| ==> rest[m] == "") && forall i | 0 <= i < m :: rest[i] != ""
    ensures Join(rest) == Pieces(rest[..m])
  {
    if m == 0 {
      assert rest[..0] == [];
    } else {
      JoinIs(rest[1..], m - 1);
      PiecesFirst(rest[0], rest[1..][..m - 1]);
      assert rest[..m] == [rest[0]] + rest[1..][..m - 1];
    }
  }

  /** What the event that ends the loop leaves; `m` is where the last reads end. */
  function LastReads(e: Event, m: nat): string
    requires e.ChildGone? ==> m <= |e.rest|
  {
    if e.ChildGone? then Pieces(e.rest[..m]) else ""
  }

  /**
   With event `k` the first that ends the loop: the chunks before it are received, joined, and if it is the end of the
   child, what the last reads bring before the first that returns nothing.
   */
  lemma {:induction false} ReceivedIs(events: seq<Event>, k: nat, m: nat)
    requires k <= |events| && (forall i | 0 <= i < k :: GoesOn(events[i])) && (k < |events| ==> !GoesOn(events[k]))
    requires k < |events| && events[k].ChildGone? ==>
               var rest := events[k].rest;
               m <= |rest| && (m < |rest| ==> rest[m] == "") && forall i | 0 <= i < m :: rest[i] != ""
    ensures Received(events) == Chunks(events[..k]) + if k < |events| then LastReads(events[k], m) else ""
  {
    if k == 0 {
      assert events[..0] == [];
      if events != [] && events[0].ChildGone? { JoinIs(events[0].rest, m); }
    } else {
      var e, more := events[0], events[1..];
      ReceivedIs(more, k - 1, m);
      ChunksFirst(e, more[..k - 1]);
      assert events[..k] == [e] + more[..k - 1];
      Join3(if e.Chunk? then e.s else "", Chunks(more[..k - 1]), if k < |events| then LastReads(events[k], m) else "");
    }
  }

  /** Waits in vain and interruptions make no difference. */
  lemma {:induction false} WaitsDoNotMatter(a: seq<Event>, e: Event, b: seq<Event>)
    requires e.Idle? || e.Interrupted?
    ensures Received(a + [e] + b) == Received(a + b)
    decreases |a|
  {
    if a == [] {
      assert a + [e] + b == [e] + b && a + b == b;
      assert ([e] + b)[1..] == b;
    } else {
      WaitsDoNotMatter(a[1..], e, b);
      assert (a + [e] + b)[1..] == a[1..] + [e] + b && (a + b)[1..] == a[1..] + b;
    }
  }

  /** read(fd, out + used, cap - used - 1) where `s` is there to be read; `all` is the text of the reads so far. */
  method ReadInto(out: array<char>, used: nat, s: string, ghost all: string) returns (n: nat)
    requires used < out.Length && out[..used] == Take(all, out.Length - 1)
    modifies out
    ensures used + n < out.Length && out[..used + n] == Take(all + s, out.Length - 1)
    ensures n == Min(|s|, out.Length - used - 1)
  {
    n := Min(|s|, out.Length - used - 1);
    forall i | 0 <= i < n { out[used + i] := s[i]; }
    assert out[..used + n] == old(out[..used]) + s[..n];
    AppendTaken(all, s, out.Length - 1);
  }

  /** Where a read returned nothing, the buffer holds all it will ever hold. */
  lemma NothingRead(out: string, all: string, s: string, rest: string, max: nat)
    requires out == Take(all + s, max) && |out| <= max
    requires s == "" || |out| == max
    ensures s == "" ==> Take(all, max) == out
    ensures s != "" ==> Take(all + (s + rest), max) == out
  {
    Join3(all, s, rest);
  }

  /**
   `drain_until`, for any terminal output: what an unbounded buffer would receive, cut to the buffer, with a
   NUL behind it.  A read of no bytes, for want of input or of room, ends the loop.
   */
  method DrainUntil(events: seq<Event>, cap: nat) returns (out: array<char>, used: nat)
    requires cap > 0
    ensures fresh(out) && out.Length == cap && used < cap && out[used] == '\0'
    ensures out[..used] == Take(Received(events), cap - 1)
  {
    out := new char[cap](_ => '\0');
    used := 0;
    ghost var all := "";
    var k := 0;
    while k < |events|
      invariant k <= |events| && used < cap && out[..used] == Take(all, cap - 1)
      invariant all + Received(events[k..]) == Received(events)
    {
      var e := events[k];
      assert events[k..][0] == e && events[k..][1..] == events[k + 1..];
      k := k + 1;
      if e == Interrupted || e == Idle {
        continue;
      } else if e.ChildGone? {
        used := DrainRest(out, used, e.rest, all);
        out[used] := '\0';
        return;
      } else if !e.Chunk? {
        break;
      }
      var n := ReadInto(out, used, e.s, all);
      if n == 0 {
        NothingRead(out[..used], all, e.s, Received(events[k..]), cap - 1);
        break;
      }
      Join3(all, e.s, Received(events[k..]));
      all, used := all + e.s, used + n;
      out[used] := '\0';
    }
    Join3(all, "", "");
    out[used] := '\0';
  }

  /** The loop that collects what an exited child has left behind. */
  method DrainRest(out: array<char>, used: nat, rest: seq<string>, ghost before: string) returns (used': nat)
    requires used < out.Length && out[..used] == Take(before, out.Length - 1)
    modifies out
    ensures used' < out.Length && out[..used'] == Take(before + Join(rest), out.Length - 1)
  {
    used' := used;
    ghost var all := before;
    var j := 0;
    while j < |rest|
      invariant j <= |rest| && used' < out.Length && out[..used'] == Take(all, out.Length - 1)
      invariant all + Join(rest[j..]) == before + Join(rest)
    {
      assert rest[j..][0] == rest[j] && rest[j..][1..] == rest[j + 1..];
      var n := ReadInto(out, used', rest[j], all);
      if n == 0 {
        NothingRead(out[..used'], all, rest[j], Join(rest[j + 1..]), out.Length - 1);
        return;
      }
      Join3(all, rest[j], Join(rest[j + 1..]));
      all, used', j := all + rest[j], used' + n, j + 1;
    }
    Join3(all, "", "");
  }
}
