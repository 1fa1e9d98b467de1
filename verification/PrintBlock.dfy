/**
 The line normaliser `print_block` of `02-log-levels/experiments/console-path/run_pty.c`, with a line buffer of any
 size.
 */
module PrintBlock {
  import opened Text
  import opened TextLoops

  /** Lines, each ended by a newline, joined to a text. */
  function Unsplit(lines: seq<string>): string {
    if lines == [] then "" else Unsplit(lines[..|lines| - 1]) + lines[|lines| - 1] + "\n"
  }

  /** The complete lines of a text, and what follows its last newline. */
  function LinesOf(t: string): seq<string> {
    if t == "" then []
    else
      var front := t[..|t| - 1];
      if t[|t| - 1] == '\n' then LinesOf(front) + [RestOf(front)] else LinesOf(front)
  }

  function RestOf(t: string): string {
    if t == "" || t[|t| - 1] == '\n' then "" else RestOf(t[..|t| - 1]) + [t[|t| - 1]]
  }

  predicate OneLine(s: string) { forall k | 0 <= k < |s| :: s[k] != '\n' }

  predicate AllLines(lines: seq<string>) { forall i | 0 <= i < |lines| :: OneLine(lines[i]) }

  /** A line without its trailing carriage returns, and without trailing blanks if `blanks`. */
  function Strip(s: string, blanks: bool): string {
    if s != "" && (s[|s| - 1] == '\r' || (blanks && s[|s| - 1] == ' ')) then Strip(s[..|s| - 1], blanks) else s
  }

  function Keep(s: string): seq<string> { if s == "" then [] else [s] }

  /** What is shown of complete lines: cut to the buffer, stripped, blank ones dropped. */
  function Normal(lines: seq<string>, cap: nat): seq<string>
    requires cap > 0
  {
    if lines == [] then []
    else Normal(lines[..|lines| - 1], cap) + Keep(Strip(Take(lines[|lines| - 1], cap - 1), true))
  }

  /** What is shown of the unfinished rest: its blanks are kept. */
  function NormalRest(rest: string, cap: nat): seq<string>
    requires cap > 0
  {
    Keep(Strip(Take(rest, cap - 1), false))
  }

  lemma {:induction false} StripKeeps(s: string, blanks: bool)
    ensures var r := Strip(s, blanks);
      r <= s && (r != "" ==> r[|r| - 1] != '\r' && (blanks ==> r[|r| - 1] != ' '))
  {
    if s == "" || (s[|s| - 1] != '\r' && !(blanks && s[|s| - 1] == ' ')) {
    } else {
      StripKeeps(s[..|s| - 1], blanks);
    }
  }

  /** The end of a line: a NUL behind it, which moves to the left over what is stripped; shown unless blank. */
  method ShowLine(line: array<char>, li: nat, blanks: bool, shown: seq<string>) returns (shown': seq<string>)
    requires li < line.Length && '\0' !in line[..li]
    modifies line
    ensures shown' == shown + Keep(Strip(old(line[..li]), blanks))
  {
    var n := li;
    line[n] := '\0';
    while n > 0 && (line[n - 1] == '\r' || (blanks && line[n - 1] == ' '))
      invariant n <= li && line[n] == '\0' && line[..n] == old(line[..n])
      invariant Strip(line[..n], blanks) == Strip(old(line[..li]), blanks)
    {
      assert line[..n][..n - 1] == line[..n - 1];
      n := n - 1;
      line[n] := '\0';
    }
    assert old(line[..li])[..n] == line[..n];
    assert line[..][..n] == line[..n];
    IndexOfIs(line[..], '\0', n);
    shown' := if line[0] != '\0' then shown + [CString(line[..])] else shown;
  }

  lemma {:induction false} RestHasNoNul(t: string)
    requires '\0' !in t
    ensures '\0' !in RestOf(t)
  {
    if t == "" || t[|t| - 1] == '\n' {
    } else {
      RestHasNoNul(t[..|t| - 1]);
    }
  }

  /** `print_block`: lines cut to the buffer and stripped; only the unfinished last one keeps its blanks. */
  method PrintBlock(text: string, cap: nat) returns (shown: seq<string>)
    requires cap > 0
    ensures shown == Normal(LinesOf(CString(text)), cap) + NormalRest(RestOf(CString(text)), cap)
  {
    var line := new char[cap](_ => '\0');
    var li;
    shown, li := CollectAll(text, line);
    RestHasNoNul(CString(text));
    if li > 0 {
      shown := ShowLine(line, li, false, shown);
    }
  }

  lemma NulEndsText(text: string, i: nat)
    requires i <= |CString(text)|
    ensures var all := CString(text);
      && (i < |text| && text[i] != '\0' <==> i < |all|)
      && (if i < |all| then all[..i + 1] == all[..i] + [text[i]] else all[..i] == all)
  {
    var k := IndexOf(text, '\0');
    assert i < k ==> text[..k][i] == text[i];
  }

  /** The loop, up to the NUL or the end of the text: characters collect in the line buffer until a newline. */
  method CollectAll(text: string, line: array<char>) returns (shown: seq<string>, li: nat)
    requires line.Length > 0
    modifies line
    ensures li < line.Length && line[..li] == Take(RestOf(CString(text)), line.Length - 1)
    ensures shown == Normal(LinesOf(CString(text)), line.Length)
  {
    shown, li := [], 0;
    ghost var all := CString(text);
    var i := 0;
    while i < |text| && text[i] != '\0'
      invariant i <= |all|
      invariant li < line.Length && line[..li] == Take(RestOf(all[..i]), line.Length - 1)
      invariant shown == Normal(LinesOf(all[..i]), line.Length)
    {
      NulEndsText(text, i);
      shown, li := Collect(text[i], line, li, shown, all[..i]);
      i := i + 1;
    }
    NulEndsText(text, i);
  }

  /** What one more character does to the lines and to the rest, as far as the buffer holds it. */
  lemma NextChar(seen: string, c: char, max: nat)
    ensures LinesOf(seen + [c]) == if c == '\n' then LinesOf(seen) + [RestOf(seen)] else LinesOf(seen)
    ensures RestOf(seen + [c]) == if c == '\n' then "" else RestOf(seen) + [c]
    ensures c != '\n' ==>
      Take(RestOf(seen + [c]), max) == Take(RestOf(seen), max) + (if |Take(RestOf(seen), max)| < max then [c] else [])
  {
    assert (seen + [c])[..|seen|] == seen;
    AppendTaken(RestOf(seen), [c], max);
  }

  lemma HeldHasNoNul(seen: string, max: nat)
    requires '\0' !in seen
    ensures '\0' !in Take(RestOf(seen), max)
  {
    RestHasNoNul(seen);
  }

  /** What a newline does to the buffered line and to what is shown. */
  lemma NewlineTurn(seen: string, cap: nat)
    requires cap > 0
    ensures Take(RestOf(seen + "\n"), cap - 1) == ""
    ensures Normal(LinesOf(seen + "\n"), cap) ==
            Normal(LinesOf(seen), cap) + Keep(Strip(Take(RestOf(seen), cap - 1), true))
  {
    NextChar(seen, '\n', 0);
    EndLine(LinesOf(seen), RestOf(seen), cap);
  }

  /** One turn of the loop: a newline ends and shows the line, any other character joins it if there is room. */
  method Collect(c: char, line: array<char>, li: nat, shown: seq<string>, ghost seen: string)
      returns (shown': seq<string>, li': nat)
    requires li < line.Length && line[..li] == Take(RestOf(seen), line.Length - 1) && '\0' !in seen
    requires shown == Normal(LinesOf(seen), line.Length)
    modifies line
    ensures li' < line.Length && line[..li'] == Take(RestOf(seen + [c]), line.Length - 1)
    ensures shown' == Normal(LinesOf(seen + [c]), line.Length)
  {
    shown', li' := shown, li;
    if c == '\n' {
      HeldHasNoNul(seen, line.Length - 1);
      NewlineTurn(seen, line.Length);
      shown' := ShowLine(line, li, true, shown);
      li' := 0;
    } else {
      NextChar(seen, c, line.Length - 1);
      if li < line.Length - 1 {
        line[li] := c;
        li' := li + 1;
        assert line[..li'] == old(line[..li]) + [c];
      }
    }
  }

  lemma EndLine(lines: seq<string>, rest: string, cap: nat)
    requires cap > 0
    ensures Unsplit(lines + [rest]) == Unsplit(lines) + rest + "\n"
    ensures Normal(lines + [rest], cap) == Normal(lines, cap) + Keep(Strip(Take(rest, cap - 1), true))
  {
    assert (lines + [rest])[..|lines|] == lines;
  }

  /** `lines`, each ended by a newline, and `rest` make up the text. */
  ghost predicate Splits(t: string, lines: seq<string>, rest: string) {
    t == Unsplit(lines) + rest && AllLines(lines) && OneLine(rest)
  }

  lemma SplitsOneMore(t: string, lines: seq<string>, rest: string, c: char)
    requires Splits(t, lines, rest)
    ensures if c == '\n' then Splits(t + [c], lines + [rest], "") else Splits(t + [c], lines, rest + [c])
  {
    EndLine(lines, rest, 1);
    Join3(Unsplit(lines), rest, [c]);
  }

  lemma {:induction false} SplitIsComplete(t: string)
    ensures Splits(t, LinesOf(t), RestOf(t))
  {
    if t == "" {
    } else {
      var front, c := t[..|t| - 1], t[|t| - 1];
      SplitIsComplete(front);
      SplitsOneMore(front, LinesOf(front), RestOf(front), c);
      assert t == front + [c];
    }
  }

  /** There is only one way to see a text as complete lines and a rest. */
  lemma {:induction false} SplitIsUnique(t: string, xs: seq<string>, a: string, ys: seq<string>, b: string)
    requires Splits(t, xs, a) && Splits(t, ys, b)
    ensures xs == ys && a == b
    decreases |xs| + |ys|
  {
    LastNewline(t, xs, a);
    LastNewline(t, ys, b);
    assert |a| == |b| && (xs == [] <==> ys == []);
    assert a == t[|t| - |a|..] && b == t[|t| - |a|..];
    assert Unsplit(xs) == t[..|t| - |a|] && Unsplit(ys) == t[..|t| - |a|];
    if xs == [] {
    } else {
      var x, y, u := xs[|xs| - 1], ys[|ys| - 1], Unsplit(xs);
      assert u[..|u| - 1] == Unsplit(xs[..|xs| - 1]) + x && u[..|u| - 1] == Unsplit(ys[..|ys| - 1]) + y;
      assert x in xs && y in ys;
      SplitIsUnique(u[..|u| - 1], xs[..|xs| - 1], x, ys[..|ys| - 1], y);
      assert xs == xs[..|xs| - 1] + [x] && ys == ys[..|ys| - 1] + [y];
    }
  }

  /** The rest is what follows the last newline of the text. */
  lemma LastNewline(t: string, xs: seq<string>, a: string)
    requires t == Unsplit(xs) + a && OneLine(a)
    ensures forall j | |t| - |a| <= j < |t| :: t[j] != '\n'
    ensures if xs == [] then |a| == |t| else |t| > |a| && t[|t| - |a| - 1] == '\n'
  {
    assert forall j | |t| - |a| <= j < |t| :: t[j] == a[j - (|t| - |a|)];
  }

  /** Every line shown is non-empty, fits the buffer, is one line, and ends in neither a blank nor a carriage return. */
  lemma {:induction false} NormalLinesAreNormal(lines: seq<string>, cap: nat)
    requires cap > 0 && AllLines(lines)
    ensures forall s | s in Normal(lines, cap) ::
              s != "" && |s| < cap && OneLine(s) && s[|s| - 1] != '\r' && s[|s| - 1] != ' '
  {
    if lines == [] {
    } else {
      NormalLinesAreNormal(lines[..|lines| - 1], cap);
      StripKeeps(Take(lines[|lines| - 1], cap - 1), true);
      assert lines[|lines| - 1] in lines;
    }
  }

  /** Lines as a terminal sends them, with a carriage return before each newline. */
  function Sent(lines: seq<string>): seq<string> {
    if lines == [] then [] else Sent(lines[..|lines| - 1]) + [lines[|lines| - 1] + "\r"]
  }

  lemma StripReturn(s: string)
    ensures Strip(s + "\r", true) == Strip(s, true)
  {
    assert (s + "\r")[..|s|] == s;
  }

  predicate Clean(s: string, cap: nat) { 0 < |s| < cap && Strip(s, true) == s }

  lemma CleanLineShown(s: string, cap: nat)
    requires cap > 0 && Clean(s, cap)
    ensures Keep(Strip(Take(s + "\r", cap - 1), true)) == [s]
  {
    StripReturn(s);
    assert Take(s + "\r", cap - 1) == if |s| < cap - 1 then s + "\r" else s;
  }

  /** Clean lines that fit come back as they were before the terminal added its carriage returns. */
  lemma {:induction false} CrLfIsUndone(lines: seq<string>, cap: nat)
    requires cap > 0 && forall s | s in lines :: Clean(s, cap)
    ensures Normal(Sent(lines), cap) == lines
  {
    if lines == [] {
    } else {
      var front, s := lines[..|lines| - 1], lines[|lines| - 1];
      CrLfIsUndone(front, cap);
      CleanLineShown(s, cap);
      EndLine(Sent(front), s + "\r", cap);
      assert lines == front + [s];
    }
  }

  // ----- What is shown of a line -----

  predicate Strippable(c: char, blanks: bool) { c == '\r' || (blanks && c == ' ') }

  /** `r` is `s` without the carriage returns, and blanks if asked, at its end: nothing else is missing. */
  predicate IsStripped(r: string, s: string, blanks: bool) {
    && r <= s && (forall i | |r| <= i < |s| :: Strippable(s[i], blanks))
    && (r != "" ==> !Strippable(r[|r| - 1], blanks))
  }

  lemma {:induction false} StripIs(s: string, blanks: bool)
    ensures IsStripped(Strip(s, blanks), s, blanks)
  {
    if s == "" || !Strippable(s[|s| - 1], blanks) {
    } else {
      StripIs(s[..|s| - 1], blanks);
    }
  }

  lemma StrippedIsOne(r: string, q: string, s: string, blanks: bool)
    requires IsStripped(r, s, blanks) && IsStripped(q, s, blanks)
    ensures r == q
  {
    assert q != "" ==> q[|q| - 1] == s[|q| - 1];
    assert r != "" ==> r[|r| - 1] == s[|r| - 1];
  }

  /** `shown` is what is shown of a line: its first cap - 1 characters, stripped; nothing at all if none are left. */
  ghost predicate IsShown(shown: seq<string>, line: string, cap: nat, blanks: bool)
    requires cap > 0
  {
    exists cut, r :: IsBeginning(cut, line, cap) && IsStripped(r, cut, blanks) && shown == if r == "" then [] else [r]
  }

  predicate IsBeginning(cut: string, line: string, cap: nat) {
    cut <= line && |cut| < cap && (|cut| == cap - 1 || cut == line)
  }

  /** The unfinished last line is shown too, with its blanks. */
  lemma {:induction false} RestIsShown(rest: string, cap: nat)
    requires cap > 0
    ensures IsShown(NormalRest(rest, cap), rest, cap, false)
  {
    StripIs(Take(rest, cap - 1), false);
    assert IsBeginning(Take(rest, cap - 1), rest, cap);
  }

  /** The complete lines are shown one after the other, without their blanks at the end. */
  lemma {:induction false} LinesAreShown(lines: seq<string>, cap: nat, last: string) returns (shown: seq<string>)
    requires cap > 0
    ensures IsShown(shown, last, cap, true) && Normal(lines + [last], cap) == Normal(lines, cap) + shown
    ensures Normal([], cap) == []
  {
    shown := Keep(Strip(Take(last, cap - 1), true));
    EndLine(lines, last, cap);
    StripIs(Take(last, cap - 1), true);
    assert IsBeginning(Take(last, cap - 1), last, cap);
  }

  // ----- drain_until, then print_block -----

  lemma NulBehind(s: string, k: nat)
    requires k < |s| && s[k] == '\0'
    ensures CString(s) == CString(s[..k])
  {
    var j, m := IndexOf(s, '\0'), IndexOf(s[..k], '\0');
    if m < k { IndexOfIs(s, '\0', m); } else { IndexOfIs(s, '\0', k); }
  }

  /** Text that holds no NUL and fits the buffer is shown line by line as received; what does not fit is cut off. */
  method DrainAndShow(events: seq<Event>, cap: nat, lineCap: nat) returns (shown: seq<string>)
    requires cap > 0 && lineCap > 0
    ensures var t := CString(Take(Received(events), cap - 1));
      && shown == Normal(LinesOf(t), lineCap) + NormalRest(RestOf(t), lineCap)
      && ('\0' !in Received(events) && |Received(events)| < cap ==> t == Received(events))
  {
    var out, used := DrainUntil(events, cap);
    assert out[..][..used] == out[..used];
    NulBehind(out[..], used);
    shown := PrintBlock(out[..], lineCap);
  }

  lemma {:induction false} LinesOfPrefix(t: string, k: nat)
    requires k <= |t|
    ensures LinesOf(t[..k]) <= LinesOf(t)
  {
    if k == |t| {
      assert t[..k] == t;
    } else {
      var front := t[..|t| - 1];
      LinesOfPrefix(front, k);
      assert front[..k] == t[..k];
    }
  }

  lemma {:induction false} NormalPrefix(xs: seq<string>, ys: seq<string>, cap: nat)
    requires cap > 0 && xs <= ys
    ensures Normal(xs, cap) <= Normal(ys, cap)
  {
    if |xs| == |ys| {
      assert xs == ys;
    } else {
      NormalPrefix(xs, ys[..|ys| - 1], cap);
    }
  }

  /** A buffer that is too small loses the end of the text only: the complete lines it shows are the first ones. */
  lemma {:induction false} CutShowsFirstLines(t: string, cap: nat, lineCap: nat)
    requires cap > 0 && lineCap > 0
    ensures Normal(LinesOf(CString(Take(t, cap - 1))), lineCap) <= Normal(LinesOf(t), lineCap)
  {
    var cut := CString(Take(t, cap - 1));
    assert cut == t[..|cut|];
    LinesOfPrefix(t, |cut|);
    NormalPrefix(LinesOf(cut), LinesOf(t), lineCap);
  }
}
