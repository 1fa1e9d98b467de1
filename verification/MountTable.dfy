/**
 `find_mount` of `00-dev-and-partitions/experiments/partition-table-lab/ptab_lab.c`: which mount a path belongs
 to.  Strings are C strings; the scan keeps the last match of the greatest length.
 */
module MountTable {
  import opened Text

  datatype Mount = Mount(source: string, dir: string, fstype: string)
  datatype Result = NotFound | Found(source: string, dir: string, fstype: string)

  /** snprintf into a buffer of 256 bytes */
  function Cut(s: string): string { s[..Min(|s|, 255)] }

  /** `c` is what a buffer of 256 bytes holds of `s`. */
  predicate IsCut(c: string, s: string) { c <= s && |c| == if |s| < 255 then |s| else 255 }

  /** The answer holds, field by field, what the buffers hold of the entry. */
  predicate TakenFrom(r: Result, m: Mount) {
    r.Found? && IsCut(r.source, m.source) && IsCut(r.dir, m.dir) && IsCut(r.fstype, m.fstype)
  }

  /** The test of the loop: strncmp up to the length of the directory, then end of path or a slash. */
  predicate Matches(path: string, dir: string) {
    dir != "" && (dir == "/" || (dir <= path && (|path| == |dir| || path[|dir|] == '/')))
  }

  /** Of the first `n` entries, `k` is the best: it matches, no match is longer, no later match is as long. */
  ghost predicate BestOf(path: string, table: seq<Mount>, n: nat, k: int) {
    && 0 <= k < n <= |table| && Matches(path, table[k].dir)
    && forall j | 0 <= j < n && Matches(path, table[j].dir) ::
         |table[j].dir| <= |table[k].dir| && (|table[j].dir| == |table[k].dir| ==> j <= k)
  }

  ghost predicate NoMatch(path: string, table: seq<Mount>, n: nat) {
    n <= |table| && forall j | 0 <= j < n :: !Matches(path, table[j].dir)
  }

  /** The scan of the mount table; `at` is the entry the answer is taken from. */
  method FindMount(path: string, table: seq<Mount>) returns (r: Result, ghost at: int)
    ensures r.NotFound? <==> NoMatch(path, table, |table|)
    ensures r.Found? ==> BestOf(path, table, |table|, at) && TakenFrom(r, table[at])
  {
    r, at := NotFound, -1;
    var best := 0;
    var i := 0;
    while i < |table|
      invariant i <= |table|
      invariant r.NotFound? ==> best == 0 && NoMatch(path, table, i)
      invariant r.Found? ==> BestOf(path, table, i, at) && TakenFrom(r, table[at]) && best == |table[at].dir|
    {
      var me := table[i];
      var l := |me.dir|;
      i := i + 1;
      if l == 0 {
        continue;
      }
      var matched := if me.dir == "/" then true else me.dir <= path && (|path| == l || path[l] == '/');
      if matched && l >= best {
        best := l;
        r := Found(Cut(me.source), Cut(me.dir), Cut(me.fstype));
        at := i - 1;
      }
    }
  }

  // ----- Component-wise prefixes -----

  /** A path cut at its slashes: "/a/b" is ["", "a", "b"]. */
  function Components(path: string): (r: seq<string>)
    ensures r != []
  {
    var k := IndexOf(path, '/');
    if k == |path| then [path] else [path[..k]] + Components(path[k + 1..])
  }

  predicate IsComponentPrefix(dir: string, path: string) { Components(dir) <= Components(path) }

  predicate Under(path: string, dir: string) {
    dir <= path && (|path| == |dir| || path[|dir|] == '/')
  }

  /** For any directory but the root, the test of the loop is the component-wise prefix test, for all strings. */
  lemma {:induction false} UnderIsComponentPrefix(path: string, dir: string)
    ensures Under(path, dir) <==> IsComponentPrefix(dir, path)
    decreases |dir|
  {
    var k, n := IndexOf(dir, '/'), IndexOf(path, '/');
    if k == |dir| {
      OneComponent(path, dir);
    } else if n == k && n < |path| && dir[..k] == path[..k] {
      UnderIsComponentPrefix(path[k + 1..], dir[k + 1..]);
      SharedFirstComponent(path, dir);
    } else {
      SeveralComponents(path, dir);
    }
  }

  /** Behind an equal component and its slash, the test goes on with the rest. */
  lemma UnderSplits(path: string, dir: string, k: nat)
    requires k < |dir| && k < |path| && dir[k] == path[k] && dir[..k] == path[..k]
    ensures Under(path, dir) <==> Under(path[k + 1..], dir[k + 1..])
  {
    assert dir[..k + 1] == dir[..k] + [dir[k]] && path[..k + 1] == path[..k] + [path[k]];
    PrefixSplits(dir, path, k + 1);
  }

  lemma {:induction false} SharedFirstComponent(path: string, dir: string)
    requires var k := IndexOf(dir, '/');
             && k < |dir| && k == IndexOf(path, '/') && k < |path| && dir[..k] == path[..k]
             && (Under(path[k + 1..], dir[k + 1..]) <==> IsComponentPrefix(dir[k + 1..], path[k + 1..]))
    ensures Under(path, dir) <==> IsComponentPrefix(dir, path)
  {
    var k := IndexOf(dir, '/');
    UnderSplits(path, dir, k);
    ConsPrefix(dir[..k], Components(dir[k + 1..]), path[..k], Components(path[k + 1..]));
  }

  /** A directory of several components whose first one differs from the path's, or ends it. */
  lemma {:induction false} SeveralComponents(path: string, dir: string)
    requires var k, n := IndexOf(dir, '/'), IndexOf(path, '/');
             k < |dir| && !(n == k && n < |path| && dir[..k] == path[..k])
    ensures !Under(path, dir) && !IsComponentPrefix(dir, path)
  {
    var k, n := IndexOf(dir, '/'), IndexOf(path, '/');
    if dir <= path { FirstSlashOfExtension(dir, path); }
    FirstComponent(dir);
    FirstComponent(path);
  }

  lemma FirstComponent(path: string)
    ensures Components(path)[0] == path[..IndexOf(path, '/')]
  {
  }

  lemma {:induction false} OneComponent(path: string, dir: string)
    requires IndexOf(dir, '/') == |dir|
    ensures Under(path, dir) <==> IsComponentPrefix(dir, path)
  {
    var n := IndexOf(path, '/');
    FirstComponent(path);
    assert dir[..|dir|] == dir && Components(dir) == [dir];
    assert [dir] <= Components(path) <==> dir == path[..n];
    if Under(path, dir) { SlashFreePrefix(dir, path); }
  }

  lemma PrefixSplits(a: string, b: string, k: nat)
    requires k <= |a| && k <= |b| && a[..k] == b[..k]
    ensures a <= b <==> a[k..] <= b[k..]
  {
    if a <= b { assert a[k..] == b[k..][..|a| - k]; }
    if a[k..] <= b[k..] {
      assert a == a[..k] + a[k..] && b == b[..k] + b[k..];
    }
  }

  lemma ConsPrefix(x: string, xs: seq<string>, y: string, ys: seq<string>)
    requires x == y
    ensures [x] + xs <= [y] + ys <==> xs <= ys
  {
    if [x] + xs <= [y] + ys { assert xs == ([y] + ys)[1..][..|xs|]; }
  }

  lemma FirstSlashOfExtension(dir: string, path: string)
    requires dir <= path && IndexOf(dir, '/') < |dir|
    ensures var k := IndexOf(dir, '/'); IndexOf(path, '/') == k && dir[..k] == path[..k]
  {
    var k := IndexOf(dir, '/');
    assert path[..k] == dir[..k] && path[k] == dir[k];
    IndexOfIs(path, '/', k);
  }

  lemma SlashFreePrefix(dir: string, path: string)
    requires '/' !in dir && dir <= path && (|path| == |dir| || path[|dir|] == '/')
    ensures IndexOf(path, '/') == |dir|
  {
    if |path| > |dir| {
      assert path[..|dir|] == dir;
      IndexOfIs(path, '/', |dir|);
    } else {
      assert path == dir;
    }
  }

  // ----- What the answer means -----

  /** Mount points an absolute path lies under: the root, and the component-wise prefixes. */
  predicate Contains(dir: string, path: string) {
    dir == "/" || (dir != "" && IsComponentPrefix(dir, path))
  }

  lemma {:induction false} MatchIsContains(path: string, dir: string)
    ensures Matches(path, dir) <==> Contains(dir, path)
  {
    UnderIsComponentPrefix(path, dir);
  }

  /**
   For an absolute path, the best entry's directory is the longest mount point the path lies under; every other
   such mount point of that length is the same directory, and the entry is the last one mounted there.
   */
  lemma {:induction false} BestIsLongestMountPoint(path: string, table: seq<Mount>, k: nat, j: nat)
    requires path != "" && path[0] == '/' && BestOf(path, table, |table|, k)
    requires j < |table| && Contains(table[j].dir, path)
    ensures Contains(table[k].dir, path) && |table[j].dir| <= |table[k].dir|
    ensures |table[j].dir| == |table[k].dir| <==> table[j].dir == table[k].dir
    ensures table[j].dir == table[k].dir ==> j <= k
  {
    MatchIsContains(path, table[k].dir);
    MatchIsContains(path, table[j].dir);
  }

  /** Entry `k` is the last one mounted at `dir`. */
  predicate LastAt(table: seq<Mount>, dir: string, k: nat) {
    k < |table| && table[k].dir == dir && forall j | k < j < |table| :: table[j].dir != dir
  }

  /**
   The answer for an absolute path, in a table whose directories fit the buffer: the longest mount point above the path,
   with source and type of the last entry mounted there; and nothing is found exactly if there is no such mount point.
   */
  method FindLongest(path: string, table: seq<Mount>) returns (r: Result)
    requires path != "" && path[0] == '/' && forall m | m in table :: |m.dir| <= 255
    ensures r.NotFound? <==> forall m | m in table :: !Contains(m.dir, path)
    ensures r.Found? ==> Contains(r.dir, path) && forall m | m in table && Contains(m.dir, path) :: |m.dir| <= |r.dir|
    ensures r.Found? ==> forall m | m in table && Contains(m.dir, path) && |m.dir| == |r.dir| :: m.dir == r.dir
    ensures r.Found? ==> exists k: nat ::
              LastAt(table, r.dir, k) && IsCut(r.source, table[k].source) && IsCut(r.fstype, table[k].fstype)
  {
    ghost var at;
    r, at := FindMount(path, table);
    forall m | m in table ensures Matches(path, m.dir) <==> Contains(m.dir, path) {
      MatchIsContains(path, m.dir);
    }
    if r.Found? {
      assert table[at] in table && r.dir == table[at].dir;
      forall m | m in table && Contains(m.dir, path)
        ensures |m.dir| <= |r.dir| && (|m.dir| == |r.dir| ==> m.dir == r.dir)
      {
        var j :| 0 <= j < |table| && table[j] == m;
        BestIsLongestMountPoint(path, table, at, j);
      }
      BestIsLast(path, table, at);
    }
  }

  lemma BestIsLast(path: string, table: seq<Mount>, k: nat)
    requires BestOf(path, table, |table|, k)
    ensures LastAt(table, table[k].dir, k)
  {
  }
}
