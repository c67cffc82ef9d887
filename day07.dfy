/** No space left on device (day 7): a terminal session of `cd` and `ls`
    commands rebuilds a directory tree; the total size of every directory
    is then listed, and the parts pick the small ones and the smallest one
    whose deletion frees enough space. */
module Day07 {
  import opened Common
  import opened Util

  /** `Directory`: sub-directories and file sizes, each by name. */
  datatype Directory = Directory(subDirs: map<string, Directory>, fileSizes: map<string, nat>)

  /** `Directory::new`. */
  const EmptyDir := Directory(map[], map[])

  // ---------------------------------------------------------------------------
  // Sizes

  /** The sum of the values of `m` under the keys `ks`, in no particular
      order. */
  ghost function MapSum(m: map<string, nat>, ks: set<string>): nat
    requires ks <= m.Keys
  {
    if ks == {} then 0 else var k :| k in ks; m[k] + MapSum(m, ks - {k})
  }

  /** The sum does not depend on the order: any key can be taken first. */
  lemma {:induction false} MapSumPick(m: map<string, nat>, ks: set<string>, k: string)
    requires ks <= m.Keys && k in ks
    ensures MapSum(m, ks) == m[k] + MapSum(m, ks - {k})
    decreases ks
  {
    var j :| j in ks && MapSum(m, ks) == m[j] + MapSum(m, ks - {j});
    if j != k {
      MapSumPick(m, ks - {j}, k);
      MapSumPick(m, ks - {k}, j);
      assert ks - {j} - {k} == ks - {k} - {j};
    }
  }

  /** Maps that agree on `ks` have the same sum there. */
  lemma {:induction false} MapSumSame(m: map<string, nat>, m': map<string, nat>, ks: set<string>)
    requires ks <= m.Keys && ks <= m'.Keys
    requires forall k :: k in ks ==> m[k] == m'[k]
    ensures MapSum(m, ks) == MapSum(m', ks)
    decreases ks
  {
    if ks != {} {
      var k :| k in ks;
      MapSumPick(m, ks, k);
      MapSumPick(m', ks, k);
      MapSumSame(m, m', ks - {k});
    }
  }

  /** Setting one value changes the total by the new value less the old. */
  lemma MapSumUpdate(m: map<string, nat>, k: string, v: nat)
    ensures MapSum(m[k := v], m[k := v].Keys) + (if k in m then m[k] else 0) == MapSum(m, m.Keys) + v
  {
    var m' := m[k := v];
    MapSumPick(m', m'.Keys, k);
    MapSumSame(m', m, m.Keys - {k});
    assert m'.Keys - {k} == m.Keys - {k};
    if k in m {
      MapSumPick(m, m.Keys, k);
    } else {
      assert m.Keys - {k} == m.Keys;
    }
  }

  /** The total size of a directory: its files and, recursively, its
      sub-directories. */
  ghost function TotalSize(d: Directory): nat
    decreases d, 1
  {
    MapSum(d.fileSizes, d.fileSizes.Keys) + MapSum(ChildTotals(d), d.subDirs.Keys)
  }

  ghost function ChildTotals(d: Directory): (r: map<string, nat>)
    ensures r.Keys == d.subDirs.Keys
    decreases d, 0
  {
    map k | k in d.subDirs :: TotalSize(d.subDirs[k])
  }

  lemma ChildTotalAt(d: Directory, k: string)
    requires k in d.subDirs
    ensures ChildTotals(d)[k] == TotalSize(d.subDirs[k])
  {
  }

  /** The totals of a directory and of every directory below it, one each. */
  ghost function Totals(d: Directory): multiset<nat>
    decreases d, 1
  {
    TotalsOver(d, d.subDirs.Keys) + multiset{TotalSize(d)}
  }

  ghost function TotalsOver(d: Directory, ks: set<string>): multiset<nat>
    requires ks <= d.subDirs.Keys
    decreases d, 0, ks
  {
    if ks == {} then multiset{} else var k :| k in ks; Totals(d.subDirs[k]) + TotalsOver(d, ks - {k})
  }

  lemma {:induction false} TotalsOverPick(d: Directory, ks: set<string>, k: string)
    requires ks <= d.subDirs.Keys && k in ks
    ensures TotalsOver(d, ks) == Totals(d.subDirs[k]) + TotalsOver(d, ks - {k})
    decreases ks
  {
    var j :| j in ks && TotalsOver(d, ks) == Totals(d.subDirs[j]) + TotalsOver(d, ks - {j});
    if j != k {
      TotalsOverPick(d, ks - {j}, k);
      TotalsOverPick(d, ks - {k}, j);
      assert ks - {j} - {k} == ks - {k} - {j};
    }
  }

  // ---------------------------------------------------------------------------
  // Paths

  /** The directory reached from `d` along the names of `path`. */
  function Lookup(d: Directory, path: seq<string>): Option<Directory>
  {
    if path == [] then Some(d)
    else if path[0] in d.subDirs then Lookup(d.subDirs[path[0]], path[1..])
    else None
  }

  /** `d` with the directory at `path` replaced by `x`. */
  function Replace(d: Directory, path: seq<string>, x: Directory): Option<Directory>
  {
    if path == [] then Some(x)
    else if path[0] in d.subDirs then
      match Replace(d.subDirs[path[0]], path[1..], x)
      case Some(c) => Some(d.(subDirs := d.subDirs[path[0] := c]))
      case None => None
    else None
  }

  /** Replacing works exactly where the path leads somewhere; afterwards
      the path leads to the new directory, and the root's total changes by
      the new directory's total less the old one's. */
  lemma {:induction false} ReplaceMeaning(d: Directory, path: seq<string>, x: Directory)
    ensures Replace(d, path, x).Some? <==> Lookup(d, path).Some?
    ensures Replace(d, path, x).Some? ==> (
      && Lookup(Replace(d, path, x).value, path) == Some(x)
      && TotalSize(Replace(d, path, x).value) + TotalSize(Lookup(d, path).value) == TotalSize(d) + TotalSize(x))
  {
    if path != [] && path[0] in d.subDirs {
      var k := path[0];
      var child := d.subDirs[k];
      ReplaceMeaning(child, path[1..], x);
      if Replace(child, path[1..], x).Some? {
        var c := Replace(child, path[1..], x).value;
        ReplaceChild(d, k, c);
      }
    }
  }

  /** Replacing one sub-directory changes the total by its change. */
  lemma ReplaceChild(d: Directory, k: string, c: Directory)
    requires k in d.subDirs
    ensures TotalSize(d.(subDirs := d.subDirs[k := c])) + TotalSize(d.subDirs[k]) == TotalSize(d) + TotalSize(c)
  {
    var d' := d.(subDirs := d.subDirs[k := c]);
    assert ChildTotals(d') == ChildTotals(d)[k := TotalSize(c)];
    MapSumUpdate(ChildTotals(d), k, TotalSize(c));
  }

  // ---------------------------------------------------------------------------
  // Commands

  /** The path after `cd dir`: "/" goes to the root, ".." up one level (at
      the root the source's `pop().unwrap()` panics, None), any other name
      down into it. */
  function Cd(path: seq<string>, dir: string): Option<seq<string>>
  {
    if dir == "/" then Some([])
    else if dir == ".." then (if path == [] then None else Some(path[..|path| - 1]))
    else Some(path + [dir])
  }

  /** Going down into a directory and back up returns to the same place. */
  lemma CdUndo(path: seq<string>, name: string)
    requires name != "/" && name != ".."
    ensures Cd(path, name).Some? && Cd(Cd(path, name).value, "..") == Some(path)
  {
    assert (path + [name])[..|path|] == path;
  }

  /** The current directory with a fresh empty sub-directory `name`. */
  function WithDir(cur: Directory, name: string): Directory
  {
    cur.(subDirs := cur.subDirs[name := EmptyDir])
  }

  /** The current directory with file `name` of `size`. */
  function WithFile(cur: Directory, name: string, size: nat): Directory
  {
    cur.(fileSizes := cur.fileSizes[name := size])
  }

  /** `add_dir` at `path` (None where the source's `expect` panics). */
  function AddDirAt(root: Directory, path: seq<string>, name: string): Option<Directory>
  {
    match Lookup(root, path)
    case Some(cur) => Replace(root, path, WithDir(cur, name))
    case None => None
  }

  /** `add_file` at `path` (None where the source's `expect` panics). */
  function AddFileAt(root: Directory, path: seq<string>, name: string, size: nat): Option<Directory>
  {
    match Lookup(root, path)
    case Some(cur) => Replace(root, path, WithFile(cur, name, size))
    case None => None
  }

  /** A fresh empty sub-directory drops the total by that of any
      sub-directory of the same name it replaces. */
  lemma WithDirTotal(cur: Directory, name: string)
    ensures TotalSize(WithDir(cur, name)) + (if name in cur.subDirs then TotalSize(cur.subDirs[name]) else 0) == TotalSize(cur)
  {
    var x := WithDir(cur, name);
    EmptyTotal();
    var t, t' := ChildTotals(cur), ChildTotals(x);
    assert t'.Keys == t[name := 0].Keys;
    forall k | k in t'
      ensures t'[k] == t[name := 0][k]
    {
    }
    assert t' == t[name := 0];
    MapSumUpdate(t, name, 0);
    assert MapSum(t', t'.Keys) + (if name in t then t[name] else 0) == MapSum(t, t.Keys);
    assert TotalSize(x) == MapSum(cur.fileSizes, cur.fileSizes.Keys) + MapSum(t', t'.Keys);
    assert TotalSize(cur) == MapSum(cur.fileSizes, cur.fileSizes.Keys) + MapSum(t, t.Keys);
    assert (if name in t then t[name] else 0) == (if name in cur.subDirs then TotalSize(cur.subDirs[name]) else 0);
  }

  lemma EmptyTotal()
    ensures TotalSize(EmptyDir) == 0
  {
    assert ChildTotals(EmptyDir) == map[];
  }

  /** Recording a file grows the total by its size less any size replaced. */
  lemma WithFileTotal(cur: Directory, name: string, size: nat)
    ensures TotalSize(WithFile(cur, name, size)) + (if name in cur.fileSizes then cur.fileSizes[name] else 0) == TotalSize(cur) + size
  {
    MapSumUpdate(cur.fileSizes, name, size);
    assert ChildTotals(WithFile(cur, name, size)) == ChildTotals(cur);
  }

  /** `add_dir` works where the current path exists; the new directory is
      empty, the current directory keeps its files and gains the name, and
      a directory of that name that was there is dropped with its contents. */
  lemma AddDirMeaning(root: Directory, path: seq<string>, name: string)
    ensures AddDirAt(root, path, name).Some? <==> Lookup(root, path).Some?
    ensures AddDirAt(root, path, name).Some? ==> (
      var cur, root' := Lookup(root, path).value, AddDirAt(root, path, name).value;
      && Lookup(root', path + [name]) == Some(EmptyDir)
      && Lookup(root', path).Some?
      && Lookup(root', path).value.fileSizes == cur.fileSizes
      && Lookup(root', path).value.subDirs.Keys == cur.subDirs.Keys + {name}
      && TotalSize(root') + (if name in cur.subDirs then TotalSize(cur.subDirs[name]) else 0) == TotalSize(root))
  {
    if Lookup(root, path).Some? {
      var cur := Lookup(root, path).value;
      var x := WithDir(cur, name);
      ReplaceMeaning(root, path, x);
      LookupAppend(Replace(root, path, x).value, path, name);
      WithDirTotal(cur, name);
    }
  }

  /** `add_file` works where the current path exists; it records the size,
      and the root's total grows by the size less any size it replaces. */
  lemma AddFileMeaning(root: Directory, path: seq<string>, name: string, size: nat)
    ensures AddFileAt(root, path, name, size).Some? <==> Lookup(root, path).Some?
    ensures AddFileAt(root, path, name, size).Some? ==> (
      var cur, root' := Lookup(root, path).value, AddFileAt(root, path, name, size).value;
      && Lookup(root', path).Some?
      && Lookup(root', path).value.fileSizes == cur.fileSizes[name := size]
      && Lookup(root', path).value.subDirs == cur.subDirs
      && TotalSize(root') + (if name in cur.fileSizes then cur.fileSizes[name] else 0) == TotalSize(root) + size)
  {
    if Lookup(root, path).Some? {
      var cur := Lookup(root, path).value;
      ReplaceMeaning(root, path, WithFile(cur, name, size));
      WithFileTotal(cur, name, size);
    }
  }

  lemma {:induction false} LookupAppend(d: Directory, path: seq<string>, name: string)
    requires Lookup(d, path).Some?
    ensures Lookup(d, path + [name]) == (if name in Lookup(d, path).value.subDirs then Some(Lookup(d, path).value.subDirs[name]) else None)
  {
    if path != [] {
      assert (path + [name])[1..] == path[1..] + [name];
      LookupAppend(d.subDirs[path[0]], path[1..], name);
    } else {
      assert [name][1..] == [];
    }
  }

  /** The effect of one line of the session on the tree and the path:
      "$ cd x" changes directory, other commands change nothing, "dir x"
      adds a directory and "<size> x" a file. None where the source panics:
      an empty line, a missing word, or a size that is not a number. */
  function LineEffect(root: Directory, path: seq<string>, line: string): Option<(Directory, seq<string>)>
  {
    var tokens := Tokenize(line);
    if |tokens| == 0 then None
    else if tokens[0] == "$" then
      if |tokens| < 2 then None
      else if tokens[1] == "cd" then
        if |tokens| < 3 then None
        else match Cd(path, tokens[2])
          case Some(p) => Some((root, p))
          case None => None
      else Some((root, path))
    else if |tokens| < 2 then None
    else if tokens[0] == "dir" then
      match AddDirAt(root, path, tokens[1])
      case Some(r) => Some((r, path))
      case None => None
    else
      match ParseNat(tokens[0])
      case None => None
      case Some(size) =>
        match AddFileAt(root, path, tokens[1], size)
        case Some(r) => Some((r, path))
        case None => None
  }

  /** A command other than `cd` ("$ ls") leaves the tree and the path as
      they are. */
  lemma OtherCommandKeeps(root: Directory, path: seq<string>, words: seq<string>)
    requires |words| >= 2 && words[0] == "$" && words[1] != "cd"
    requires forall k :: 0 <= k < |words| ==> words[k] != [] && NoWhitespace(words[k])
    ensures LineEffect(root, path, Unwords(words)) == Some((root, path))
  {
    TokenizeUnwords(words);
  }

  /** A size line records the file in the current directory. */
  lemma FileLineRecords(root: Directory, path: seq<string>, size: nat, name: string)
    requires name != [] && NoWhitespace(name) && Lookup(root, path).Some?
    ensures AddFileAt(root, path, name, size).Some?
    ensures LineEffect(root, path, Unwords([ShowNat(size), name])) == Some((AddFileAt(root, path, name, size).value, path))
  {
    var words := [ShowNat(size), name];
    assert ShowNat(size) != "$" && ShowNat(size) != "dir" by {
      assert IsDigit(ShowNat(size)[0]);
    }
    forall k | 0 <= k < |ShowNat(size)|
      ensures !IsWhitespace(ShowNat(size)[k])
    {
      assert IsDigit(ShowNat(size)[k]);
    }
    TokenizeUnwords(words);
    ParseShowNat(size);
    AddFileMeaning(root, path, name, size);
  }

  // ---------------------------------------------------------------------------
  // The file system

  class FileSystem {
    var root: Directory
    var path: seq<string>

    /** `FileSystem::new`: an empty root, at the root. */
    constructor()
      ensures root == EmptyDir && path == []
    {
      root := EmptyDir;
      path := [];
    }

    /** `current_dir`: walk down from the root along the path (None where
        a name is missing and the source's `expect` panics). */
    method CurrentDir() returns (dir: Option<Directory>)
      ensures dir == Lookup(root, path)
    {
      var d := root;
      var i := 0;
      while i < |path|
        invariant 0 <= i <= |path|
        invariant Lookup(root, path) == Lookup(d, path[i..])
      {
        assert path[i..][1..] == path[i + 1..];
        if path[i] !in d.subDirs {
          return None;
        }
        d := d.subDirs[path[i]];
        i := i + 1;
      }
      return Some(d);
    }

    /** `apply_cd`. */
    method ApplyCd(dir: string) returns (ok: bool)
      modifies this`path
      ensures ok <==> Cd(old(path), dir).Some?
      ensures ok ==> path == Cd(old(path), dir).value
    {
      if dir == "/" {
        path := [];
      } else if dir == ".." {
        if path == [] {
          return false;
        }
        path := path[..|path| - 1];
      } else {
        path := path + [dir];
      }
      return true;
    }

    /** `add_dir`. */
    method AddDir(name: string) returns (ok: bool)
      modifies this`root
      ensures ok <==> AddDirAt(old(root), path, name).Some?
      ensures ok ==> root == AddDirAt(old(root), path, name).value
    {
      var cur := CurrentDir();
      if cur.None? {
        return false;
      }
      ReplaceMeaning(root, path, WithDir(cur.value, name));
      root := Replace(root, path, WithDir(cur.value, name)).value;
      return true;
    }

    /** `add_file`. */
    method AddFile(name: string, size: nat) returns (ok: bool)
      modifies this`root
      ensures ok <==> AddFileAt(old(root), path, name, size).Some?
      ensures ok ==> root == AddFileAt(old(root), path, name, size).value
    {
      var cur := CurrentDir();
      if cur.None? {
        return false;
      }
      ReplaceMeaning(root, path, WithFile(cur.value, name, size));
      root := Replace(root, path, WithFile(cur.value, name, size)).value;
      return true;
    }

    /** `apply_line`. */
    method ApplyLine(line: string) returns (ok: bool)
      modifies this
      ensures ok <==> LineEffect(old(root), old(path), line).Some?
      ensures ok ==> (root, path) == LineEffect(old(root), old(path), line).value
    {
      var tokens := Tokenize(line);
      if |tokens| == 0 {
        return false;
      }
      if tokens[0] == "$" {
        if |tokens| < 2 {
          return false;
        }
        if tokens[1] == "cd" {
          if |tokens| < 3 {
            return false;
          }
          ok := ApplyCd(tokens[2]);
        } else {
          ok := true;
        }
      } else if |tokens| < 2 {
        return false;
      } else if tokens[0] == "dir" {
        ok := AddDir(tokens[1]);
      } else {
        var size := ParseNat(tokens[0]);
        if size.None? {
          return false;
        }
        ok := AddFile(tokens[1], size.value);
      }
    }

    /** `list_total_sizes`: the total of every directory, the root's last. */
    method ListTotalSizes() returns (res: seq<nat>)
      ensures multiset(res) == Totals(root)
      ensures res != [] && res[|res| - 1] == TotalSize(root)
    {
      var sum;
      sum, res := RecList(root, []);
      assert res[0..] == res;
    }
  }

  /** The first sum of `rec_list`: the sizes of the directory's own files. */
  method FileSum(d: Directory) returns (sum: nat)
    ensures sum == MapSum(d.fileSizes, d.fileSizes.Keys)
  {
    sum := 0;
    var names := d.fileSizes.Keys;
    while names != {}
      invariant names <= d.fileSizes.Keys
      invariant sum + MapSum(d.fileSizes, names) == MapSum(d.fileSizes, d.fileSizes.Keys)
      decreases names
    {
      var n :| n in names;
      MapSumPick(d.fileSizes, names, n);
      sum := sum + d.fileSizes[n];
      names := names - {n};
    }
  }

  lemma SplitSeq<T>(s: seq<T>, n: nat)
    requires n <= |s|
    ensures s == s[..n] + s[n..]
  {
  }

  lemma AppendAssoc<T>(a: seq<T>, b: seq<T>, c: seq<T>)
    ensures (a + b) + c == a + (b + c)
  {
  }

  lemma PrefixSuffix<T>(a: seq<T>, b: seq<T>)
    ensures (a + b)[..|a|] == a && (a + b)[|a|..] == b
  {
  }

  /** What `rec_list` has gathered once the sub-directories outside `keys`
      are listed: the sum of their totals and all the totals below them. */
  ghost predicate ListInv(d: Directory, keys: set<string>, dirSum: nat, out: seq<nat>)
  {
    keys <= d.subDirs.Keys
    && dirSum + MapSum(ChildTotals(d), keys) == MapSum(ChildTotals(d), d.subDirs.Keys)
    && multiset(out) + TotalsOver(d, keys) == TotalsOver(d, d.subDirs.Keys)
  }

  lemma ListStart(d: Directory)
    ensures ListInv(d, d.subDirs.Keys, 0, [])
  {
  }

  lemma ListStep(d: Directory, keys: set<string>, k: string, dirSum: nat, out: seq<nat>, s: nat, more: seq<nat>)
    requires ListInv(d, keys, dirSum, out) && k in keys
    requires s == TotalSize(d.subDirs[k]) && multiset(more) == Totals(d.subDirs[k])
    ensures ListInv(d, keys - {k}, dirSum + s, out + more)
  {
    MapSumPick(ChildTotals(d), keys, k);
    TotalsOverPick(d, keys, k);
    ChildTotalAt(d, k);
  }

  lemma ListEnd(d: Directory, dirSum: nat, out: seq<nat>)
    requires ListInv(d, {}, dirSum, out)
    ensures dirSum == MapSum(ChildTotals(d), d.subDirs.Keys)
    ensures multiset(out) == TotalsOver(d, d.subDirs.Keys)
  {
  }

  lemma ListDone(d: Directory, fileSum: nat, dirSum: nat, out: seq<nat>)
    requires dirSum == MapSum(ChildTotals(d), d.subDirs.Keys)
    requires multiset(out) == TotalsOver(d, d.subDirs.Keys)
    requires fileSum == MapSum(d.fileSizes, d.fileSizes.Keys)
    ensures fileSum + dirSum == TotalSize(d)
    ensures multiset(out + [fileSum + dirSum]) == Totals(d)
  {
  }

  /** `rec_list`: the total of `d`, after appending the totals below it and
      then its own, in post-order. */
  method RecList(d: Directory, res: seq<nat>) returns (sum: nat, res': seq<nat>)
    ensures sum == TotalSize(d)
    ensures |res'| > |res| && res'[..|res|] == res && res'[|res'| - 1] == sum
    ensures multiset(res'[|res|..]) == Totals(d)
    decreases d, 1
  {
    var fileSum := FileSum(d);
    var dirSum, listed := ListChildren(d, res);
    sum := fileSum + dirSum;
    ghost var out := listed[|res|..];
    ListDone(d, fileSum, dirSum, out);
    res' := listed + [sum];
    Appended(res, out, sum, listed);
  }

  lemma Appended(res: seq<nat>, out: seq<nat>, sum: nat, listed: seq<nat>)
    requires |res| <= |listed| && listed[..|res|] == res && out == listed[|res|..]
    ensures (listed + [sum])[..|res|] == res && (listed + [sum])[|res|..] == out + [sum]
  {
    assert listed + [sum] == res + (out + [sum]);
  }

  /** The loop of `rec_list` over the sub-directories: the sum of their
      totals, after appending all the totals below `d`. */
  method ListChildren(d: Directory, res: seq<nat>) returns (dirSum: nat, res': seq<nat>)
    ensures dirSum == MapSum(ChildTotals(d), d.subDirs.Keys)
    ensures |res'| >= |res| && res'[..|res|] == res
    ensures multiset(res'[|res|..]) == TotalsOver(d, d.subDirs.Keys)
    decreases d, 0
  {
    dirSum := 0;
    var keys := d.subDirs.Keys;
    ghost var out: seq<nat> := [];
    res' := res;
    ListStart(d);
    while keys != {}
      invariant ListInv(d, keys, dirSum, out)
      invariant res' == res + out
      decreases keys
    {
      var k :| k in keys;
      var s;
      ghost var before := res';
      s, res' := RecList(d.subDirs[k], res');
      ghost var more := res'[|before|..];
      SplitSeq(res', |before|);
      ListStep(d, keys, k, dirSum, out, s, more);
      AppendAssoc(res, out, more);
      out := out + more;
      dirSum := dirSum + s;
      keys := keys - {k};
    }
    ListEnd(d, dirSum, out);
    PrefixSuffix(res, out);
  }

  // ---------------------------------------------------------------------------
  // The parts

  const SMALL_LIMIT := 100000
  const TOTAL_SPACE := 70000000
  const REQUIRED_SPACE := 30000000

  /** `part_1`: the sum of the totals below 100000. */
  function SmallTotal(sizes: seq<nat>): nat
  {
    if sizes == [] then 0 else (if sizes[0] < SMALL_LIMIT then sizes[0] else 0) + SmallTotal(sizes[1..])
  }

  lemma {:induction false} SmallTotalAppend(a: seq<nat>, b: seq<nat>)
    ensures SmallTotal(a + b) == SmallTotal(a) + SmallTotal(b)
  {
    if a != [] {
      assert (a + b)[1..] == a[1..] + b;
      SmallTotalAppend(a[1..], b);
    } else {
      assert a + b == b;
    }
  }

  lemma MultisetCancel<T>(x: T, p: multiset<T>, q: multiset<T>)
    requires multiset{x} + p == multiset{x} + q
    ensures p == q
  {
    assert p == (multiset{x} + p) - multiset{x};
    assert q == (multiset{x} + q) - multiset{x};
  }

  /** The order in which the totals are listed does not matter. */
  lemma {:induction false} SmallTotalPermutation(a: seq<nat>, b: seq<nat>)
    requires multiset(a) == multiset(b)
    ensures SmallTotal(a) == SmallTotal(b)
    decreases |a|
  {
    if a != [] {
      assert a[0] in multiset(b);
      var i :| 0 <= i < |b| && b[i] == a[0];
      var rest := b[..i] + b[i + 1..];
      assert b == b[..i] + [b[i]] + b[i + 1..];
      assert a == [a[0]] + a[1..];
      assert multiset{a[0]} + multiset(a[1..]) == multiset{a[0]} + multiset(rest);
      MultisetCancel(a[0], multiset(a[1..]), multiset(rest));
      SmallTotalPermutation(a[1..], rest);
      SmallTotalAppend(b[..i] + [b[i]], b[i + 1..]);
      SmallTotalAppend(b[..i], [b[i]]);
      SmallTotalAppend(b[..i], b[i + 1..]);
    } else {
      assert b == [];
    }
  }

  /** The smallest of the sizes that are at least `need`. */
  function SmallestAtLeast(sizes: seq<nat>, need: int): (r: Option<nat>)
    ensures r.Some? <==> exists i :: 0 <= i < |sizes| && sizes[i] >= need
    ensures r.Some? ==> r.value in sizes && r.value >= need
    ensures r.Some? ==> forall i :: 0 <= i < |sizes| && sizes[i] >= need ==> r.value <= sizes[i]
  {
    if sizes == [] then None
    else
      var rest := SmallestAtLeast(sizes[1..], need);
      assert forall i :: 1 <= i < |sizes| ==> sizes[i] == sizes[1..][i - 1];
      if sizes[0] < need then rest
      else if rest.Some? && rest.value < sizes[0] then rest
      else Some(sizes[0])
  }

  /** `part_2`: with the root's total last, free space 70000000 less it and
      a need of 30000000 less the free space, the smallest total at least
      the need. None where the source panics: no totals, a `usize`
      subtraction below zero, or no total large enough. */
  function SmallestToDelete(sizes: seq<nat>): Option<nat>
  {
    if sizes == [] then None
    else
      var used := sizes[|sizes| - 1];
      if used > TOTAL_SPACE then None
      else
        var free := TOTAL_SPACE - used;
        if free > REQUIRED_SPACE then None
        else SmallestAtLeast(sizes, REQUIRED_SPACE - free)
  }

  /** Whenever the subtractions stay in range, the root itself is large
      enough, so an answer exists; it frees enough space and no smaller
      total would. */
  lemma SmallestToDeleteMeaning(sizes: seq<nat>)
    requires sizes != []
    requires TOTAL_SPACE - REQUIRED_SPACE <= sizes[|sizes| - 1] <= TOTAL_SPACE
    ensures SmallestToDelete(sizes).Some?
    ensures TOTAL_SPACE - sizes[|sizes| - 1] + SmallestToDelete(sizes).value >= REQUIRED_SPACE
    ensures forall i :: 0 <= i < |sizes| && TOTAL_SPACE - sizes[|sizes| - 1] + sizes[i] >= REQUIRED_SPACE ==>
      SmallestToDelete(sizes).value <= sizes[i]
  {
    var need := REQUIRED_SPACE - (TOTAL_SPACE - sizes[|sizes| - 1]);
    assert sizes[|sizes| - 1] >= need;
  }
}
