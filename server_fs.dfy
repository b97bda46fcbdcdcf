/**
  The two filesystem helpers of the server (index.mjs): counting what a
  finished download contains, and deleting a previous download's directory
  before a new one starts.
 */
module ServerFs {
  import opened Wrappers
  import opened Tree
  import opened FileSystem
  import SizeFormat

  function FileCount(items: seq<Item>): nat
  {
    if items == [] then 0
    else FileCount(items[..|items| - 1]) + (if items[|items| - 1].node.File? then 1 else 0)
  }

  function DirCount(items: seq<Item>): nat
  {
    if items == [] then 0
    else DirCount(items[..|items| - 1]) + (if items[|items| - 1].node.Dir? then 1 else 0)
  }

  /** The sum of the sizes of the files among `items`. */
  function FileBytes(items: seq<Item>): nat
  {
    if items == [] then 0
    else
      var it := items[|items| - 1];
      FileBytes(items[..|items| - 1]) + (if it.node.File? then it.node.size else 0)
  }

  lemma {:induction false} CountsAppend(a: seq<Item>, b: seq<Item>)
    ensures FileCount(a + b) == FileCount(a) + FileCount(b)
    ensures DirCount(a + b) == DirCount(a) + DirCount(b)
    ensures FileBytes(a + b) == FileBytes(a) + FileBytes(b)
    decreases |b|
  {
    if b == [] {
      AppendNil(a);
    } else {
      SplitLast(a, b);
      CountsAppend(a, b[..|b| - 1]);
    }
  }

  /** The counting loop for one directory: `walk(dir)` with its counters. */
  method CountEntries(dir: Path, es: seq<Entry>) returns (files: nat, dirs: nat, bytes: nat)
    ensures files == FileCount(Walk(dir, es))
    ensures dirs == DirCount(Walk(dir, es))
    ensures bytes == FileBytes(Walk(dir, es))
    decreases es
  {
    files, dirs, bytes := 0, 0, 0;
    for i := 0 to |es|
      invariant files == FileCount(Walk(dir, es[..i]))
      invariant dirs == DirCount(Walk(dir, es[..i]))
      invariant bytes == FileBytes(Walk(dir, es[..i]))
    {
      var f, d, b := CountEntry(dir, es[i]);
      CountStep(dir, es, i);
      files, dirs, bytes := files + f, dirs + d, bytes + b;
    }
    assert es[..|es|] == es;
  }

  /** One turn of the counting loop: a directory is counted and walked, a
      file counted with its size. */
  method CountEntry(dir: Path, e: Entry) returns (files: nat, dirs: nat, bytes: nat)
    ensures files == FileCount(WalkEntry(dir, e))
    ensures dirs == DirCount(WalkEntry(dir, e))
    ensures bytes == FileBytes(WalkEntry(dir, e))
    decreases e
  {
    EntryCounts(dir, e);
    match e.node
    case Dir(_, sub) =>
      var f, d, b := CountEntries(dir + [e.name], sub);
      files, dirs, bytes := f, d + 1, b;
    case File(size) =>
      files, dirs, bytes := 1, 0, size;
  }

  /** The counters after one more entry. */
  lemma CountStep(dir: Path, es: seq<Entry>, i: nat)
    requires i < |es|
    ensures var w0, w1 := Walk(dir, es[..i]), WalkEntry(dir, es[i]);
      var w := Walk(dir, es[..i + 1]);
      FileCount(w) == FileCount(w0) + FileCount(w1)
      && DirCount(w) == DirCount(w0) + DirCount(w1)
      && FileBytes(w) == FileBytes(w0) + FileBytes(w1)
  {
    assert es[..i + 1][..i] == es[..i];
    CountsAppend(Walk(dir, es[..i]), WalkEntry(dir, es[i]));
  }

  /** What one entry adds to the counters. */
  lemma EntryCounts(dir: Path, e: Entry)
    ensures match e.node
      case File(size) =>
        FileCount(WalkEntry(dir, e)) == 1 && DirCount(WalkEntry(dir, e)) == 0
        && FileBytes(WalkEntry(dir, e)) == size
      case Dir(_, sub) =>
        var w := Walk(dir + [e.name], sub);
        FileCount(WalkEntry(dir, e)) == FileCount(w) && DirCount(WalkEntry(dir, e)) == DirCount(w) + 1
        && FileBytes(WalkEntry(dir, e)) == FileBytes(w)
  {
    var head := [Item(dir + [e.name], e.node)];
    assert head[..0] == [];
    assert FileCount(head) == (if e.node.File? then 1 else 0) && DirCount(head) == (if e.node.Dir? then 1 else 0);
    assert FileBytes(head) == if e.node.File? then e.node.size else 0;
    match e.node
    case File(_) =>
      AppendNil(head);
      assert WalkEntry(dir, e) == head;
    case Dir(_, sub) =>
      assert WalkEntry(dir, e) == head + Walk(dir + [e.name], sub);
      CountsAppend(head, Walk(dir + [e.name], sub));
  }

  /** `countFilesAndDirectories(dir)`: how many directories and files lie
      below `dir`, and their total size formatted. A `dir` that is missing or
      is a file counts nothing. */
  method CountFilesAndDirectories(disk: Disk, dir: Path) returns (fileCount: nat, dirCount: nat, totalSize: string)
    ensures fileCount == FileCount(Listing(disk.root, dir))
    ensures dirCount == DirCount(Listing(disk.root, dir))
    ensures totalSize == SizeFormat.FormatSize(FileBytes(Listing(disk.root, dir)))
  {
    fileCount, dirCount, totalSize := 0, 0, SizeFormat.FormatSize(0);
    var top := disk.Get(dir);
    if top.Some? && top.value.Dir? {
      var bytes;
      fileCount, dirCount, bytes := CountEntries(dir, top.value.entries);
      totalSize := SizeFormat.FormatSize(bytes);
    }
  }

  /** Every entry is either a file or a directory: together the two counts
      are the number of entries below the directory. */
  lemma {:induction false} CountsPartition(items: seq<Item>)
    ensures FileCount(items) + DirCount(items) == |items|
  {
    if items != [] {
      CountsPartition(items[..|items| - 1]);
    }
  }

  /** Changing the sizes of directories does not change the total size. */
  lemma {:induction false} DirectorySizesIgnored(a: seq<Item>, b: seq<Item>)
    requires |a| == |b|
    requires forall k :: 0 <= k < |a| ==> a[k].node.Dir? == b[k].node.Dir?
    requires forall k :: 0 <= k < |a| ==> a[k].node.File? ==> a[k].node.size == b[k].node.size
    ensures FileBytes(a) == FileBytes(b) && FileCount(a) == FileCount(b) && DirCount(a) == DirCount(b)
    decreases |a|
  {
    if a != [] {
      DirectorySizesIgnored(a[..|a| - 1], b[..|b| - 1]);
    }
  }

  // ---------------------------------------------------------------------
  // Deletion

  /** The calls `deleteDirectory` makes for the entries of one directory,
      in order: each file unlinked, each directory emptied and removed. */
  function DeleteOps(dir: Path, es: seq<Entry>): seq<Op>
    decreases es
  {
    if es == [] then [] else DeleteOps(dir, es[..|es| - 1]) + DeleteEntryOps(dir, es[|es| - 1])
  }

  function DeleteEntryOps(dir: Path, e: Entry): seq<Op>
    decreases e
  {
    match e.node
    case File(_) => [Op.Unlink(dir + [e.name])]
    case Dir(_, sub) => DeleteOps(dir + [e.name], sub) + [Op.Rmdir(dir + [e.name])]
  }

  /** The calls `deleteDirectory(dir)` makes: none when `dir` is missing or a
      file (the `readdir` throws and is logged), otherwise its contents and
      then `dir` itself. */
  function Deletion(root: Node, dir: Path): seq<Op>
  {
    match At(root, dir)
    case Some(Dir(_, es)) => DeleteOps(dir, es) + [Op.Rmdir(dir)]
    case _ => []
  }

  /** The tree after `deleteDirectory(dir)`. */
  function Deleted(root: Node, dir: Path): Node
    requires dir != []
  {
    match At(root, dir)
    case Some(Dir(_, _)) => Put(root, dir, None)
    case _ => root
  }

  method DeleteDirectory(disk: Disk, dir: Path)
    requires disk.Valid() && dir != []
    modifies disk
    ensures disk.Valid()
    ensures disk.root == Deleted(old(disk.root), dir)
    ensures disk.ops == old(disk.ops) + Deletion(old(disk.root), dir)
    decreases NodeAt(disk.root, dir), 0
  {
    var top := disk.Get(dir);
    if top.None? || top.value.File? {
      return;
    }
    var sz, es := top.value.size, top.value.entries;
    ghost var r0, ops0 := disk.root, disk.ops;
    PutSelf(r0, dir);
    for i := 0 to |es|
      invariant disk.Valid()
      invariant disk.root == Put(r0, dir, Some(Dir(sz, es[i..])))
      invariant disk.ops == ops0 + DeleteOps(dir, es[..i])
    {
      ghost var ops1 := disk.ops;
      RemoveFirstEntry(r0, dir, sz, es, i);
      assert es[i] in es;
      DeleteEntry(disk, dir, es[i]);
      DeleteOpsStep(dir, es, i, ops0, ops1);
    }
    assert es[..|es|] == es && es[|es|..] == [];
    AtPutSame(r0, dir, Dir(sz, []));
    PutPutSame(r0, dir, Dir(sz, []), None);
    disk.Rmdir(dir);
  }

  /** One turn of the loop in `deleteDirectory`: a directory is deleted, a
      file unlinked. */
  method DeleteEntry(disk: Disk, dir: Path, e: Entry)
    requires disk.Valid() && At(disk.root, dir + [e.name]) == Some(e.node)
    modifies disk
    ensures disk.Valid()
    ensures disk.root == Put(old(disk.root), dir + [e.name], None)
    ensures disk.ops == old(disk.ops) + DeleteEntryOps(dir, e)
    decreases e.node, 1
  {
    var child := dir + [e.name];
    if e.node.Dir? {
      DeleteDirectory(disk, child);
    } else {
      disk.Unlink(child);
    }
  }

  lemma DeleteOpsStep(dir: Path, es: seq<Entry>, i: nat, ops0: seq<Op>, ops1: seq<Op>)
    requires i < |es| && ops1 == ops0 + DeleteOps(dir, es[..i])
    ensures ops1 + DeleteEntryOps(dir, es[i]) == ops0 + DeleteOps(dir, es[..i + 1])
  {
    assert es[..i + 1][..i] == es[..i];
    AppendAssoc(ops0, DeleteOps(dir, es[..i]), DeleteEntryOps(dir, es[i]));
  }


  /** With the first `i` entries of `dir` gone, the next one is at its path,
      and removing it leaves the entries after it. */
  lemma RemoveFirstEntry(r0: Node, dir: Path, sz: nat, es: seq<Entry>, i: nat)
    requires dir != [] && At(r0, dir).Some? && i < |es|
    ensures var root := Put(r0, dir, Some(Dir(sz, es[i..])));
      At(root, dir + [es[i].name]) == Some(es[i].node)
      && Put(root, dir + [es[i].name], None) == Put(r0, dir, Some(Dir(sz, es[i + 1..])))
  {
    var rest := Dir(sz, es[i..]);
    var root := Put(r0, dir, Some(rest));
    AtPutSame(r0, dir, rest);
    AtAppend(root, dir, [es[i].name]);
    FindIs(es[i..], es[i].name, 0);
    assert es[i..][..0] + es[i..][1..] == es[i + 1..];
    PutNest(r0, dir, rest, [es[i].name], None);
  }

  /** After `deleteDirectory(dir)` on a directory nothing is left at `dir`;
      a missing `dir` stays missing and a file stays; every path apart from
      `dir` is as it was. */
  lemma DeleteEffect(root: Node, dir: Path, q: Path)
    requires UniqueNames(root) && dir != []
    ensures At(Deleted(root, dir), dir) == if At(root, dir).Some? && At(root, dir).value.File? then At(root, dir) else None
    ensures Apart(dir, q) ==> At(Deleted(root, dir), q) == At(root, q)
    ensures Deletion(root, dir) == [] <==> !(At(root, dir).Some? && At(root, dir).value.Dir?)
  {
    if At(root, dir).Some? && At(root, dir).value.Dir? {
      AtPutRemoved(root, dir);
      if Apart(dir, q) {
        AtPutApart(root, dir, None, q);
      }
    }
  }

  /** Deleting twice is deleting once: the second call finds nothing to do. */
  lemma DeleteIdempotent(root: Node, dir: Path)
    requires UniqueNames(root) && dir != []
    ensures Deleted(Deleted(root, dir), dir) == Deleted(root, dir)
    ensures Deletion(Deleted(root, dir), dir) == []
  {
    if At(root, dir).Some? && At(root, dir).value.Dir? {
      AtPutRemoved(root, dir);
    }
  }

  /** `q` lies strictly inside `p`. */
  ghost predicate Below(q: Path, p: Path)
  {
    |p| < |q| && q[..|p|] == p
  }

  /** No operation touches a path inside a directory after that directory
      has been removed. */
  ghost predicate ChildrenFirst(ops: seq<Op>)
  {
    forall i, j :: 0 <= i < j < |ops| && ops[i].Rmdir? ==> !Below(ops[j].path, ops[i].path)
  }

  lemma OrderConcat(a: seq<Op>, b: seq<Op>, d: nat)
    requires ChildrenFirst(a) && ChildrenFirst(b)
    requires forall i :: 0 <= i < |a| ==> |a[i].path| > d
    requires forall i :: 0 <= i < |b| ==> |b[i].path| > d
    requires forall i, j :: 0 <= i < |a| && 0 <= j < |b| ==> a[i].path[d] != b[j].path[d]
    ensures ChildrenFirst(a + b)
  {
    var c := a + b;
    forall i, j | 0 <= i < j < |c| && c[i].Rmdir? ensures !Below(c[j].path, c[i].path) {
      if j < |a| {
        assert c[i] == a[i] && c[j] == a[j];
      } else if i >= |a| {
        assert c[i] == b[i - |a|] && c[j] == b[j - |a|];
      } else {
        assert c[i] == a[i] && c[j] == b[j - |a|];
      }
    }
  }

  /** Every call of `DeleteOps(dir, es)` is inside `dir`, under one of the
      entries of `es`, and children are removed before their directory. */
  lemma {:induction false} DeleteOpsShape(dir: Path, es: seq<Entry>)
    requires UniqueNames(Dir(0, es))
    ensures forall k :: 0 <= k < |DeleteOps(dir, es)| ==>
      Below(DeleteOps(dir, es)[k].path, dir) && DeleteOps(dir, es)[k].path[|dir|] in Names(es)
    ensures ChildrenFirst(DeleteOps(dir, es))
    ensures |DeleteOps(dir, es)| == |Walk(dir, es)|
    decreases es
  {
    if es != [] {
      var init, e := es[..|es| - 1], es[|es| - 1];
      var a, b := DeleteOps(dir, init), DeleteEntryOps(dir, e);
      assert UniqueNames(Dir(0, init));
      DeleteOpsShape(dir, init);
      DeleteEntryOpsShape(dir, e);
      assert Names(init) <= Names(es) by {
        forall x | x in Names(init) ensures x in Names(es) {
          var k :| 0 <= k < |init| && init[k].name == x;
          assert es[k] == init[k];
        }
      }
      assert e.name !in Names(init);
      OrderConcat(a, b, |dir|);
      assert e.name in Names(es) by { assert es[|es| - 1] == e; }
    }
  }

  lemma {:induction false} DeleteEntryOpsShape(dir: Path, e: Entry)
    requires UniqueNames(e.node)
    ensures forall k :: 0 <= k < |DeleteEntryOps(dir, e)| ==>
      var q := DeleteEntryOps(dir, e)[k].path;
      Below(q, dir) && q[|dir|] == e.name
    ensures ChildrenFirst(DeleteEntryOps(dir, e))
    ensures |DeleteEntryOps(dir, e)| == |WalkEntry(dir, e)|
    decreases e
  {
    var child := dir + [e.name];
    match e.node
    case File(_) =>
    case Dir(_, sub) =>
      var inner := DeleteOps(child, sub);
      DeleteOpsShape(child, sub);
      var ops := inner + [Op.Rmdir(child)];
      forall k | 0 <= k < |ops| ensures Below(ops[k].path, dir) && ops[k].path[|dir|] == e.name {
        var q := ops[k].path;
        if k < |inner| {
          assert q[..|dir|] == child[..|dir|];
          assert q[|dir|] == q[..|child|][|dir|];
        }
      }
      forall i, j | 0 <= i < j < |ops| && ops[i].Rmdir? ensures !Below(ops[j].path, ops[i].path) {
        if j < |inner| {
          assert ops[i] == inner[i] && ops[j] == inner[j];
        } else {
          assert ops[i] == inner[i];
        }
      }
  }

  /** The full call sequence of `deleteDirectory(dir)` on a directory: every
      entry below it unlinked or removed exactly as many times as there are
      entries, children first, and `rmdir(dir)` last. */
  lemma DeletionOrder(root: Node, dir: Path)
    requires UniqueNames(root) && dir != [] && At(root, dir).Some? && At(root, dir).value.Dir?
    ensures var ops := Deletion(root, dir);
      |ops| == |Listing(root, dir)| + 1 && ops[|ops| - 1] == Op.Rmdir(dir)
      && (forall k :: 0 <= k < |ops| - 1 ==> Below(ops[k].path, dir))
      && ChildrenFirst(ops)
  {
    var es := At(root, dir).value.entries;
    AtUnique(root, dir);
    DeleteOpsShape(dir, es);
    var inner := DeleteOps(dir, es);
    var ops := inner + [Op.Rmdir(dir)];
    forall k | 0 <= k < |ops| - 1 ensures Below(ops[k].path, dir) {
      assert ops[k] == inner[k];
    }
    forall i, j | 0 <= i < j < |ops| && ops[i].Rmdir? ensures !Below(ops[j].path, ops[i].path) {
      assert ops[i] == inner[i];
    }
  }
}
