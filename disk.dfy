/**
  The filesystem both processes share, as one mutable object: the application
  directory's tree (where `projects/` lives) and the log of every mutating
  call made on it, in order. The primitives are the `fs` calls the program
  makes; each one is used only where the program has just observed that it
  succeeds.
 */
module FileSystem {
  import opened Wrappers
  import opened Tree

  datatype Op =
    | Unlink(path: Path)        // fs.unlink
    | Rmdir(path: Path)         // fs.rmdir
    | MakeDirs(path: Path)      // fs.mkdirSync(path, { recursive: true })
    | WriteFile(path: Path)     // fs.createWriteStream(path): created or truncated, then written
    | Populate(path: Path)      // the crawler saving a site under path

  class Disk {
    var root: Node
    var ops: seq<Op>

    ghost predicate Valid()
      reads this
    {
      root.Dir? && UniqueNames(root)
    }

    constructor (initial: Node)
      requires initial.Dir? && UniqueNames(initial)
      ensures Valid() && root == initial && ops == []
    {
      root := initial;
      ops := [];
    }

    /** `fs.existsSync(p)` / `fs.stat(p)`. */
    function Get(p: Path): Option<Node>
      reads this
    {
      At(root, p)
    }

    method Unlink(p: Path)
      requires Valid() && p != [] && Get(p).Some? && Get(p).value.File?
      modifies this
      ensures Valid()
      ensures root == Put(old(root), p, None) && ops == old(ops) + [Op.Unlink(p)]
    {
      PutUnique(root, p, None);
      root := Put(root, p, None);
      ops := ops + [Op.Unlink(p)];
    }

    /** Removes an empty directory. */
    method Rmdir(p: Path)
      requires Valid() && p != [] && Get(p).Some? && Get(p).value.Dir? && Get(p).value.entries == []
      modifies this
      ensures Valid()
      ensures root == Put(old(root), p, None) && ops == old(ops) + [Op.Rmdir(p)]
    {
      PutUnique(root, p, None);
      root := Put(root, p, None);
      ops := ops + [Op.Rmdir(p)];
    }

    /** `mkdirSync(p, { recursive: true })`; `ok` is false when it throws
        because some prefix of `p` is a file. */
    method MakeDirs(p: Path) returns (ok: bool)
      requires Valid()
      modifies this
      ensures Valid()
      ensures ok == MkdirAll(old(root), p).Some?
      ensures ok ==> root == MkdirAll(old(root), p).value && ops == old(ops) + [Op.MakeDirs(p)]
      ensures !ok ==> root == old(root) && ops == old(ops)
    {
      var r := MkdirAll(root, p);
      ok := r.Some?;
      if ok {
        MkdirAllMakesDir(root, p);
        root := r.value;
        ops := ops + [Op.MakeDirs(p)];
      }
    }

    /** `fs.createWriteStream(p)`, opened and then written: creates or
        truncates the file at `p` and leaves `size` bytes in it. */
    method WriteFile(p: Path, size: nat)
      requires Valid() && p != [] && Writable(root, p)
      modifies this
      ensures Valid()
      ensures root == Put(old(root), p, Some(File(size))) && ops == old(ops) + [Op.WriteFile(p)]
    {
      PutUnique(root, p, Some(File(size)));
      root := Put(root, p, Some(File(size)));
      ops := ops + [Op.WriteFile(p)];
    }

    /** The crawler saves `site` at `p`, making the directories above it. */
    method Populate(p: Path, site: Node)
      requires Valid() && p != [] && UniqueNames(site)
      modifies this
      ensures Valid()
      ensures root == Installed(old(root), p, site)
      ensures ops == old(ops) + if MkdirAll(old(root), Parent(p)).Some? then [Op.Populate(p)] else []
    {
      var r := MkdirAll(root, Parent(p));
      if r.Some? {
        MkdirAllMakesDir(root, Parent(p));
        PutUnique(r.value, p, Some(site));
        root := Put(r.value, p, Some(site));
        ops := ops + [Op.Populate(p)];
      }
    }
  }

  /** Opening `p` for writing succeeds: its directory exists and `p` is not
      itself a directory (`EISDIR`). */
  predicate Writable(root: Node, p: Path)
  {
    At(root, Parent(p)).Some? && At(root, Parent(p)).value.Dir? && !(At(root, p).Some? && At(root, p).value.Dir?)
  }

  /** The tree after the crawler has saved `site` at `p`. */
  function Installed(root: Node, p: Path, site: Node): Node
    requires p != []
  {
    match MkdirAll(root, Parent(p))
    case None => root
    case Some(r) => Put(r, p, Some(site))
  }

  /** Where the crawler could create its directories, the site is then at `p`. */
  lemma InstalledAt(root: Node, p: Path, site: Node)
    requires p != [] && UniqueNames(root) && MkdirAll(root, Parent(p)).Some?
    ensures At(Installed(root, p, site), p) == Some(site)
  {
    var r := MkdirAll(root, Parent(p)).value;
    MkdirAllMakesDir(root, Parent(p));
    assert p == Parent(p) + [p[|p| - 1]];
    AtAppend(r, Parent(p), [p[|p| - 1]]);
    var d := At(r, Parent(p)).value;
    AtPutLast(r, p, site);
  }

  /** Setting a path whose parent is a directory makes it exist. */
  lemma {:induction false} AtPutLast(n: Node, p: Path, m: Node)
    requires p != [] && At(n, Parent(p)).Some? && At(n, Parent(p)).value.Dir?
    ensures At(Put(n, p, Some(m)), p) == Some(m)
    decreases |p|
  {
    var es := n.entries;
    if |p| > 1 {
      assert Parent(p)[0] == p[0] && Parent(p)[1..] == Parent(p[1..]);
    }
    match Find(es, p[0])
    case None =>
      if |p| == 1 {
        FindAppendNew(es, Entry(p[0], m));
      } else {
        assert false;
      }
    case Some(i) =>
      if |p| == 1 {
        FindReplaced(es, i, m, p[0]);
      } else {
        var c := Put(es[i].node, p[1..], Some(m));
        FindReplaced(es, i, c, p[0]);
        AtPutLast(es[i].node, p[1..], m);
      }
  }
}
