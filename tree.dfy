/**
  The directory tree the program walks with `readdir` and `stat`, and the path
  operations on it: lookup, replacement and removal of the entry at a path, and
  `mkdir -p`. A path is the sequence of names from the application directory.
 */
module Tree {
  import opened Wrappers

  /** What `stat` reports for an entry: a regular file with its byte size, or a
      directory with its own stat size and its listing in enumeration order. */
  datatype Node =
    | File(size: nat)
    | Dir(size: nat, entries: seq<Entry>)

  datatype Entry = Entry(name: string, node: Node)

  type Path = seq<string>

  /** The stat size of a fresh directory made by `mkdir`. */
  const NewDirSize: nat := 4096

  function SizeOf(n: Node): nat
  {
    match n
    case File(s) => s
    case Dir(s, _) => s
  }

  /** Index of the first entry called `name`, as a lookup by name finds it. */
  function Find(es: seq<Entry>, name: string): (r: Option<nat>)
    ensures r.Some? ==> r.value < |es| && es[r.value].name == name
  {
    if es == [] then None
    else if es[0].name == name then Some(0)
    else match Find(es[1..], name)
      case None => None
      case Some(k) => Some(k + 1)
  }

  /** `Find` gives the first entry called `name`, and `None` only when no
      entry is. */
  lemma {:induction false} FindSpec(es: seq<Entry>, name: string)
    ensures Find(es, name).Some? ==> forall j :: 0 <= j < Find(es, name).value ==> es[j].name != name
    ensures Find(es, name).None? <==> forall j :: 0 <= j < |es| ==> es[j].name != name
    decreases |es|
  {
    if es != [] && es[0].name != name {
      FindSpec(es[1..], name);
      assert forall j :: 1 <= j < |es| ==> es[j] == es[1..][j - 1];
    }
  }

  /** `Find` depends only on the names of a listing. */
  lemma FindSameNames(a: seq<Entry>, b: seq<Entry>, x: string)
    requires |a| == |b| && forall j :: 0 <= j < |a| ==> a[j].name == b[j].name
    ensures Find(a, x) == Find(b, x)
  {
    FindSpec(a, x);
    FindSpec(b, x);
    match Find(a, x)
    case None =>
    case Some(k) => FindIs(b, x, k);
  }

  /** The first entry called `x` determines `Find`. */
  lemma {:induction false} FindIs(es: seq<Entry>, x: string, k: nat)
    requires k < |es| && es[k].name == x && forall j :: 0 <= j < k ==> es[j].name != x
    ensures Find(es, x) == Some(k)
    decreases k
  {
    if k > 0 {
      assert es[0].name != x;
      assert forall j :: 0 <= j < k - 1 ==> es[1..][j] == es[j + 1];
      FindIs(es[1..], x, k - 1);
    }
  }

  /** An entry appended under a new name is found at the end. */
  lemma FindAppendNew(es: seq<Entry>, e: Entry)
    requires Find(es, e.name).None?
    ensures Find(es + [e], e.name) == Some(|es|)
  {
    FindSpec(es, e.name);
    assert forall j :: 0 <= j < |es| ==> (es + [e])[j] == es[j];
    FindIs(es + [e], e.name, |es|);
  }

  lemma FindAppendOther(es: seq<Entry>, e: Entry, x: string)
    requires e.name != x
    ensures Find(es + [e], x) == Find(es, x)
  {
    FindSpec(es, x);
    FindSpec(es + [e], x);
    match Find(es, x)
    case None =>
      assert forall j :: 0 <= j < |es| + 1 ==> (es + [e])[j].name != x by {
        forall j | 0 <= j < |es| + 1 ensures (es + [e])[j].name != x {
          if j < |es| { assert (es + [e])[j] == es[j]; }
        }
      }
    case Some(k) =>
      assert forall j :: 0 <= j < k ==> (es + [e])[j] == es[j];
      FindIs(es + [e], x, k);
  }

  /** Names in one directory listing are distinct, at every level. */
  ghost predicate Distinct(es: seq<Entry>)
  {
    forall i, j :: 0 <= i < j < |es| ==> es[i].name != es[j].name
  }

  ghost predicate UniqueNames(n: Node)
  {
    match n
    case File(_) => true
    case Dir(_, es) => Distinct(es) && forall i :: 0 <= i < |es| ==> UniqueNames(es[i].node)
  }

  /** What `existsSync` and `stat` see at path `p` below `n`. */
  function At(n: Node, p: Path): Option<Node>
    decreases |p|
  {
    if p == [] then Some(n)
    else match n
      case File(_) => None
      case Dir(_, es) =>
        match Find(es, p[0])
        case None => None
        case Some(i) => At(es[i].node, p[1..])
  }

  /** `n` with the entry at `p` replaced by `v` (`Some`), or removed (`None`).
      A missing last entry is appended to its directory; a missing or
      non-directory parent leaves `n` unchanged. */
  function Put(n: Node, p: Path, v: Option<Node>): Node
    requires p != []
    decreases |p|
  {
    match n
    case File(_) => n
    case Dir(sz, es) =>
      match Find(es, p[0])
      case None =>
        if |p| == 1 && v.Some? then Dir(sz, es + [Entry(p[0], v.value)]) else n
      case Some(i) =>
        if |p| == 1 then
          if v.Some? then Dir(sz, es[i := Entry(p[0], v.value)])
          else Dir(sz, es[..i] + es[i + 1..])
        else Dir(sz, es[i := Entry(p[0], Put(es[i].node, p[1..], v))])
  }

  /** A chain of fresh empty directories along `p`. */
  function Chain(p: Path): Node
    decreases |p|
  {
    if p == [] then Dir(NewDirSize, [])
    else Dir(NewDirSize, [Entry(p[0], Chain(p[1..]))])
  }

  /** `mkdirSync(p, { recursive: true })`: every missing directory along `p` is
      created; `None` when some prefix of `p` is a file (the call throws). */
  function MkdirAll(n: Node, p: Path): Option<Node>
    decreases |p|
  {
    match n
    case File(_) => None
    case Dir(sz, es) =>
      if p == [] then Some(n)
      else match Find(es, p[0])
        case None => Some(Dir(sz, es + [Entry(p[0], Chain(p[1..]))]))
        case Some(i) =>
          match MkdirAll(es[i].node, p[1..])
          case None => None
          case Some(c) => Some(Dir(sz, es[i := Entry(p[0], c)]))
  }

  function Parent(p: Path): Path
  {
    if p == [] then [] else p[..|p| - 1]
  }

  // ---------------------------------------------------------------------
  // The pre-order walk: every entry below a directory, each with its path,
  // a directory before its contents and siblings in enumeration order.

  datatype Item = Item(path: Path, node: Node)

  function Walk(p: Path, es: seq<Entry>): seq<Item>
    decreases es
  {
    if es == [] then [] else Walk(p, es[..|es| - 1]) + WalkEntry(p, es[|es| - 1])
  }

  function WalkEntry(p: Path, e: Entry): seq<Item>
    decreases e
  {
    [Item(p + [e.name], e.node)]
      + match e.node
        case File(_) => []
        case Dir(_, sub) => Walk(p + [e.name], sub)
  }

  /** The entries a walk from `dir` visits, in visiting order; none when
      `readdir(dir)` fails. */
  function Listing(root: Node, dir: Path): seq<Item>
  {
    match At(root, dir)
    case Some(Dir(_, es)) => Walk(dir, es)
    case _ => []
  }

  function Names(es: seq<Entry>): set<string>
  {
    set k | 0 <= k < |es| :: es[k].name
  }

  /** The node at `dir`, or a leaf when there is none: what the recursive
      walks over the disk descend through. */
  function NodeAt(root: Node, dir: Path): Node
  {
    match At(root, dir)
    case Some(n) => n
    case None => File(0)
  }

  /** Grouping of concatenations, for callers whose operands are large. */
  lemma AppendAssoc<T>(a: seq<T>, b: seq<T>, c: seq<T>)
    ensures (a + b) + c == a + (b + c)
  {
  }

  lemma AppendNil<T>(a: seq<T>)
    ensures [] + a == a && a + [] == a
  {
  }

  /** The last element of a non-empty right operand, and what precedes it. */
  lemma SplitLast<T>(a: seq<T>, b: seq<T>)
    requires b != []
    ensures (a + b)[..|a + b| - 1] == a + b[..|b| - 1] && (a + b)[|a + b| - 1] == b[|b| - 1]
  {
  }

  // ---------------------------------------------------------------------
  // Lemmas about paths

  /** A replacement keeps every name, so lookups by name find the same index. */
  lemma FindReplaced(es: seq<Entry>, i: nat, m: Node, x: string)
    requires i < |es|
    ensures Find(es[i := Entry(es[i].name, m)], x) == Find(es, x)
  {
    FindSameNames(es, es[i := Entry(es[i].name, m)], x);
  }

  lemma {:induction false} AtPutSame(n: Node, p: Path, m: Node)
    requires p != [] && At(n, p).Some?
    ensures At(Put(n, p, Some(m)), p) == Some(m)
    decreases |p|
  {
    var es := n.entries;
    var i := Find(es, p[0]).value;
    if |p| == 1 {
      FindReplaced(es, i, m, p[0]);
    } else {
      var c := Put(es[i].node, p[1..], Some(m));
      FindReplaced(es, i, c, p[0]);
      assert Put(n, p, Some(m)) == Dir(n.size, es[i := Entry(p[0], c)]);
      AtPutSame(es[i].node, p[1..], m);
    }
  }

  lemma {:induction false} AtPutRemoved(n: Node, p: Path)
    requires p != [] && At(n, p).Some? && UniqueNames(n)
    ensures At(Put(n, p, None), p) == None
    decreases |p|
  {
    var es := n.entries;
    var i := Find(es, p[0]).value;
    if |p| > 1 {
      var c := Put(es[i].node, p[1..], None);
      FindReplaced(es, i, c, p[0]);
      assert Put(n, p, None) == Dir(n.size, es[i := Entry(p[0], c)]);
      AtPutRemoved(es[i].node, p[1..]);
    } else {
      var rest := es[..i] + es[i + 1..];
      forall j | 0 <= j < |rest| ensures rest[j].name != p[0] {
        if j < i { assert rest[j] == es[j]; } else { assert rest[j] == es[j + 1]; }
      }
    }
  }

  /** Replacing the node at `p` and then changing something below it is one
      change at `p`. */
  lemma {:induction false} PutNest(n: Node, p: Path, m: Node, q: Path, v: Option<Node>)
    requires p != [] && q != [] && At(n, p).Some?
    ensures Put(Put(n, p, Some(m)), p + q, v) == Put(n, p, Some(Put(m, q, v)))
    decreases |p|
  {
    var sz, es := n.size, n.entries;
    var i := Find(es, p[0]).value;
    var c := if |p| == 1 then m else Put(es[i].node, p[1..], Some(m));
    var n1 := Dir(sz, es[i := Entry(p[0], c)]);
    assert Put(n, p, Some(m)) == n1 by {
      FindReplaced(es, i, c, p[0]);
    }
    var c' := if |p| == 1 then Put(m, q, v) else Put(c, p[1..] + q, v);
    assert Put(n1, p + q, v) == Dir(sz, es[i := Entry(p[0], c')]) by {
      FindReplaced(es, i, c, p[0]);
      assert (p + q)[0] == p[0];
      assert (p + q)[1..] == p[1..] + q;
      assert |p| == 1 ==> p[1..] + q == q;
    }
    if |p| > 1 {
      PutNest(es[i].node, p[1..], m, q, v);
    }
  }

  /** A second change at the same path overrides the first. */
  lemma {:induction false} PutPutSame(n: Node, p: Path, m: Node, v: Option<Node>)
    requires p != [] && At(n, p).Some?
    ensures Put(Put(n, p, Some(m)), p, v) == Put(n, p, v)
    decreases |p|
  {
    var sz, es := n.size, n.entries;
    var i := Find(es, p[0]).value;
    if |p| == 1 {
      var es1 := es[i := Entry(p[0], m)];
      FindReplaced(es, i, m, p[0]);
      assert Put(n, p, Some(m)) == Dir(sz, es1);
      assert es1[..i] + es1[i + 1..] == es[..i] + es[i + 1..];
    } else {
      var c := Put(es[i].node, p[1..], Some(m));
      FindReplaced(es, i, c, p[0]);
      var n1 := Dir(sz, es[i := Entry(p[0], c)]);
      assert Put(n, p, Some(m)) == n1;
      PutPutSame(es[i].node, p[1..], m, v);
      assert Put(n1, p, v) == Dir(sz, es[i := Entry(p[0], Put(c, p[1..], v))]);
    }
  }

  /** Writing back what is already there changes nothing. */
  lemma {:induction false} PutSelf(n: Node, p: Path)
    requires p != [] && At(n, p).Some?
    ensures Put(n, p, At(n, p)) == n
    decreases |p|
  {
    var es := n.entries;
    var i := Find(es, p[0]).value;
    if |p| > 1 {
      PutSelf(es[i].node, p[1..]);
    }
    assert es[i := Entry(p[0], es[i].node)] == es;
  }

  /** Neither path is a prefix of the other. */
  ghost predicate Apart(p: Path, q: Path)
  {
    !(p <= q) && !(q <= p)
  }

  /** Prefixes of paths with the same first name are prefixes of their tails. */
  lemma PrefixCons(p: Path, q: Path)
    requires p != [] && q != []
    ensures p[0] == q[0] && p[1..] <= q[1..] ==> p <= q
  {
    if p[0] == q[0] && p[1..] <= q[1..] {
      assert p == [p[0]] + p[1..];
      assert q[..|p|] == [q[0]] + q[1..][..|p| - 1];
    }
  }

  /** Apart paths are non-empty, and with equal heads their tails are apart. */
  lemma ApartStep(p: Path, q: Path)
    requires Apart(p, q)
    ensures p != [] && q != []
    ensures p[0] == q[0] ==> |p| > 1 && |q| > 1 && Apart(p[1..], q[1..])
  {
    PrefixCons(p, q);
    PrefixCons(q, p);
  }

  /** Removing an entry called something else shifts the lookup by at most one. */
  lemma FindRemoved(es: seq<Entry>, i: nat, x: string)
    requires i < |es| && es[i].name != x
    ensures Find(es, x).None? ==> Find(es[..i] + es[i + 1..], x).None?
    ensures Find(es, x).Some? ==>
      var k := Find(es, x).value;
      var k' := if k < i then k else k - 1;
      k' < |es| - 1 && Find(es[..i] + es[i + 1..], x) == Some(k') && (es[..i] + es[i + 1..])[k'] == es[k]
  {
    var rest := es[..i] + es[i + 1..];
    FindSpec(es, x);
    if Find(es, x).None? {
      forall j | 0 <= j < |rest| ensures rest[j].name != x {
        if j < i { assert rest[j] == es[j]; } else { assert rest[j] == es[j + 1]; }
      }
      FindSpec(rest, x);
    } else {
      var k := Find(es, x).value;
      var k' := if k < i then k else k - 1;
      forall j | 0 <= j < k' ensures rest[j].name != x {
        if j < i { assert rest[j] == es[j]; } else { assert rest[j] == es[j + 1]; }
      }
      assert rest[k'] == es[k];
      FindIs(rest, x, k');
    }
  }

  /** Changing the entry at `p` leaves every path apart from `p` as it was. */
  lemma {:induction false} AtPutApart(n: Node, p: Path, v: Option<Node>, q: Path)
    requires p != [] && Apart(p, q)
    ensures At(Put(n, p, v), q) == At(n, q)
    decreases |p|
  {
    ApartStep(p, q);
    match n
    case File(_) =>
    case Dir(sz, es) =>
      match Find(es, p[0])
      case None =>
        if |p| == 1 && v.Some? {
          FindAppendOther(es, Entry(p[0], v.value), q[0]);
        }
      case Some(i) =>
        if |p| == 1 && v.None? {
          FindRemoved(es, i, q[0]);
        } else {
          var c := if |p| == 1 then v.value else Put(es[i].node, p[1..], v);
          assert Put(n, p, v) == Dir(sz, es[i := Entry(p[0], c)]);
          FindReplaced(es, i, c, q[0]);
          if p[0] == q[0] {
            AtPutApart(es[i].node, p[1..], v, q[1..]);
          }
        }
  }

  lemma {:induction false} AtAppend(n: Node, p: Path, q: Path)
    ensures At(n, p + q) == if At(n, p).Some? then At(At(n, p).value, q) else None
    decreases |p|
  {
    if p == [] {
      assert p + q == q;
    } else {
      assert (p + q)[0] == p[0] && (p + q)[1..] == p[1..] + q;
      match n
      case File(_) =>
      case Dir(_, es) =>
        match Find(es, p[0])
        case None =>
        case Some(i) => AtAppend(es[i].node, p[1..], q);
    }
  }

  lemma {:induction false} ChainShape(p: Path)
    ensures UniqueNames(Chain(p)) && At(Chain(p), p) == Some(Dir(NewDirSize, []))
    decreases |p|
  {
    if p != [] {
      ChainShape(p[1..]);
    }
  }

  lemma {:induction false} ChainApart(p: Path, q: Path)
    requires Apart(p, q)
    ensures At(Chain(p), q) == None
    decreases |p|
  {
    ApartStep(p, q);
    if p[0] == q[0] {
      ChainApart(p[1..], q[1..]);
    }
  }

  /** `mkdir -p` leaves a directory at `p` and keeps names unique. */
  lemma {:induction false} MkdirAllMakesDir(n: Node, p: Path)
    requires UniqueNames(n) && MkdirAll(n, p).Some?
    ensures UniqueNames(MkdirAll(n, p).value)
    ensures At(MkdirAll(n, p).value, p).Some? && At(MkdirAll(n, p).value, p).value.Dir?
    decreases |p|
  {
    var es := n.entries;
    if p != [] {
      match Find(es, p[0])
      case None =>
        ChainShape(p[1..]);
        var es' := es + [Entry(p[0], Chain(p[1..]))];
        FindSpec(es, p[0]);
        assert forall j :: 0 <= j < |es| ==> es'[j] == es[j];
        assert Distinct(es');
        FindAppendNew(es, Entry(p[0], Chain(p[1..])));
      case Some(i) =>
        var c := MkdirAll(es[i].node, p[1..]).value;
        MkdirAllMakesDir(es[i].node, p[1..]);
        FindReplaced(es, i, c, p[0]);
    }
  }

  /** `mkdir -p` keeps every path apart from `p` as it was. */
  lemma {:induction false} MkdirAllApart(n: Node, p: Path, q: Path)
    requires MkdirAll(n, p).Some? && Apart(p, q)
    ensures At(MkdirAll(n, p).value, q) == At(n, q)
    decreases |p|
  {
    var es := n.entries;
    ApartStep(p, q);
    match Find(es, p[0])
    case None =>
      if p[0] != q[0] {
        FindAppendOther(es, Entry(p[0], Chain(p[1..])), q[0]);
      } else {
        FindAppendNew(es, Entry(p[0], Chain(p[1..])));
        ChainApart(p[1..], q[1..]);
      }
    case Some(i) =>
      var c := MkdirAll(es[i].node, p[1..]).value;
      FindReplaced(es, i, c, q[0]);
      if p[0] == q[0] {
        MkdirAllApart(es[i].node, p[1..], q[1..]);
      }
  }

  /** Changing an entry keeps names unique when the new node has unique names. */
  lemma {:induction false} PutUnique(n: Node, p: Path, v: Option<Node>)
    requires p != [] && UniqueNames(n) && (v.Some? ==> UniqueNames(v.value))
    ensures UniqueNames(Put(n, p, v))
    decreases |p|
  {
    match n
    case File(_) =>
    case Dir(sz, es) =>
      match Find(es, p[0])
      case None =>
        if |p| == 1 && v.Some? {
          UniqueAppend(sz, es, Entry(p[0], v.value));
        }
      case Some(i) =>
        if |p| == 1 && v.None? {
          UniqueRemove(sz, es, i);
        } else if |p| == 1 {
          UniqueReplace(sz, es, i, v.value);
        } else {
          PutUnique(es[i].node, p[1..], v);
          UniqueReplace(sz, es, i, Put(es[i].node, p[1..], v));
        }
  }

  lemma UniqueAppend(sz: nat, es: seq<Entry>, e: Entry)
    requires UniqueNames(Dir(sz, es)) && UniqueNames(e.node) && Find(es, e.name).None?
    ensures UniqueNames(Dir(sz, es + [e]))
  {
    FindSpec(es, e.name);
    var es' := es + [e];
    forall j | 0 <= j < |es| ensures es'[j] == es[j] {
    }
  }

  lemma UniqueRemove(sz: nat, es: seq<Entry>, i: nat)
    requires UniqueNames(Dir(sz, es)) && i < |es|
    ensures UniqueNames(Dir(sz, es[..i] + es[i + 1..]))
  {
    var rest := es[..i] + es[i + 1..];
    forall j | 0 <= j < |rest| ensures rest[j] == if j < i then es[j] else es[j + 1] {
      if j < i { assert rest[j] == es[..i][j]; } else { assert rest[j] == es[i + 1..][j - i]; }
    }
  }

  lemma UniqueReplace(sz: nat, es: seq<Entry>, i: nat, m: Node)
    requires UniqueNames(Dir(sz, es)) && UniqueNames(m) && i < |es|
    ensures UniqueNames(Dir(sz, es[i := Entry(es[i].name, m)]))
  {
  }

  // ---------------------------------------------------------------------
  // Lemmas about the walk

  lemma {:induction false} WalkAppend(p: Path, a: seq<Entry>, b: seq<Entry>)
    ensures Walk(p, a + b) == Walk(p, a) + Walk(p, b)
    decreases b
  {
    if b == [] {
      AppendNil(a);
    } else {
      var b' := b[..|b| - 1];
      SplitLast(a, b);
      WalkAppend(p, a, b');
      AppendAssoc(Walk(p, a), Walk(p, b'), WalkEntry(p, b[|b| - 1]));
    }
  }

  /** A lookup that succeeds in a listing succeeds the same way once more
      entries follow. */
  lemma AtExtend(sz: nat, es: seq<Entry>, more: seq<Entry>, q: Path)
    requires q != [] && At(Dir(sz, es), q).Some?
    ensures At(Dir(sz, es + more), q) == At(Dir(sz, es), q)
  {
    var i := Find(es, q[0]).value;
    FindSpec(es, q[0]);
    assert forall j :: 0 <= j <= i ==> (es + more)[j] == es[j];
    FindIs(es + more, q[0], i);
  }

  /** Every entry below a directory is listed by the walk, with its path. */
  lemma {:induction false} WalkComplete(p: Path, sz: nat, es: seq<Entry>, q: Path, n: Node)
    requires q != [] && At(Dir(sz, es), q) == Some(n)
    ensures Item(p + q, n) in Walk(p, es)
    decreases es
  {
    var x := q[0];
    var i := Find(es, x).value;
    var init, e := es[..|es| - 1], es[|es| - 1];
    assert Walk(p, es) == Walk(p, init) + WalkEntry(p, e);
    FindSpec(es, x);
    if i < |es| - 1 {
      assert forall j :: 0 <= j <= i ==> init[j] == es[j];
      FindIs(init, x, i);
      assert At(Dir(sz, init), q) == At(init[i].node, q[1..]);
      WalkComplete(p, sz, init, q, n);
    } else {
      var child := p + [x];
      var head := [Item(child, e.node)];
      assert WalkEntry(p, e)[0] == Item(child, e.node);
      if |q| == 1 {
        assert q == [x];
      } else {
        var r := q[1..];
        assert At(e.node, r) == Some(n);
        WalkComplete(child, e.node.size, e.node.entries, r, n);
        assert child + r == p + q;
        assert WalkEntry(p, e) == head + Walk(child, e.node.entries);
      }
    }
  }

  /** Every item lies strictly below `p` and, read from `p`, is the entry of
      `n` at its path. */
  ghost predicate Sound(p: Path, n: Node, items: seq<Item>)
  {
    forall k :: 0 <= k < |items| ==>
      |items[k].path| > |p| && items[k].path[..|p|] == p && At(n, items[k].path[|p|..]) == Some(items[k].node)
  }

  lemma SoundAppend(p: Path, n: Node, a: seq<Item>, b: seq<Item>)
    requires Sound(p, n, a) && Sound(p, n, b)
    ensures Sound(p, n, a + b)
  {
    forall k | 0 <= k < |a + b|
      ensures |(a + b)[k].path| > |p| && (a + b)[k].path[..|p|] == p
      ensures At(n, (a + b)[k].path[|p|..]) == Some((a + b)[k].node)
    {
      if k < |a| { assert (a + b)[k] == a[k]; } else { assert (a + b)[k] == b[k - |a|]; }
    }
  }

  /** Items sound in a listing stay sound once more entries follow. */
  lemma SoundExtend(p: Path, sz: nat, es: seq<Entry>, more: seq<Entry>, items: seq<Item>)
    requires Sound(p, Dir(sz, es), items)
    ensures Sound(p, Dir(sz, es + more), items)
  {
    forall k | 0 <= k < |items| ensures At(Dir(sz, es + more), items[k].path[|p|..]) == Some(items[k].node) {
      AtExtend(sz, es, more, items[k].path[|p|..]);
    }
  }

  /** Items sound from `p + [x]` in the node found at `x` are sound from `p`. */
  lemma SoundNest(p: Path, n: Node, x: string, m: Node, items: seq<Item>)
    requires At(n, [x]) == Some(m) && Sound(p + [x], m, items)
    ensures Sound(p, n, items)
  {
    forall k | 0 <= k < |items|
      ensures |items[k].path| > |p| && items[k].path[..|p|] == p
      ensures At(n, items[k].path[|p|..]) == Some(items[k].node)
    {
      var path := items[k].path;
      assert path[..|p|] == (p + [x])[..|p|];
      assert path[|p|..] == [x] + path[|p| + 1..];
      AtAppend(n, [x], path[|p| + 1..]);
    }
  }

  /** With unique names, every item the walk lists is the entry at its path. */
  lemma {:induction false} WalkSound(p: Path, sz: nat, es: seq<Entry>)
    requires UniqueNames(Dir(sz, es))
    ensures Sound(p, Dir(sz, es), Walk(p, es))
    decreases es
  {
    if es != [] {
      var init, e := es[..|es| - 1], es[|es| - 1];
      var n := Dir(sz, es);
      var x := e.name;
      assert es == init + [e];
      assert UniqueNames(Dir(sz, init));
      WalkSound(p, sz, init);
      SoundExtend(p, sz, init, [e], Walk(p, init));
      FindIs(es, x, |es| - 1);
      var head := [Item(p + [x], e.node)];
      assert Sound(p, n, head) by {
        assert head[0].path[..|p|] == p && head[0].path[|p|..] == [x];
      }
      if e.node.Dir? {
        var sub := e.node.entries;
        WalkSound(p + [x], e.node.size, sub);
        SoundNest(p, n, x, e.node, Walk(p + [x], sub));
        SoundAppend(p, n, head, Walk(p + [x], sub));
      } else {
        AppendNil(head);
      }
      SoundAppend(p, n, Walk(p, init), WalkEntry(p, e));
    }
  }

  /** Every subtree of a tree with unique names has unique names. */
  lemma {:induction false} AtUnique(n: Node, p: Path)
    requires UniqueNames(n)
    ensures At(n, p).Some? ==> UniqueNames(At(n, p).value)
    decreases |p|
  {
    if p != [] && n.Dir? && Find(n.entries, p[0]).Some? {
      AtUnique(n.entries[Find(n.entries, p[0]).value].node, p[1..]);
    }
  }

  /** On a tree with unique names the listing is exactly the set of entries
      strictly below `dir`: each listed item is the entry at its path, and
      every entry appears. */
  lemma ListingExact(root: Node, dir: Path)
    requires UniqueNames(root)
    ensures forall k :: 0 <= k < |Listing(root, dir)| ==>
      var it := Listing(root, dir)[k];
      |it.path| > |dir| && it.path[..|dir|] == dir && At(root, it.path) == Some(it.node)
    ensures forall q, n :: q != [] && At(root, dir + q) == Some(n) ==>
      Item(dir + q, n) in Listing(root, dir)
  {
    AtUnique(root, dir);
    match At(root, dir)
    case None =>
      forall q, n | q != [] && At(root, dir + q) == Some(n) ensures false {
        AtAppend(root, dir, q);
      }
    case Some(File(_)) =>
      forall q, n | q != [] && At(root, dir + q) == Some(n) ensures false {
        AtAppend(root, dir, q);
      }
    case Some(Dir(sz, es)) =>
      var w := Walk(dir, es);
      WalkSound(dir, sz, es);
      forall k | 0 <= k < |w| ensures At(root, w[k].path) == Some(w[k].node) {
        assert w[k].path == dir + w[k].path[|dir|..];
        AtAppend(root, dir, w[k].path[|dir|..]);
      }
      forall q, n | q != [] && At(root, dir + q) == Some(n) ensures Item(dir + q, n) in w {
        AtAppend(root, dir, q);
        WalkComplete(dir, sz, es, q, n);
      }
  }
}
