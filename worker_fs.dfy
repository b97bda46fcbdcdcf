/**
  The filesystem steps of the worker (scripts/scraperProcess.js): pruning
  files by extension, rendering the directory tree, and writing the archive
  next to the workspace.
 */
module WorkerFs {
  import opened Wrappers
  import opened Tree
  import opened FileSystem
  import opened Messages
  import SizeFormat

  // ---------------------------------------------------------------------
  // Extensions

  /** Index of the last '.' in `s`. */
  function LastDot(s: string): (r: Option<nat>)
    ensures r.Some? ==> r.value < |s| && s[r.value] == '.' && forall j :: r.value < j < |s| ==> s[j] != '.'
    ensures r.None? ==> forall j :: 0 <= j < |s| ==> s[j] != '.'
  {
    if s == [] then None
    else if s[|s| - 1] == '.' then Some(|s| - 1)
    else LastDot(s[..|s| - 1])
  }

  /** `path.extname(name)` for a directory entry's name (which holds no
      '/'): the text from the last '.' on, or "" when there is no dot, when
      the only dot is the first character, or for "..". */
  function Extname(name: string): (r: string)
    ensures r == "" || (r[0] == '.' && |r| <= |name| && r == name[|name| - |r|..])
    ensures forall j :: 1 <= j < |r| ==> r[j] != '.'
  {
    match LastDot(name)
    case None => ""
    case Some(d) => if d == 0 || name == ".." then "" else name[d..]
  }

  /** A name has an extension exactly when it has a dot after its first
      character, unless it is "..". */
  lemma ExtnameEmpty(name: string)
    ensures Extname(name) == "" <==> name == ".." || forall j :: 1 <= j < |name| ==> name[j] != '.'
  {
    match LastDot(name)
    case None =>
    case Some(d) =>
      if d != 0 && name != ".." {
        assert Extname(name)[0] == '.';
      }
  }

  lemma ExtnameExamples()
    ensures Extname("index.html") == ".html"
    ensures Extname("archive.tar.gz") == ".gz"
    ensures Extname("file.") == "."
  {
    var a := "index.html";
    assert a[5] == '.' && a[6] != '.' && a[7] != '.' && a[8] != '.' && a[9] != '.';
    assert LastDot(a) == Some(5);
    assert a[5..] == ".html";
    var b := "archive.tar.gz";
    assert b[11] == '.' && b[12] != '.' && b[13] != '.';
    assert LastDot(b) == Some(11);
    assert b[11..] == ".gz";
    assert "file."[4] == '.';
    assert LastDot("file.") == Some(4);
  }

  lemma ExtnameNoneExamples()
    ensures Extname(".htaccess") == ""
    ensures Extname("README") == ""
    ensures Extname("..") == ""
  {
    var a := ".htaccess";
    assert a[0] == '.' && forall j :: 1 <= j < |a| ==> a[j] != '.';
    assert LastDot(a) == Some(0);
    var b := "README";
    assert forall j :: 0 <= j < |b| ==> b[j] != '.';
    assert LastDot(b) == None;
  }

  /** The `extensions` table of `filterFiles`. */
  function Extensions(c: Category): seq<string>
  {
    match c
    case Html => [".html", ".htm"]
    case Css => [".css"]
    case Js => [".js"]
    case Images => [".jpg", ".jpeg", ".png", ".gif", ".svg", ".bmp"]
    case Media => [".mp4", ".mp3"]
  }

  /** Every listed extension is a dot and at least two more characters, and
      no extension belongs to two categories. */
  lemma ExtensionTable(c: Category, d: Category, x: string)
    ensures x in Extensions(c) ==> |x| >= 3 && x[0] == '.' && forall j :: 1 <= j < |x| ==> x[j] != '.'
    ensures x in Extensions(c) && x in Extensions(d) ==> c == d
  {
  }

  lemma {:induction false} LastDotSkip(s: string, k: nat)
    requires k <= |s| && forall j :: k <= j < |s| ==> s[j] != '.'
    ensures LastDot(s) == LastDot(s[..k])
    decreases |s| - k
  {
    if k < |s| {
      assert s[..|s| - 1][..k] == s[..k];
      LastDotSkip(s[..|s| - 1], k);
    } else {
      assert s[..k] == s;
    }
  }

  /** A name made of a non-empty stem and a listed extension has that
      extension, so a category containing it selects the name. */
  lemma ExtnameOfListed(c: Category, stem: string, x: string)
    requires x in Extensions(c) && stem != ""
    ensures Extname(stem + x) == x && Selected([c], stem + x)
  {
    ExtensionTable(c, c, x);
    var s := stem + x;
    LastDotSkip(s, |stem| + 1);
    assert s[..|stem| + 1] == stem + ".";
    assert LastDot(stem + ".") == Some(|stem|);
    assert s[|stem|..] == x;
  }

  /** `selectedFileTypes.some(type => extensions[type].includes(extname(name)))`. */
  function Selected(types: seq<Category>, name: string): (r: bool)
    ensures r <==> exists k :: 0 <= k < |types| && Extname(name) in Extensions(types[k])
  {
    if types == [] then false
    else if Extname(name) in Extensions(types[0]) then true
    else
      var rest := Selected(types[1..], name);
      assert forall k :: 1 <= k < |types| ==> types[k] == types[1..][k - 1];
      rest
  }

  // ---------------------------------------------------------------------
  // filterFiles

  /** The entries after `filterFiles`: every file whose extension is in a
      selected category removed, every directory kept and filtered. */
  function Filtered(types: seq<Category>, es: seq<Entry>): seq<Entry>
    decreases es
  {
    if es == [] then [] else Filtered(types, es[..|es| - 1]) + FilteredEntry(types, es[|es| - 1])
  }

  function FilteredEntry(types: seq<Category>, e: Entry): seq<Entry>
    decreases e
  {
    match e.node
    case File(_) => if Selected(types, e.name) then [] else [e]
    case Dir(sz, sub) => [Entry(e.name, Dir(sz, Filtered(types, sub)))]
  }

  /** The tree after `filterFiles(dir)`; unchanged when `readdir(dir)` fails. */
  function FilterEffect(root: Node, dir: Path, types: seq<Category>): Node
    requires dir != []
  {
    match At(root, dir)
    case Some(Dir(sz, es)) => Put(root, dir, Some(Dir(sz, Filtered(types, es))))
    case _ => root
  }

  /** A listed file `filterFiles` removes. */
  predicate Doomed(types: seq<Category>, it: Item)
  {
    it.node.File? && it.path != [] && Selected(types, it.path[|it.path| - 1])
  }

  /** The `unlink` calls for a walk: one per file with a selected extension,
      in walk order. */
  function Unlinks(types: seq<Category>, items: seq<Item>): seq<Op>
  {
    if items == [] then []
    else
      var it := items[|items| - 1];
      Unlinks(types, items[..|items| - 1])
      + if Doomed(types, it) then [Op.Unlink(it.path)] else []
  }

  /** The log `filterFiles` sends when `readdir(dir)` fails. */
  function FilterLog(root: Node, dir: Path): Option<WorkerLog>
  {
    match ReaddirError(root, dir)
    case Some(e) => Some(FilterFailed(ErrorMessage(e)))
    case None => None
  }

  lemma {:induction false} UnlinksAppend(types: seq<Category>, a: seq<Item>, b: seq<Item>)
    ensures Unlinks(types, a + b) == Unlinks(types, a) + Unlinks(types, b)
    decreases |b|
  {
    if b == [] {
      AppendNil(a);
    } else {
      var b0, it := b[..|b| - 1], b[|b| - 1];
      SplitLast(a, b);
      UnlinksAppend(types, a, b0);
      AppendAssoc(Unlinks(types, a), Unlinks(types, b0), if Doomed(types, it) then [Op.Unlink(it.path)] else []);
    }
  }

  lemma NamesAppend(a: seq<Entry>, b: seq<Entry>)
    ensures Names(a + b) == Names(a) + Names(b)
  {
    forall x | x in Names(a + b) ensures x in Names(a) + Names(b) {
      var k :| 0 <= k < |a + b| && (a + b)[k].name == x;
      if k < |a| { assert a[k] == (a + b)[k]; } else { assert b[k - |a|] == (a + b)[k]; }
    }
    forall x | x in Names(a) + Names(b) ensures x in Names(a + b) {
      if x in Names(a) {
        var k :| 0 <= k < |a| && a[k].name == x;
        assert (a + b)[k] == a[k];
      } else {
        var k :| 0 <= k < |b| && b[k].name == x;
        assert (a + b)[|a| + k] == b[k];
      }
    }
  }

  /** Filtering keeps names: every name after filtering was there before. */
  lemma {:induction false} FilteredNames(types: seq<Category>, es: seq<Entry>)
    ensures Names(Filtered(types, es)) <= Names(es)
    decreases |es|
  {
    if es != [] {
      var init, e := es[..|es| - 1], es[|es| - 1];
      FilteredNames(types, init);
      NamesAppend(Filtered(types, init), FilteredEntry(types, e));
      assert es == init + [e];
      NamesAppend(init, [e]);
    }
  }

  /** One more entry of `dir` handled by the filtering loop. */
  lemma FilterStep(types: seq<Category>, dir: Path, es: seq<Entry>, i: nat)
    requires i < |es| && Distinct(es)
    ensures Filtered(types, es[..i + 1]) == Filtered(types, es[..i]) + FilteredEntry(types, es[i])
    ensures Walk(dir, es[..i + 1]) == Walk(dir, es[..i]) + WalkEntry(dir, es[i])
    ensures es[i..] == [es[i]] + es[i + 1..]
    ensures es[i].name !in Names(Filtered(types, es[..i]))
  {
    assert es[..i + 1][..i] == es[..i];
    FilteredNames(types, es[..i]);
    assert es[i].name !in Names(es[..i]);
  }

  /** Changing the entry after `pre` in the directory at `dir`. */
  lemma ReplaceEntry(r0: Node, dir: Path, sz: nat, pre: seq<Entry>, e: Entry, post: seq<Entry>, v: Option<Node>)
    requires dir != [] && At(r0, dir).Some? && e.name !in Names(pre)
    ensures var root := Put(r0, dir, Some(Dir(sz, pre + [e] + post)));
      At(root, dir + [e.name]) == Some(e.node)
      && Put(root, dir + [e.name], v)
         == Put(r0, dir, Some(Dir(sz, pre + (if v.Some? then [Entry(e.name, v.value)] else []) + post)))
  {
    var d := Dir(sz, pre + [e] + post);
    var root := Put(r0, dir, Some(d));
    ReplaceInListing(sz, pre, e, post, v);
    AtPutSame(r0, dir, d);
    AtAppend(root, dir, [e.name]);
    PutNest(r0, dir, d, [e.name], v);
  }

  /** The same change made inside one listing. */
  lemma ReplaceInListing(sz: nat, pre: seq<Entry>, e: Entry, post: seq<Entry>, v: Option<Node>)
    requires e.name !in Names(pre)
    ensures At(Dir(sz, pre + [e] + post), [e.name]) == Some(e.node)
    ensures Put(Dir(sz, pre + [e] + post), [e.name], v)
      == Dir(sz, pre + (if v.Some? then [Entry(e.name, v.value)] else []) + post)
  {
    var es := pre + [e] + post;
    var k := |pre|;
    forall j | 0 <= j < k ensures es[j].name != e.name {
      assert es[j] == pre[j];
    }
    FindIs(es, e.name, k);
    assert [e.name][1..] == [];
    if v.Some? {
      assert es[k := Entry(e.name, v.value)] == pre + [Entry(e.name, v.value)] + post;
    } else {
      assert es[..k] == pre && es[k + 1..] == post;
      AppendNil(pre);
    }
  }

  /** What filtering leaves at an entry's path: nothing for a file with a
      selected extension, the file itself otherwise, a directory filtered. */
  function FilteredNode(types: seq<Category>, e: Entry): (v: Option<Node>)
    ensures FilteredEntry(types, e) == if v.Some? then [Entry(e.name, v.value)] else []
  {
    match e.node
    case File(_) => if Selected(types, e.name) then None else Some(e.node)
    case Dir(sz, sub) => Some(Dir(sz, Filtered(types, sub)))
  }

  /** `walk(dir)` of `filterFiles`: unlinks, in listing order, every file
      below `dir` whose extension is selected, and recurses into every
      directory. A failing `readdir(dir)` yields the error log instead. */
  method FilterFiles(disk: Disk, dir: Path, types: seq<Category>) returns (log: Option<WorkerLog>)
    requires disk.Valid() && dir != []
    modifies disk
    ensures disk.Valid()
    ensures log == FilterLog(old(disk.root), dir)
    ensures disk.root == FilterEffect(old(disk.root), dir, types)
    ensures disk.ops == old(disk.ops) + Unlinks(types, Listing(old(disk.root), dir))
    decreases NodeAt(disk.root, dir), 0
  {
    var top := disk.Get(dir);
    log := FilterLog(disk.root, dir);
    if top.None? || top.value.File? {
      return;
    }
    var sz, es := top.value.size, top.value.entries;
    ghost var r0, ops0 := disk.root, disk.ops;
    AtUnique(r0, dir);
    PutSelf(r0, dir);
    assert es[..0] == [] && Filtered(types, es[..0]) + es[0..] == es;
    assert Unlinks(types, Walk(dir, es[..0])) == [];
    for i := 0 to |es|
      invariant disk.Valid()
      invariant disk.root == Put(r0, dir, Some(Dir(sz, Filtered(types, es[..i]) + es[i..])))
      invariant disk.ops == ops0 + Unlinks(types, Walk(dir, es[..i]))
    {
      ghost var ops1 := disk.ops;
      FilterRootStep(r0, dir, sz, es, i, types);
      assert es[i] in es;
      FilterEntry(disk, dir, es[i], types);
      UnlinksStep(types, dir, es, i, ops0, ops1);
    }
    assert es[..|es|] == es && es[|es|..] == [];
    assert Filtered(types, es) + [] == Filtered(types, es);
  }

  /** One turn of the loop in `filterFiles`' `walk`: a directory is walked,
      a file with a selected extension unlinked. */
  method FilterEntry(disk: Disk, dir: Path, e: Entry, types: seq<Category>)
    requires disk.Valid() && At(disk.root, dir + [e.name]) == Some(e.node)
    modifies disk
    ensures disk.Valid()
    ensures disk.root == Put(old(disk.root), dir + [e.name], FilteredNode(types, e))
    ensures disk.ops == old(disk.ops) + Unlinks(types, WalkEntry(dir, e))
    decreases e.node, 1
  {
    var child := dir + [e.name];
    EntryUnlinks(types, dir, e);
    if e.node.Dir? {
      var ignored := FilterFiles(disk, child, types);
    } else if Selected(types, e.name) {
      disk.Unlink(child);
    } else {
      PutSelf(disk.root, child);
    }
  }

  /** Before the entry after the first `i` is handled, it sits in the tree
      where the loop found it; after, it is replaced by what filtering
      leaves of it. */
  lemma FilterRootStep(r0: Node, dir: Path, sz: nat, es: seq<Entry>, i: nat, types: seq<Category>)
    requires dir != [] && At(r0, dir) == Some(Dir(sz, es)) && i < |es| && Distinct(es)
    ensures var root := Put(r0, dir, Some(Dir(sz, Filtered(types, es[..i]) + es[i..])));
      At(root, dir + [es[i].name]) == Some(es[i].node)
      && Put(root, dir + [es[i].name], FilteredNode(types, es[i]))
         == Put(r0, dir, Some(Dir(sz, Filtered(types, es[..i + 1]) + es[i + 1..])))
  {
    var pre, e, post := Filtered(types, es[..i]), es[i], es[i + 1..];
    FilterStep(types, dir, es, i);
    AppendAssoc(pre, [e], post);
    ReplaceEntry(r0, dir, sz, pre, e, post, FilteredNode(types, e));
    AppendAssoc(pre, FilteredEntry(types, e), post);
  }

  /** The log of `unlink` calls after one more entry of `dir`. */
  lemma UnlinksStep(types: seq<Category>, dir: Path, es: seq<Entry>, i: nat, ops0: seq<Op>, ops1: seq<Op>)
    requires i < |es| && ops1 == ops0 + Unlinks(types, Walk(dir, es[..i]))
    ensures ops1 + Unlinks(types, WalkEntry(dir, es[i])) == ops0 + Unlinks(types, Walk(dir, es[..i + 1]))
  {
    var w0, we := Walk(dir, es[..i]), WalkEntry(dir, es[i]);
    assert Walk(dir, es[..i + 1]) == w0 + we by {
      assert es[..i + 1][..i] == es[..i] && es[..i + 1][i] == es[i];
    }
    UnlinksAppend(types, w0, we);
    AppendAssoc(ops0, Unlinks(types, w0), Unlinks(types, we));
  }

  /** The `unlink` calls for one entry of a listing and what is below it. */
  lemma EntryUnlinks(types: seq<Category>, dir: Path, e: Entry)
    ensures Unlinks(types, WalkEntry(dir, e)) ==
      match e.node
      case File(_) => if Selected(types, e.name) then [Op.Unlink(dir + [e.name])] else []
      case Dir(_, sub) => Unlinks(types, Walk(dir + [e.name], sub))
  {
    var child := dir + [e.name];
    var head := [Item(child, e.node)];
    assert head[..0] == [] && child[|child| - 1] == e.name;
    assert Unlinks(types, head) == if e.node.File? && Selected(types, e.name) then [Op.Unlink(child)] else [];
    match e.node
    case File(_) =>
      assert WalkEntry(dir, e) == head;
    case Dir(_, sub) =>
      UnlinksAppend(types, head, Walk(child, sub));
  }

  // Properties of the filter

  /** A walk's files, in order. */
  function Files(items: seq<Item>): seq<Item>
  {
    if items == [] then []
    else Files(items[..|items| - 1]) + if items[|items| - 1].node.File? then [items[|items| - 1]] else []
  }

  /** A walk's files whose extension is not selected, in order. */
  function Kept(types: seq<Category>, items: seq<Item>): seq<Item>
  {
    if items == [] then []
    else
      var it := items[|items| - 1];
      Kept(types, items[..|items| - 1])
      + if it.node.File? && !Doomed(types, it) then [it] else []
  }

  /** The paths of a walk's directories, in order. */
  function DirPaths(items: seq<Item>): seq<Path>
  {
    if items == [] then []
    else DirPaths(items[..|items| - 1]) + if items[|items| - 1].node.Dir? then [items[|items| - 1].path] else []
  }

  lemma ListsAppend(types: seq<Category>, a: seq<Item>, b: seq<Item>)
    ensures Files(a + b) == Files(a) + Files(b)
    ensures Kept(types, a + b) == Kept(types, a) + Kept(types, b)
    ensures DirPaths(a + b) == DirPaths(a) + DirPaths(b)
  {
    FilesAppend(a, b);
    KeptAppend(types, a, b);
    DirPathsAppend(a, b);
  }

  lemma {:induction false} FilesAppend(a: seq<Item>, b: seq<Item>)
    ensures Files(a + b) == Files(a) + Files(b)
    decreases |b|
  {
    if b == [] {
      AppendNil(a);
    } else {
      var b0, it := b[..|b| - 1], b[|b| - 1];
      SplitLast(a, b);
      FilesAppend(a, b0);
      AppendAssoc(Files(a), Files(b0), if it.node.File? then [it] else []);
    }
  }

  lemma {:induction false} KeptAppend(types: seq<Category>, a: seq<Item>, b: seq<Item>)
    ensures Kept(types, a + b) == Kept(types, a) + Kept(types, b)
    decreases |b|
  {
    if b == [] {
      AppendNil(a);
    } else {
      var b0, it := b[..|b| - 1], b[|b| - 1];
      SplitLast(a, b);
      KeptAppend(types, a, b0);
      AppendAssoc(Kept(types, a), Kept(types, b0), if it.node.File? && !Doomed(types, it) then [it] else []);
    }
  }

  lemma {:induction false} DirPathsAppend(a: seq<Item>, b: seq<Item>)
    ensures DirPaths(a + b) == DirPaths(a) + DirPaths(b)
    decreases |b|
  {
    if b == [] {
      AppendNil(a);
    } else {
      var b0, it := b[..|b| - 1], b[|b| - 1];
      SplitLast(a, b);
      DirPathsAppend(a, b0);
      AppendAssoc(DirPaths(a), DirPaths(b0), if it.node.Dir? then [it.path] else []);
    }
  }

  /** After filtering, the files a walk finds are exactly the files with an
      unselected extension it found before, in the same order; the
      directories are exactly the same; and no file is left to unlink. */
  lemma {:induction false} FilterWalk(types: seq<Category>, p: Path, es: seq<Entry>)
    ensures Files(Walk(p, Filtered(types, es))) == Kept(types, Walk(p, es))
    ensures DirPaths(Walk(p, Filtered(types, es))) == DirPaths(Walk(p, es))
    ensures Unlinks(types, Walk(p, Filtered(types, es))) == []
    decreases es
  {
    if es != [] {
      var init, e := es[..|es| - 1], es[|es| - 1];
      FilterWalk(types, p, init);
      FilterWalkEntry(types, p, e);
      WalkAppend(p, Filtered(types, init), FilteredEntry(types, e));
      ListsAppend(types, Walk(p, Filtered(types, init)), Walk(p, FilteredEntry(types, e)));
      ListsAppend(types, Walk(p, init), WalkEntry(p, e));
      UnlinksAppend(types, Walk(p, Filtered(types, init)), Walk(p, FilteredEntry(types, e)));
    }
  }

  lemma {:induction false} FilterWalkEntry(types: seq<Category>, p: Path, e: Entry)
    ensures Files(Walk(p, FilteredEntry(types, e))) == Kept(types, WalkEntry(p, e))
    ensures DirPaths(Walk(p, FilteredEntry(types, e))) == DirPaths(WalkEntry(p, e))
    ensures Unlinks(types, Walk(p, FilteredEntry(types, e))) == []
    decreases e
  {
    var child := p + [e.name];
    var head := [Item(child, e.node)];
    SingleLists(types, head[0]);
    assert head[0].path[|head[0].path| - 1] == e.name;
    match e.node
    case File(_) =>
      AppendNil(head);
      assert WalkEntry(p, e) == head;
      if !Selected(types, e.name) {
        assert Walk(p, [e]) == WalkEntry(p, e) by { assert [e][..0] == []; }
      }
    case Dir(sz, sub) =>
      var sub' := Filtered(types, sub);
      var e' := Entry(e.name, Dir(sz, sub'));
      var head' := [Item(child, e'.node)];
      SingleLists(types, head'[0]);
      assert Walk(p, [e']) == head' + Walk(child, sub') by {
        assert [e'][..0] == [];
        assert Walk(p, [e']) == WalkEntry(p, e');
      }
      assert WalkEntry(p, e) == head + Walk(child, sub);
      FilterWalk(types, child, sub);
      ListsAppend(types, head', Walk(child, sub'));
      ListsAppend(types, head, Walk(child, sub));
      UnlinksAppend(types, head', Walk(child, sub'));
      AppendNil(Files(Walk(child, sub')));
      AppendNil(Kept(types, Walk(child, sub)));
  }

  /** The lists of a walk of one item. */
  lemma SingleLists(types: seq<Category>, it: Item)
    ensures Files([it]) == if it.node.File? then [it] else []
    ensures Kept(types, [it]) == if it.node.File? && !Doomed(types, it) then [it] else []
    ensures DirPaths([it]) == if it.node.Dir? then [it.path] else []
    ensures Unlinks(types, [it]) == if Doomed(types, it) then [Op.Unlink(it.path)] else []
  {
    assert [it][..0] == [];
  }

  /** Filtering a filtered listing changes nothing. */
  lemma {:induction false} FilteredIdempotent(types: seq<Category>, es: seq<Entry>)
    ensures Filtered(types, Filtered(types, es)) == Filtered(types, es)
    decreases es
  {
    if es != [] {
      var init, e := es[..|es| - 1], es[|es| - 1];
      FilteredIdempotent(types, init);
      FilteredAppend(types, Filtered(types, init), FilteredEntry(types, e));
      match e.node
      case File(_) =>
        if !Selected(types, e.name) {
          assert Filtered(types, [e]) == FilteredEntry(types, e) by { assert [e][..0] == []; }
        }
      case Dir(sz, sub) =>
        var e' := Entry(e.name, Dir(sz, Filtered(types, sub)));
        assert Filtered(types, [e']) == FilteredEntry(types, e') by { assert [e'][..0] == []; }
        FilteredIdempotent(types, sub);
    }
  }

  lemma {:induction false} FilteredAppend(types: seq<Category>, a: seq<Entry>, b: seq<Entry>)
    ensures Filtered(types, a + b) == Filtered(types, a) + Filtered(types, b)
    decreases |b|
  {
    if b == [] {
      AppendNil(a);
    } else {
      var b0 := b[..|b| - 1];
      SplitLast(a, b);
      FilteredAppend(types, a, b0);
      AppendAssoc(Filtered(types, a), Filtered(types, b0), FilteredEntry(types, b[|b| - 1]));
    }
  }

  /** A path is unlinked exactly when the walk lists a file there with a
      selected extension, and every operation is an unlink. */
  lemma {:induction false} UnlinksMember(types: seq<Category>, items: seq<Item>, x: Path)
    ensures Op.Unlink(x) in Unlinks(types, items) <==>
      exists k :: 0 <= k < |items| && items[k].path == x && Doomed(types, items[k])
    ensures forall op :: op in Unlinks(types, items) ==> op.Unlink?
    decreases |items|
  {
    if items != [] {
      var init, it := items[..|items| - 1], items[|items| - 1];
      UnlinksMember(types, init, x);
      var tail := if Doomed(types, it) then [Op.Unlink(it.path)] else [];
      assert Unlinks(types, items) == Unlinks(types, init) + tail;
      if Op.Unlink(x) in Unlinks(types, items) {
        if Op.Unlink(x) in Unlinks(types, init) {
          var k :| 0 <= k < |init| && init[k].path == x && Doomed(types, init[k]);
          assert items[k] == init[k];
        } else {
          assert Op.Unlink(x) in tail;
        }
      }
      if exists k :: 0 <= k < |items| && items[k].path == x && Doomed(types, items[k]) {
        var k :| 0 <= k < |items| && items[k].path == x && Doomed(types, items[k]);
        if k < |init| {
          assert init[k] == items[k];
        } else {
          assert k == |items| - 1;
          assert Doomed(types, it) && it.path == x;
          assert tail == [Op.Unlink(x)];
        }
      }
    }
  }

  /** On a tree with unique names, `filterFiles(dir)` unlinks a path exactly
      when it holds a file below `dir` whose extension is selected, and it
      unlinks nothing else: no directory and no other file. */
  lemma FilterUnlinksExactly(root: Node, dir: Path, types: seq<Category>, q: Path)
    requires UniqueNames(root) && q != []
    ensures Op.Unlink(dir + q) in Unlinks(types, Listing(root, dir)) <==>
      At(root, dir + q).Some? && At(root, dir + q).value.File? && Selected(types, q[|q| - 1])
    ensures forall op :: op in Unlinks(types, Listing(root, dir)) ==> op.Unlink?
  {
    var items := Listing(root, dir);
    var x := dir + q;
    UnlinksMember(types, items, x);
    if Op.Unlink(x) in Unlinks(types, items) {
      var k :| 0 <= k < |items| && items[k].path == x && Doomed(types, items[k]);
      UnlinkedIsFile(root, dir, types, q, k);
    }
    if At(root, x).Some? && At(root, x).value.File? && Selected(types, q[|q| - 1]) {
      FileIsUnlinked(root, dir, types, q);
    }
  }

  /** A listed item that filtering removes is a file with a selected name. */
  lemma UnlinkedIsFile(root: Node, dir: Path, types: seq<Category>, q: Path, k: nat)
    requires UniqueNames(root) && q != []
    requires k < |Listing(root, dir)| && Listing(root, dir)[k].path == dir + q && Doomed(types, Listing(root, dir)[k])
    ensures At(root, dir + q).Some? && At(root, dir + q).value.File? && Selected(types, q[|q| - 1])
  {
    var x := dir + q;
    assert x[|x| - 1] == q[|q| - 1];
    ListingExact(root, dir);
  }

  /** A file below `dir` with a selected name is listed, and so removed. */
  lemma FileIsUnlinked(root: Node, dir: Path, types: seq<Category>, q: Path)
    requires UniqueNames(root) && q != []
    requires At(root, dir + q).Some? && At(root, dir + q).value.File? && Selected(types, q[|q| - 1])
    ensures exists k :: 0 <= k < |Listing(root, dir)| && Listing(root, dir)[k].path == dir + q
                        && Doomed(types, Listing(root, dir)[k])
  {
    var items := Listing(root, dir);
    var x := dir + q;
    assert x[|x| - 1] == q[|q| - 1];
    var n := At(root, x).value;
    ListingExact(root, dir);
    assert Item(x, n) in items;
    var k :| 0 <= k < |items| && items[k] == Item(x, n);
    assert Doomed(types, items[k]);
  }

  // ---------------------------------------------------------------------
  // getDirectoryTree

  /** What each level of depth adds to a line's prefix. */
  const Bar: string := "│   "

  /** The prefix of a line `depth` directories down. */
  function Indent(depth: nat): string
  {
    if depth == 0 then "" else Indent(depth - 1) + Bar
  }

  /** One line of the tree: an entry `depth` directories below the top, its
      name, and its `stat` size as `formatSize` prints it. */
  datatype TreeLine = TreeLine(depth: nat, name: string, size: nat)

  function LineText(l: TreeLine): string
  {
    Indent(l.depth) + "├── " + l.name + " <span style=\"color: cornflowerblue;\">("
    + SizeFormat.FormatSize(l.size) + ")</span>\n"
  }

  /** The printed lines, in order. */
  function Lines(ls: seq<TreeLine>): seq<string>
  {
    if ls == [] then [] else Lines(ls[..|ls| - 1]) + [LineText(ls[|ls| - 1])]
  }

  /** The text made of `ss` one after the other. */
  function Concat(ss: seq<string>): string
  {
    if ss == [] then "" else Concat(ss[..|ss| - 1]) + ss[|ss| - 1]
  }

  /** The text of a sequence of lines. */
  function Text(ls: seq<TreeLine>): string
  {
    Concat(Lines(ls))
  }

  /** The lines `walk(dir, prefix)` appends, with `prefix` at `depth`. */
  function Rendered(es: seq<Entry>, depth: nat): seq<TreeLine>
    decreases es
  {
    if es == [] then [] else Rendered(es[..|es| - 1], depth) + RenderedEntry(es[|es| - 1], depth)
  }

  function RenderedEntry(e: Entry, depth: nat): seq<TreeLine>
    decreases e
  {
    [TreeLine(depth, e.name, SizeOf(e.node))]
    + match e.node
      case File(_) => []
      case Dir(_, sub) => Rendered(sub, depth + 1)
  }

  /** The lines of a walk from a directory `base` segments deep: one per
      item, as deep as the directories between it and the base. */
  function ItemLines(items: seq<Item>, base: nat): seq<TreeLine>
  {
    if items == [] then []
    else ItemLines(items[..|items| - 1], base) + ItemLine(items[|items| - 1], base)
  }

  function ItemLine(it: Item, base: nat): seq<TreeLine>
  {
    if |it.path| <= base then [] else [TreeLine(|it.path| - base - 1, it.path[|it.path| - 1], SizeOf(it.node))]
  }

  /** What `getDirectoryTree(dir)` returns. */
  function TreeText(root: Node, dir: Path): string
  {
    Text(ItemLines(Listing(root, dir), |dir|))
  }

  /** The log `getDirectoryTree` sends when `readdir(dir)` fails. */
  function TreeLog(root: Node, dir: Path): Option<WorkerLog>
  {
    match ReaddirError(root, dir)
    case Some(e) => Some(TreeFailed(ErrorMessage(e)))
    case None => None
  }

  lemma {:induction false} ConcatAppend(a: seq<string>, b: seq<string>)
    ensures Concat(a + b) == Concat(a) + Concat(b)
    decreases |b|
  {
    if b == [] {
      AppendNil(a);
    } else {
      var b0, y := b[..|b| - 1], b[|b| - 1];
      SplitLast(a, b);
      ConcatAppend(a, b0);
      AppendAssoc(Concat(a), Concat(b0), y);
    }
  }

  lemma {:induction false} LinesAppend(a: seq<TreeLine>, b: seq<TreeLine>)
    ensures Lines(a + b) == Lines(a) + Lines(b)
    decreases |b|
  {
    if b == [] {
      AppendNil(a);
    } else {
      var b0, y := b[..|b| - 1], b[|b| - 1];
      SplitLast(a, b);
      LinesAppend(a, b0);
      AppendAssoc(Lines(a), Lines(b0), [LineText(y)]);
    }
  }

  /** The text of lines one after the other is their texts one after the other. */
  lemma TextAppend(a: seq<TreeLine>, b: seq<TreeLine>)
    ensures Text(a + b) == Text(a) + Text(b)
  {
    LinesAppend(a, b);
    ConcatAppend(Lines(a), Lines(b));
  }

  /** A single line's text. */
  lemma TextOne(l: TreeLine)
    ensures Text([l]) == LineText(l)
  {
    var t := LineText(l);
    assert [l][..0] == [];
    assert Lines([l]) == [t];
    assert [t][..0] == [];
    AppendNil(t);
    assert Concat([t]) == Concat([]) + t;
  }

  lemma {:induction false} ItemLinesAppend(a: seq<Item>, b: seq<Item>, base: nat)
    ensures ItemLines(a + b, base) == ItemLines(a, base) + ItemLines(b, base)
    decreases |b|
  {
    if b == [] {
      AppendNil(a);
    } else {
      var b0 := b[..|b| - 1];
      SplitLast(a, b);
      ItemLinesAppend(a, b0, base);
      AppendAssoc(ItemLines(a, base), ItemLines(b0, base), ItemLine(b[|b| - 1], base));
    }
  }

  /** The recursive rendering is the walk's lines in walk order: a directory's
      line first, then its contents one level deeper, siblings in listing
      order. */
  lemma {:induction false} RenderedIsWalk(p: Path, es: seq<Entry>, base: nat)
    requires base <= |p|
    ensures Rendered(es, |p| - base) == ItemLines(Walk(p, es), base)
    decreases es
  {
    if es != [] {
      var init, e := es[..|es| - 1], es[|es| - 1];
      RenderedIsWalk(p, init, base);
      RenderedEntryIsWalk(p, e, base);
      ItemLinesAppend(Walk(p, init), WalkEntry(p, e), base);
    }
  }

  lemma {:induction false} RenderedEntryIsWalk(p: Path, e: Entry, base: nat)
    requires base <= |p|
    ensures RenderedEntry(e, |p| - base) == ItemLines(WalkEntry(p, e), base)
    decreases e
  {
    var child := p + [e.name];
    var head := [Item(child, e.node)];
    var line := [TreeLine(|p| - base, e.name, SizeOf(e.node))];
    assert ItemLines(head, base) == line by {
      assert head[..0] == [];
      assert child[|child| - 1] == e.name;
      AppendNil(line);
    }
    match e.node
    case File(_) =>
      AppendNil(head);
      AppendNil(line);
    case Dir(_, sub) =>
      RenderedIsWalk(child, sub, base);
      ItemLinesAppend(head, Walk(child, sub), base);
  }

  /** Every item of a walk from `p` lies strictly below `p`. */
  lemma {:induction false} WalkBelow(p: Path, es: seq<Entry>)
    ensures forall k :: 0 <= k < |Walk(p, es)| ==> |Walk(p, es)[k].path| > |p|
    decreases es
  {
    if es != [] {
      var init, e := es[..|es| - 1], es[|es| - 1];
      WalkBelow(p, init);
      WalkEntryBelow(p, e);
      var w0: seq<Item>, w1: seq<Item> := Walk(p, init), WalkEntry(p, e);
      assert Walk(p, es) == w0 + w1;
      forall k | 0 <= k < |w0 + w1| ensures |(w0 + w1)[k].path| > |p| {
        if k < |w0| { assert (w0 + w1)[k] == w0[k]; } else { assert (w0 + w1)[k] == w1[k - |w0|]; }
      }
    }
  }

  lemma {:induction false} WalkEntryBelow(p: Path, e: Entry)
    ensures forall k :: 0 <= k < |WalkEntry(p, e)| ==> |WalkEntry(p, e)[k].path| > |p|
    decreases e
  {
    var child := p + [e.name];
    match e.node
    case File(_) =>
    case Dir(_, sub) =>
      WalkBelow(child, sub);
      var w: seq<Item> := Walk(child, sub);
      forall k | 0 <= k < |[Item(child, e.node)] + w| ensures |([Item(child, e.node)] + w)[k].path| > |p| {
        if k > 0 { assert ([Item(child, e.node)] + w)[k] == w[k - 1]; }
      }
  }

  /** Lines of items below the base: exactly one per item, in order. */
  lemma {:induction false} ItemLinesExact(items: seq<Item>, base: nat)
    requires forall k :: 0 <= k < |items| ==> |items[k].path| > base
    ensures |ItemLines(items, base)| == |items|
    ensures forall k :: 0 <= k < |items| ==>
      ItemLines(items, base)[k] == TreeLine(|items[k].path| - base - 1, items[k].path[|items[k].path| - 1], SizeOf(items[k].node))
    decreases |items|
  {
    if items != [] {
      var init, last := items[..|items| - 1], items[|items| - 1];
      ItemLinesExact(init, base);
      var line := TreeLine(|last.path| - base - 1, last.path[|last.path| - 1], SizeOf(last.node));
      assert ItemLine(last, base) == [line];
      var ls := ItemLines(items, base);
      assert ls == ItemLines(init, base) + [line];
      forall k | 0 <= k < |items|
        ensures ls[k] == TreeLine(|items[k].path| - base - 1, items[k].path[|items[k].path| - 1], SizeOf(items[k].node))
      {
        if k < |init| {
          assert items[k] == init[k];
        }
      }
    }
  }

  /** The tree text is made of one line per entry below `dir`, in walk
      order: the entry's name, indented once per directory between it and
      `dir`, with its size. */
  lemma TreeLines(root: Node, dir: Path)
    ensures var items := Listing(root, dir);
      |ItemLines(items, |dir|)| == |items|
      && forall k :: 0 <= k < |items| ==>
           |items[k].path| > |dir|
           && ItemLines(items, |dir|)[k]
              == TreeLine(|items[k].path| - |dir| - 1, items[k].path[|items[k].path| - 1], SizeOf(items[k].node))
  {
    var items := Listing(root, dir);
    assert forall k :: 0 <= k < |items| ==> |items[k].path| > |dir| by {
      match At(root, dir)
      case Some(Dir(_, es)) => WalkBelow(dir, es);
      case _ =>
    }
    ItemLinesExact(items, |dir|);
  }

  /** `walk(dir, prefix)` of `getDirectoryTree`: appends one line per entry
      to `tree`, and a directory's contents after its line. */
  method RenderEntries(es: seq<Entry>, prefix: string, ghost depth: nat, tree0: string) returns (tree: string)
    requires prefix == Indent(depth)
    ensures tree == tree0 + Text(Rendered(es, depth))
    decreases es
  {
    tree := tree0;
    for i := 0 to |es|
      invariant tree == tree0 + Text(Rendered(es[..i], depth))
    {
      ghost var t1 := tree;
      tree := RenderEntry(es[i], prefix, depth, tree);
      RenderStep(tree0, t1, tree, es, i, depth);
    }
    assert es[..|es|] == es;
  }

  /** One turn of the loop in `walk`: the entry's line, then, for a
      directory, its contents. */
  method RenderEntry(e: Entry, prefix: string, ghost depth: nat, tree0: string) returns (tree: string)
    requires prefix == Indent(depth)
    ensures tree == tree0 + Text(RenderedEntry(e, depth))
    decreases e
  {
    tree := tree0 + (prefix + "├── " + e.name + " <span style=\"color: cornflowerblue;\">("
      + SizeFormat.FormatSize(SizeOf(e.node)) + ")</span>\n");
    LineStep(e, depth);
    if e.node.Dir? {
      ghost var t2 := tree;
      tree := RenderEntries(e.node.entries, prefix + Bar, depth + 1, tree);
      DirStep(tree0, t2, tree, e, depth);
    }
  }

  /** The loop's invariant is kept by one more entry. */
  lemma RenderStep(tree0: string, t1: string, t2: string, es: seq<Entry>, i: nat, depth: nat)
    requires i < |es| && t1 == tree0 + Text(Rendered(es[..i], depth))
    requires t2 == t1 + Text(RenderedEntry(es[i], depth))
    ensures t2 == tree0 + Text(Rendered(es[..i + 1], depth))
  {
    assert es[..i + 1][..i] == es[..i];
    TextAppend(Rendered(es[..i], depth), RenderedEntry(es[i], depth));
    AppendAssoc(tree0, Text(Rendered(es[..i], depth)), Text(RenderedEntry(es[i], depth)));
  }

  /** The line `walk` writes for `e` is the entry's tree line. */
  lemma LineStep(e: Entry, depth: nat)
    ensures (Indent(depth) + "├── " + e.name + " <span style=\"color: cornflowerblue;\">("
      + SizeFormat.FormatSize(SizeOf(e.node)) + ")</span>\n")
      == Text([TreeLine(depth, e.name, SizeOf(e.node))])
    ensures e.node.File? ==> RenderedEntry(e, depth) == [TreeLine(depth, e.name, SizeOf(e.node))]
  {
    TextOne(TreeLine(depth, e.name, SizeOf(e.node)));
  }

  /** A directory's contents follow its line. */
  lemma DirStep(tree0: string, t2: string, t3: string, e: Entry, depth: nat)
    requires e.node.Dir?
    requires t2 == tree0 + Text([TreeLine(depth, e.name, SizeOf(e.node))])
    requires t3 == t2 + Text(Rendered(e.node.entries, depth + 1))
    ensures t3 == tree0 + Text(RenderedEntry(e, depth))
  {
    var l := [TreeLine(depth, e.name, SizeOf(e.node))];
    var sub := Rendered(e.node.entries, depth + 1);
    TextAppend(l, sub);
    AppendAssoc(tree0, Text(l), Text(sub));
  }

  /** `getDirectoryTree(dir)`: the tree text of everything below `dir`, or
      the empty text and the error log when `readdir(dir)` fails. */
  method GetDirectoryTree(disk: Disk, dir: Path) returns (tree: string, log: Option<WorkerLog>)
    ensures tree == TreeText(disk.root, dir)
    ensures log == TreeLog(disk.root, dir)
    ensures log.Some? ==> tree == ""
  {
    var top := disk.Get(dir);
    log := TreeLog(disk.root, dir);
    tree := "";
    if top.Some? && top.value.Dir? {
      tree := RenderEntries(top.value.entries, "", 0, "");
      RenderedIsWalk(dir, top.value.entries, |dir|);
    }
  }

  // ---------------------------------------------------------------------
  // createArchive

  /** One segment step of `path.join`'s normalisation of a relative path. */
  function JoinStep(stack: Path, seg: string): Path
  {
    if seg == "" || seg == "." then stack
    else if seg == ".." then
      if stack != [] && stack[|stack| - 1] != ".." then stack[..|stack| - 1] else stack + [".."]
    else stack + [seg]
  }

  /** `path.join` of segments relative to the application directory. */
  function Join(segs: seq<string>): Path
  {
    if segs == [] then [] else JoinStep(Join(segs[..|segs| - 1]), segs[|segs| - 1])
  }

  /** `path.join(__dirname, '..', 'projects', directoryName + '.zip')`, with
      `__dirname` the `scripts` directory. */
  function ArchivePath(directoryName: string): Path
  {
    Join(["scripts", "..", "projects", directoryName + ".zip"])
  }

  lemma JoinPrefixes()
    ensures Join(["scripts", "..", "projects"]) == ["projects"]
  {
    var s1: seq<string> := ["scripts"];
    var s2: seq<string> := ["scripts", ".."];
    var s3: seq<string> := ["scripts", "..", "projects"];
    assert s1[..0] == [];
    assert Join(s1) == ["scripts"];
    assert s2[..1] == s1;
    assert Join(s2) == [];
    assert s3[..2] == s2;
  }

  /** The archive is `projects/<directoryName>.zip`, a sibling of the
      workspace and so never inside it. */
  lemma ArchivePathShape(directoryName: string)
    ensures ArchivePath(directoryName) == ["projects", directoryName + ".zip"]
    ensures Parent(ArchivePath(directoryName)) == ["projects"]
    ensures Apart(ArchivePath(directoryName), Workspace(directoryName))
  {
    var z := directoryName + ".zip";
    assert |z| == |directoryName| + 4;
    var s := ["scripts", "..", "projects", z];
    assert Join(s) == ["projects", z] by {
      JoinPrefixes();
      assert s[..|s| - 1] == ["scripts", "..", "projects"] && s[|s| - 1] == z;
      assert z != "" && z != "." && z != "..";
    }
    var ws := Workspace(directoryName);
    assert ["projects", z][1] != ws[1];
  }

  /** How the `archiver` stream ends once the output file is open: `close`
      after writing an archive of `size` bytes, or an `error` after `written`
      bytes had reached the file. */
  datatype ArchiveOutcome = Written(size: nat) | ArchiveFailed(written: nat, message: string)

  /** The bytes the output file holds when the stream ends. */
  function Bytes(outcome: ArchiveOutcome): nat
  {
    match outcome
    case Written(size) => size
    case ArchiveFailed(written, _) => written
  }

  /** How the promise of `createArchive` settles. An output file that cannot
      be opened emits `error` on a stream with no `error` listener of its
      own, which the promise never sees: the worker process ends there. */
  datatype Settled = Resolved | Rejected(message: string) | Crashed

  /** What `createArchive` does to the disk, and how its promise settles. */
  datatype ArchiveEffect = ArchiveEffect(root: Node, ops: seq<Op>, settled: Settled)

  function Archived(root: Node, archivePath: Path, outcome: ArchiveOutcome): ArchiveEffect
    requires archivePath != []
  {
    var adir := Parent(archivePath);
    var made := if At(root, adir).None? then MkdirAll(root, adir) else Some(root);
    var mkOps := if At(root, adir).None? && made.Some? then [Op.MakeDirs(adir)] else [];
    match made
    case None =>
      ArchiveEffect(root, [], Rejected("ENOTDIR: not a directory, mkdir '" + PathText(adir) + "'"))
    case Some(r1) =>
      if !Writable(r1, archivePath) then ArchiveEffect(r1, mkOps, Crashed)
      else
        ArchiveEffect(Put(r1, archivePath, Some(File(Bytes(outcome)))), mkOps + [Op.WriteFile(archivePath)],
          match outcome
          case Written(_) => Resolved
          case ArchiveFailed(_, m) => Rejected(m))
  }

  /** `createArchive(dir, archivePath)`: makes the archive's directory when it
      is missing, opens the output file and writes the archive into it;
      `settled` is how its promise ends. */
  method CreateArchive(disk: Disk, archivePath: Path, outcome: ArchiveOutcome) returns (settled: Settled)
    requires disk.Valid() && archivePath != []
    modifies disk
    ensures disk.Valid()
    ensures var a := Archived(old(disk.root), archivePath, outcome);
      disk.root == a.root && disk.ops == old(disk.ops) + a.ops && settled == a.settled
  {
    var adir := Parent(archivePath);
    if disk.Get(adir).None? {
      var ok := disk.MakeDirs(adir);
      if !ok {
        return Rejected("ENOTDIR: not a directory, mkdir '" + PathText(adir) + "'");
      }
    }
    if !Writable(disk.root, archivePath) {
      return Crashed;
    }
    disk.WriteFile(archivePath, Bytes(outcome));
    match outcome
    case Written(_) =>
      settled := Resolved;
    case ArchiveFailed(_, m) =>
      settled := Rejected(m);
  }

  /** `mkdir -p projects` where there is no `projects`: only `projects` is
      new, and it is empty. */
  lemma MakeProjects(root: Node, q: Path)
    requires root.Dir? && At(root, ["projects"]).None? && !(q <= ["projects"])
    ensures MkdirAll(root, ["projects"]).Some?
    ensures At(MkdirAll(root, ["projects"]).value, q) == At(root, q)
  {
    var adir := ["projects"];
    var es := root.entries;
    var r1 := Dir(root.size, es + [Entry("projects", Chain([]))]);
    assert MkdirAll(root, adir) == Some(r1);
    if q[0] != "projects" {
      MkdirAllApart(root, adir, q);
    } else {
      assert |q| >= 2 by { assert q != [] && (|q| == 1 ==> q == adir); }
      FindAppendNew(es, Entry("projects", Chain([])));
      assert At(r1, q) == At(Chain([]), q[1..]);
    }
  }

  /** Whether the output file of the archive of `directoryName` can be
      opened on `root`: `projects` is missing or a directory, and there is no
      directory at the archive's path. */
  predicate Opens(root: Node, directoryName: string)
  {
    var projects := At(root, ["projects"]);
    var here := At(root, ["projects", directoryName + ".zip"]);
    (projects.None? || projects.value.Dir?) && !(here.Some? && here.value.Dir?)
  }

  /** Before the archive is opened: the directory `projects` it will be
      written in, made when missing, with every path outside `projects` and,
      when `projects` was missing, every path at all apart from it, as it
      was. */
  lemma ArchiveDirectory(root: Node, directoryName: string, q: Path)
    requires root.Dir? && UniqueNames(root)
    ensures var ap := ArchivePath(directoryName);
      var a := Archived(root, ap, Written(0));
      var r1 := if At(root, ["projects"]).None? then MkdirAll(root, ["projects"]).value else root;
      (At(root, ["projects"]).None? ==> MkdirAll(root, ["projects"]).Some?)
      && UniqueNames(r1) && (Writable(r1, ap) <==> Opens(root, directoryName))
      && (Apart(q, ap) ==> At(r1, q) == At(root, q))
  {
    var ap := ArchivePath(directoryName);
    ArchivePathShape(directoryName);
    var adir := ["projects"];
    assert ap == adir + [directoryName + ".zip"];
    AtAppend(root, adir, [directoryName + ".zip"]);
    if At(root, adir).None? {
      if Apart(q, ap) {
        assert !(q <= adir) by { assert adir <= ap; }
        MakeProjects(root, q);
      }
      MakeProjects(root, ap);
      MkdirAllMakesDir(root, adir);
    }
  }

  /** The output file opens exactly when `projects` is missing or a directory
      and no directory is at the archive's path; if it does not, the worker
      ends with nothing written. Once open, the file at the path holds the
      bytes written, the promise resolves exactly when the stream closes, and
      every path apart from the archive, such as the workspace, is as it
      was. */
  lemma ArchivedAt(root: Node, directoryName: string, outcome: ArchiveOutcome, q: Path)
    requires root.Dir? && UniqueNames(root)
    ensures var ap := ArchivePath(directoryName);
      var a := Archived(root, ap, outcome);
      (a.settled.Crashed? <==> !Opens(root, directoryName))
      && (a.settled.Resolved? <==> Opens(root, directoryName) && outcome.Written?)
      && (outcome.ArchiveFailed? && Opens(root, directoryName) ==> a.settled == Rejected(outcome.message))
      && (Opens(root, directoryName) ==> At(a.root, ap) == Some(File(Bytes(outcome))))
      && (Apart(q, ap) ==> At(a.root, q) == At(root, q))
  {
    var ap := ArchivePath(directoryName);
    ArchivePathShape(directoryName);
    ArchiveDirectory(root, directoryName, q);
    var r1 := if At(root, ["projects"]).None? then MkdirAll(root, ["projects"]).value else root;
    if Writable(r1, ap) {
      AtPutLast(r1, ap, File(Bytes(outcome)));
      if Apart(q, ap) {
        AtPutApart(r1, ap, Some(File(Bytes(outcome))), q);
      }
    }
  }

  /** A directory already at the archive's path, such as the workspace of an
      earlier job named `<directoryName>.zip`, cannot be opened as the output
      file: the worker ends, and the disk is as it was. */
  lemma ArchiveOverDirectory(root: Node, archivePath: Path, outcome: ArchiveOutcome)
    requires archivePath != [] && At(root, archivePath).Some? && At(root, archivePath).value.Dir?
    ensures Archived(root, archivePath, outcome) == ArchiveEffect(root, [], Crashed)
  {
    var adir := Parent(archivePath);
    assert archivePath == adir + [archivePath[|archivePath| - 1]];
    AtAppend(root, adir, [archivePath[|archivePath| - 1]]);
  }

  /** The workspace of a job named `<n>.zip` is the archive path of a job named `n`. */
  lemma WorkspaceIsArchive(n: string)
    ensures Workspace(n + ".zip") == ArchivePath(n)
  {
    ArchivePathShape(n);
  }
}
