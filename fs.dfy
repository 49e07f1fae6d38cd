/**
 * The sandboxed file layer of `src/lib/fs.ts`: every client path is resolved against the content
 * folder and admitted only when the resolved text starts with the content folder's text; the
 * listing and the five operations act on the directory tree of module Disk.
 */
module Fs {
  import opened Errors
  import opened Paths
  import opened Disk

  /** `safePath`: resolve `rel` against `root` and admit it when the text of `root` is a prefix of the result. */
  function SafePath(root: Path, rel: string): (r: Result<Path>)
    requires root != [] && Normal(root)
    ensures r.Ok? <==> Admitted(root, Resolve(root, rel))
    ensures r.Ok? ==> r.value == Resolve(root, rel) && Normal(r.value)
    ensures r.Err? ==> r.error == AccessDenied
  {
    var p := Resolve(root, rel);
    assert Render(root) <= Render(p) <==> Admitted(root, p) by {
      if p != [] {
        RenderPrefixIsAdmitted(root, p);
      } else {
        assert |RenderSegs(root)| == 1 + |root[0]| + |RenderSegs(root[1..])|;
      }
    }
    if Render(root) <= Render(p) then Ok(p) else Err(AccessDenied)
  }

  // ---------------------------------------------------------------------------------------------
  // getFileTree
  // ---------------------------------------------------------------------------------------------

  datatype ItemType = FileItem | FolderItem

  /** `FileNode`: `children` is present exactly on folders. */
  datatype FileNode = FileNode(name: string, path: string, kind: ItemType, children: Option<seq<FileNode>>)

  /** The names of the entries directly inside `p`. */
  function ChildNames(d: Disk, p: Path): (r: set<string>)
    ensures forall n :: n in r <==> p + [n] in d
  {
    var r := set q | q in d && |q| == |p| + 1 && p <= q :: q[|p|];
    assert forall n :: p + [n] in d ==> n in r by {
      forall n | p + [n] in d ensures n in r {
        assert (p + [n])[|p|] == n;
      }
    }
    assert forall n :: n in r ==> p + [n] in d by {
      forall n | n in r ensures p + [n] in d {
        var q :| q in d && |q| == |p| + 1 && p <= q && q[|p|] == n;
        assert q == p + [n];
      }
    }
    r
  }

  /** `names` lists every element of `s` exactly once: as many names as elements, no repeats, the same members. */
  ghost predicate Listing(names: seq<string>, s: set<string>)
  {
    |names| == |s| &&
    (forall i, j :: 0 <= i < j < |names| ==> names[i] != names[j]) &&
    (forall n :: n in names <==> n in s)
  }

  /** `fs.readdirSync`: each folder's children, each once, in the order the platform reports them. */
  ghost predicate IsReaddir(d: Disk, readdir: Path -> seq<string>)
  {
    forall p :: IsFolder(d, p) ==> Listing(readdir(p), ChildNames(d, p))
  }

  /** A content folder and the tree it lives in. */
  predicate Setting(root: Path, d: Disk)
  {
    root != [] && Normal(root) && WellFormed(d)
  }

  /** The directories the listing is asked for: "" or entry names joined by "/". */
  predicate Relative(dir: string)
  {
    dir == "" || Normal(Split(dir))
  }

  lemma RelativeJoin(dir: string, n: string)
    requires Relative(dir) && ValidName(n)
    ensures Relative(Join(dir, n))
  {
    SplitNoSlash(n);
    if dir != "" {
      SplitAtSlash(dir, n);
    }
  }

  /** The entries strictly below `p`: the listing recursion descends through this set. */
  function Below(d: Disk, p: Path): set<Path>
  {
    set q | q in d && p < q
  }

  lemma BelowShrinks(d: Disk, p: Path, n: string)
    requires p + [n] in d
    ensures Below(d, p + [n]) < Below(d, p)
  {
    assert p + [n] in Below(d, p);
    forall q | q in Below(d, p + [n]) ensures q in Below(d, p) {
      assert q[..|p|] == p;
    }
  }

  /** The node for the entry `n` of folder `p`, listed as part of `dir`: name, slash-joined path, type. */
  predicate Describes(d: Disk, dir: string, p: Path, n: string, node: FileNode)
  {
    p + [n] in d &&
    node.name == n &&
    node.path == ForwardSlashes(Join(dir, n)) &&
    (node.kind == FolderItem <==> d[p + [n]].Folder?) &&
    (node.children.Some? <==> d[p + [n]].Folder?)
  }

  /** What the listing of folder `p`, asked for as `dir`, must be: one node per entry, in readdir's order. */
  predicate Lists(d: Disk, readdir: Path -> seq<string>, dir: string, p: Path, nodes: seq<FileNode>)
    decreases Below(d, p), 1
  {
    |nodes| == |readdir(p)| &&
    forall i :: 0 <= i < |nodes| ==> Listed(d, readdir, dir, p, readdir(p)[i], nodes[i])
  }

  /** The node of entry `n` of `p`, with a folder's children listed in turn. */
  predicate Listed(d: Disk, readdir: Path -> seq<string>, dir: string, p: Path, n: string, node: FileNode)
    decreases Below(d, p), 0
  {
    Describes(d, dir, p, n, node) &&
    (node.children.Some? ==>
      (BelowShrinks(d, p, n);
       Lists(d, readdir, Join(dir, n), p + [n], node.children.value)))
  }

  /** `getFileTree(dir)`. */
  function Tree(root: Path, d: Disk, readdir: Path -> seq<string>, dir: string): (r: Result<seq<FileNode>>)
    requires Setting(root, d) && IsReaddir(d, readdir) && Relative(dir)
    ensures !Admitted(root, Resolve(root, dir)) ==> r == Err(AccessDenied)
    ensures Admitted(root, Resolve(root, dir)) && !Exists(d, Resolve(root, dir)) ==> r == Ok([])
    ensures Admitted(root, Resolve(root, dir)) && Exists(d, Resolve(root, dir)) && !IsFolder(d, Resolve(root, dir)) ==>
      r == Err(IoError(ENOTDIR))
    ensures Admitted(root, Resolve(root, dir)) && IsFolder(d, Resolve(root, dir)) ==>
      r.Ok? && Lists(d, readdir, dir, Resolve(root, dir), r.value)
    decreases Below(d, Resolve(root, dir)), 2, 0
  {
    match SafePath(root, dir)
    case Err(e) => Err(e)
    case Ok(p) =>
      if !Exists(d, p) then Ok([])
      else if !IsFolder(d, p) then Err(IoError(ENOTDIR))
      else Entries(root, d, readdir, dir, p, readdir(p), 0)
  }

  /** `items.map(...)` over the entries of `p` from position `i` on. */
  function Entries(root: Path, d: Disk, readdir: Path -> seq<string>, dir: string, p: Path, names: seq<string>, i: nat)
    : (r: Result<seq<FileNode>>)
    requires Setting(root, d) && IsReaddir(d, readdir) && Relative(dir)
    requires p == Resolve(root, dir) && Admitted(root, p) && IsFolder(d, p) && names == readdir(p) && i <= |names|
    ensures r.Ok? && |r.value| == |names| - i
    ensures forall k :: 0 <= k < |r.value| ==> Listed(d, readdir, dir, p, names[i + k], r.value[k])
    decreases Below(d, p), 1, |names| - i
  {
    if i == |names| then Ok([])
    else
      assert p + [names[i]] in d by {
        assert names[i] in names;
      }
      var node := Node(root, d, readdir, dir, p, names[i]);
      var rest := Entries(root, d, readdir, dir, p, names, i + 1);
      ListedCons(d, readdir, dir, p, names, i, node, rest.value);
      Ok([node] + rest.value)
  }

  /** Listing entry `i`, then the entries after it, lists the entries from `i` on. */
  lemma ListedCons(d: Disk, readdir: Path -> seq<string>, dir: string, p: Path, names: seq<string>, i: nat,
                   node: FileNode, rest: seq<FileNode>)
    requires i < |names| && |rest| == |names| - (i + 1)
    requires Listed(d, readdir, dir, p, names[i], node)
    requires forall k :: 0 <= k < |rest| ==> Listed(d, readdir, dir, p, names[i + 1 + k], rest[k])
    ensures forall k :: 0 <= k < |[node] + rest| ==> Listed(d, readdir, dir, p, names[i + k], ([node] + rest)[k])
  {
    forall k | 0 <= k < |[node] + rest|
      ensures Listed(d, readdir, dir, p, names[i + k], ([node] + rest)[k])
    {
      if k > 0 {
        assert ([node] + rest)[k] == rest[k - 1];
        assert names[i + k] == names[i + 1 + (k - 1)];
      }
    }
  }

  /** The node built for entry `n` of `p`: a folder's `children` is the listing of `path.join(dir, n)`. */
  function Node(root: Path, d: Disk, readdir: Path -> seq<string>, dir: string, p: Path, n: string): (node: FileNode)
    requires Setting(root, d) && IsReaddir(d, readdir) && Relative(dir)
    requires p == Resolve(root, dir) && Admitted(root, p) && p + [n] in d
    ensures Listed(d, readdir, dir, p, n, node)
    decreases Below(d, p), 0, 0
  {
    EntryInFolder(d, p + [n]);
    var rel := Join(dir, n);
    if d[p + [n]].Folder? then
      ResolveJoin(root, dir, n);
      RelativeJoin(dir, n);
      BelowShrinks(d, p, n);
      assert Admitted(root, p + [n]) by {
        assert (p + [n])[..|root| - 1] == p[..|root| - 1];
        assert (p + [n])[|root| - 1] == p[|root| - 1];
      }
      var sub := Tree(root, d, readdir, rel);
      FileNode(n, ForwardSlashes(rel), FolderItem, Some(sub.value))
    else
      FileNode(n, ForwardSlashes(rel), FileItem, None)
  }

  // ---------------------------------------------------------------------------------------------
  // readFile, writeFile, createItem, deleteItem, renameItem
  // ---------------------------------------------------------------------------------------------

  /** What a writing operation reports, and the tree it leaves behind. */
  datatype Effect = Effect(outcome: Outcome, disk: Disk)

  /** `readFile(rel)`. */
  function Read(root: Path, d: Disk, rel: string): (r: Result<string>)
    requires Setting(root, d)
    ensures var p := Resolve(root, rel);
      && (r == Err(AccessDenied) <==> !Admitted(root, p))
      && (r == Err(FileNotFound) <==> Admitted(root, p) && !Exists(d, p))
      && (r == Err(IoError(EISDIR)) <==> Admitted(root, p) && IsFolder(d, p))
      && (r.Ok? <==> Admitted(root, p) && p in d && d[p].File?)
      && (r.Ok? ==> r.value == d[p].content)
  {
    match SafePath(root, rel)
    case Err(e) => Err(e)
    case Ok(p) =>
      if !Exists(d, p) then Err(FileNotFound)
      else if IsFolder(d, p) then Err(IoError(EISDIR))
      else Ok(d[p].content)
  }

  /** `writeFile(rel, content)`. */
  function Write(root: Path, d: Disk, rel: string, content: string): (r: Effect)
    requires Setting(root, d)
    ensures WellFormed(r.disk)
    ensures r.outcome.Failed? ==> r.disk == d
    ensures var p := Resolve(root, rel);
      && (r.outcome == Failed(AccessDenied) <==> !Admitted(root, p))
      && (r.outcome == Failed(InvalidArgValue) <==> Admitted(root, p) && !NulFree(p))
      && (r.outcome == Failed(IoError(EISDIR)) <==> Admitted(root, p) && IsFolder(d, p))
      && (r.outcome == Failed(IoError(ENOTDIR)) <==>
            Admitted(root, p) && NulFree(p) && !IsFolder(d, p) && !IsFolder(d, Parent(p)) && Blocked(d, p))
      && (r.outcome == Failed(IoError(ENOENT)) <==>
            Admitted(root, p) && NulFree(p) && !IsFolder(d, p) && !IsFolder(d, Parent(p)) && !Blocked(d, p))
      && (r.outcome == Done <==> Admitted(root, p) && NulFree(p) && IsFolder(d, Parent(p)) && !IsFolder(d, p))
      && (r.outcome == Done ==> p in r.disk && r.disk[p] == File(content))
      && (r.outcome == Done ==> forall q :: q != p ==> (q in r.disk <==> q in d))
      && (r.outcome == Done ==> forall q :: q in d && q != p ==> r.disk[q] == d[q])
  {
    match SafePath(root, rel)
    case Err(e) => Effect(Failed(e), d)
    case Ok(p) =>
      assert !NulFree(p) ==> !Exists(d, p) by {
        if !NulFree(p) {
          NulNeverExists(d, p);
        }
      }
      match WriteFileSync(d, p, content)
      case Err(e) => Effect(Failed(e), d)
      case Ok(d') => Effect(Done, d')
  }

  /** `createItem(rel, type)`: a folder with its missing ancestors, or an empty file. */
  function Create(root: Path, d: Disk, rel: string, kind: ItemType): (r: Effect)
    requires Setting(root, d)
    ensures WellFormed(r.disk)
    ensures r.outcome.Failed? ==> r.disk == d
    ensures var p := Resolve(root, rel);
      && (r.outcome == Failed(AccessDenied) <==> !Admitted(root, p))
      && (r.outcome == Failed(ItemAlreadyExists) <==> Admitted(root, p) && Exists(d, p))
      && (r.outcome == Failed(InvalidArgValue) <==> Admitted(root, p) && !NulFree(p))
      && (r.outcome == Done <==>
            Admitted(root, p) && NulFree(p) && !Exists(d, p) &&
            (if kind == FolderItem then !Blocked(d, p) else IsFolder(d, Parent(p))))
      && (kind == FolderItem && Admitted(root, p) && NulFree(p) && !Exists(d, p) && Blocked(d, p) ==>
            r.outcome == Failed(IoError(ENOTDIR)))
      && (kind == FileItem && Admitted(root, p) && NulFree(p) && !Exists(d, p) && !IsFolder(d, Parent(p)) ==>
            r.outcome == Failed(IoError(MissingParentCode(d, p))))
      && (r.outcome == Done ==> p in r.disk && r.disk[p] == (if kind == FolderItem then Folder else File("")))
      && (r.outcome == Done ==> forall q :: q in d ==> q in r.disk && r.disk[q] == d[q])
      && (r.outcome == Done ==> forall q :: q in r.disk && q !in d ==>
            q == p || (kind == FolderItem && q < p && r.disk[q] == Folder))
  {
    match SafePath(root, rel)
    case Err(e) => Effect(Failed(e), d)
    case Ok(p) =>
      assert !NulFree(p) ==> !Exists(d, p) by {
        if !NulFree(p) {
          NulNeverExists(d, p);
        }
      }
      if Exists(d, p) then Effect(Failed(ItemAlreadyExists), d)
      else if kind == FolderItem then
        match MkdirRecursive(d, p)
        case Err(e) => Effect(Failed(e), d)
        case Ok(d') => Effect(Done, d')
      else
        match WriteFileSync(d, p, "")
        case Err(e) => Effect(Failed(e), d)
        case Ok(d') => Effect(Done, d')
  }

  /** `deleteItem(rel)`: the entry and everything below it. */
  function Delete(root: Path, d: Disk, rel: string): (r: Effect)
    requires Setting(root, d)
    ensures WellFormed(r.disk)
    ensures r.outcome.Failed? ==> r.disk == d
    ensures var p := Resolve(root, rel);
      && (r.outcome == Failed(AccessDenied) <==> !Admitted(root, p))
      && (r.outcome == Failed(ItemNotFound) <==> Admitted(root, p) && !Exists(d, p))
      && (r.outcome == Done <==> Admitted(root, p) && Exists(d, p))
      && (r.outcome == Done ==> forall q :: q in r.disk <==> q in d && !(p <= q))
      && (r.outcome == Done ==> forall q :: q in r.disk ==> r.disk[q] == d[q])
  {
    match SafePath(root, rel)
    case Err(e) => Effect(Failed(e), d)
    case Ok(p) =>
      if !Exists(d, p) then Effect(Failed(ItemNotFound), d)
      else Effect(Done, RmRecursive(d, p))
  }

  /** What `renameItem` does once the source is known to exist and the target not to. */
  function Relocate(d: Disk, src: Path, dst: Path): (r: Effect)
    requires WellFormed(d) && Normal(dst) && src != [] && dst != [] && Exists(d, src) && !Exists(d, dst)
    ensures WellFormed(r.disk)
    ensures r.outcome == Failed(InvalidArgValue) <==>
      if Exists(d, Parent(dst)) then !NulFree(dst)
      else !NulFree(Parent(dst)) || (!Blocked(d, dst) && !NulFree(dst))
    ensures r.outcome == Failed(IoError(ENOTDIR)) <==>
      Blocked(d, dst) && (if Exists(d, Parent(dst)) then NulFree(dst) else NulFree(Parent(dst)))
    ensures r.outcome == Failed(IoError(EINVAL)) <==> NulFree(dst) && !Blocked(d, dst) && src <= dst
    ensures r.outcome == Done <==> NulFree(dst) && !Blocked(d, dst) && !(src <= dst)
    ensures r.outcome.Failed? && (Exists(d, Parent(dst)) || !NulFree(Parent(dst)) || Blocked(d, dst)) ==> r.disk == d
    ensures r.outcome.Failed? && NulFree(Parent(dst)) && !Blocked(d, dst) ==>
      && (forall q :: q in r.disk <==> q in d || (q != [] && q < dst))
      && (forall q :: q in d ==> r.disk[q] == d[q])
      && (forall q :: q in r.disk && q !in d ==> r.disk[q] == Folder)
    ensures r.outcome == Done ==>
      && (forall q :: q in d && !(src <= q) ==> q in r.disk && r.disk[q] == d[q])
      && (forall s :: src + s in d ==> dst + s in r.disk && r.disk[dst + s] == d[src + s])
      && (forall s :: dst + s in r.disk ==> src + s in d)
      && (forall q :: src <= q ==> q !in r.disk)
      && (forall q :: q in r.disk && q !in d ==> dst <= q || (q < dst && r.disk[q] == Folder))
  {
    match PrepareTarget(d, dst)
    case Err(e) => Effect(Failed(e), d)
    case Ok(d') =>
      match RenameSync(d', src, dst)
      case Err(e) => Effect(Failed(e), d')
      case Ok(d'') =>
        MoveTreeWellFormed(d', src, dst);
        MoveAfterPrepare(d, d', src, dst);
        Effect(Done, d'')
  }

  /**
   * `renameItem(oldRel, newRel)`: both paths are checked, then the source must exist and the target
   * must not; a missing target folder is created (and stays, even when the move then fails).
   */
  function Rename(root: Path, d: Disk, oldRel: string, newRel: string): (r: Effect)
    requires Setting(root, d)
    ensures WellFormed(r.disk)
    ensures var src := Resolve(root, oldRel); var dst := Resolve(root, newRel);
      var checked := Admitted(root, src) && Admitted(root, dst);
      var moving := checked && Exists(d, src) && !Exists(d, dst);
      && (r.outcome == Failed(AccessDenied) <==> !checked)
      && (r.outcome == Failed(ItemNotFound) <==> checked && !Exists(d, src))
      && (r.outcome == Failed(DestinationExists) <==> checked && Exists(d, src) && Exists(d, dst))
      && (r.outcome == Failed(InvalidArgValue) <==>
            moving && if Exists(d, Parent(dst)) then !NulFree(dst)
                      else !NulFree(Parent(dst)) || (!Blocked(d, dst) && !NulFree(dst)))
      && (r.outcome == Failed(IoError(ENOTDIR)) <==>
            moving && Blocked(d, dst) && (if Exists(d, Parent(dst)) then NulFree(dst) else NulFree(Parent(dst))))
      && (r.outcome == Failed(IoError(EINVAL)) <==> moving && NulFree(dst) && !Blocked(d, dst) && src <= dst)
      && (r.outcome == Done <==> moving && NulFree(dst) && !Blocked(d, dst) && !(src <= dst))
      && ((r.outcome.Failed? && (!moving || Exists(d, Parent(dst)) || !NulFree(Parent(dst)) || Blocked(d, dst))) ==>
            r.disk == d)
      && (r.outcome.Failed? && moving && NulFree(Parent(dst)) && !Blocked(d, dst) ==>
            (forall q :: q in r.disk <==> q in d || (q != [] && q < dst)) &&
            (forall q :: q in d ==> r.disk[q] == d[q]) &&
            (forall q :: q in r.disk && q !in d ==> r.disk[q] == Folder))
      && (r.outcome == Done ==> forall q :: q in d && !(src <= q) ==> q in r.disk && r.disk[q] == d[q])
      && (r.outcome == Done ==> forall s :: src + s in d ==> dst + s in r.disk && r.disk[dst + s] == d[src + s])
      && (r.outcome == Done ==> forall s :: dst + s in r.disk ==> src + s in d)
      && (r.outcome == Done ==> forall q :: src <= q ==> q !in r.disk)
      && (r.outcome == Done ==> forall q :: q in r.disk && q !in d ==> dst <= q || (q < dst && r.disk[q] == Folder))
  {
    match SafePath(root, oldRel)
    case Err(e) => Effect(Failed(e), d)
    case Ok(src) =>
      match SafePath(root, newRel)
      case Err(e) => Effect(Failed(e), d)
      case Ok(dst) =>
        if !Exists(d, src) then Effect(Failed(ItemNotFound), d)
        else if Exists(d, dst) then Effect(Failed(DestinationExists), d)
        else Relocate(d, src, dst)
  }

  /**
   * The content folder on a live disk. The writing operations change `disk` in place, one storage
   * call at a time, and each ends where its specification function says.
   */
  class ContentDir {
    const root: Path
    var disk: Disk

    ghost predicate Valid()
      reads this
    {
      Setting(root, disk)
    }

    constructor (root: Path, disk: Disk)
      requires Setting(root, disk)
      ensures Valid() && this.root == root && this.disk == disk
    {
      this.root := root;
      this.disk := disk;
    }

    /** `writeFile`. */
    method WriteFile(rel: string, content: string) returns (outcome: Outcome)
      requires Valid()
      modifies this
      ensures Valid()
      ensures Effect(outcome, disk) == Write(root, old(disk), rel, content)
    {
      var p := SafePath(root, rel);
      if p.Err? {
        return Failed(p.error);
      }
      var written := WriteFileSync(disk, p.value, content);
      if written.Err? {
        return Failed(written.error);
      }
      disk := written.value;
      return Done;
    }

    /** `createItem`. */
    method CreateItem(rel: string, kind: ItemType) returns (outcome: Outcome)
      requires Valid()
      modifies this
      ensures Valid()
      ensures Effect(outcome, disk) == Create(root, old(disk), rel, kind)
    {
      var p := SafePath(root, rel);
      if p.Err? {
        return Failed(p.error);
      }
      if Exists(disk, p.value) {
        return Failed(ItemAlreadyExists);
      }
      var made := if kind == FolderItem then MkdirRecursive(disk, p.value) else WriteFileSync(disk, p.value, "");
      if made.Err? {
        return Failed(made.error);
      }
      disk := made.value;
      return Done;
    }

    /** `deleteItem`. */
    method DeleteItem(rel: string) returns (outcome: Outcome)
      requires Valid()
      modifies this
      ensures Valid()
      ensures Effect(outcome, disk) == Delete(root, old(disk), rel)
    {
      var p := SafePath(root, rel);
      if p.Err? {
        return Failed(p.error);
      }
      if !Exists(disk, p.value) {
        return Failed(ItemNotFound);
      }
      disk := RmRecursive(disk, p.value);
      return Done;
    }

    /** `renameItem`: a missing target folder is created first and stays even if the move then fails. */
    method RenameItem(oldRel: string, newRel: string) returns (outcome: Outcome)
      requires Valid()
      modifies this
      ensures Valid()
      ensures Effect(outcome, disk) == Rename(root, old(disk), oldRel, newRel)
    {
      var src := SafePath(root, oldRel);
      if src.Err? {
        return Failed(src.error);
      }
      var dst := SafePath(root, newRel);
      if dst.Err? {
        return Failed(dst.error);
      }
      if !Exists(disk, src.value) {
        return Failed(ItemNotFound);
      }
      if Exists(disk, dst.value) {
        return Failed(DestinationExists);
      }
      var newDir := Parent(dst.value);
      if !Exists(disk, newDir) {
        var made := MkdirRecursive(disk, newDir);
        if made.Err? {
          return Failed(made.error);
        }
        disk := made.value;
      }
      var moved := RenameSync(disk, src.value, dst.value);
      if moved.Err? {
        return Failed(moved.error);
      }
      MoveTreeWellFormed(disk, src.value, dst.value);
      disk := moved.value;
      return Done;
    }
  }
}
