/**
 * Properties of the sandboxed file layer that relate several calls, and what the
 * `startsWith` containment test does and does not keep out.
 */
module FsProperties {
  import opened Errors
  import opened Paths
  import opened Disk
  import opened Fs

  // ---------------------------------------------------------------------------------------------
  // Round trips and repetitions
  // ---------------------------------------------------------------------------------------------

  /** A successful `writeFile(rel, c)` is read back as `c`, the empty string included. */
  lemma ReadAfterWrite(root: Path, d: Disk, rel: string, c: string)
    requires Setting(root, d) && Write(root, d, rel, c).outcome == Done
    ensures Read(root, Write(root, d, rel, c).disk, rel) == Ok(c)
  {
  }

  /** Writing the same content twice is the same as writing it once, whatever the first write reported. */
  lemma {:induction false} WriteIdempotent(root: Path, d: Disk, rel: string, c: string)
    requires Setting(root, d)
    ensures var once := Write(root, d, rel, c); Write(root, once.disk, rel, c) == once
  {
    var once := Write(root, d, rel, c);
    if once.outcome == Done {
      WriteAgainSucceeds(root, d, rel, c);
      WrittenDisk(root, d, rel, c);
      WrittenDisk(root, once.disk, rel, c);
      assert once.disk[Resolve(root, rel) := File(c)] == once.disk;
    }
  }

  /** A path just written can be written again: it is now a file in the same folder. */
  lemma WriteAgainSucceeds(root: Path, d: Disk, rel: string, c: string)
    requires Setting(root, d) && Write(root, d, rel, c).outcome == Done
    ensures Write(root, Write(root, d, rel, c).disk, rel, c).outcome == Done
  {
    var e := Write(root, d, rel, c).disk;
    var p := Resolve(root, rel);
    WrittenDisk(root, d, rel, c);
    assert p != [] && Parent(p) != p;
    assert IsFolder(e, Parent(p)) && !IsFolder(e, p);
  }

  /** Creating what was just created fails with "Item already exists" and changes nothing. */
  lemma CreateTwice(root: Path, d: Disk, rel: string, kind: ItemType, kind': ItemType)
    requires Setting(root, d) && Create(root, d, rel, kind).outcome == Done
    ensures var once := Create(root, d, rel, kind);
      Create(root, once.disk, rel, kind') == Effect(Failed(ItemAlreadyExists), once.disk)
  {
  }

  /** A created file reads back empty; a created folder reads as a directory. */
  lemma ReadAfterCreate(root: Path, d: Disk, rel: string, kind: ItemType)
    requires Setting(root, d) && Create(root, d, rel, kind).outcome == Done
    ensures Read(root, Create(root, d, rel, kind).disk, rel) ==
      (if kind == FileItem then Ok("") else Err(IoError(EISDIR)))
  {
  }

  /** Whatever `safePath` admits stays admitted one level further down. */
  lemma {:induction false} AdmittedBelow(root: Path, p: Path, q: Path)
    requires root != [] && Admitted(root, p) && p <= q
    ensures Admitted(root, q)
  {
    assert q[..|root| - 1] == p[..|root| - 1];
    assert q[|root| - 1] == p[|root| - 1];
  }

  /** An ancestor of an admitted location is admitted too, or lies above the content folder. */
  lemma {:induction false} AdmittedAbove(root: Path, p: Path, q: Path)
    requires root != [] && Admitted(root, p) && q <= p
    ensures Admitted(root, q) || q < root
  {
    if |q| >= |root| {
      assert q[..|root| - 1] == p[..|root| - 1];
      assert q[|root| - 1] == p[|root| - 1];
    } else {
      assert q == p[..|q|] == root[..|q|];
    }
  }

  /** After a successful delete, the entry and everything below it are gone. */
  lemma {:induction false} DeleteThenRead(root: Path, d: Disk, rel: string, below: string)
    requires Setting(root, d) && Delete(root, d, rel).outcome == Done
    requires Resolve(root, rel) <= Resolve(root, below)
    ensures Read(root, Delete(root, d, rel).disk, below) == Err(FileNotFound)
  {
    AdmittedBelow(root, Resolve(root, rel), Resolve(root, below));
  }

  /** A file moved by a successful rename is read at its new place and no longer at its old one. */
  lemma {:induction false} RenameThenRead(root: Path, d: Disk, oldRel: string, newRel: string, c: string)
    requires Setting(root, d) && Rename(root, d, oldRel, newRel).outcome == Done
    requires Read(root, d, oldRel) == Ok(c)
    ensures Read(root, Rename(root, d, oldRel, newRel).disk, newRel) == Ok(c)
    ensures Read(root, Rename(root, d, oldRel, newRel).disk, oldRel) == Err(FileNotFound)
  {
    var src := Resolve(root, oldRel);
    var dst := Resolve(root, newRel);
    assert src + [] == src && dst + [] == dst;
  }

  /** Moving a folder carries every entry below it, at the same relative place. */
  lemma {:induction false} RenameCarriesSubtree(root: Path, d: Disk, oldRel: string, newRel: string, sub: Path)
    requires Setting(root, d) && Rename(root, d, oldRel, newRel).outcome == Done
    requires Resolve(root, oldRel) + sub in d
    ensures var after := Rename(root, d, oldRel, newRel).disk;
      Resolve(root, newRel) + sub in after && after[Resolve(root, newRel) + sub] == d[Resolve(root, oldRel) + sub]
      && Resolve(root, oldRel) + sub !in after
  {
    var src := Resolve(root, oldRel);
    assert src <= src + sub;
  }

  // ---------------------------------------------------------------------------------------------
  // Confinement: what the sandbox keeps every change within
  // ---------------------------------------------------------------------------------------------

  /** Every location where `e` differs from `d` is one `safePath` admits. */
  ghost predicate Confined(root: Path, d: Disk, e: Disk)
    requires root != []
  {
    forall q :: (q in d || q in e) && !(q in d && q in e && d[q] == e[q]) ==> Admitted(root, q)
  }

  /**
   * Every location where `e` differs from `d` is one `safePath` admits, or an ancestor of the content
   * folder that is now a folder (which `mkdir -p` creates when the content folder itself is missing).
   */
  ghost predicate ConfinedOrAbove(root: Path, d: Disk, e: Disk)
    requires root != []
  {
    forall q :: (q in d || q in e) && !(q in d && q in e && d[q] == e[q]) ==>
      Admitted(root, q) || (q < root && q in e && e[q] == Folder)
  }

  lemma WriteConfined(root: Path, d: Disk, rel: string, c: string)
    requires Setting(root, d)
    ensures Confined(root, d, Write(root, d, rel, c).disk)
  {
  }

  lemma {:induction false} CreateConfined(root: Path, d: Disk, rel: string, kind: ItemType)
    requires Setting(root, d)
    ensures ConfinedOrAbove(root, d, Create(root, d, rel, kind).disk)
  {
    var e := Create(root, d, rel, kind);
    var p := Resolve(root, rel);
    forall q | (q in d || q in e.disk) && !(q in d && q in e.disk && d[q] == e.disk[q])
      ensures Admitted(root, q) || (q < root && q in e.disk && e.disk[q] == Folder)
    {
      AdmittedAbove(root, p, q);
    }
  }

  lemma {:induction false} DeleteConfined(root: Path, d: Disk, rel: string)
    requires Setting(root, d)
    ensures Confined(root, d, Delete(root, d, rel).disk)
  {
    var e := Delete(root, d, rel);
    var p := Resolve(root, rel);
    forall q | (q in d || q in e.disk) && !(q in d && q in e.disk && d[q] == e.disk[q])
      ensures Admitted(root, q)
    {
      AdmittedBelow(root, p, q);
    }
  }

  lemma {:induction false} RenameConfined(root: Path, d: Disk, oldRel: string, newRel: string)
    requires Setting(root, d)
    ensures ConfinedOrAbove(root, d, Rename(root, d, oldRel, newRel).disk)
  {
    var e := Rename(root, d, oldRel, newRel);
    var src := Resolve(root, oldRel);
    var dst := Resolve(root, newRel);
    forall q | (q in d || q in e.disk) && !(q in d && q in e.disk && d[q] == e.disk[q])
      ensures Admitted(root, q) || (q < root && q in e.disk && e.disk[q] == Folder)
    {
      if src <= q {
        AdmittedBelow(root, src, q);
      } else if dst <= q {
        AdmittedBelow(root, dst, q);
      } else {
        AdmittedAbove(root, dst, q);
      }
    }
  }

  // ---------------------------------------------------------------------------------------------
  // What `startsWith` without a separator admits
  // ---------------------------------------------------------------------------------------------

  /** `"../" + x` resolves to the entry `x` beside the content folder. */
  lemma ResolveSibling(root: Path, x: string)
    requires root != [] && ValidName(x)
    ensures Resolve(root, "../" + x) == Parent(root) + [x]
  {
    ResolveUp(root, x);
    ResolveName(Step(root, ".."), x);
  }

  /**
   * A client can step out of the content folder with "..", and `safePath` lets it through exactly
   * when the name it steps into starts with the content folder's own name: "../content-x/..." is
   * admitted for a content folder called "content", although it lies outside it.
   */
  lemma {:induction false} SiblingAdmittedIff(root: Path, x: string)
    requires root != [] && Normal(root) && ValidName(x)
    ensures SafePath(root, "../" + x).Ok? <==> root[|root| - 1] <= x
    ensures SafePath(root, "../" + x).Ok? ==> !Contained(root, SafePath(root, "../" + x).value) || x == root[|root| - 1]
  {
    ResolveSibling(root, x);
    var p := Parent(root) + [x];
    assert p[..|root| - 1] == root[..|root| - 1];
    if Contained(root, p) {
      assert root[|root| - 1] == p[|root| - 1];
    }
  }

  /** The content folder used in the examples below: "/srv/content". */
  const Root: Path := ["srv", "content"]

  /** `safePath("")` is the content folder itself, whatever the content folder is. */
  lemma EmptyIsRoot(root: Path)
    requires root != [] && Normal(root)
    ensures SafePath(root, "") == Ok(root)
  {
    ResolveEmpty(root);
    ContainedIsAdmitted(root, root);
  }

  /** "../x" leaves the content folder "/srv/content" and is refused. */
  lemma ParentEscapeDenied()
    ensures SafePath(Root, "../x") == Err(AccessDenied)
  {
    EscapeDenied("../x", "x");
  }

  /** A step out into a name that does not start with "content" is refused. */
  lemma EscapeDenied(rel: string, x: string)
    requires x == "x" && rel == "../" + x
    ensures SafePath(Root, rel) == Err(AccessDenied)
  {
    SiblingAdmittedIff(Root, x);
    assert !("content" <= x) by {
      assert "content"[0] != x[0];
    }
  }

  /** "a/../../x" climbs out just the same once normalised, and is refused. */
  lemma NestedEscapeDenied()
    ensures SafePath(Root, "a/../../x") == Err(AccessDenied)
  {
    assert "a/../../x" == "a" + "/" + "../../x";
    assert "../../x" == "../" + "../x";
    ResolveDown(Root, "a", "../../x");
    ResolveUp(Root + ["a"], "../x");
    assert Step(Root + ["a"], "..") == Root;
    ParentEscapeDenied();
  }

  /** An absolute client path discards the content folder and is refused. */
  lemma AbsoluteDenied()
    ensures SafePath(Root, "/etc") == Err(AccessDenied)
  {
    SplitNoSlash("etc");
    assert "/etc" == "" + "/" + "etc";
    SplitAtSlash("", "etc");
    assert Split("/etc") == ["", "etc"];
    assert Resolve(Root, "/etc") == ["etc"];
  }

  /** "../content-x/notes.md" is admitted although it lies beside the content folder, not inside it. */
  lemma SiblingAdmitted(rel: string)
    requires rel == "../content-x/notes.md"
    ensures SafePath(Root, rel) == Ok(["srv", "content-x", "notes.md"])
    ensures !Contained(Root, ["srv", "content-x", "notes.md"])
  {
    ResolveSiblingNotes(rel);
  }

  lemma ResolveSiblingNotes(rel: string)
    requires rel == "../content-x/notes.md"
    ensures Resolve(Root, rel) == ["srv", "content-x", "notes.md"]
  {
    NotesSpelling(rel);
    ResolveBeside(rel, "content-x", "notes.md");
  }

  /** The example path, taken apart at its separators. */
  lemma NotesSpelling(rel: string)
    requires rel == "../content-x/notes.md"
    ensures rel == "../" + ("content-x" + "/" + "notes.md")
    ensures EntryName("content-x") && EntryName("notes.md")
  {
  }

  /** The folder names of the example tree can be stored. */
  lemma ExampleNames()
    ensures EntryName("srv") && EntryName("content") && EntryName("content-x")
  {
  }

  /** "../a/b" resolves against "/srv/content" to "/srv/a/b". */
  lemma ResolveBeside(rel: string, a: string, b: string)
    requires ValidName(a) && ValidName(b) && rel == "../" + (a + "/" + b)
    ensures Resolve(Root, rel) == ["srv", a, b]
  {
    assert Step(Root, "..") == ["srv"];
    ResolveUp(Root, a + "/" + b);
    ResolveDown(["srv"], a, b);
    assert ["srv"] + [a] == ["srv", a];
    ResolveName(["srv", a], b);
  }

  /** So a write through the sandbox creates a file in the sibling folder "/srv/content-x". */
  lemma SiblingWrite(d: Disk, rel: string)
    requires d == map[["srv"] := Folder, ["srv", "content"] := Folder, ["srv", "content-x"] := Folder]
    requires rel == "../content-x/notes.md"
    ensures Setting(Root, d)
    ensures var e := Write(Root, d, rel, "hi");
      e.outcome == Done && e.disk == d[["srv", "content-x", "notes.md"] := File("hi")]
  {
    SiblingSetting(d);
    SiblingAdmitted(rel);
    var p := ["srv", "content-x", "notes.md"];
    NotesSpelling(rel);
    assert NulFree(p);
    assert Parent(p) == ["srv", "content-x"];
    assert IsFolder(d, Parent(p)) && !IsFolder(d, p);
    WrittenDisk(Root, d, rel, "hi");
  }

  /** A write that succeeds leaves the old tree with the one file set. */
  lemma WrittenDisk(root: Path, d: Disk, rel: string, c: string)
    requires Setting(root, d) && Write(root, d, rel, c).outcome == Done
    ensures Write(root, d, rel, c).disk == d[Resolve(root, rel) := File(c)]
  {
  }

  lemma SiblingSetting(d: Disk)
    requires d == map[["srv"] := Folder, ["srv", "content"] := Folder, ["srv", "content-x"] := Folder]
    ensures Setting(Root, d)
  {
    ExampleNames();
    var a, b, c := ["srv"], ["srv", "content"], ["srv", "content-x"];
    assert Parent(a) == [] && Parent(b) == a && Parent(c) == a;
    assert a[|a| - 1] == "srv" && b[|b| - 1] == "content" && c[|c| - 1] == "content-x";
    forall p | p in d ensures p != [] && EntryName(p[|p| - 1]) && IsFolder(d, Parent(p)) {
      assert p == a || p == b || p == c;
    }
  }

  // ---------------------------------------------------------------------------------------------
  // Listing after changes
  // ---------------------------------------------------------------------------------------------

  /** Deleting "" deletes the content folder itself; the listing is then empty. */
  lemma {:induction false} DeleteRootEmptiesListing(root: Path, d: Disk, readdir: Path -> seq<string>)
    requires Setting(root, d) && root in d && IsReaddir(Delete(root, d, "").disk, readdir)
    ensures var e := Delete(root, d, "");
      e.outcome == Done && Tree(root, e.disk, readdir, "") == Ok([])
  {
    ResolveEmpty(root);
  }

  /** A freshly created folder is empty. */
  lemma {:induction false} CreatedFolderIsEmpty(root: Path, d: Disk, rel: string)
    requires Setting(root, d) && Create(root, d, rel, FolderItem).outcome == Done
    ensures var p := Resolve(root, rel);
      IsFolder(Create(root, d, rel, FolderItem).disk, p) &&
      ChildNames(Create(root, d, rel, FolderItem).disk, p) == {}
  {
    var e := Create(root, d, rel, FolderItem);
    var p := Resolve(root, rel);
    forall n | p + [n] in e.disk ensures false {
      if p + [n] in d {
        NoEntriesBelowMissing(d, p, p + [n]);
      }
      assert false;
    }
  }

  /** The node of an empty folder carries an empty listing. */
  lemma EmptyFolderNode(d: Disk, readdir: Path -> seq<string>, dir: string, p: Path, n: string, node: FileNode)
    requires IsReaddir(d, readdir) && Listed(d, readdir, dir, p, n, node)
    requires IsFolder(d, p + [n]) && ChildNames(d, p + [n]) == {}
    ensures node == FileNode(n, ForwardSlashes(Join(dir, n)), FolderItem, Some([]))
  {
    var q := p + [n];
    assert Listing(readdir(q), ChildNames(d, q));
    assert Lists(d, readdir, Join(dir, n), q, node.children.value);
  }

  /** A folder just created directly inside a listed folder shows up in the listing, with no children. */
  lemma {:induction false} CreatedFolderIsListed(root: Path, d: Disk, name: string, readdir: Path -> seq<string>)
    requires Setting(root, d) && IsFolder(d, root) && ValidName(name)
    requires Create(root, d, name, FolderItem).outcome == Done
    requires IsReaddir(Create(root, d, name, FolderItem).disk, readdir)
    ensures var e := Create(root, d, name, FolderItem);
      var listing := Tree(root, e.disk, readdir, "");
      listing.Ok? &&
      exists i :: 0 <= i < |listing.value| &&
        listing.value[i] == FileNode(name, ForwardSlashes(name), FolderItem, Some([]))
  {
    var e := Create(root, d, name, FolderItem);
    ResolveEmpty(root);
    ResolveName(root, name);
    CreatedFolderIsEmpty(root, d, name);
    var listing := Tree(root, e.disk, readdir, "");
    assert IsFolder(e.disk, root);
    assert Lists(e.disk, readdir, "", root, listing.value);
    assert name in ChildNames(e.disk, root);
    assert name in readdir(root);
    var i :| 0 <= i < |readdir(root)| && readdir(root)[i] == name;
    EmptyFolderNode(e.disk, readdir, "", root, name, listing.value[i]);
  }
}
