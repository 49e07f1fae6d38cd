/**
 * The decisions of the file tree panel (`src/components/FileTree.tsx`): which folders are
 * expanded, which move a drag-and-drop asks for, and which request the modal dialog sends.
 */
module FileTree {
  import opened Errors
  import opened Paths
  import Fs
  import Http
  import FilesRoute

  // ---------------------------------------------------------------------------------------------
  // toggleExpand
  // ---------------------------------------------------------------------------------------------

  /** The expanded set with the membership of `path` flipped. */
  function Toggled(expanded: set<string>, path: string): (r: set<string>)
    ensures path in r <==> path !in expanded
    ensures forall q :: q != path ==> (q in r <==> q in expanded)
  {
    if path in expanded then expanded - {path} else expanded + {path}
  }

  /** `toggleExpand`: copy the set, then delete or add `path` in the copy. */
  method ToggleExpand(expanded: set<string>, path: string) returns (next: set<string>)
    ensures next == Toggled(expanded, path)
  {
    next := expanded;
    if path in next {
      next := next - {path};
    } else {
      next := next + {path};
    }
  }

  /** Toggling a folder twice restores the expanded set. */
  lemma {:induction false} ToggleTwice(expanded: set<string>, path: string)
    ensures Toggled(Toggled(expanded, path), path) == expanded
  {
    var once := Toggled(expanded, path);
    var twice := Toggled(once, path);
    assert forall q :: q in twice <==> q in expanded;
  }

  // ---------------------------------------------------------------------------------------------
  // handleDrop
  // ---------------------------------------------------------------------------------------------

  /** The `PATCH` body a drop sends. */
  datatype Move = Move(oldPath: string, newPath: string)

  /**
   * `handleDrop`: nothing without a source, onto itself, onto a file, or onto something below the
   * source; otherwise move the source into the target folder under its own last name.
   */
  function DropMove(source: string, target: string, targetType: Fs.ItemType): (r: Option<Move>)
    ensures r.Some? <==>
      source != "" && source != target && targetType == Fs.FolderItem && !(source + "/" <= target)
    ensures r.Some? ==> r.value.oldPath == source
    ensures r.Some? ==> r.value.newPath == target + "/" + LastSegment(source)
    ensures r.Some? ==> target + "/" <= r.value.newPath && LastSegment(r.value.newPath) == LastSegment(source)
  {
    if source == "" || source == target then None
    else if targetType != Fs.FolderItem then None
    else if source + "/" <= target then None
    else
      var name := LastSegment(source);
      var newPath := target + "/" + name;
      assert LastSegment(newPath) == name by {
        SplitAtSlash(target, name);
        SplitNoSlash(name);
      }
      Some(Move(source, newPath))
  }

  /** A drop never asks to move an entry below itself, so the server never sees a folder moved into its own subtree. */
  lemma {:induction false} DropNeverNests(source: string, target: string, targetType: Fs.ItemType)
    requires DropMove(source, target, targetType).Some?
    ensures !(source + "/" <= DropMove(source, target, targetType).value.newPath)
  {
    var name := LastSegment(source);
    var newPath := target + "/" + name;
    LastSegmentIsSuffix(source);
    if |source| < |target| {
      // they already differ inside `target`
      assert newPath[..|source| + 1] == target[..|source| + 1];
      assert source + "/" != target[..|source| + 1];
    } else if |source| == |target| {
      assert newPath[..|source|] == target;
    } else if |source| < |newPath| {
      // the slash after `source` would fall inside the last name
      assert newPath[|source|] == name[|source| - |target| - 1];
      assert name[|source| - |target| - 1] in name;
    }
  }

  /** Dropping an entry onto its own folder asks to move it onto itself (which the server refuses). */
  lemma {:induction false} DropOntoParent(target: string, name: string)
    requires name != "" && '/' !in name
    ensures DropMove(target + "/" + name, target, Fs.FolderItem) == Some(Move(target + "/" + name, target + "/" + name))
  {
    var source := target + "/" + name;
    SplitAtSlash(target, name);
    SplitNoSlash(name);
    assert LastSegment(source) == name;
    assert !(source + "/" <= target);
  }

  /** The destination of a drop resolves, on the server, to the target folder's entry of that name. */
  lemma {:induction false} DropLandsInTarget(root: Path, source: string, target: string)
    requires target != "" && ValidName(LastSegment(source))
    requires DropMove(source, target, Fs.FolderItem).Some?
    ensures Resolve(root, DropMove(source, target, Fs.FolderItem).value.newPath) ==
      Resolve(root, target) + [LastSegment(source)]
  {
    ResolveJoin(root, target, LastSegment(source));
  }

  // ---------------------------------------------------------------------------------------------
  // handleModalSubmit
  // ---------------------------------------------------------------------------------------------

  datatype ModalKind = CreateFileModal | CreateFolderModal | DeleteModal | MoveModal

  /** `ModalState` without `isOpen`, which submitting does not look at. */
  datatype Modal = Modal(kind: Option<ModalKind>, targetPath: Option<string>, inputValue: Option<string>)

  /** The request a submit sends to `/api/files`. */
  datatype Request =
    | DeleteRequest(path: string)
    | PatchRequest(oldPath: string, newPath: string)
    | PostRequest(path: string, kind: string)

  /** A truthy optional string: present and not empty. */
  predicate Given(o: Option<string>)
  {
    o.Some? && o.value != ""
  }

  /** `handleModalSubmit`: at most one request, chosen by the modal's type and which fields are filled in. */
  function Submit(m: Modal): (r: Option<Request>)
    ensures m.kind == None ==> r == None
    ensures (r.Some? && r.value.DeleteRequest?) <==> m.kind == Some(DeleteModal) && Given(m.targetPath)
    ensures (r.Some? && r.value.PatchRequest?) <==>
      m.kind == Some(MoveModal) && Given(m.targetPath) && Given(m.inputValue)
    ensures r.Some? && r.value.DeleteRequest? ==> r.value.path == m.targetPath.value
    ensures r.Some? && r.value.PatchRequest? ==>
      r.value.oldPath == m.targetPath.value && r.value.newPath == m.inputValue.value
    ensures r.Some? && r.value.PostRequest? ==> Given(m.inputValue) && r.value.path == m.inputValue.value
    ensures r.Some? && r.value.PostRequest? ==>
      (r.value.kind == "file" <==> m.kind == Some(CreateFileModal)) &&
      (r.value.kind == "file" || r.value.kind == "folder")
    ensures r == None <==> m.kind == None || (!Given(m.inputValue) && !(m.kind == Some(DeleteModal) && Given(m.targetPath)))
  {
    if m.kind == None then None
    else if m.kind == Some(DeleteModal) && Given(m.targetPath) then Some(DeleteRequest(m.targetPath.value))
    else if m.kind == Some(MoveModal) && Given(m.targetPath) && Given(m.inputValue) then
      Some(PatchRequest(m.targetPath.value, m.inputValue.value))
    else if Given(m.inputValue) then
      Some(PostRequest(m.inputValue.value, if m.kind == Some(CreateFileModal) then "file" else "folder"))
    else None
  }

  /**
   * A create request is answered by creating what the modal asked for: it passes the route's checks
   * and `type === "folder"` reads the folder modal back as a folder and the file modal as a file.
   */
  lemma SubmittedCreateIsHonoured(m: Modal)
    requires m.kind == Some(CreateFileModal) || m.kind == Some(CreateFolderModal)
    requires Given(m.inputValue)
    ensures var r := Submit(m);
      r.Some? && r.value.PostRequest? &&
      !Http.Falsy(Http.Str(r.value.path)) && !Http.Falsy(Http.Str(r.value.kind)) &&
      FilesRoute.KindOf(Http.Str(r.value.kind)) ==
        (if m.kind == Some(CreateFileModal) then Fs.FileItem else Fs.FolderItem)
  {
  }

  /** A move modal whose target is missing falls through to creating a folder named by the input. */
  lemma MoveWithoutTargetCreatesFolder(input: string)
    requires input != ""
    ensures Submit(Modal(Some(MoveModal), None, Some(input))) == Some(PostRequest(input, "folder"))
  {
  }
}
