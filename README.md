# A verified model of a Markdown editor's sandboxed file layer

The editor keeps Markdown documents in one content folder on the server. Clients name files by
slash-separated paths relative to that folder. Every path passes through a containment check
(`safePath`) before the file layer lists, reads, writes, creates, deletes or moves anything. Two
HTTP routes (`/api/files` and `/api/content`) validate request fields and map thrown errors to
status 500. On the client, the file tree panel decides which move a drag-and-drop asks for and
which request the modal dialog sends. The editor pane picks the text direction and the name of a
downloaded file.

The model, module by module:

- `Errors` (`errors.dfy`): the error taxonomy. `Message` gives the text each error carries to the client.
- `Paths` (`paths.dfy`): POSIX `path.resolve` as segment normalisation, the rendered absolute path
  string, and the containment test exactly as written: a plain `startsWith` on that string.
  `RenderPrefixIsAdmitted` proves that test equivalent to the segment-level predicate `Admitted`.
  `Admitted` holds when the result is at or below the root, or when its segment at the root's
  depth merely starts with the root's last name (`/srv/content-x`).
- `Disk` (`disk.dfy`): the whole file system as a map from absolute segment paths to
  `File(content) | Folder`, plus the storage primitives the layer calls: `writeFileSync`, recursive
  `mkdirSync`, recursive `rmSync` and `renameSync`, each with its Node error code. A path holding
  a NUL character is never on disk, and the three writing calls refuse it with ERR_INVALID_ARG_VALUE.
- `Fs` (`fs.dfy`):
  - `safePath` and the recursive `getFileTree` are pure functions of the tree;
  - `Read`, `Write`, `Create`, `Delete` and `Rename` say, for every input, which outcome the
    operation has, what the new tree is and that nothing else changes. Each outcome of `Read`,
    `Write`, `Delete` and `Rename` is stated as an if-and-only-if. `Create` states its layer errors
    that way, and it gives the storage code that each remaining failing case raises;
  - the class `ContentDir` holds the tree as a field that its methods update step by step, and
    each method is proved equal to its specification.
- `FsProperties` (`fs_properties.dfy`):
  - round trips;
  - idempotence;
  - confinement (a write or a delete changes only admitted locations; a create or a rename may
    also add the folders above the root);
  - listing facts;
  - concrete consequences of the containment test, including a write that lands in a sibling folder.
- `Http`, `FilesRoute`, `ContentRoute`: request fields as JavaScript values with their falsiness,
  responses as status plus payload, and the four plus two handlers.
- `FileTree` (`file_tree.dfy`): `toggleExpand`, the drop decision and the modal's request choice.
- `Editor` (`editor.dfy`): `getDirection` and the download name.

The containment test at `src/lib/fs.ts:16` is a plain `startsWith` on the rendered strings. So, for
the content folder "/srv/content", `../content-x/notes.md` is admitted. The lemmas
`SiblingAdmitted`, `SiblingAdmittedIff` and `SiblingWrite` state this outright.

## Model

| member | source | states |
|---|---|---|
| Errors.Message | src/lib/fs.ts:17 | every thrown error carries a non-empty message ("Access denied", "File not found", "Item not found", "Item already exists", "Destination already exists", or the Node error code) |
| Paths.Split | src/lib/fs.ts:15 | splitting on "/" yields at least one piece and no piece contains "/" |
| Paths.LastSegment | src/components/FileTree.tsx:161 | `split("/").pop()` never contains "/" |
| Paths.LastSegmentIsSuffix | src/components/FileTree.tsx:161 | `split("/").pop()` is the suffix of the string after its last "/" (the whole string when there is none) |
| Paths.SplitAtSlash | src/lib/fs.ts:15 | splitting `a + "/" + b` splits `a` and `b` separately |
| Paths.SplitJoin | src/lib/fs.ts:15 | splitting a slash-join of slash-free pieces gives the pieces back |
| Paths.JoinSplit | src/lib/fs.ts:15 | joining the pieces of a split with "/" gives the string back |
| Paths.Normalize | src/lib/fs.ts:15 | normalisation from a normal base never leaves ".", ".." or empty segments |
| Paths.NormalizeAppend | src/lib/fs.ts:15 | normalising a concatenation is normalising the parts in turn |
| Paths.Resolve | src/lib/fs.ts:15 | `path.resolve(root, rel)` is a normal absolute path |
| Paths.ResolveEmpty | src/lib/fs.ts:15 | resolving "" gives the base itself |
| Paths.ResolveUp | src/lib/fs.ts:15 | a leading "../" steps to the parent before the rest is resolved |
| Paths.ResolveDown | src/lib/fs.ts:15 | a leading name followed by "/" steps into that name before the rest is resolved |
| Paths.ResolveName | src/lib/fs.ts:15 | resolving a single proper name appends it to the base |
| Paths.ResolveJoin | src/lib/fs.ts:32 | resolving `path.join(dir, name)` is resolving `dir` and then appending `name` |
| Paths.Join | src/lib/fs.ts:32 | `path.join(dir, name)` of a slash-free name splits into the pieces of `dir` (none when `dir` is "") followed by `name`, so its last piece is `name` |
| Paths.ContainedIsAdmitted | src/lib/fs.ts:16 | everything at or below the root passes the prefix test |
| Paths.RenderPrefixIsAdmitted | src/lib/fs.ts:16 | the root's rendered string is a prefix of the resolved string if and only if the resolved path is at or below the root, or its segment at the root's depth starts with the root's last name |
| Paths.ForwardSlashes | src/lib/fs.ts:35 | replacing backslashes keeps the length, turns every backslash into "/" and keeps every other character |
| Paths.ForwardSlashesIdentity | src/lib/fs.ts:35 | on a string without backslashes the replacement changes nothing |
| Paths.Render | src/lib/fs.ts:16 | the string the prefix test compares starts with "/" and is "/" followed by the segments joined with "/" |
| Paths.NormalizeNames | src/lib/fs.ts:15 | normalising a sequence of proper names descends into each in turn |
| Paths.RenderResolves | src/lib/fs.ts:15-16 | `path.resolve` of a rendered normal location, against any base, is that location: the compared string names exactly the resolved path |
| Disk.AncestorsAreFolders | src/lib/fs.ts:47-98 | every ancestor of an entry is a folder |
| Disk.Exists | src/lib/fs.ts:48-93 | `existsSync` holds for every folder, and holds on a non-folder exactly when a file is stored there |
| Disk.ParentDropsLast | src/lib/fs.ts:92 | `path.dirname` drops the last segment, and "/" is its own folder |
| Disk.MissingParentCode | src/lib/fs.ts:57 | a missing folder is reported as ENOTDIR exactly when some proper ancestor is a file, and as ENOENT otherwise |
| Disk.EntriesAreNormal | src/lib/fs.ts:47-98 | every location of a well-formed tree is made of proper names without NUL |
| Disk.NulNeverExists | src/lib/fs.ts:85-89 | a path holding NUL is never on disk, so `existsSync` answers false for it |
| Disk.NoEntriesBelowMissing | src/lib/fs.ts:25-27 | nothing lies below a location that does not exist |
| Disk.WriteFileSync | src/lib/fs.ts:57 | `writeFileSync` refuses a path holding NUL with ERR_INVALID_ARG_VALUE, then gives EISDIR on a folder, then ENOTDIR or ENOENT when the parent is not a folder; it succeeds if and only if none of these apply, sets the file, changes nothing else and keeps the tree well-formed |
| Disk.Prefixes | src/lib/fs.ts:67 | the prefixes of a path are exactly its non-root ancestors and itself |
| Disk.AddFolders | src/lib/fs.ts:67 | recursive mkdir adds exactly the missing prefixes, as folders, and keeps every existing entry |
| Disk.AddFoldersWellFormed | src/lib/fs.ts:67 | when the path holds no NUL and no ancestor is a file, recursive mkdir leaves a well-formed tree in which the path is a folder |
| Disk.MkdirRecursive | src/lib/fs.ts:67 | recursive mkdir fails if and only if the path holds NUL (ERR_INVALID_ARG_VALUE), is a file (EEXIST) or lies below a file (ENOTDIR); on success the path is a folder, the tree stays well-formed and only the missing prefixes are added |
| Disk.RmRecursive | src/lib/fs.ts:78 | recursive rm removes exactly the path and everything below it and keeps the rest, well-formed |
| Disk.Relocated | src/lib/fs.ts:97 | the locations a moved subtree occupies are the destination plus each relative path below the source |
| Disk.MoveTree | src/lib/fs.ts:97 | re-rooting moves each entry of the source subtree to the same relative place below the destination and keeps everything else |
| Disk.RenameSync | src/lib/fs.ts:97 | `renameSync` refuses a destination holding NUL with ERR_INVALID_ARG_VALUE, then gives ENOTDIR or ENOENT when the destination's folder is missing, then EINVAL when the destination lies in the source's subtree; otherwise it succeeds with the re-rooted tree |
| Disk.MoveTreeKeeps | src/lib/fs.ts:97 | a rename keeps every entry outside the moved subtree unchanged |
| Disk.MoveTreeCarries | src/lib/fs.ts:97 | a rename carries every entry of the subtree to the same place below the destination |
| Disk.MoveTreeVacates | src/lib/fs.ts:97 | after a rename nothing is left at the source |
| Disk.MoveTreeKeepsPlace | src/lib/fs.ts:97 | an entry outside the moved subtree still sits in a folder after the move |
| Disk.MoveTreeMovesPlace | src/lib/fs.ts:97 | a moved entry lands in a folder |
| Disk.MoveTreeWellFormed | src/lib/fs.ts:97 | renaming to a NUL-free destination in an existing folder, not into the source's own subtree, leaves a well-formed tree |
| Disk.BlockedViaParent | src/lib/fs.ts:92-95 | with a missing parent, a location is blocked by a file exactly when its parent is |
| Disk.FolderNotBlocked | src/lib/fs.ts:92-95 | below an existing folder no ancestor is a file |
| Disk.PrefixesNest | src/lib/fs.ts:92-97 | two prefixes of one path are prefixes of one another |
| Disk.PrepareTarget | src/lib/fs.ts:92-95 | when the destination's folder exists the tree is left as it was; otherwise creating it fails if and only if its path holds NUL (ERR_INVALID_ARG_VALUE) or a file blocks it (ENOTDIR), and on success it adds exactly the missing ancestors as folders and keeps the rest |
| Disk.MoveAfterPrepare | src/lib/fs.ts:92-97 | after the destination's folders are made, the move keeps every entry outside the source, carries the subtree to the destination, vacates the source, holds below the destination only what was below the source, and adds nothing else except the folders above the destination |
| Disk.MovedFromSource | src/lib/fs.ts:97 | below the destination, the moved tree holds only entries that were below the source |
| Fs.SafePath | src/lib/fs.ts:14-20 | `safePath` succeeds if and only if the resolved path passes the prefix test; it then returns exactly the normal resolved path, and otherwise throws "Access denied" |
| Fs.ChildNames | src/lib/fs.ts:29 | the names read from a folder are exactly those of its direct entries |
| Fs.RelativeJoin | src/lib/fs.ts:32 | joining a proper name onto a listed directory gives a directory the listing can be asked for |
| Fs.BelowShrinks | src/lib/fs.ts:40 | the recursive listing descends to strictly fewer entries, so it terminates |
| Fs.Tree | src/lib/fs.ts:22-45 | `getFileTree(dir)` gives [] when `dir` does not exist and ENOTDIR on a file; on a folder it gives one node per entry in readdir's order, with `path` the slash-joined relative path, `type` folder exactly for folders, and `children` exactly on folders, equal to their own listing (the "Access denied" case is stated too, but every `dir` the source passes is admitted) |
| Fs.Entries | src/lib/fs.ts:31-44 | mapping over the remaining entries gives one listed node per remaining name, in order |
| Fs.Node | src/lib/fs.ts:32-43 | the node built for an entry describes it and, for a folder, carries its listing |
| Fs.Read | src/lib/fs.ts:47-53 | `readFile` throws "Access denied", "File not found" or EISDIR exactly in their cases and otherwise returns the stored content |
| Fs.Write | src/lib/fs.ts:55-58 | `writeFile` throws "Access denied", ERR_INVALID_ARG_VALUE, EISDIR, ENOTDIR or ENOENT, each if and only if in its case, and succeeds if and only if the admitted, NUL-free path has a folder as parent and is not a folder; it then stores the content there and changes nothing else; a failure changes nothing |
| Fs.Create | src/lib/fs.ts:60-71 | `createItem` throws "Access denied", "Item already exists" and ERR_INVALID_ARG_VALUE each if and only if in its case; a folder fails with ENOTDIR below a file and a file with ENOTDIR or ENOENT without a parent folder; otherwise a file is created empty inside its folder, or a folder together with its missing ancestors; nothing else changes |
| Fs.Delete | src/lib/fs.ts:73-79 | `deleteItem` throws "Item not found" if and only if the admitted path is missing; otherwise it removes exactly the path and its subtree |
| Fs.Relocate | src/lib/fs.ts:92-97 | once the source exists and the destination does not, the move ends in ERR_INVALID_ARG_VALUE, ENOTDIR, EINVAL or success, each if and only if in its case; folders made for the destination stay after a later failure, any other failure changes nothing; success re-roots exactly the source subtree at the destination |
| Fs.Rename | src/lib/fs.ts:81-98 | `renameItem` checks both paths first, then reports "Item not found", "Destination already exists", ERR_INVALID_ARG_VALUE, ENOTDIR or EINVAL, each if and only if in its case; folders made for the destination stay after a later failure, any other failure changes nothing; on success the source subtree is re-rooted at the destination, which holds nothing else |
| Fs.ContentDir.constructor | src/lib/fs.ts:4 | the content folder starts at the given root and tree |
| Fs.ContentDir.WriteFile | src/lib/fs.ts:55-58 | the method's outcome and new tree are those `Write` specifies, and the tree stays well-formed |
| Fs.ContentDir.CreateItem | src/lib/fs.ts:60-71 | the method's outcome and new tree are those `Create` specifies, and the tree stays well-formed |
| Fs.ContentDir.DeleteItem | src/lib/fs.ts:73-79 | the method's outcome and new tree are those `Delete` specifies, and the tree stays well-formed |
| Fs.ContentDir.RenameItem | src/lib/fs.ts:81-98 | the method's outcome and new tree are those `Rename` specifies, and the tree stays well-formed |
| FsProperties.ReadAfterWrite | src/lib/fs.ts:47-58 | a successful write of `c` is read back as `c`, the empty string included |
| FsProperties.WriteIdempotent | src/lib/fs.ts:55-58 | writing the same content twice gives the same outcome and tree as writing it once |
| FsProperties.CreateTwice | src/lib/fs.ts:62-64 | creating a path just created fails with "Item already exists" and changes nothing |
| FsProperties.ReadAfterCreate | src/lib/fs.ts:60-71 | a created file reads back empty and a created folder reads as EISDIR |
| FsProperties.AdmittedBelow | src/lib/fs.ts:16 | everything below an admitted location is admitted |
| FsProperties.AdmittedAbove | src/lib/fs.ts:16 | an ancestor of an admitted location is admitted or lies strictly above the root |
| FsProperties.DeleteThenRead | src/lib/fs.ts:73-79 | after a delete, reading the path or anything below it gives "File not found" |
| FsProperties.RenameThenRead | src/lib/fs.ts:81-98 | a moved file is read at its new path and no longer at its old one |
| FsProperties.RenameCarriesSubtree | src/lib/fs.ts:97 | moving a folder carries every entry below it to the same relative place |
| FsProperties.WriteConfined | src/lib/fs.ts:55-58 | a write changes only admitted locations |
| FsProperties.CreateConfined | src/lib/fs.ts:60-71 | a create changes only admitted locations and, above the root, adds only folders |
| FsProperties.DeleteConfined | src/lib/fs.ts:73-79 | a delete changes only admitted locations |
| FsProperties.RenameConfined | src/lib/fs.ts:81-98 | a rename changes only admitted locations and, above the root, adds only folders |
| FsProperties.ResolveSibling | src/lib/fs.ts:15 | "../x" resolves to the entry `x` beside the root |
| FsProperties.SiblingAdmittedIff | src/lib/fs.ts:16 | "../x" is admitted if and only if `x` starts with the root's last name, and it is then inside the root only when `x` is that name |
| FsProperties.EmptyIsRoot | src/lib/fs.ts:14-20 | for any content folder, `safePath("")` is that folder itself |
| FsProperties.ParentEscapeDenied | src/lib/fs.ts:14-20 | with root "/srv/content", "../x" is refused with "Access denied" |
| FsProperties.NestedEscapeDenied | src/lib/fs.ts:14-20 | with root "/srv/content", "a/../../x" is refused, because the test runs after normalisation |
| FsProperties.AbsoluteDenied | src/lib/fs.ts:14-20 | with root "/srv/content", the absolute path "/etc" is refused |
| FsProperties.SiblingAdmitted | src/lib/fs.ts:15-16 | with root "/srv/content", "../content-x/notes.md" is admitted as "/srv/content-x/notes.md", which is not inside the root |
| FsProperties.ResolveSiblingNotes | src/lib/fs.ts:15 | "../content-x/notes.md" resolves against "/srv/content" to "/srv/content-x/notes.md" |
| FsProperties.SiblingSetting | src/lib/fs.ts:4 | the example tree with "/srv/content" and "/srv/content-x" is a valid setting |
| FsProperties.SiblingWrite | src/lib/fs.ts:55-58 | writing "../content-x/notes.md" succeeds and creates the file in the sibling folder, outside the content folder |
| FsProperties.DeleteRootEmptiesListing | src/lib/fs.ts:25-27 | `deleteItem("")` removes the content folder itself, after which the listing is empty |
| FsProperties.CreatedFolderIsEmpty | src/lib/fs.ts:66-67 | a freshly created folder has no entries |
| FsProperties.EmptyFolderNode | src/lib/fs.ts:33-41 | the node of an empty folder has type folder, the slash-joined path and an empty `children` |
| FsProperties.CreatedFolderIsListed | src/lib/fs.ts:22-45 | a folder created at the top of the content folder appears in the listing with no children |
| Http.Respond | src/app/api/files/route.ts:19-23 | the status is 200 with `{ success: true }` exactly when the operation succeeded, and otherwise 500 with the thrown message |
| Http.Falsy | src/app/api/files/route.ts:16 | `!v` holds for the empty string, 0, false, null and undefined, and for no other string, number, boolean or object |
| Http.Thrown | src/app/api/files/route.ts:21-23 | a caught error becomes status 500 with its non-empty message, the same response a failed operation gets |
| FilesRoute.KindOf | src/lib/fs.ts:66 | a folder is created exactly when `type` is the string "folder"; any other truthy type creates a file |
| FilesRoute.Get | src/app/api/files/route.ts:4-11 | GET answers 500 with ENOTDIR exactly when the root exists and is a file, [] when it is missing, and otherwise the listing of "" |
| FilesRoute.Post | src/app/api/files/route.ts:13-24 | a falsy path or type gives 400 and changes nothing; a non-string path gives 500; otherwise exactly one `createItem` is applied and its outcome is reported |
| FilesRoute.Delete | src/app/api/files/route.ts:26-38 | a missing or empty path gives 400 and deletes nothing; otherwise exactly one `deleteItem` is applied and its outcome is reported |
| FilesRoute.Patch | src/app/api/files/route.ts:40-51 | a falsy oldPath or newPath gives 400 and moves nothing; a non-string path gives 500 after the earlier paths' checks; otherwise exactly one `renameItem` is applied and its outcome is reported |
| ContentRoute.Get | src/app/api/content/route.ts:4-18 | a missing or empty path gives 400 (although "" would name the root); otherwise 200 with the stored content exactly when the admitted path is a file, 500 with "Access denied" or "File not found" exactly in their cases, and 500 with EISDIR on a folder |
| ContentRoute.Post | src/app/api/content/route.ts:20-33 | a falsy path or undefined content gives 400 and writes nothing, but "" is written; a non-string path or content gives 500; otherwise exactly one `writeFile` is applied and its outcome is reported |
| FileTree.Toggled | src/components/FileTree.tsx:48-56 | toggling flips the membership of the path and leaves every other path's membership alone |
| FileTree.ToggleExpand | src/components/FileTree.tsx:48-56 | the copied and updated set is the toggled set |
| FileTree.ToggleTwice | src/components/FileTree.tsx:48-56 | toggling the same path twice restores the original set |
| FileTree.DropMove | src/components/FileTree.tsx:148-167 | a drop sends a move exactly when the source is non-empty, differs from the target, the target is a folder and the target does not start with the source plus "/"; the move goes from the source to exactly the target, "/", and the source's last name |
| FileTree.DropNeverNests | src/components/FileTree.tsx:158-162 | a drop never asks to move an entry below itself |
| FileTree.DropOntoParent | src/components/FileTree.tsx:148-162 | dropping an entry onto its own folder asks to move it onto itself |
| FileTree.DropLandsInTarget | src/components/FileTree.tsx:161-167 | the server resolves a drop's destination to the target folder's entry with the source's last name |
| FileTree.Submit | src/components/FileTree.tsx:89-120 | submitting sends at most one request: a delete of the modal's target exactly when a delete modal has a target, a move from the target to the input exactly when a move modal has both, and otherwise a create of the input (type "file" exactly for the create-file modal) when there is an input |
| FileTree.SubmittedCreateIsHonoured | src/components/FileTree.tsx:110-119 | a create request passes the route's field checks, and the route creates a file for the create-file modal and a folder for the create-folder modal |
| FileTree.MoveWithoutTargetCreatesFolder | src/components/FileTree.tsx:97-119 | a move modal without a target falls through to creating a folder named by the input |
| Editor.HasRtl | src/components/Editor.tsx:23-24 | the regex matches exactly when some character lies in U+0591–U+07FF, U+FB1D–U+FDFD or U+FE70–U+FEFC |
| Editor.GetDirection | src/components/Editor.tsx:22-25 | the direction is "rtl" exactly when some character lies in one of the three ranges, and "ltr" otherwise |
| Editor.EmptyIsLtr | src/components/Editor.tsx:22-25 | an empty text is "ltr" |
| Editor.RtlSurvivesConcatenation | src/components/Editor.tsx:23-24 | if `s` is "rtl" then so are `s + t` and `t + s` |
| Editor.LastSegmentEmpty | src/components/Editor.tsx:87 | the last "/"-piece is empty exactly when the path is empty or ends with "/" |
| Editor.DownloadName | src/components/Editor.tsx:87 | the download name is non-empty and has no "/"; it is "document.md" when the path is absent, empty or ends with "/", and otherwise the part of the path after its last "/" |

## Left out

- Node's `fs` and `path` are modelled, not called: the disk is a map, and `path.resolve` is POSIX segment normalisation, where an absolute input discards the root.
- Permission errors, a full disk, a name longer than the file system allows (ENAMETOOLONG, over 255 bytes on common Linux file systems) and other storage failures are not modelled: Fs.Write, Fs.Create and Fs.Rename succeed in the model where such a limit would refuse them. The errors that follow from the tree's shape are modelled with their Node codes: ENOENT, ENOTDIR, EISDIR, EINVAL and EEXIST. A path holding NUL is refused with ERR_INVALID_ARG_VALUE.
- `CONTENT_DIR`, that is `path.join(process.cwd(), "content")` (src/lib/fs.ts:4), is the `root` parameter of `ContentDir`. The model generalises it: `root` may be any normal, non-root absolute path, so its last segment need not be "content".
- `fs.readdirSync`'s order is platform-defined, so the listing takes it as a parameter `readdir`. The only constraint is that it lists each entry of each folder exactly once.
- Fs.Tree: it requires the asked-for directory to be "" or proper names joined by "/", so its "Access denied" branch cannot occur. That covers every call the source makes: "" from the route and `path.join` of a listed name inside the recursion. `path.join` is therefore modelled as joining with "/".
- The backslash replacement at src/lib/fs.ts:35 is modelled as a real character replacement. On POSIX, a file name may contain a backslash, so it is not the identity.
- Moving a folder into its own subtree is not a precondition of `renameItem`. It is modelled as the EINVAL that `renameSync` raises, after the destination folders have been made. Those folders stay, as they do on disk.
- Writing or creating a file whose parent folder is missing is not a precondition either. It is modelled as the ENOENT (or ENOTDIR below a file) that `writeFileSync` raises.
- Symbolic links and hard links are not modelled: the disk is a tree of files and folders. A link inside the content folder could lead a write, create, delete or rename outside it, so SafePath and the confinement lemmas (FsProperties.WriteConfined, FsProperties.CreateConfined, FsProperties.DeleteConfined, FsProperties.RenameConfined) hold only for a disk without links.
- FsProperties.ReadAfterWrite: the file stores the written string itself. Node encodes it as UTF-8 and decodes it on read, so an unpaired UTF-16 surrogate comes back as U+FFFD; the round trip holds only for strings without unpaired surrogates.
- Errors.Message: the layer's own errors carry the source's texts, but a Node error is given only by its code name. Node's message also names the syscall and the absolute path (such as "ENOENT: no such file or directory, open '/srv/content/a/b.md'"), so a 500 response reveals the content folder's location; the model does not capture that text.
- Atomicity and concurrency of `renameSync` and `rmSync`: the model is sequential.
- `request.json()`:
  - malformed JSON, and bodies that are not objects, are not modelled;
  - a request is its fields as JSON values;
  - a DELETE or content GET query parameter is an optional string;
  - `NextResponse` is a status plus a payload.
- FilesRoute.Post, FilesRoute.Patch, ContentRoute.Post: Node throws a TypeError when a `path`, `oldPath`, `newPath` or `content` field reaches the file layer with a non-string value (a truthy non-string `type` is no error: it creates a file, as FilesRoute.KindOf states). The model gives its message only by the error's code name, not by Node's full text.
- Which non-string values reach `path.resolve` and which are rejected earlier is modelled as the source orders the calls.
- `src/app/page.tsx` and `src/components/Modal.tsx` are not part of this model: they are presentation only.
- The rest of `FileTree.tsx` and `Editor.tsx` is not modelled:
  - `fetch` calls and their responses;
  - React state and rendering;
  - drag bookkeeping and file import;
  - the autosave timer, PDF export and the Blob/DOM download mechanics.
  The model covers the decisions that choose what is sent, not the sending.
- Editor.GetDirection: the regex tests UTF-16 code units. A character outside the Basic Multilingual Plane is one `char` in the model and two surrogates in JavaScript. Neither form falls in the three ranges, so the answer is the same.
