# pacd site generator — Dafny model

This project models the site-generation engine of `pacd`, a static-site
builder. The engine walks a source tree and mirrors it into a destination
tree. Every file whose extension is `liquid` is a template: it is parsed,
then rendered against the global JSON data under `data` and per-render
locals under `page`. Every other file is copied byte for byte. A template
whose stem is `[<key>]` is a collection template: it is rendered once per
item of the list `<key>`, into `<id>.html` beside its destination, with
`page.current_index` set to the item's position. Every error is fail-fast.
Files written before a failure stay on disk.

The model is functional:

- A path is a sequence of components (`Paths`). File stems and extensions
  follow Rust's `std::path` rules.
- The filesystem (`FileSystem.Fs`) maps paths to bytes. It also holds a set
  of directories and a set of paths at which the process may not create or
  read anything. Every I/O failure the model knows comes from that state.
- JSON data is a tagged `Json.Value`.
- Each fallible step returns a `Run`: an outcome plus the filesystem it leaves.
- The template library's parse and render, the JSON decoder, and whether the
  parser can be built are function-valued parameters (`Site.Engine`). The tar
  and gzip decoders are parameters too (`Helpers.Archiver`).
- The directory walk is an input sequence of entries (`Site.WalkEntry`).
  Whether an entry is a regular file is asked of the filesystem at the
  moment the entry is processed, as `is_file()` does.

Some behaviours of the code a reader may not expect, which the model keeps:

- The collection pattern is `^\[(.*)\]$`, so `[]` is a collection with the
  empty key. `[a]b]` has key `a]b`. A stem with a line feed between the
  brackets is not a collection, because `.` does not match a line feed.
- Output files are opened with `write` and `create` but without `truncate`.
  Rendering over an older, longer file leaves that file's tail in place
  (`FileSystem.Overlay`).
- `create_dir_for_path` treats a parent that exists as a *file* as existing.
  It then does nothing, and the failure comes later, from the first step
  that opens a file in that directory. A copied file fails to open with
  `DestCreationError(output)`. A single template reports a render failure
  (`CouldNotRenderFile`) first, and otherwise fails to open its `.html`
  output. A collection template reports a missing key
  (`CollectionKeyNotFound`) or a value that is not a list (`NoListAvailable`)
  first. An empty list succeeds without writing anything. Otherwise the first
  item reports its id or render error, or else fails to open its own file,
  with `DestCreationError` naming that file.
- `DeflateError` is raised at src/helpers.rs:39, but `PacdError` in
  src/errors.rs does not declare it. The model's `Errors.PacdError` declares it.
- The tar library makes the destination directory before it reads the
  archive. A corrupt archive, or a directory given as the archive, therefore
  still leaves the destination created. Directory entries are extracted
  after all other entries.

## Model

| member | source | states |
|---|---|---|
| Paths.SplitAtDot | src/lib.rs:80 | a file name has an extension exactly when it is not `..` and has a dot after its first character; the stem, a dot and the extension rebuild the name, and the extension holds no dot |
| Paths.TemplateNameIffSuffix | src/lib.rs:80-82 | a file name is dispatched to the template path iff it is longer than `.liquid` and ends with `.liquid`; its stem is then the name without that suffix |
| Paths.HiddenDotLiquidIsNotTemplate | src/lib.rs:80-82 | a file named `.liquid` has no extension and is therefore copied, not rendered |
| Paths.IndexLiquidIsTemplate | src/lib.rs:80-82 | `index.liquid` is a template with stem `index` |
| Paths.LastExtensionCounts | src/lib.rs:80 | only the text after the last dot is the extension (`archive.tar.gz` has extension `gz`) |
| Paths.StripPrefix | src/lib.rs:73-76 | stripping the source root succeeds iff the root is a leading part of the path, and the root joined with the rest gives the path back |
| Paths.StripPrefixOfJoin | src/lib.rs:73-76 | a path built as root plus relative part strips back to exactly that relative part |
| Json.NatToString | src/helpers.rs:31-32 | the text of a number is non-empty, all decimal digits, and has no leading zero unless it is `0` |
| Json.IntToStringRoundTrip | src/helpers.rs:31-32 | the text form of an integer id reads back as the same integer |
| Json.IntToStringCanonical | src/helpers.rs:32 | an integer's text is canonical decimal: no leading zero, no `-0`, never a bare sign |
| Json.IntToStringInjective | src/helpers.rs:31-32 | distinct integer ids have distinct text forms, so they name distinct files |
| Json.ScalarText | src/helpers.rs:31-33 | exactly booleans, integers and strings are scalars with a text form; a string is its own text, an integer's text is canonical decimal and reads back as it, booleans are `true`/`false` |
| FileSystem.Overlay | src/lib.rs:145-154 | writing without truncation: the result is as long as the longer of old and new, starts with the new bytes, and keeps the old bytes beyond them; it is exactly the new bytes iff the old file was no longer |
| FileSystem.OverlayKeepsStaleTail | src/lib.rs:145-148 | writing `xy` over an older `abcdef` leaves `xycdef` |
| FileSystem.WriteInPlace | src/lib.rs:145-158 | opening for write+create succeeds iff the path is permitted, is not a directory and its directory exists; the file then holds the new bytes laid over its old content, and no other file or directory changes |
| FileSystem.CopyFile | src/lib.rs:85-88 | a copy succeeds iff the source is a readable regular file and the target can be opened; the target then holds the source's bytes (nothing, when copied onto itself), and nothing else changes |
| FileSystem.MkdirAll | src/helpers.rs:20 | `create_dir_all` only adds directories, all of them ancestors of the target; on success the target is a directory, on failure it is not; files and permissions are untouched |
| FileSystem.DirAncestorsExist | src/helpers.rs:20 | in a well-formed tree every ancestor of a directory is a directory |
| FileSystem.MkdirAllSucceedsIff | src/helpers.rs:20-23 | on a well-formed tree, `create_dir_all` succeeds iff no missing ancestor is a file or a forbidden path |
| FileSystem.MkdirAllIdempotent | src/helpers.rs:20-23 | running `create_dir_all` again on what it left changes nothing and gives the same answer |
| Helpers.CreateDirForPath | src/helpers.rs:15-25 | with no parent, or a parent that exists (even as a file), nothing happens and the result is Ok; otherwise missing ancestors are created, success leaves the parent existing, and failure is `DestCreationError(parent)` |
| Helpers.CreateDirForPathSucceedsIff | src/helpers.rs:19-24 | when the parent is missing, making it succeeds iff nothing on the way to it is blocked |
| Helpers.CreateDirForPathIdempotent | src/helpers.rs:15-25 | calling it twice has the same effect and result as calling it once, after success and after failure alike |
| Helpers.GetIdString | src/helpers.rs:27-34 | `NoIDField(coll)` iff the item is not an object or has no `id`; `IDParseError(coll)` iff the `id` is a list, object or null; otherwise the id's text (a string as is, a number in canonical decimal, a boolean as `true`/`false`) |
| Helpers.StringAndNumberIdsCoincide | src/helpers.rs:31-32 | an `id` of `"1"` and an `id` of `1` give the same text, so their items write the same file |
| Helpers.WriteReplacing | src/helpers.rs:37 | an extracted file holds exactly the entry's bytes when its place can be opened |
| Helpers.ExtractEntry | src/helpers.rs:37 | extracting one entry creates what it needs and, on success, leaves the file with the entry's bytes or the directory in place |
| Helpers.ExtractFrom | src/helpers.rs:37 | one pass over the file entries or over the directory entries only adds; on success every entry of that kind exists under the destination; a pass with no entry of its kind changes nothing |
| Helpers.UnpackArchiveTo | src/helpers.rs:36-41 | a missing destination is made before the archive is read, and kept even when the archive is corrupt; any failure is `DeflateError(dst)`; an existing destination with a corrupt archive is left untouched, and with an empty archive succeeds even when it is a file; on success every file and directory entry exists under the destination |
| Helpers.UnpackMakesDestination | src/helpers.rs:36-41 | on a well-formed tree, unpacking into a missing destination that nothing blocks leaves it a directory whatever the archive holds |
| Helpers.UnpackArchive | src/helpers.rs:43-66 | the archive is opened before its extension is looked at, so an open failure is `SrcReadError(src)` for every extension; an opened file with extension other than `tar`/`gz` (or none) gives Ok and writes nothing; a `tar` file is extracted from its bytes decoded as tar, and a `gz` file from its bytes inflated and then decoded as tar, a directory or an undecodable stream counting as a corrupt archive; every later failure is `DeflateError(dst)` |
| Helpers.GzippedTarUnpacksAsTar | src/helpers.rs:54-63 | a `.gz` file whose stream inflates to the bytes of a `.tar` file unpacks exactly as that `.tar` file does |
| Site.Build | src/lib.rs:28-62 | a parser failure is reported first as `CouldNotBuildParser`; an unreadable data file, undecodable JSON or a non-object top level is `DataParseError(data)`; a built parser and a data file that decodes to an object give `Ok` with the roots kept and the object's fields as globals |
| Site.BuildReadsOnlyDataFile | src/lib.rs:28-62 | building depends on the filesystem only through the data file: two filesystems that read the same from it build the same generator |
| Site.CollectionKey | src/lib.rs:52-53 | a recognised key is exactly what lies between the stem's outer brackets and holds no line feed; an unrecognised stem lacks an outer bracket or has a line feed inside |
| Site.CollectionKeyComplete | src/lib.rs:52-53 | every bracketed stem without a line feed is a collection and its key is recovered in full, the empty key included |
| Site.CollectionKeyExamples | src/lib.rs:52-53 | `[]` gives key `""`, `[a]b]` gives `a]b`, `[posts]` gives `posts`; `posts`, `[posts` and a stem with a line feed inside are not collections |
| Site.GlobalsNotShadowed | src/lib.rs:209-213 | the render context shows the same `data` whatever the locals, and different locals give different contexts |
| Site.SingleOutput | src/lib.rs:133-159 | a render failure is `CouldNotRenderFile(out)` and writes nothing; an open failure after rendering is `DestCreationError(out)` and writes nothing; success iff both succeed, and then the output holds the rendering over its old content and no other file changes |
| Site.ItemPath | src/lib.rs:176-177 | an item's file lies directly in the template's destination directory |
| Site.ItemPathInjective | src/lib.rs:176-177 | two items write the same file iff their ids are equal, so duplicate ids collide and distinct ids do not |
| Site.IndexLocals | src/lib.rs:180-182 | the locals hold only `current_index`, the item's position taken as an unsigned 32-bit number, equal to the position below 2^32 |
| Site.ExpandItems | src/lib.rs:174-193 | the loop only adds files; on success every item from the start position had an id, rendered, and has its file; files that no remaining item names are untouched |
| Site.CollectionOutput | src/lib.rs:161-194 | a missing key is `CollectionKeyNotFound(key)` and a non-list value `NoListAvailable(key)`, both writing nothing; an empty list succeeds and writes nothing; on success every item's `<id>.html` exists beside the template's destination |
| Site.HtmlPath | src/lib.rs:119-120 | the single output is the destination with its last component replaced by the template's stem plus `.html` |
| Site.TransformFile | src/lib.rs:96-131 | an unreadable or unparsable template is `CouldNotParseTemplate(input)` and writes nothing, whatever its name; the transform only adds files |
| Site.ProcessEntry | src/lib.rs:65-90 | a walk failure is `TraverseError`; an entry that is not a regular file is skipped with nothing written; processing an entry never removes anything and keeps the tree well formed |
| Site.Generate | src/lib.rs:64-94 | over a walk that yields the source root first, as a directory, a run only adds files and directories and keeps a well-formed tree well formed |
| SiteProperties.GenerateAppend | src/lib.rs:65-93 | generating over two walks in a row equals generating over the first and, only if it succeeded, continuing with the second from the filesystem it left |
| SiteProperties.WalkFailureStopsGeneration | src/lib.rs:65-69 | a walk failure ends the run with `TraverseError` (unless an earlier entry failed first) and no later entry is processed |
| SiteProperties.GenerateKeepsEarlierWrites | src/lib.rs:65-93 | extending the walk never removes a file an earlier part of the walk wrote |
| SiteProperties.CopiedVerbatim | src/lib.rs:71-89 | a non-template file is copied byte for byte to the destination root joined with its path relative to the source root; a failure names that destination or its directory; a successful copy changes no other file; when the source is readable and the destination can be opened, the copy succeeds |
| SiteProperties.TemplateEntryUnfolds | src/lib.rs:71-83 | a template reached by the walk has its directory made without touching any file, and is then transformed into its mirrored destination; a directory failure ends the step |
| SiteProperties.SingleTemplateDispatch | src/lib.rs:99-127 | a template whose stem names no collection succeeds only if its directory is made and it reads and parses; it is then exactly one render with empty locals into the mirrored destination with `.liquid` replaced by `.html` |
| SiteProperties.SingleTemplateOutput | src/lib.rs:99-159 | once its directory is made and it parses, a single template whose render fails is `CouldNotRenderFile` naming the `.html` output and changes no file; on success the rendering with empty locals is laid over the `.html` output and no other file changes |
| SiteProperties.UnparsableTemplateWritesNothing | src/lib.rs:99-102 | a template that does not parse always fails and writes no file; once its directory is made, the error is `CouldNotParseTemplate` naming the template |
| SiteProperties.ItemsBeforeFailureWritten | src/lib.rs:174-193 | when an expansion fails, every item before the failing one had an id, rendered, and its file remains |
| SiteProperties.ExpansionErrorIsItemFailure | src/lib.rs:175-190 | the error of a failed expansion is the failing item's id error, `CouldNotRenderFile` of its file, or `DestCreationError` of its file when that file cannot be opened |
| SiteProperties.ExpandItemsSucceeds | src/lib.rs:173-190 | when every remaining item has an id, renders, and has a file that can be opened for writing, the loop succeeds; the converse of the success case of `Site.ExpandItems` |
| SiteProperties.CollectionOutputSucceeds | src/lib.rs:161-193 | a key naming a list whose items all have ids, render and have openable files is written successfully |
| SiteProperties.NothingWrittenAfterFailure | src/lib.rs:174-193 | every file a failed expansion created belongs to an item up to the failing one |
| SiteProperties.NotWrittenLater | src/lib.rs:174-177 | a path that no item's id names is not among the paths the loop writes |
| SiteProperties.LastWriterWins | src/lib.rs:174-193 | after a successful expansion, the file of the last item carrying a given id begins with that item's rendering, so a later duplicate writes over an earlier one |
| SiteProperties.UniqueFreshItemIsExact | src/lib.rs:174-193 | an item whose id is unique, written to a file that did not exist before, leaves exactly its rendering |
| SiteProperties.CollectionTemplateDispatch | src/lib.rs:104-117 | a parsed template whose stem is `[key]` is expanded for `key` beside its mirrored destination, after its directory is made |
| SiteProperties.PostsCollection | src/lib.rs:165-193 | posts `one` and `two` yield `one.html` and `two.html` beside the template's destination and no other file |
| SiteProperties.PostsScenario | src/lib.rs:65-193 | `[posts].liquid` at the source root yields `one.html` and `two.html` at the destination root and no other new file, in particular no `[posts].html` |

## Left out

- `src/main.rs` (command-line parsing, logging setup, the debounced watch loop) is not part of this model. It is event and process plumbing around `build` and `generate`.
- `src/packer.rs` and `src/config.rs` are not part of this model. The packer is a thin wrapper over the tar and gzip libraries and is not a module of the library. The config struct has no behaviour.
- Liquid template parsing and rendering, and JSON decoding, are foreign libraries. They appear only as the function parameters of `Site.Engine`. Tar and gzip decoding are the parameters of `Helpers.Archiver`.
- The walk is an input sequence. `WalkDir`'s traversal order and its pre-order guarantee are not modelled.
- Site.Generate: requires that the source root appears only as the walk's first entry, as `WalkDir` yields it, and that it is not a regular file. When the source root is itself a file, the relative path is empty. The suffix arithmetic at src/lib.rs:119 then acts on the destination root's own name, and the model does not cover that case. For a site directory, the root entry is a directory and produces nothing.
- Site.ItemPath: an id is joined as one path component. An id holding a `/` or starting with one would, in the code, place the output in another directory. The model does not represent path separators inside names.
- JSON numbers with a fraction or exponent are not modelled, because floating point is out of scope. Integers are unbounded here. The library stores them as 64-bit integers.
- I/O failures are only those the filesystem state decides: missing or forbidden paths, directories in the way, a parent that is a file. A write that fails half-way, such as a full disk, is not modelled. Neither is a failure of `is_file()` or `exists()` themselves.
- Helpers.UnpackArchiveTo: the archive is decoded whole after the destination is made and before any entry is written. The tar library extracts entries as it reads them, so with a corrupt archive it may already have written some entries. The library's sanitising of entry paths (`..`, absolute names) is not modelled.
- Helpers.ExtractFrom: states that every file entry exists after extraction, not its final content when two entries share a path.
- Accepting an archive as the source of a build is not part of this model: `build` and `generate` take a directory, and nothing in the core calls the unpack helper.
- Errors carry paths as `Path` values rather than as their display strings. `PassThrough` carries a message rather than a boxed error. `ObjectConversionError` is declared, but nothing in the core raises it.
- A file stem that is not valid UTF-8 makes the code treat the template as single. Dafny strings are always valid text, so that case does not arise here.
- Logging and the `Creating file` message are not modelled.
