/**
  The site generator: it walks the source tree, copies every file that is
  not a template to the mirrored place under the destination root, and
  renders every `.liquid` template against the data document, either once
  (to `<name>.html`) or once per item of a named list when the template's
  stem is `[<key>]`.
 */
module Site {
  import opened Results
  import opened Paths
  import opened Json
  import opened Errors
  import opened FileSystem
  import opened Helpers

  /**
    The foreign parts the generator relies on: whether the template parser
    can be built, the JSON decoder for the data file, and the template
    library's parse and render. `T` is the compiled template.
   */
  datatype Engine<!T> = Engine(
    parserBuilds: bool,
    decode: Bytes -> Option<Value>,
    parse: Bytes -> Option<T>,
    render: (T, Value) -> Option<Bytes>)

  /** A built generator: source and destination roots and the global data. */
  datatype SiteGenerator = SiteGenerator(src: Path, dest: Path, globals: map<string, Value>)

  /** One step of the directory walk: a path reached, or a failure to read the tree. */
  datatype WalkEntry = Visit(path: Path) | WalkFailure

  /**
    `SiteGenerator::build`: the parser is built first, then the data file is
    read and decoded; it must hold a JSON object, whose fields become the
    globals. Any failure with the data file names the data file.
   */
  function Build<T>(fs: Fs, e: Engine<T>, src: Path, dest: Path, data: Path): (r: Result<SiteGenerator, PacdError>)
    ensures !e.parserBuilds ==> r == Err(CouldNotBuildParser)
    ensures e.parserBuilds && ReadFile(fs, data).None? ==> r == Err(DataParseError(data))
    ensures e.parserBuilds && ReadFile(fs, data).Some? && !(e.decode(fs.files[data]).Some? && e.decode(fs.files[data]).value.Object?) ==>
      r == Err(DataParseError(data))
    ensures r.Ok? ==> e.parserBuilds && ReadFile(fs, data).Some? && e.decode(fs.files[data]) == Some(Object(r.value.globals))
    ensures r.Ok? ==> r.value.src == src && r.value.dest == dest
    ensures e.parserBuilds && ReadFile(fs, data).Some? && e.decode(fs.files[data]).Some? && e.decode(fs.files[data]).value.Object? ==>
      r == Ok(SiteGenerator(src, dest, e.decode(fs.files[data]).value.fields))
  {
    if !e.parserBuilds then Err(CouldNotBuildParser)
    else
      match ReadFile(fs, data)
      case None => Err(DataParseError(data))
      case Some(bytes) =>
        match e.decode(bytes)
        case Some(Object(fields)) => Ok(SiteGenerator(src, dest, fields))
        case _ => Err(DataParseError(data))
  }

  /** Building reads nothing but the data file: two filesystems that agree on it, and on whether it may be read, build the same generator. */
  lemma BuildReadsOnlyDataFile<T>(fs1: Fs, fs2: Fs, e: Engine<T>, src: Path, dest: Path, data: Path)
    requires ReadFile(fs1, data) == ReadFile(fs2, data)
    ensures Build(fs1, e, src, dest, data) == Build(fs2, e, src, dest, data)
  {
  }

  /**
    The collection pattern `^\[(.*)\]$`: a stem wrapped in square brackets
    names a collection, and the key is everything between them, possibly
    empty. `.` does not match a line feed, and `$` matches only at the end.
   */
  function CollectionKey(stem: string): (r: Option<string>)
    ensures r.Some? ==> "[" + r.value + "]" == stem && '\n' !in r.value
    ensures r.None? ==> |stem| < 2 || stem[0] != '[' || stem[|stem| - 1] != ']' || '\n' in stem[1..|stem| - 1]
  {
    if |stem| >= 2 && stem[0] == '[' && stem[|stem| - 1] == ']' && '\n' !in stem[1..|stem| - 1] then
      assert "[" + stem[1..|stem| - 1] + "]" == stem;
      Some(stem[1..|stem| - 1])
    else None
  }

  /** Every bracketed key without a line feed is recognised and recovered. */
  lemma CollectionKeyComplete(key: string)
    requires '\n' !in key
    ensures CollectionKey("[" + key + "]") == Some(key)
  {
    var stem := "[" + key + "]";
    assert stem[1..|stem| - 1] == key;
  }

  /** `[]` is a collection with the empty key, the match is greedy, and a plain name is not a collection. */
  lemma CollectionKeyExamples()
    ensures CollectionKey("[]") == Some("")
    ensures CollectionKey("[a]b]") == Some("a]b")
    ensures CollectionKey("[posts]") == Some("posts")
    ensures CollectionKey("posts") == None
    ensures CollectionKey("[posts") == None
    ensures CollectionKey("[a\nb]") == None
  {
    CollectionKeyComplete("");
    CollectionKeyComplete("a]b");
    assert "[" + "a]b" + "]" == "[a]b]";
    CollectionKeyComplete("posts");
    assert "[" + "posts" + "]" == "[posts]";
    assert "[a\nb]"[1..4] == "a\nb";
  }

  /** `PageData`: the render context, with the globals under `data` and the locals under `page`. */
  function PageData(globals: map<string, Value>, locals: map<string, Value>): (ctx: Value)
    ensures ctx.Object? && ctx.fields.Keys == {"data", "page"}
    ensures ctx.fields["data"] == Object(globals) && ctx.fields["page"] == Object(locals)
  {
    Object(map["data" := Object(globals), "page" := Object(locals)])
  }

  /** Locals never shadow globals: whatever the locals, templates see the same `data`. */
  lemma GlobalsNotShadowed(globals: map<string, Value>, l1: map<string, Value>, l2: map<string, Value>)
    ensures PageData(globals, l1).fields["data"] == PageData(globals, l2).fields["data"]
    ensures l1 != l2 ==> PageData(globals, l1) != PageData(globals, l2)
  {
    if PageData(globals, l1) == PageData(globals, l2) {
      assert PageData(globals, l1).fields["page"] == PageData(globals, l2).fields["page"];
    }
  }

  /**
    `create_single_output`: renders first, so a render failure writes
    nothing; then opens the output for writing without truncation and
    writes the rendered bytes over its start.
   */
  function SingleOutput<T>(g: SiteGenerator, e: Engine<T>, fs: Fs, tpl: T, out: Path, locals: map<string, Value>): (r: Run)
    ensures e.render(tpl, PageData(g.globals, locals)).None? ==> r == Run(Fail(CouldNotRenderFile(out)), fs)
    ensures e.render(tpl, PageData(g.globals, locals)).Some? && !CanOpenForWrite(fs, out) ==> r == Run(Fail(DestCreationError(out)), fs)
    ensures r.outcome.Pass? <==> e.render(tpl, PageData(g.globals, locals)).Some? && CanOpenForWrite(fs, out)
    ensures r.outcome.Pass? ==> out in r.fs.files && r.fs.files[out] == Overlay(Contents(fs, out), e.render(tpl, PageData(g.globals, locals)).value)
    ensures r.outcome.Pass? ==> forall q :: q != out ==> Contents(r.fs, q) == Contents(fs, q) && (q in r.fs.files <==> q in fs.files)
    ensures r.fs.dirs == fs.dirs && r.fs.denied == fs.denied && fs.files.Keys <= r.fs.files.Keys
    ensures Valid(fs) ==> Valid(r.fs)
  {
    match e.render(tpl, PageData(g.globals, locals))
    case None => Run(Fail(CouldNotRenderFile(out)), fs)
    case Some(bytes) =>
      match WriteInPlace(fs, out, bytes)
      case None => Run(Fail(DestCreationError(out)), fs)
      case Some(fs1) => Run(Pass, fs1)
  }

  /** The file written for the collection item whose id is `id`: `<id>.html` in directory `dir`. */
  function ItemPath(dir: Path, id: string): (p: Path)
    ensures |p| == |dir| + 1 && p[..|dir|] == dir
  {
    dir + [id + HtmlSuffix]
  }

  /** Distinct ids name distinct files, and equal ids the same file. */
  lemma ItemPathInjective(dir: Path, id1: string, id2: string)
    ensures ItemPath(dir, id1) == ItemPath(dir, id2) <==> id1 == id2
  {
    if ItemPath(dir, id1) == ItemPath(dir, id2) {
      assert id1 + HtmlSuffix == id2 + HtmlSuffix by {
        assert ItemPath(dir, id1)[|dir|] == ItemPath(dir, id2)[|dir|];
      }
      assert id1 == (id1 + HtmlSuffix)[..|id1|];
      assert id2 == (id2 + HtmlSuffix)[..|id2|];
    }
  }

  /** The locals of the item at position `i`: its index as the engine's unsigned 32-bit `current_index`. */
  function IndexLocals(i: nat): (locals: map<string, Value>)
    ensures locals.Keys == {"current_index"}
    ensures locals["current_index"].Int? && 0 <= locals["current_index"].i < 0x1_0000_0000
    ensures i < 0x1_0000_0000 ==> locals["current_index"] == Int(i)
  {
    map["current_index" := Int(i % 0x1_0000_0000)]
  }

  /** The render context of the item at position `i`. */
  function ItemContext(g: SiteGenerator, i: nat): Value
  {
    PageData(g.globals, IndexLocals(i))
  }

  /** The files that items `i..` with a readable id would write. */
  function PathsFrom(dir: Path, key: string, items: seq<Value>, i: nat): (ps: set<Path>)
    requires i <= |items|
    ensures forall j :: i <= j < |items| && GetIdString(items[j], key).Ok? ==> ItemPath(dir, GetIdString(items[j], key).value) in ps
    decreases |items| - i
  {
    if i == |items| then {}
    else
      (match GetIdString(items[i], key)
       case Ok(id) => {ItemPath(dir, id)}
       case Err(_) => {}) + PathsFrom(dir, key, items, i + 1)
  }

  /** Every path in `PathsFrom` is written by some item. */
  lemma {:induction false} PathsFromExact(dir: Path, key: string, items: seq<Value>, i: nat, p: Path)
    requires i <= |items| && p in PathsFrom(dir, key, items, i)
    ensures exists j :: i <= j < |items| && GetIdString(items[j], key).Ok? && p == ItemPath(dir, GetIdString(items[j], key).value)
    decreases |items| - i
  {
    if GetIdString(items[i], key).Ok? && p == ItemPath(dir, GetIdString(items[i], key).value) {
    } else {
      PathsFromExact(dir, key, items, i + 1, p);
    }
  }

  /**
    The loop of `create_collection_output` from item `i` on, in list order:
    read the item's id, render it with its index, and write `<id>.html`.
    The first failure stops it; files already written stay.
   */
  function ExpandItems<T>(g: SiteGenerator, e: Engine<T>, fs: Fs, tpl: T, dir: Path, key: string, items: seq<Value>, i: nat): (r: Run)
    requires i <= |items|
    ensures r.fs.dirs == fs.dirs && r.fs.denied == fs.denied && fs.files.Keys <= r.fs.files.Keys
    ensures Valid(fs) ==> Valid(r.fs)
    ensures r.outcome.Pass? ==> forall j :: i <= j < |items| ==>
      && GetIdString(items[j], key).Ok?
      && e.render(tpl, ItemContext(g, j)).Some?
      && ItemPath(dir, GetIdString(items[j], key).value) in r.fs.files
    ensures forall q :: q !in PathsFrom(dir, key, items, i) ==> Contents(r.fs, q) == Contents(fs, q) && (q in r.fs.files <==> q in fs.files)
    decreases |items| - i
  {
    if i == |items| then Run(Pass, fs)
    else
      match GetIdString(items[i], key)
      case Err(err) => Run(Fail(err), fs)
      case Ok(id) =>
        var r1 := SingleOutput(g, e, fs, tpl, ItemPath(dir, id), IndexLocals(i));
        if r1.outcome.Fail? then r1 else ExpandItems(g, e, r1.fs, tpl, dir, key, items, i + 1)
  }

  /**
    `create_collection_output`: the key must name a list in the globals;
    its items are written next to the template's destination.
   */
  function CollectionOutput<T>(g: SiteGenerator, e: Engine<T>, fs: Fs, tpl: T, out: Path, key: string): (r: Run)
    requires |out| > 0
    ensures key !in g.globals ==> r == Run(Fail(CollectionKeyNotFound(key)), fs)
    ensures key in g.globals && !g.globals[key].List? ==> r == Run(Fail(NoListAvailable(key)), fs)
    ensures key in g.globals && g.globals[key] == List([]) ==> r == Run(Pass, fs)
    ensures r.outcome.Pass? ==> key in g.globals && g.globals[key].List? && forall j :: 0 <= j < |g.globals[key].items| ==>
      && GetIdString(g.globals[key].items[j], key).Ok?
      && ItemPath(out[..|out| - 1], GetIdString(g.globals[key].items[j], key).value) in r.fs.files
    ensures r.fs.dirs == fs.dirs && r.fs.denied == fs.denied && fs.files.Keys <= r.fs.files.Keys
    ensures Valid(fs) ==> Valid(r.fs)
  {
    if key !in g.globals then Run(Fail(CollectionKeyNotFound(key)), fs)
    else
      match g.globals[key]
      case List(items) => ExpandItems(g, e, fs, tpl, out[..|out| - 1], key, items, 0)
      case _ => Run(Fail(NoListAvailable(key)), fs)
  }

  /** The single output of a template: the destination with `.liquid` replaced by `.html`. */
  function HtmlPath(out: Path): (p: Path)
    requires |out| > 0 && IsTemplateName(out[|out| - 1])
    ensures |p| == |out| && p[..|out| - 1] == out[..|out| - 1]
    ensures p[|out| - 1] == SplitAtDot(out[|out| - 1]).stem + HtmlSuffix
  {
    var name := out[|out| - 1];
    TemplateNameIffSuffix(name);
    out[..|out| - 1] + [name[..|name| - |TemplateSuffix|] + HtmlSuffix]
  }

  /**
    `transform_file`: the template is read and parsed before anything else,
    so a template that does not parse fails even when it names a
    collection. Then its stem decides between one output and one output per
    collection item.
   */
  function TransformFile<T>(g: SiteGenerator, e: Engine<T>, fs: Fs, input: Path, out: Path): (r: Run)
    requires |input| > 0 && |out| > 0 && out[|out| - 1] == input[|input| - 1] && IsTemplateName(input[|input| - 1])
    ensures ReadFile(fs, input).None? ==> r == Run(Fail(CouldNotParseTemplate(input)), fs)
    ensures ReadFile(fs, input).Some? && e.parse(fs.files[input]).None? ==> r == Run(Fail(CouldNotParseTemplate(input)), fs)
    ensures r.fs.dirs == fs.dirs && r.fs.denied == fs.denied && fs.files.Keys <= r.fs.files.Keys
    ensures Valid(fs) ==> Valid(r.fs)
  {
    match ReadFile(fs, input)
    case None => Run(Fail(CouldNotParseTemplate(input)), fs)
    case Some(text) =>
      match e.parse(text)
      case None => Run(Fail(CouldNotParseTemplate(input)), fs)
      case Some(tpl) =>
        match CollectionKey(FileStem(input).value)
        case Some(key) => CollectionOutput(g, e, fs, tpl, out, key)
        case None => SingleOutput(g, e, fs, tpl, HtmlPath(out), map[])
  }

  /**
    The walk as `WalkDir` yields it from the source root: the root itself
    can only be the first entry, and it is not a regular file when it is
    processed.
   */
  predicate RootFirst(g: SiteGenerator, fs: Fs, walk: seq<WalkEntry>)
  {
    && (forall k :: 0 < k < |walk| && walk[k].Visit? ==> walk[k].path != g.src)
    && (|walk| > 0 && walk[0] == Visit(g.src) ==> g.src !in fs.files)
  }

  /**
    One step of `generate`: a walk failure aborts; a path that is not a
    regular file is skipped; a regular file gets the mirrored destination,
    its directory is made, and it is rendered if it is a template and
    copied otherwise.
   */
  function ProcessEntry<T>(g: SiteGenerator, e: Engine<T>, fs: Fs, entry: WalkEntry): (r: Run)
    requires entry == Visit(g.src) ==> g.src !in fs.files
    ensures entry.WalkFailure? ==> r == Run(Fail(TraverseError), fs)
    ensures entry.Visit? && entry.path !in fs.files ==> r == Run(Pass, fs)
    ensures entry.Visit? && StripPrefix(entry.path, g.src).None? ==> r.outcome.Fail? || r == Run(Pass, fs)
    ensures Grows(fs, r.fs)
    ensures Valid(fs) ==> Valid(r.fs)
  {
    match entry
    case WalkFailure => Run(Fail(TraverseError), fs)
    case Visit(path) =>
      if path !in fs.files then Run(Pass, fs)
      else
        match StripPrefix(path, g.src)
        case None => Run(Fail(PassThrough("path is not below the source root")), fs)
        case Some(rel) =>
          var out := g.dest + rel;
          var made := CreateDirForPath(fs, out);
          if made.outcome.Fail? then made
          else if Extension(path) == Some(TemplateExtension) then
            TransformFile(g, e, made.fs, path, out)
          else
            match CopyFile(made.fs, path, out)
            case None => Run(Fail(DestCreationError(out)), made.fs)
            case Some(fs1) => Run(Pass, fs1)
  }

  /** `generate`: processes the walk in order and stops at the first failure. */
  function Generate<T>(g: SiteGenerator, e: Engine<T>, fs: Fs, walk: seq<WalkEntry>): (r: Run)
    requires RootFirst(g, fs, walk)
    ensures Grows(fs, r.fs)
    ensures Valid(fs) ==> Valid(r.fs)
    decreases |walk|
  {
    if |walk| == 0 then Run(Pass, fs)
    else
      var r1 := ProcessEntry(g, e, fs, walk[0]);
      if r1.outcome.Fail? then r1
      else
        assert RootFirst(g, r1.fs, walk[1..]) by {
          forall k | 0 <= k < |walk[1..]| && walk[1..][k].Visit?
            ensures walk[1..][k].path != g.src
          {
            assert walk[1..][k] == walk[k + 1];
          }
        }
        Generate(g, e, r1.fs, walk[1..])
  }
}
