/**
  Properties of the generator that relate several steps: how `generate`
  composes over the walk, where each kind of file ends up, and what a
  collection expansion leaves behind when it succeeds or stops early.
 */
module SiteProperties {
  import opened Results
  import opened Paths
  import opened Json
  import opened Errors
  import opened FileSystem
  import opened Helpers
  import opened Site

  /** Splitting a walk: the first part is a walk from `fs`, and the second a walk from wherever the first left the filesystem. */
  lemma RootFirstSplit(g: SiteGenerator, fs: Fs, fs': Fs, w1: seq<WalkEntry>, w2: seq<WalkEntry>)
    requires RootFirst(g, fs, w1 + w2)
    requires |w1| == 0 ==> fs' == fs
    ensures RootFirst(g, fs, w1) && RootFirst(g, fs', w2)
  {
    if |w1| > 0 {
      assert (w1 + w2)[0] == w1[0];
    } else {
      assert w1 + w2 == w2;
    }
    forall k | 0 < k < |w1| && w1[k].Visit?
      ensures w1[k].path != g.src
    {
      assert (w1 + w2)[k] == w1[k];
    }
    forall k | 0 <= k < |w2| && 0 < |w1| + k && w2[k].Visit?
      ensures w2[k].path != g.src
    {
      assert (w1 + w2)[|w1| + k] == w2[k];
    }
  }

  /** Generating over two walks in a row is generating over the first and, if it succeeded, continuing with the second from where it left the filesystem. */
  lemma {:induction false} GenerateAppend<T>(g: SiteGenerator, e: Engine<T>, fs: Fs, w1: seq<WalkEntry>, w2: seq<WalkEntry>)
    requires RootFirst(g, fs, w1 + w2)
    ensures RootFirst(g, fs, w1) && RootFirst(g, Generate(g, e, fs, w1).fs, w2)
    ensures Generate(g, e, fs, w1 + w2) ==
      (var r1 := Generate(g, e, fs, w1); if r1.outcome.Fail? then r1 else Generate(g, e, r1.fs, w2))
    decreases |w1|
  {
    RootFirstSplit(g, fs, fs, w1, w2);
    if |w1| == 0 {
      assert w1 + w2 == w2;
    } else {
      RootFirstSplit(g, fs, Generate(g, e, fs, w1).fs, w1, w2);
      assert (w1 + w2)[0] == w1[0];
      assert (w1 + w2)[1..] == w1[1..] + w2;
      var r0 := ProcessEntry(g, e, fs, w1[0]);
      if r0.outcome.Pass? {
        assert RootFirst(g, r0.fs, w1[1..] + w2) by {
          forall k | 0 <= k < |w1[1..] + w2| && (w1[1..] + w2)[k].Visit?
            ensures (w1[1..] + w2)[k].path != g.src
          {
            assert (w1[1..] + w2)[k] == (w1 + w2)[k + 1];
          }
        }
        GenerateAppend(g, e, r0.fs, w1[1..], w2);
      }
    }
  }

  /**
    A walk failure ends the run with `TraverseError` unless an earlier entry
    already failed, and no entry after it is processed.
   */
  lemma WalkFailureStopsGeneration<T>(g: SiteGenerator, e: Engine<T>, fs: Fs, w1: seq<WalkEntry>, w2: seq<WalkEntry>)
    requires RootFirst(g, fs, w1 + [WalkFailure] + w2)
    ensures RootFirst(g, fs, w1)
    ensures var r := Generate(g, e, fs, w1 + [WalkFailure] + w2);
            var r1 := Generate(g, e, fs, w1);
            && (r1.outcome.Fail? ==> r == r1)
            && (r1.outcome.Pass? ==> r == Run(Fail(TraverseError), r1.fs))
  {
    assert w1 + [WalkFailure] + w2 == w1 + ([WalkFailure] + w2);
    GenerateAppend(g, e, fs, w1, [WalkFailure] + w2);
  }

  /** A run over a longer walk keeps every file the shorter walk wrote. */
  lemma GenerateKeepsEarlierWrites<T>(g: SiteGenerator, e: Engine<T>, fs: Fs, w1: seq<WalkEntry>, w2: seq<WalkEntry>)
    requires RootFirst(g, fs, w1 + w2)
    ensures RootFirst(g, fs, w1)
    ensures Generate(g, e, fs, w1).fs.files.Keys <= Generate(g, e, fs, w1 + w2).fs.files.Keys
  {
    GenerateAppend(g, e, fs, w1, w2);
  }

  /**
    A file that is not a template is copied byte for byte to the same
    relative place under the destination root; a failure names either that
    destination or the directory that could not be made for it. When the
    destination's directory exists and the copy is permitted, it succeeds.
   */
  lemma CopiedVerbatim<T>(g: SiteGenerator, e: Engine<T>, fs: Fs, rel: Path)
    requires |rel| > 0 && g.src + rel in fs.files
    requires !IsTemplateName(rel[|rel| - 1])
    requires g.dest + rel != g.src + rel
    ensures g.src + rel != g.src
    ensures var out := g.dest + rel;
            var r := ProcessEntry(g, e, fs, Visit(g.src + rel));
            && (r.outcome.Pass? ==> out in r.fs.files && r.fs.files[out] == fs.files[g.src + rel])
            && (r.outcome.Fail? ==> r.outcome.error == DestCreationError(out[..|out| - 1]) || r.outcome.error == DestCreationError(out))
            && (r.outcome.Pass? ==> forall q :: q != out ==> Contents(r.fs, q) == Contents(fs, q))
            && (ReadFile(fs, g.src + rel).Some? && CanOpenForWrite(fs, out) ==> r.outcome.Pass?)
  {
    var path := g.src + rel;
    var out := g.dest + rel;
    assert |path| > |g.src|;
    StripPrefixOfJoin(g.src, rel);
    assert path[|path| - 1] == rel[|rel| - 1];
    assert StripPrefix(path, g.src) == Some(rel);
    assert Extension(path) != Some(TemplateExtension);
    var made := CreateDirForPath(fs, out);
    assert made.fs.files == fs.files && made.fs.denied == fs.denied;
    if made.outcome.Pass? {
      assert ProcessEntry(g, e, fs, Visit(path)) ==
        (match CopyFile(made.fs, path, out)
         case None => Run(Fail(DestCreationError(out)), made.fs)
         case Some(fs1) => Run(Pass, fs1));
    }
  }

  /** A template reached by the walk gets its directory made and is then transformed into its mirrored destination. */
  lemma TemplateEntryUnfolds<T>(g: SiteGenerator, e: Engine<T>, fs: Fs, rel: Path)
    requires |rel| > 0 && g.src + rel in fs.files
    requires IsTemplateName(rel[|rel| - 1])
    ensures g.src + rel != g.src
    ensures (g.dest + rel)[|g.dest + rel| - 1] == (g.src + rel)[|g.src + rel| - 1] == rel[|rel| - 1]
    ensures var made := CreateDirForPath(fs, g.dest + rel);
            && made.fs.files == fs.files
            && ProcessEntry(g, e, fs, Visit(g.src + rel)) ==
                 if made.outcome.Fail? then made else TransformFile(g, e, made.fs, g.src + rel, g.dest + rel)
  {
    var path := g.src + rel;
    var out := g.dest + rel;
    assert |path| > |g.src|;
    StripPrefixOfJoin(g.src, rel);
    assert path[|path| - 1] == rel[|rel| - 1] == out[|out| - 1];
    assert StripPrefix(path, g.src) == Some(rel);
    assert Extension(path) == Some(TemplateExtension);
  }

  /**
    A template whose stem does not name a collection is, once its directory
    is made and it parses, rendered once with empty locals into the mirrored
    destination with `.liquid` replaced by `.html`.
   */
  lemma SingleTemplateDispatch<T>(g: SiteGenerator, e: Engine<T>, fs: Fs, rel: Path)
    requires |rel| > 0 && g.src + rel in fs.files
    requires IsTemplateName(rel[|rel| - 1])
    requires CollectionKey(SplitAtDot(rel[|rel| - 1]).stem).None?
    ensures g.src + rel != g.src
    ensures var r := ProcessEntry(g, e, fs, Visit(g.src + rel));
            var made := CreateDirForPath(fs, g.dest + rel);
            var html := g.dest + rel[..|rel| - 1] + [SplitAtDot(rel[|rel| - 1]).stem + HtmlSuffix];
            && (r.outcome.Pass? ==> made.outcome.Pass? && ReadFile(fs, g.src + rel).Some? && e.parse(fs.files[g.src + rel]).Some?)
            && (made.outcome.Pass? && ReadFile(fs, g.src + rel).Some? && e.parse(fs.files[g.src + rel]).Some? ==>
                  r == SingleOutput(g, e, made.fs, e.parse(fs.files[g.src + rel]).value, html, map[]))
  {
    TemplateEntryUnfolds(g, e, fs, rel);
    var path := g.src + rel;
    var out := g.dest + rel;
    assert out[..|out| - 1] == g.dest + rel[..|rel| - 1];
    var html := g.dest + rel[..|rel| - 1] + [SplitAtDot(rel[|rel| - 1]).stem + HtmlSuffix];
    assert HtmlPath(out) == html;
    assert CollectionKey(FileStem(path).value).None?;
  }

  /**
    What a single template leaves: a render failure is `CouldNotRenderFile`
    naming the `.html` output and changes no file; on success the rendering
    is laid over the output's old content and no other file changes.
   */
  lemma SingleTemplateOutput<T>(g: SiteGenerator, e: Engine<T>, fs: Fs, rel: Path)
    requires |rel| > 0 && g.src + rel in fs.files
    requires IsTemplateName(rel[|rel| - 1])
    requires CollectionKey(SplitAtDot(rel[|rel| - 1]).stem).None?
    ensures g.src + rel != g.src
    ensures var html := g.dest + rel[..|rel| - 1] + [SplitAtDot(rel[|rel| - 1]).stem + HtmlSuffix];
            var r := ProcessEntry(g, e, fs, Visit(g.src + rel));
            && (CreateDirForPath(fs, g.dest + rel).outcome.Pass? && ReadFile(fs, g.src + rel).Some? && e.parse(fs.files[g.src + rel]).Some? &&
                e.render(e.parse(fs.files[g.src + rel]).value, PageData(g.globals, map[])).None? ==>
                  r.outcome == Fail(CouldNotRenderFile(html)) && r.fs.files == fs.files)
            && (r.outcome.Pass? ==>
              && e.parse(fs.files[g.src + rel]).Some?
              && var b := e.render(e.parse(fs.files[g.src + rel]).value, PageData(g.globals, map[]));
              && b.Some?
              && html in r.fs.files && r.fs.files[html] == Overlay(Contents(fs, html), b.value)
              && forall q :: q != html ==> Contents(r.fs, q) == Contents(fs, q))
  {
    SingleTemplateDispatch(g, e, fs, rel);
    var path := g.src + rel;
    var made := CreateDirForPath(fs, g.dest + rel);
    assert made.fs.files == fs.files;
  }

  /**
    A template that does not parse always fails: with `CouldNotParseTemplate`
    naming the template once its directory is made, before its name is
    looked at, and in every case without writing a file.
   */
  lemma UnparsableTemplateWritesNothing<T>(g: SiteGenerator, e: Engine<T>, fs: Fs, rel: Path)
    requires |rel| > 0 && g.src + rel in fs.files
    requires IsTemplateName(rel[|rel| - 1])
    requires ReadFile(fs, g.src + rel).Some? && e.parse(fs.files[g.src + rel]).None?
    ensures g.src + rel != g.src
    ensures var r := ProcessEntry(g, e, fs, Visit(g.src + rel));
            && r.fs.files == fs.files
            && r.outcome.Fail?
            && r.outcome.error in {CouldNotParseTemplate(g.src + rel), DestCreationError((g.dest + rel)[..|g.dest + rel| - 1])}
            && (CreateDirForPath(fs, g.dest + rel).outcome.Pass? ==> r.outcome.error == CouldNotParseTemplate(g.src + rel))
  {
    TemplateEntryUnfolds(g, e, fs, rel);
  }

  /** Item `j` has an id, renders, and its file is present in `fs`. */
  predicate ItemWritten<T>(g: SiteGenerator, e: Engine<T>, fs: Fs, tpl: T, dir: Path, key: string, items: seq<Value>, j: nat)
    requires j < |items|
  {
    && GetIdString(items[j], key).Ok?
    && e.render(tpl, ItemContext(g, j)).Some?
    && ItemPath(dir, GetIdString(items[j], key).value) in fs.files
  }

  /**
    `err` is what item `k` fails with in `fs`: its id, its render, or its
    file, which cannot be opened for writing.
   */
  predicate ItemFailure<T>(g: SiteGenerator, e: Engine<T>, fs: Fs, tpl: T, dir: Path, key: string, items: seq<Value>, k: nat, err: PacdError)
    requires k < |items|
  {
    var id := GetIdString(items[k], key);
    || (id.Err? && err == id.error)
    || (id.Ok? && e.render(tpl, ItemContext(g, k)).None? && err == CouldNotRenderFile(ItemPath(dir, id.value)))
    || (id.Ok? && e.render(tpl, ItemContext(g, k)).Some? && !CanOpenForWrite(fs, ItemPath(dir, id.value)) &&
        err == DestCreationError(ItemPath(dir, id.value)))
  }

  /** `q` is the file item `j` writes. */
  predicate WrittenBy(dir: Path, key: string, items: seq<Value>, j: nat, q: Path)
    requires j < |items|
  {
    GetIdString(items[j], key).Ok? && q == ItemPath(dir, GetIdString(items[j], key).value)
  }

  /** The position of the item at which a failed expansion from `i` stopped. */
  function FailingItem<T>(g: SiteGenerator, e: Engine<T>, fs: Fs, tpl: T, dir: Path, key: string, items: seq<Value>, i: nat): (k: nat)
    requires i <= |items| && ExpandItems(g, e, fs, tpl, dir, key, items, i).outcome.Fail?
    ensures i <= k < |items|
    decreases |items| - i
  {
    match GetIdString(items[i], key)
    case Err(_) => i
    case Ok(id) =>
      var r1 := SingleOutput(g, e, fs, tpl, ItemPath(dir, id), IndexLocals(i));
      if r1.outcome.Fail? then i else FailingItem(g, e, r1.fs, tpl, dir, key, items, i + 1)
  }

  /** Every item before the one at which an expansion stopped was rendered and written, and its file is still there. */
  lemma {:induction false} ItemsBeforeFailureWritten<T>(g: SiteGenerator, e: Engine<T>, fs: Fs, tpl: T, dir: Path, key: string, items: seq<Value>, i: nat, j: nat)
    requires i <= |items| && ExpandItems(g, e, fs, tpl, dir, key, items, i).outcome.Fail?
    requires i <= j < FailingItem(g, e, fs, tpl, dir, key, items, i)
    ensures ItemWritten(g, e, ExpandItems(g, e, fs, tpl, dir, key, items, i).fs, tpl, dir, key, items, j)
    decreases |items| - i
  {
    var id := GetIdString(items[i], key).value;
    var r1 := SingleOutput(g, e, fs, tpl, ItemPath(dir, id), IndexLocals(i));
    if j > i {
      ItemsBeforeFailureWritten(g, e, r1.fs, tpl, dir, key, items, i + 1, j);
    }
  }

  /** The error of a failed expansion is the failure of the item at which it stopped: its id, its render, or opening its file. */
  lemma {:induction false} ExpansionErrorIsItemFailure<T>(g: SiteGenerator, e: Engine<T>, fs: Fs, tpl: T, dir: Path, key: string, items: seq<Value>, i: nat)
    requires i <= |items| && ExpandItems(g, e, fs, tpl, dir, key, items, i).outcome.Fail?
    ensures ItemFailure(g, e, fs, tpl, dir, key, items, FailingItem(g, e, fs, tpl, dir, key, items, i), ExpandItems(g, e, fs, tpl, dir, key, items, i).outcome.error)
    decreases |items| - i
  {
    var id := GetIdString(items[i], key);
    if id.Ok? {
      var r1 := SingleOutput(g, e, fs, tpl, ItemPath(dir, id.value), IndexLocals(i));
      if r1.outcome.Pass? {
        ExpansionErrorIsItemFailure(g, e, r1.fs, tpl, dir, key, items, i + 1);
      }
    }
  }

  /** Each item from `i` on has an id, renders, and has a file that can be opened for writing. */
  predicate ItemsCanBeWritten<T>(g: SiteGenerator, e: Engine<T>, fs: Fs, tpl: T, dir: Path, key: string, items: seq<Value>, i: nat)
    requires i <= |items|
  {
    forall j :: i <= j < |items| ==>
      && GetIdString(items[j], key).Ok?
      && e.render(tpl, ItemContext(g, j)).Some?
      && CanOpenForWrite(fs, ItemPath(dir, GetIdString(items[j], key).value))
  }

  /**
    The converse of the success case of `ExpandItems`: when every remaining
    item has an id, renders, and has a file that can be opened, the
    expansion succeeds. Writing one item's file does not change which files
    can be opened, so the later items stay writable.
   */
  lemma {:induction false} ExpandItemsSucceeds<T>(g: SiteGenerator, e: Engine<T>, fs: Fs, tpl: T, dir: Path, key: string, items: seq<Value>, i: nat)
    requires i <= |items| && ItemsCanBeWritten(g, e, fs, tpl, dir, key, items, i)
    ensures ExpandItems(g, e, fs, tpl, dir, key, items, i).outcome.Pass?
    decreases |items| - i
  {
    if i < |items| {
      var id := GetIdString(items[i], key).value;
      var r1 := SingleOutput(g, e, fs, tpl, ItemPath(dir, id), IndexLocals(i));
      assert r1.outcome.Pass?;
      assert ItemsCanBeWritten(g, e, r1.fs, tpl, dir, key, items, i + 1) by {
        forall j | i + 1 <= j < |items|
          ensures CanOpenForWrite(r1.fs, ItemPath(dir, GetIdString(items[j], key).value))
        {
          assert CanOpenForWrite(fs, ItemPath(dir, GetIdString(items[j], key).value));
        }
      }
      ExpandItemsSucceeds(g, e, r1.fs, tpl, dir, key, items, i + 1);
    }
  }

  /** A collection whose key names a list of items that all have ids, render, and have openable files is written successfully. */
  lemma CollectionOutputSucceeds<T>(g: SiteGenerator, e: Engine<T>, fs: Fs, tpl: T, out: Path, key: string)
    requires |out| > 0 && key in g.globals && g.globals[key].List?
    requires ItemsCanBeWritten(g, e, fs, tpl, out[..|out| - 1], key, g.globals[key].items, 0)
    ensures CollectionOutput(g, e, fs, tpl, out, key).outcome.Pass?
  {
    ExpandItemsSucceeds(g, e, fs, tpl, out[..|out| - 1], key, g.globals[key].items, 0);
  }

  /** Items after the one at which an expansion stopped write nothing: every new file belongs to an item up to it. */
  lemma {:induction false} NothingWrittenAfterFailure<T>(g: SiteGenerator, e: Engine<T>, fs: Fs, tpl: T, dir: Path, key: string, items: seq<Value>, i: nat, q: Path)
    requires i <= |items| && ExpandItems(g, e, fs, tpl, dir, key, items, i).outcome.Fail?
    requires q in ExpandItems(g, e, fs, tpl, dir, key, items, i).fs.files && q !in fs.files
    ensures exists j :: i <= j <= FailingItem(g, e, fs, tpl, dir, key, items, i) && WrittenBy(dir, key, items, j, q)
    decreases |items| - i
  {
    var id := GetIdString(items[i], key).value;
    var p := ItemPath(dir, id);
    var r1 := SingleOutput(g, e, fs, tpl, p, IndexLocals(i));
    if q in r1.fs.files {
      assert WrittenBy(dir, key, items, i, q);
    } else {
      NothingWrittenAfterFailure(g, e, r1.fs, tpl, dir, key, items, i + 1, q);
    }
  }

  /** A path no item from `i` on writes is outside `PathsFrom`. */
  lemma NotWrittenLater(dir: Path, key: string, items: seq<Value>, i: nat, p: Path)
    requires i <= |items|
    requires forall k :: i <= k < |items| && GetIdString(items[k], key).Ok? ==> ItemPath(dir, GetIdString(items[k], key).value) != p
    ensures p !in PathsFrom(dir, key, items, i)
  {
    if p in PathsFrom(dir, key, items, i) {
      PathsFromExact(dir, key, items, i, p);
    }
  }

  /**
    Items are written in list order and a later item with the same id
    writes over an earlier one: after a successful expansion, the file of
    the last item carrying a given id starts with that item's rendering.
   */
  lemma {:induction false} LastWriterWins<T>(g: SiteGenerator, e: Engine<T>, fs: Fs, tpl: T, dir: Path, key: string, items: seq<Value>, i: nat, j: nat)
    requires i <= j < |items|
    requires ExpandItems(g, e, fs, tpl, dir, key, items, i).outcome.Pass?
    requires forall k :: j < k < |items| ==> GetIdString(items[k], key) != GetIdString(items[j], key)
    ensures var r := ExpandItems(g, e, fs, tpl, dir, key, items, i);
            var p := ItemPath(dir, GetIdString(items[j], key).value);
            p in r.fs.files && e.render(tpl, ItemContext(g, j)).value <= r.fs.files[p]
    decreases j - i
  {
    var r := ExpandItems(g, e, fs, tpl, dir, key, items, i);
    var id := GetIdString(items[i], key).value;
    var r1 := SingleOutput(g, e, fs, tpl, ItemPath(dir, id), IndexLocals(i));
    assert r == ExpandItems(g, e, r1.fs, tpl, dir, key, items, i + 1);
    if i < j {
      LastWriterWins(g, e, r1.fs, tpl, dir, key, items, i + 1, j);
    } else {
      var p := ItemPath(dir, id);
      forall k | i < k < |items| && GetIdString(items[k], key).Ok?
        ensures ItemPath(dir, GetIdString(items[k], key).value) != p
      {
        ItemPathInjective(dir, GetIdString(items[k], key).value, id);
      }
      NotWrittenLater(dir, key, items, i + 1, p);
      assert Contents(r.fs, p) == Contents(r1.fs, p);
    }
  }

  /**
    An item whose id no other item shares, written to a file that did not
    exist before, leaves exactly its rendering in that file.
   */
  lemma {:induction false} UniqueFreshItemIsExact<T>(g: SiteGenerator, e: Engine<T>, fs: Fs, tpl: T, dir: Path, key: string, items: seq<Value>, i: nat, j: nat)
    requires i <= j < |items|
    requires ExpandItems(g, e, fs, tpl, dir, key, items, i).outcome.Pass?
    requires forall k :: i <= k < |items| && k != j ==> GetIdString(items[k], key) != GetIdString(items[j], key)
    requires ItemPath(dir, GetIdString(items[j], key).value) !in fs.files
    ensures var r := ExpandItems(g, e, fs, tpl, dir, key, items, i);
            r.fs.files[ItemPath(dir, GetIdString(items[j], key).value)] == e.render(tpl, ItemContext(g, j)).value
    decreases j - i
  {
    var r := ExpandItems(g, e, fs, tpl, dir, key, items, i);
    var id := GetIdString(items[i], key).value;
    var pi := ItemPath(dir, id);
    var r1 := SingleOutput(g, e, fs, tpl, pi, IndexLocals(i));
    assert r == ExpandItems(g, e, r1.fs, tpl, dir, key, items, i + 1);
    var p := ItemPath(dir, GetIdString(items[j], key).value);
    if i < j {
      ItemPathInjective(dir, id, GetIdString(items[j], key).value);
      assert p !in r1.fs.files;
      UniqueFreshItemIsExact(g, e, r1.fs, tpl, dir, key, items, i + 1, j);
    } else {
      forall k | i < k < |items| && GetIdString(items[k], key).Ok?
        ensures ItemPath(dir, GetIdString(items[k], key).value) != p
      {
        ItemPathInjective(dir, GetIdString(items[k], key).value, id);
      }
      NotWrittenLater(dir, key, items, i + 1, p);
      assert Contents(r.fs, p) == Contents(r1.fs, p);
    }
  }

  /**
    A template whose stem names collection `key` is, once its directory is
    made and it parses, expanded next to its mirrored destination.
   */
  lemma CollectionTemplateDispatch<T>(g: SiteGenerator, e: Engine<T>, fs: Fs, rel: Path, key: string)
    requires |rel| > 0 && g.src + rel in fs.files
    requires IsTemplateName(rel[|rel| - 1])
    requires CollectionKey(SplitAtDot(rel[|rel| - 1]).stem) == Some(key)
    ensures g.src + rel != g.src
    ensures var r := ProcessEntry(g, e, fs, Visit(g.src + rel));
            var made := CreateDirForPath(fs, g.dest + rel);
            && (r.outcome.Pass? ==> made.outcome.Pass? && ReadFile(fs, g.src + rel).Some? && e.parse(fs.files[g.src + rel]).Some?)
            && (made.outcome.Pass? && ReadFile(fs, g.src + rel).Some? && e.parse(fs.files[g.src + rel]).Some? ==>
                  r == CollectionOutput(g, e, made.fs, e.parse(fs.files[g.src + rel]).value, g.dest + rel, key))
  {
    TemplateEntryUnfolds(g, e, fs, rel);
    assert CollectionKey(FileStem(g.src + rel).value) == Some(key);
  }

  /**
    The collection of the example site: posts `one` and `two` yield
    `one.html` and `two.html` beside the template's destination, and no
    other file.
   */
  lemma PostsCollection<T>(g: SiteGenerator, e: Engine<T>, fs: Fs, tpl: T, out: Path)
    requires |out| > 0
    requires g.globals == map["posts" := List([Object(map["id" := Str("one")]), Object(map["id" := Str("two")])])]
    ensures var r := CollectionOutput(g, e, fs, tpl, out, "posts");
            var dir := out[..|out| - 1];
            r.outcome.Pass? ==>
              && dir + ["one.html"] in r.fs.files
              && dir + ["two.html"] in r.fs.files
              && forall q :: q in r.fs.files && q !in fs.files ==> q == dir + ["one.html"] || q == dir + ["two.html"]
  {
    var dir := out[..|out| - 1];
    var items := g.globals["posts"].items;
    assert GetIdString(items[0], "posts") == Ok("one");
    assert GetIdString(items[1], "posts") == Ok("two");
    assert "one" + HtmlSuffix == "one.html";
    assert "two" + HtmlSuffix == "two.html";
    var r := CollectionOutput(g, e, fs, tpl, out, "posts");
    assert r == ExpandItems(g, e, fs, tpl, dir, "posts", items, 0);
    forall q | q in r.fs.files && q !in fs.files
      ensures q == dir + ["one.html"] || q == dir + ["two.html"]
    {
      if q != dir + ["one.html"] && q != dir + ["two.html"] {
        NotWrittenLater(dir, "posts", items, 0, q);
      }
    }
  }

  /**
    The collection scenario end to end: `[posts].liquid` at the source root
    yields `one.html` and `two.html` at the destination root and no other
    new file, in particular no `[posts].html`.
   */
  lemma PostsScenario<T>(g: SiteGenerator, e: Engine<T>, fs: Fs)
    requires g.globals == map["posts" := List([Object(map["id" := Str("one")]), Object(map["id" := Str("two")])])]
    requires g.src + ["[posts].liquid"] in fs.files
    ensures g.src + ["[posts].liquid"] != g.src
    ensures var r := ProcessEntry(g, e, fs, Visit(g.src + ["[posts].liquid"]));
            r.outcome.Pass? ==>
              && g.dest + ["one.html"] in r.fs.files
              && g.dest + ["two.html"] in r.fs.files
              && forall q :: q in r.fs.files && q !in fs.files ==> q == g.dest + ["one.html"] || q == g.dest + ["two.html"]
  {
    var name := "[posts].liquid";
    TemplateNameIffSuffix(name);
    assert name[|name| - 7..] == TemplateSuffix;
    assert SplitAtDot(name).stem == "[posts]";
    CollectionKeyComplete("posts");
    assert "[" + "posts" + "]" == "[posts]";
    CollectionTemplateDispatch(g, e, fs, [name], "posts");
    var r := ProcessEntry(g, e, fs, Visit(g.src + [name]));
    if r.outcome.Pass? {
      var out := g.dest + [name];
      var made := CreateDirForPath(fs, out);
      assert out[..|out| - 1] == g.dest;
      PostsCollection(g, e, made.fs, e.parse(fs.files[g.src + [name]]).value, out);
    }
  }
}
