/**
  Paths as sequences of components, with the file-name rules of Rust's
  `std::path`: the extension is the text after the last dot of the file
  name, provided that dot is not its first character, and the stem is
  what precedes that dot.
 */
module Paths {
  import opened Results

  /** A path is the sequence of its components, outermost first; the empty path is the filesystem root. */
  type Path = seq<string>

  /** A file name split into the halves `file_stem` and `extension` return. */
  datatype NameParts = NameParts(stem: string, ext: Option<string>)

  /** The extension that marks a template. */
  const TemplateExtension: string := "liquid"

  /** The suffix a template's file name ends with. */
  const TemplateSuffix: string := ".liquid"

  /** The extension given to rendered output. */
  const HtmlSuffix: string := ".html"

  /** The directory holding `p`; the root has none. */
  function Parent(p: Path): (r: Option<Path>)
    ensures r.None? <==> |p| == 0
    ensures r.Some? ==> r.value + [p[|p| - 1]] == p
  {
    if |p| == 0 then None else Some(p[..|p| - 1])
  }

  /** The last component of `p`; the root has none. */
  function FileName(p: Path): (r: Option<string>)
    ensures r.None? <==> |p| == 0
    ensures r.Some? ==> Parent(p).value + [r.value] == p
  {
    if |p| == 0 then None else Some(p[|p| - 1])
  }

  /** The position of the last `c` in `s`, or -1 when there is none. */
  function LastIndexOf(s: string, c: char): (r: int)
    ensures -1 <= r < |s|
    ensures r >= 0 ==> s[r] == c
    ensures forall j :: r < j < |s| ==> s[j] != c
  {
    if |s| == 0 then -1
    else if s[|s| - 1] == c then |s| - 1
    else LastIndexOf(s[..|s| - 1], c)
  }

  /** Rust's split of a file name at its last dot. A name whose only dot is its first character, and the name `..`, have no extension. */
  function SplitAtDot(name: string): (r: NameParts)
    ensures r.ext.None? <==> name == ".." || forall k :: 0 < k < |name| ==> name[k] != '.'
    ensures r.ext.None? ==> r.stem == name
    ensures r.ext.Some? ==> |r.stem| > 0 && r.stem + "." + r.ext.value == name && '.' !in r.ext.value
  {
    if name == ".." then NameParts(name, None)
    else
      var i := LastIndexOf(name, '.');
      if i <= 0 then NameParts(name, None)
      else
        assert name[..i] + "." + name[i + 1..] == name by {
          assert name == name[..i] + [name[i]] + name[i + 1..];
        }
        NameParts(name[..i], Some(name[i + 1..]))
  }

  /** `Path::extension`. */
  function Extension(p: Path): (r: Option<string>)
    ensures |p| == 0 ==> r.None?
    ensures r.Some? ==> SplitAtDot(p[|p| - 1]).ext == r
  {
    match FileName(p)
    case None => None
    case Some(name) => SplitAtDot(name).ext
  }

  /** `Path::file_stem`. */
  function FileStem(p: Path): (r: Option<string>)
    ensures r.None? <==> |p| == 0
    ensures r.Some? ==> |r.value| <= |p[|p| - 1]| && r.value == p[|p| - 1][..|r.value|]
  {
    match FileName(p)
    case None => None
    case Some(name) => Some(SplitAtDot(name).stem)
  }

  /** A file name whose extension marks it as a template. */
  predicate IsTemplateName(name: string)
  {
    SplitAtDot(name).ext == Some(TemplateExtension)
  }

  /** `Path::strip_prefix`: the rest of `p` below `base`, when `base` is a leading part of `p`. */
  function StripPrefix(p: Path, base: Path): (r: Option<Path>)
    ensures r.Some? <==> |base| <= |p| && p[..|base|] == base
    ensures r.Some? ==> base + r.value == p
  {
    if |base| <= |p| && p[..|base|] == base then
      assert base + p[|base|..] == p;
      Some(p[|base|..])
    else None
  }

  /** A file name is a template exactly when it ends in `.liquid` with something before the dot, and its stem is then the rest. */
  lemma {:induction false} TemplateNameIffSuffix(name: string)
    ensures IsTemplateName(name) <==> |name| > |TemplateSuffix| && name[|name| - |TemplateSuffix|..] == TemplateSuffix
    ensures IsTemplateName(name) ==> SplitAtDot(name).stem == name[..|name| - |TemplateSuffix|]
  {
    var n := |name|;
    if IsTemplateName(name) {
      var parts := SplitAtDot(name);
      assert parts.stem + "." + TemplateExtension == name;
      assert |parts.stem| == n - 7;
      assert name[n - 7..] == "." + TemplateExtension by {
        assert name[n - 7..] == (parts.stem + "." + TemplateExtension)[|parts.stem|..];
      }
      assert name[..n - 7] == parts.stem by {
        assert name[..n - 7] == (parts.stem + "." + TemplateExtension)[..|parts.stem|];
      }
    }
    if n > 7 && name[n - 7..] == TemplateSuffix {
      assert name != "..";
      assert name[n - 7] == '.' by { assert name[n - 7] == name[n - 7..][0]; }
      var i := LastIndexOf(name, '.');
      assert i >= n - 7;
      forall j | n - 7 < j < n
        ensures name[j] != '.'
      {
        assert name[j] == name[n - 7..][j - (n - 7)];
      }
      assert i == n - 7;
      assert name[i + 1..] == TemplateExtension by {
        assert name[i + 1..] == name[n - 7..][1..];
      }
    }
  }

  /** A hidden file called `.liquid` has no extension, so it is copied rather than rendered. */
  lemma HiddenDotLiquidIsNotTemplate()
    ensures !IsTemplateName(".liquid")
  {
    TemplateNameIffSuffix(".liquid");
  }

  /** `index.liquid` is a template with stem `index`. */
  lemma IndexLiquidIsTemplate()
    ensures IsTemplateName("index.liquid") && SplitAtDot("index.liquid").stem == "index"
  {
    TemplateNameIffSuffix("index.liquid");
    assert "index.liquid"[12 - 7..] == TemplateSuffix;
    assert "index.liquid"[..12 - 7] == "index";
  }

  /** Only the last extension counts: `archive.tar.gz` has extension `gz`. */
  lemma LastExtensionCounts()
    ensures SplitAtDot("archive.tar.gz") == NameParts("archive.tar", Some("gz"))
  {
    var t := "archive.tar.gz";
    assert t[12] != '.' && t[13] != '.';
    assert LastIndexOf(t, '.') == 11;
    assert t[..11] == "archive.tar";
    assert t[12..] == "gz";
  }

  /** Stripping a base path and joining it back are inverse. */
  lemma StripPrefixOfJoin(base: Path, rel: Path)
    ensures StripPrefix(base + rel, base) == Some(rel)
  {
    assert (base + rel)[..|base|] == base;
    assert (base + rel)[|base|..] == rel;
  }
}
