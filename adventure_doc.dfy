/** The `AdventureDoc` builder: each manifest entry becomes a `<section>` with
    a progress bar, the rendered and plugin-seasoned markdown, and a link to
    the next section; the sections are then served with the highlighting
    assets around them. */
module AdventureDoc {
  import opened Markup
  import opened Paths
  import opened Order

  datatype BuildError =
    /** `list.index` raising `ValueError`: the file is not in the manifest. */
    | NotInManifest(fileName: string)
    /** `open` raising `IOError` on a section file. */
    | SectionUnreadable(fileName: string)

  datatype Result<T> = Success(value: T) | Failure(error: BuildError)

  /** Markdown text to the top-level children of its parsed HTML. */
  type Renderer = string -> seq<Node>

  /** A plugin's `change_soup`: what it leaves as the soup's children. */
  type Transform = seq<Node> -> seq<Node>

  const HighlightJsCss: string :=
    "http://cdnjs.cloudflare.com/ajax/libs/highlight.js/9.2.0/styles/default.min.css"
  const HighlightJsJs: string :=
    "http://cdnjs.cloudflare.com/ajax/libs/highlight.js/9.2.0/highlight.min.js"
  const HighlightInit: string := "hljs.initHighlightingOnLoad();"

  /** The `<a href="#id" class="next">Next Section</a>` link. */
  function NextLink(id: string): Node {
    Anchor("#" + id, "next", "Next Section")
  }

  /** `manifest.index(name)`: the first position holding `name`. */
  function ManifestIndex(manifest: seq<string>, name: string): (r: Result<nat>)
    ensures r.Success? ==> r.value < |manifest|
  {
    if manifest == [] then Failure(NotInManifest(name))
    else if manifest[0] == name then Success(0)
    else
      match ManifestIndex(manifest[1..], name)
      case Failure(e) => Failure(e)
      case Success(i) => Success(i + 1)
  }

  /** `index` fails with `ValueError` exactly when the name is absent, and
      otherwise finds its first occurrence. */
  lemma {:induction false} ManifestIndexSpec(manifest: seq<string>, name: string)
    ensures ManifestIndex(manifest, name).Failure? <==> name !in manifest
    ensures ManifestIndex(manifest, name).Failure? ==>
              ManifestIndex(manifest, name).error == NotInManifest(name)
    ensures ManifestIndex(manifest, name).Success? ==>
              var i := ManifestIndex(manifest, name).value;
              manifest[i] == name && name !in manifest[..i]
  {
    if manifest != [] && manifest[0] != name {
      assert manifest == [manifest[0]] + manifest[1..];
      ManifestIndexSpec(manifest[1..], name);
      var r := ManifestIndex(manifest[1..], name);
      if r.Success? {
        assert manifest[..r.value + 1] == [manifest[0]] + manifest[1..][..r.value];
      }
    }
  }

  /** The plugins run one after the other on the same soup: plugin `k` sees
      what plugins `0..k-1` left. */
  function ApplyPlugins(plugins: seq<Transform>, nodes: seq<Node>): seq<Node>
    decreases |plugins|
  {
    if plugins == [] then nodes
    else plugins[|plugins| - 1](ApplyPlugins(plugins[..|plugins| - 1], nodes))
  }

  /** What `build_section` returns: the `<section>` for `fileName`. */
  function BuiltSection(contents: string, fileName: string, manifest: seq<string>,
                        render: Renderer, plugins: seq<Transform>): Result<Node>
  {
    match ManifestIndex(manifest, fileName)
    case Failure(e) => Failure(e)
    case Success(i) =>
      var next := if i + 1 < |manifest| then [NextLink(SectionId(manifest[i + 1]))] else [];
      Success(Section(SectionId(fileName),
                      [Progress(i + 1, |manifest|)] + ApplyPlugins(plugins, render(contents)) + next))
  }

  /** `build_section` fails with `ValueError` exactly for a name missing from
      the manifest, and otherwise gives a `<section>` whose id is the name's
      section id. */
  lemma BuiltSectionSpec(contents: string, fileName: string, manifest: seq<string>,
                         render: Renderer, plugins: seq<Transform>)
    ensures var r := BuiltSection(contents, fileName, manifest, render, plugins);
      (r.Failure? <==> fileName !in manifest) &&
      (r.Failure? ==> r.error == NotInManifest(fileName)) &&
      (r.Success? ==> r.value.Section? && r.value.id == SectionId(fileName))
  {
    ManifestIndexSpec(manifest, fileName);
  }

  /** The section built for manifest entry `k` from the file's `contents`. */
  function SectionAt(manifest: seq<string>, contents: string,
                     render: Renderer, plugins: seq<Transform>, k: nat): (r: Node)
    requires k < |manifest|
    ensures r.Section? && r.id == SectionId(manifest[k])
  {
    BuiltSectionSpec(contents, manifest[k], manifest, render, plugins);
    BuiltSection(contents, manifest[k], manifest, render, plugins).value
  }

  /** The contents of the first `n` manifest entries' files, or the error of
      the first entry whose file cannot be read. */
  function ReadAll(manifest: seq<string>, files: map<string, string>, n: nat): (r: Result<seq<string>>)
    requires n <= |manifest|
    ensures r.Success? ==> |r.value| == n
  {
    if n == 0 then Success([])
    else
      match ReadAll(manifest, files, n - 1)
      case Failure(e) => Failure(e)
      case Success(done) =>
        if manifest[n - 1] !in files then Failure(SectionUnreadable(manifest[n - 1]))
        else Success(done + [files[manifest[n - 1]]])
  }

  /** One section per entry read so far, entry `k` built from `contents[k]`. */
  function BuildAll(manifest: seq<string>, contents: seq<string>,
                    render: Renderer, plugins: seq<Transform>): seq<Node>
    requires |contents| <= |manifest|
  {
    if contents == [] then []
    else
      var n := |contents| - 1;
      BuildAll(manifest, contents[..n], render, plugins) + [SectionAt(manifest, contents[n], render, plugins, n)]
  }

  /** `put_in_nice_bowl`: the highlighting script, its stylesheet and the custom
      stylesheet ahead of the body, the highlighting initialiser after it. */
  function Finished(stylesheet: string, body: seq<Node>): (doc: seq<Node>)
    ensures |doc| == |body| + 4
    ensures doc[0] == ExternalScript(HighlightJsJs)
    ensures doc[1] == Link("stylesheet", HighlightJsCss)
    ensures doc[2] == Style(stylesheet)
    ensures doc[3..|doc| - 1] == body
    ensures doc[|doc| - 1] == InlineScript(HighlightInit)
  {
    var doc := [ExternalScript(HighlightJsJs), Link("stylesheet", HighlightJsCss), Style(stylesheet)]
               + body + [InlineScript(HighlightInit)];
    assert doc[3..|doc| - 1] == body;
    doc
  }

  /** What `from_directory` builds from the ORDER text, the section files
      (keyed by their manifest entry) and the stylesheet text. */
  function Document(order: string, files: map<string, string>, stylesheet: string,
                    render: Renderer, plugins: seq<Transform>): Result<seq<Node>>
  {
    var manifest := GetOrder(order);
    match ReadAll(manifest, files, |manifest|)
    case Failure(e) => Failure(e)
    case Success(contents) => Success(Finished(stylesheet, BuildAll(manifest, contents, render, plugins)))
  }

  /** `prepend_progress_bar`: a `<progress>` element becomes the first child. */
  method PrependProgressBar(soup: Soup, actualValue: int, maximumValue: int)
    modifies soup
    ensures soup.nodes == [Progress(actualValue, maximumValue)] + old(soup.nodes)
  {
    var progress := Progress(actualValue, maximumValue);
    soup.Insert(0, progress);
  }

  /** `add_special_seasoning`: every plugin, in order, changes the same soup. */
  method AddSpecialSeasoning(soup: Soup, plugins: seq<Transform>)
    modifies soup
    ensures soup.nodes == ApplyPlugins(plugins, old(soup.nodes))
  {
    for i := 0 to |plugins|
      invariant soup.nodes == ApplyPlugins(plugins[..i], old(soup.nodes))
    {
      assert plugins[..i + 1][..i] == plugins[..i];
      soup.nodes := plugins[i](soup.nodes);
    }
    assert plugins[..|plugins|] == plugins;
  }

  /** `put_in_nice_bowl`, given the text of the stylesheet. */
  method PutInNiceBowl(soup: Soup, stylesheet: string)
    modifies soup
    ensures soup.nodes == Finished(stylesheet, old(soup.nodes))
  {
    soup.Insert(0, Style(stylesheet));
    soup.Insert(0, Link("stylesheet", HighlightJsCss));
    soup.Insert(0, ExternalScript(HighlightJsJs));
    soup.Append(InlineScript(HighlightInit));
  }

  /** `build_section`. */
  method BuildSection(contents: string, fileName: string, manifest: seq<string>,
                      render: Renderer, plugins: seq<Transform>) returns (r: Result<Node>)
    ensures r == BuiltSection(contents, fileName, manifest, render, plugins)
  {
    var total := |manifest|;
    var index := ManifestIndex(manifest, fileName);
    ManifestIndexSpec(manifest, fileName);
    if index.Failure? {
      return Failure(index.error);
    }
    var i := index.value;
    var soup := new Soup(render(contents));
    AddSpecialSeasoning(soup, plugins);
    PrependProgressBar(soup, i + 1, total);
    var next: seq<Node> := [];
    if i + 1 < |manifest| {
      var sectionName := SectionId(manifest[i + 1]);
      soup.Append(NextLink(sectionName));
      next := [NextLink(sectionName)];
    }
    assert soup.nodes == [Progress(i + 1, total)] + ApplyPlugins(plugins, render(contents)) + next;
    return Success(Section(SectionId(fileName), soup.nodes));
  }

  /** `from_directory`, with the ORDER text, the section files and the
      stylesheet text given instead of read. */
  method FromDirectory(order: string, files: map<string, string>, stylesheet: string,
                       render: Renderer, plugins: seq<Transform>) returns (r: Result<seq<Node>>)
    ensures r == Document(order, files, stylesheet, render, plugins)
  {
    var manifest := GetOrder(order);
    var allSections := new Soup([]);
    ghost var contents: seq<string> := [];
    for i := 0 to |manifest|
      invariant ReadAll(manifest, files, i) == Success(contents)
      invariant |contents| == i
      invariant allSections.nodes == BuildAll(manifest, contents, render, plugins)
    {
      var fileName := manifest[i];
      if fileName !in files {
        FailureSticks(manifest, files, i + 1, |manifest|);
        return Failure(SectionUnreadable(fileName));
      }
      var section := BuildSection(files[fileName], fileName, manifest, render, plugins);
      BuildAllStep(manifest, files, render, plugins, contents, section);
      allSections.Append(section.value);
      contents := contents + [files[fileName]];
    }
    PutInNiceBowl(allSections, stylesheet);
    return Success(allSections.nodes);
  }

  /** Once an entry's file cannot be read, every longer prefix fails with that
      entry's error. */
  lemma {:induction false} FailureSticks(manifest: seq<string>, files: map<string, string>, n: nat, m: nat)
    requires n <= m <= |manifest|
    requires ReadAll(manifest, files, n).Failure?
    ensures ReadAll(manifest, files, m) == ReadAll(manifest, files, n)
    decreases m
  {
    if m > n {
      FailureSticks(manifest, files, n, m - 1);
    }
  }

  /** Reading and building one more readable entry extends both by one. */
  lemma BuildAllStep(manifest: seq<string>, files: map<string, string>,
                     render: Renderer, plugins: seq<Transform>,
                     contents: seq<string>, section: Result<Node>)
    requires |contents| < |manifest| && manifest[|contents|] in files
    requires ReadAll(manifest, files, |contents|) == Success(contents)
    requires section == BuiltSection(files[manifest[|contents|]], manifest[|contents|], manifest, render, plugins)
    ensures section.Success?
    ensures ReadAll(manifest, files, |contents| + 1) == Success(contents + [files[manifest[|contents|]]])
    ensures BuildAll(manifest, contents + [files[manifest[|contents|]]], render, plugins)
            == BuildAll(manifest, contents, render, plugins) + [section.value]
  {
    BuiltSectionSpec(files[manifest[|contents|]], manifest[|contents|], manifest, render, plugins);
    var next := contents + [files[manifest[|contents|]]];
    assert next[..|contents|] == contents;
  }
}
