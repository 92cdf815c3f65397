/** What a reader of an AdventureDoc sees: the document-level guarantees of
    `from_directory` and the navigation woven into every section. */
module Navigation {
  import opened Markup
  import opened Paths
  import opened Order
  import opened AdventureDoc

  /** Running two batches of plugins is running their concatenation. */
  lemma {:induction false} ApplyPluginsConcat(first: seq<Transform>, second: seq<Transform>, nodes: seq<Node>)
    ensures ApplyPlugins(first + second, nodes) == ApplyPlugins(second, ApplyPlugins(first, nodes))
    decreases |second|
  {
    if second == [] {
      assert first + second == first;
    } else {
      var both := first + second;
      assert both[..|both| - 1] == first + second[..|second| - 1];
      assert both[|both| - 1] == second[|second| - 1];
      ApplyPluginsConcat(first, second[..|second| - 1], nodes);
    }
  }

  /** The first plugin sees the rendered content itself. */
  lemma FirstPluginFirst(plugin: Transform, rest: seq<Transform>, nodes: seq<Node>)
    ensures ApplyPlugins([plugin] + rest, nodes) == ApplyPlugins(rest, plugin(nodes))
  {
    ApplyPluginsConcat([plugin], rest, nodes);
    assert [plugin][..0] == [];
  }

  /** A section's children: the progress `(i + 1, |manifest|)` for the first
      position `i` holding its file name, the plugin-seasoned content, and a
      next link to the following entry exactly when there is one. */
  lemma SectionLayout(contents: string, fileName: string, manifest: seq<string>,
                      render: Renderer, plugins: seq<Transform>, i: nat)
    requires i < |manifest| && manifest[i] == fileName && fileName !in manifest[..i]
    ensures var r := BuiltSection(contents, fileName, manifest, render, plugins);
      var body := ApplyPlugins(plugins, render(contents));
      r.Success? && r.value.Section? && r.value.id == SectionId(fileName) &&
      r.value.children == [Progress(i + 1, |manifest|)] + body +
                          (if i + 1 < |manifest| then [NextLink(SectionId(manifest[i + 1]))] else [])
  {
    ManifestIndexSpec(manifest, fileName);
  }

  /** The next link is the one extra child beyond progress and content, and it
      is there exactly when a later entry exists; it points at that entry. */
  lemma NextLinkExactlyWithSuccessor(contents: string, fileName: string, manifest: seq<string>,
                                     render: Renderer, plugins: seq<Transform>, i: nat)
    requires i < |manifest| && manifest[i] == fileName && fileName !in manifest[..i]
    ensures var r := BuiltSection(contents, fileName, manifest, render, plugins);
      var body := ApplyPlugins(plugins, render(contents));
      r.Success? && r.value.Section? &&
      (|r.value.children| == |body| + 2 <==> i + 1 < |manifest|) &&
      (|r.value.children| == |body| + 1 <==> i + 1 == |manifest|) &&
      (i + 1 < |manifest| ==>
         r.value.children[|r.value.children| - 1] == Anchor("#" + SectionId(manifest[i + 1]), "next", "Next Section"))
  {
    SectionLayout(contents, fileName, manifest, render, plugins, i);
  }

  /** The last entry's section ends with its content: full progress, no link. */
  lemma LastSectionHasNoLink(contents: string, manifest: seq<string>,
                             render: Renderer, plugins: seq<Transform>)
    requires manifest != [] && manifest[|manifest| - 1] !in manifest[..|manifest| - 1]
    ensures var r := BuiltSection(contents, manifest[|manifest| - 1], manifest, render, plugins);
      r.Success? && r.value.Section? &&
      r.value.children == [Progress(|manifest|, |manifest|)] + ApplyPlugins(plugins, render(contents))
  {
    var body := ApplyPlugins(plugins, render(contents));
    SectionLayout(contents, manifest[|manifest| - 1], manifest, render, plugins, |manifest| - 1);
    assert [Progress(|manifest|, |manifest|)] + body + [] == [Progress(|manifest|, |manifest|)] + body;
  }

  /** A one-entry manifest gives progress 1/1 and no next link. */
  lemma OneEntryManifest(contents: string, fileName: string,
                         render: Renderer, plugins: seq<Transform>)
    ensures var r := BuiltSection(contents, fileName, [fileName], render, plugins);
      r.Success? && r.value.Section? && r.value.id == SectionId(fileName) &&
      r.value.children == [Progress(1, 1)] + ApplyPlugins(plugins, render(contents))
  {
    LastSectionHasNoLink(contents, [fileName], render, plugins);
  }

  /** A name missing from the manifest is `list.index`'s `ValueError`. */
  lemma MissingNameFails(contents: string, fileName: string, manifest: seq<string>,
                         render: Renderer, plugins: seq<Transform>)
    requires fileName !in manifest
    ensures BuiltSection(contents, fileName, manifest, render, plugins)
            == Failure(NotInManifest(fileName))
  {
    BuiltSectionSpec(contents, fileName, manifest, render, plugins);
  }

  /** The first `n` entries can be read exactly when each of their files exists. */
  lemma {:induction false} ReadAllSucceedsIff(manifest: seq<string>, files: map<string, string>, n: nat)
    requires n <= |manifest|
    ensures ReadAll(manifest, files, n).Success? <==> forall k :: 0 <= k < n ==> manifest[k] in files
  {
    if n > 0 {
      ReadAllSucceedsIff(manifest, files, n - 1);
    }
  }

  /** What is read is each entry's file, in manifest order. */
  lemma {:induction false} ReadAllContents(manifest: seq<string>, files: map<string, string>, n: nat)
    requires n <= |manifest|
    requires ReadAll(manifest, files, n).Success?
    ensures var contents := ReadAll(manifest, files, n).value;
      |contents| == n &&
      forall k :: 0 <= k < n ==> manifest[k] in files && contents[k] == files[manifest[k]]
  {
    if n > 0 {
      assert ReadAll(manifest, files, n - 1).Success?;
      ReadAllContents(manifest, files, n - 1);
    }
  }

  /** Entry `k` is the first whose file is missing. */
  predicate FirstMissing(manifest: seq<string>, files: map<string, string>, k: nat)
    requires k < |manifest|
  {
    manifest[k] !in files && forall j :: 0 <= j < k ==> manifest[j] in files
  }

  /** Otherwise the error names the first entry whose file is missing. */
  lemma {:induction false} ReadAllFailsAtFirstMissing(manifest: seq<string>, files: map<string, string>, n: nat)
    requires n <= |manifest|
    requires ReadAll(manifest, files, n).Failure?
    ensures exists k :: 0 <= k < n && FirstMissing(manifest, files, k) &&
                        ReadAll(manifest, files, n).error == SectionUnreadable(manifest[k])
  {
    var r := ReadAll(manifest, files, n);
    var prev := ReadAll(manifest, files, n - 1);
    if prev.Failure? {
      assert r == prev;
      ReadAllFailsAtFirstMissing(manifest, files, n - 1);
      var k :| 0 <= k < n - 1 && FirstMissing(manifest, files, k) && prev.error == SectionUnreadable(manifest[k]);
      assert 0 <= k < n && FirstMissing(manifest, files, k) && r.error == SectionUnreadable(manifest[k]);
    } else {
      assert r == Failure(SectionUnreadable(manifest[n - 1]));
      ReadAllContents(manifest, files, n - 1);
      var k := n - 1;
      assert FirstMissing(manifest, files, k);
      assert 0 <= k < n && r.error == SectionUnreadable(manifest[k]);
    }
  }

  /** One section per content read, entry `k`'s built from `contents[k]`. */
  lemma {:induction false} BuildAllSections(manifest: seq<string>, contents: seq<string>,
                                            render: Renderer, plugins: seq<Transform>)
    requires |contents| <= |manifest|
    ensures var sections := BuildAll(manifest, contents, render, plugins);
      |sections| == |contents| &&
      forall k :: 0 <= k < |contents| ==> sections[k] == SectionAt(manifest, contents[k], render, plugins, k)
  {
    if contents != [] {
      var n := |contents| - 1;
      var before := BuildAll(manifest, contents[..n], render, plugins);
      var last := SectionAt(manifest, contents[n], render, plugins, n);
      assert BuildAll(manifest, contents, render, plugins) == before + [last];
      BuildAllSections(manifest, contents[..n], render, plugins);
      forall k | 0 <= k < |contents|
        ensures (before + [last])[k] == SectionAt(manifest, contents[k], render, plugins, k)
      {
        if k < n {
          assert contents[..n][k] == contents[k];
        }
      }
    }
  }

  /** `from_directory` succeeds exactly when every manifest entry's file can be read. */
  lemma DocumentSucceedsIff(order: string, files: map<string, string>, stylesheet: string,
                            render: Renderer, plugins: seq<Transform>)
    ensures var manifest := GetOrder(order);
      Document(order, files, stylesheet, render, plugins).Success?
      <==> forall k :: 0 <= k < |manifest| ==> manifest[k] in files
  {
    var manifest := GetOrder(order);
    ReadAllSucceedsIff(manifest, files, |manifest|);
  }

  /** When it fails, the error names the first entry whose file is missing. */
  lemma DocumentFailureNamesFirstMissing(order: string, files: map<string, string>, stylesheet: string,
                                         render: Renderer, plugins: seq<Transform>)
    requires Document(order, files, stylesheet, render, plugins).Failure?
    ensures var manifest := GetOrder(order);
      exists k :: 0 <= k < |manifest| && manifest[k] !in files &&
                  (forall j :: 0 <= j < k ==> manifest[j] in files) &&
                  Document(order, files, stylesheet, render, plugins).error == SectionUnreadable(manifest[k])
  {
    var manifest := GetOrder(order);
    ReadAllFailsAtFirstMissing(manifest, files, |manifest|);
  }

  /** The finished document: the highlighting script, its stylesheet and the
      custom stylesheet, then one section per manifest entry in manifest order,
      then the highlighting initialiser. */
  lemma DocumentLayout(order: string, files: map<string, string>, stylesheet: string,
                       render: Renderer, plugins: seq<Transform>)
    requires Document(order, files, stylesheet, render, plugins).Success?
    ensures var manifest := GetOrder(order);
      var doc := Document(order, files, stylesheet, render, plugins).value;
      |doc| == |manifest| + 4 &&
      doc[0] == ExternalScript(HighlightJsJs) &&
      doc[1] == Link("stylesheet", HighlightJsCss) &&
      doc[2] == Style(stylesheet) &&
      doc[|doc| - 1] == InlineScript(HighlightInit) &&
      forall k :: 0 <= k < |manifest| ==>
        manifest[k] in files &&
        doc[3 + k] == SectionAt(manifest, files[manifest[k]], render, plugins, k)
  {
    var manifest := GetOrder(order);
    ReadAllContents(manifest, files, |manifest|);
    var contents := ReadAll(manifest, files, |manifest|).value;
    BuildAllSections(manifest, contents, render, plugins);
    var s := BuildAll(manifest, contents, render, plugins);
    var doc := Finished(stylesheet, s);
    forall k | 0 <= k < |manifest|
      ensures doc[3 + k] == s[k]
    {
      assert doc[3..|doc| - 1][k] == s[k];
    }
  }

  /** Position `j`'s progress counts the first occurrence of its file name, so
      it reads `j + 1` exactly when the name did not occur earlier; a repeated
      entry gets the same section as its first occurrence. */
  lemma {:induction false} ProgressCountsFirstOccurrence(manifest: seq<string>, contents: string,
                                                         render: Renderer, plugins: seq<Transform>, j: nat)
    requires j < |manifest|
    ensures var children := SectionAt(manifest, contents, render, plugins, j).children;
      children != [] && children[0].Progress? && children[0].max == |manifest| &&
      1 <= children[0].value <= j + 1 &&
      (children[0].value == j + 1 <==> manifest[j] !in manifest[..j])
    ensures forall i :: 0 <= i < j && manifest[i] == manifest[j] ==>
      SectionAt(manifest, contents, render, plugins, j) == SectionAt(manifest, contents, render, plugins, i)
  {
    ManifestIndexSpec(manifest, manifest[j]);
    var m := ManifestIndex(manifest, manifest[j]);
    var i := m.value;
    SectionLayout(contents, manifest[j], manifest, render, plugins, i);
    if manifest[j] in manifest[..j] {
      var p :| 0 <= p < j && manifest[..j][p] == manifest[j];
      assert p >= i by { assert manifest[p] == manifest[j]; }
    }
    if i < j {
      assert manifest[..j][i] == manifest[j];
    }
  }

  /** With distinct entries, section `k` of the document shows progress
      `k + 1` out of the manifest's length and, unless it is the last, ends with
      a link to entry `k + 1`. */
  lemma DistinctEntriesNavigate(manifest: seq<string>, contents: string,
                                render: Renderer, plugins: seq<Transform>, k: nat)
    requires forall i, j :: 0 <= i < j < |manifest| ==> manifest[i] != manifest[j]
    requires k < |manifest|
    ensures var section := SectionAt(manifest, contents, render, plugins, k);
      var body := ApplyPlugins(plugins, render(contents));
      section.Section? && section.id == SectionId(manifest[k]) &&
      section.children == [Progress(k + 1, |manifest|)] + body +
                          (if k + 1 < |manifest| then [NextLink(SectionId(manifest[k + 1]))] else [])
  {
    assert manifest[k] !in manifest[..k] by {
      forall p | 0 <= p < k ensures manifest[..k][p] != manifest[k] {
        assert manifest[..k][p] == manifest[p];
      }
    }
    SectionLayout(contents, manifest[k], manifest, render, plugins, k);
  }

  /** The entries of the manifest `a.md`, `b.md`, `c.md` are distinct. */
  lemma ExampleManifestDistinct(manifest: seq<string>)
    requires manifest == ["a.md", "b.md", "c.md"]
    ensures forall i, j :: 0 <= i < j < |manifest| ==> manifest[i] != manifest[j]
  {
    assert manifest[0][0] == 'a' && manifest[1][0] == 'b' && manifest[2][0] == 'c';
  }

  /** A one-letter name with the `.md` extension has that letter as id. */
  lemma ExampleId(name: string, letter: char)
    requires letter != ExtSep && letter != Sep
    requires name == [letter, '.', 'm', 'd']
    ensures SectionId(name) == [letter]
  {
    var root, ext := [letter], "md";
    assert name == root + [ExtSep] + ext;
    assert root[0] != ExtSep;
    SectionIdOfName(root, ext);
  }

  /** The entries `a.md`, `b.md`, `c.md` have ids `a`, `b`, `c`. */
  lemma ExampleIds(manifest: seq<string>)
    requires manifest == ["a.md", "b.md", "c.md"]
    ensures SectionId(manifest[0]) == "a" && SectionId(manifest[1]) == "b" && SectionId(manifest[2]) == "c"
  {
    ExampleId(manifest[0], 'a');
    ExampleId(manifest[1], 'b');
    ExampleId(manifest[2], 'c');
  }

  /** The link to a one-letter name with the `.md` extension points at `#`
      and that letter. */
  lemma ExampleLink(name: string, letter: char)
    requires letter != ExtSep && letter != Sep
    requires name == [letter, '.', 'm', 'd']
    ensures NextLink(SectionId(name)) == Anchor(['#', letter], "next", "Next Section")
  {
    ExampleId(name, letter);
    assert "#" + [letter] == ['#', letter];
  }

  /** In the manifest `a.md`, `b.md`, `c.md` the first section shows 1/3 and
      links to `#b`. */
  lemma FirstSectionExample(manifest: seq<string>, contents: string,
                            render: Renderer, plugins: seq<Transform>)
    requires manifest == ["a.md", "b.md", "c.md"]
    ensures SectionAt(manifest, contents, render, plugins, 0).children
            == [Progress(1, 3)] + ApplyPlugins(plugins, render(contents)) + [Anchor("#b", "next", "Next Section")]
  {
    ExampleManifestDistinct(manifest);
    ExampleLink(manifest[1], 'b');
    DistinctEntriesNavigate(manifest, contents, render, plugins, 0);
  }

  /** In the manifest `a.md`, `b.md`, `c.md` the middle section shows 2/3 and
      links to `#c`. */
  lemma MiddleSectionExample(manifest: seq<string>, contents: string,
                             render: Renderer, plugins: seq<Transform>)
    requires manifest == ["a.md", "b.md", "c.md"]
    ensures SectionAt(manifest, contents, render, plugins, 1).children
            == [Progress(2, 3)] + ApplyPlugins(plugins, render(contents)) + [Anchor("#c", "next", "Next Section")]
  {
    ExampleManifestDistinct(manifest);
    ExampleLink(manifest[2], 'c');
    DistinctEntriesNavigate(manifest, contents, render, plugins, 1);
  }

  /** In the same manifest the last section shows 3/3 and links nowhere. */
  lemma LastSectionExample(manifest: seq<string>, contents: string,
                           render: Renderer, plugins: seq<Transform>)
    requires manifest == ["a.md", "b.md", "c.md"]
    ensures SectionAt(manifest, contents, render, plugins, 2).children
            == [Progress(3, 3)] + ApplyPlugins(plugins, render(contents))
  {
    var body := ApplyPlugins(plugins, render(contents));
    ExampleManifestDistinct(manifest);
    DistinctEntriesNavigate(manifest, contents, render, plugins, 2);
    assert [Progress(3, 3)] + body + [] == [Progress(3, 3)] + body;
  }

  /** A last entry repeating the first is built as the first: it shows
      progress 1 and links to the second entry. */
  lemma RepeatedLastEntry(manifest: seq<string>, contents: string,
                          render: Renderer, plugins: seq<Transform>)
    requires |manifest| >= 2 && manifest[|manifest| - 1] == manifest[0]
    ensures SectionAt(manifest, contents, render, plugins, |manifest| - 1).children
            == [Progress(1, |manifest|)] + ApplyPlugins(plugins, render(contents)) + [NextLink(SectionId(manifest[1]))]
  {
    assert manifest[..0] == [];
    SectionLayout(contents, manifest[0], manifest, render, plugins, 0);
  }

  /** So in the manifest `a.md`, `b.md`, `a.md` the last section shows 1/3
      and links to `#b`: the last section goes without a next link only when
      its name was not seen earlier. */
  lemma DuplicateLastLinks(manifest: seq<string>, contents: string,
                           render: Renderer, plugins: seq<Transform>)
    requires manifest == ["a.md", "b.md", "a.md"]
    ensures SectionAt(manifest, contents, render, plugins, 2).children
            == [Progress(1, 3)] + ApplyPlugins(plugins, render(contents)) + [Anchor("#b", "next", "Next Section")]
  {
    RepeatedLastEntry(manifest, contents, render, plugins);
    ExampleLink(manifest[1], 'b');
  }

  /** Every entry of that manifest names one of the three files. */
  lemma ExampleFilesPresent(manifest: seq<string>, files: map<string, string>)
    requires manifest == ["a.md", "b.md", "c.md"]
    requires "a.md" in files && "b.md" in files && "c.md" in files
    ensures forall k :: 0 <= k < |manifest| ==> manifest[k] in files
  {
    forall k | 0 <= k < |manifest|
      ensures manifest[k] in files
    {
      if k == 0 {
        assert manifest[0] == "a.md";
      } else if k == 1 {
        assert manifest[1] == "b.md";
      } else {
        assert manifest[2] == "c.md";
      }
    }
  }

  /** With the manifest `a.md`, `b.md`, `c.md` and all three files present,
      the document holds the sections `a`, `b` and `c` in that order between
      its three header nodes and its initialiser. */
  lemma ExampleDocumentIds(order: string, files: map<string, string>, stylesheet: string,
                           render: Renderer, plugins: seq<Transform>)
    requires GetOrder(order) == ["a.md", "b.md", "c.md"]
    requires "a.md" in files && "b.md" in files && "c.md" in files
    ensures Document(order, files, stylesheet, render, plugins).Success?
    ensures var doc := Document(order, files, stylesheet, render, plugins).value;
      |doc| == 7 && doc[3].Section? && doc[4].Section? && doc[5].Section? &&
      doc[3].id == "a" && doc[4].id == "b" && doc[5].id == "c"
  {
    var manifest := GetOrder(order);
    ExampleIds(manifest);
    ExampleFilesPresent(manifest, files);
    DocumentSucceedsIff(order, files, stylesheet, render, plugins);
    DocumentLayout(order, files, stylesheet, render, plugins);
    var doc := Document(order, files, stylesheet, render, plugins).value;
    assert doc[3] == SectionAt(manifest, files[manifest[0]], render, plugins, 0);
    assert doc[4] == SectionAt(manifest, files[manifest[1]], render, plugins, 1);
    assert doc[5] == SectionAt(manifest, files[manifest[2]], render, plugins, 2);
  }
}
