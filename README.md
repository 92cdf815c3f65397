# AdventureDocs in Dafny

AdventureDocs (`adocs.py`) builds "choose your own adventure" documentation
from a directory of markdown files. The directory's `ORDER` file lists the
section files, one per line. Each file becomes an HTML `<section>` whose id is
its file name without the extension. The section holds:

- a `<progress>` bar showing the entry's position in the manifest;
- the rendered markdown, after every plugin's `change_soup` has run on it;
- a "Next Section" link to the entry after the name's first occurrence in
  the manifest, when there is one. `list.index` finds that first
  occurrence, so an entry repeated later is built exactly like its first
  occurrence.

The sections are collected into one document. Ahead of them go the
highlight.js script, its stylesheet and the custom stylesheet's text. After
them goes the highlight.js initialiser.

The project has five modules:

- `Paths` (`paths.dfy`): `section_id`, that is the tail from POSIX
  `os.path.split` with `os.path.splitext` applied. Both are modelled on
  Python 2's `posixpath`: `rfind` for the separator and the last dot, and the
  scan that lets a leading dot (a hidden file) not count as an extension.
- `Order` (`order.dfy`): `get_order`. It models `file.readlines()`, which cuts
  after each `'\n'` and keeps a last unterminated line, and Python 2's
  `str.strip()`, which removes the characters space and `\t\n\r\x0b\x0c`.
- `Markup` (`markup.dfy`): the elements the builder creates, plus a `Soup`
  class. A soup is a BeautifulSoup document seen as the sequence of its
  top-level children, changed in place by `insert` and `append`.
- `AdventureDoc` (`adventure_doc.dfy`):
  - `prepend_progress_bar`, `add_special_seasoning`, `put_in_nice_bowl`,
    `build_section` and the `from_directory` loop, as methods on soups;
  - beside them, the functions each method is proved equal to
    (`BuiltSection`, `Document` and the functions they use).
- `Navigation` (`navigation.dfy`): what those functions guarantee.
  - A section's layout.
  - The next link is present exactly when an entry follows the name's first
    occurrence.
  - Progress counts the first occurrence of a repeated name.
  - Success exactly when every file can be read; the first missing file is
    the one reported.
  - The document's layout, one section per entry in manifest order.

The program's inputs become parameters:

- the text of `ORDER`;
- the section files, as a map from manifest entry to contents;
- the stylesheet's text;
- the markdown renderer, as a function from text to top-level nodes;
- the plugins, as a sequence of transforms on those nodes, applied in order.

The two ways `build_section` and `from_directory` can fail are errors of a
`Result` type:

- `list.index`'s `ValueError` becomes `NotInManifest`;
- `open`'s `IOError` on a section file becomes `SectionUnreadable`.

`from_directory` stops at the first such error.

## Model

| member | source | states |
|---|---|---|
| Paths.LastIndexOfSpec | adocs.py:84-85 | the `rfind` behind `split`/`splitext` gives -1 exactly when the character is absent, else a position holding it with none after it |
| Paths.AtMostLastIndex | adocs.py:84-85 | every occurrence lies at or before the position `rfind` reports |
| Paths.BaseNameSpec | adocs.py:84 | the tail of `os.path.split` holds no `/`, is a suffix of the path, and is the whole path or follows a `/` |
| Paths.NonDotInSpec | adocs.py:85 | the leading-dots scan of `splitext` finds a non-dot exactly when the range holds one |
| Paths.SplitExtSpec | adocs.py:85 | `splitext` returns two halves that concatenate to the input; the extension is non-empty exactly when a dot follows a non-dot in the base name, and then it starts with its only dot and is shorter than the base name |
| Paths.SectionIdSpec | adocs.py:63-87 | a section id holds no `/` and is a prefix of the base name; it equals the whole base name exactly when the base name has no extension, and otherwise it is the base name cut before its last dot |
| Paths.BaseNameIgnoresDirectories | adocs.py:84 | leading directories never change the base name |
| Paths.SectionIdIgnoresDirectories | adocs.py:63-87 | leading directories never change the section id |
| Paths.SectionIdOfName | adocs.py:84-87 | `root.ext` (no `/`, no dot in `ext`, some non-dot in `root`) has id `root` |
| Paths.SectionIdOfPath | adocs.py:84-87 | `dir/root.ext` has id `root` under the same conditions |
| Paths.SectionIdExample | adocs.py:78-80 | the docstring example: `some/path/to/source/eaten-by-a-grue.md` has id `eaten-by-a-grue` |
| Paths.HiddenFileKeepsName | adocs.py:85 | a name of one leading dot and no other dot, such as `.bashrc`, keeps its whole name as id |
| Order.LStripSpec | adocs.py:164 | `lstrip` keeps a suffix that does not start with whitespace and cuts only whitespace |
| Order.RStripSpec | adocs.py:164 | `rstrip` keeps a prefix that does not end with whitespace and cuts only whitespace |
| Order.StripSpec | adocs.py:164 | `strip` keeps an infix with only whitespace cut from either end |
| Order.StripTrimmed | adocs.py:164 | the result of `strip` neither starts nor ends with whitespace |
| Order.IndexOfSpec | adocs.py:164 | the newline search behind `readlines` gives -1 exactly when there is no newline, else the first one |
| Order.ReadLinesSpec | adocs.py:164 | the lines of `readlines` concatenate back to the text; each is non-empty with a newline only at its end; all but the last end with a newline |
| Order.ReadLinesConcat | adocs.py:164 | `readlines` loses and adds no character |
| Order.ReadLinesShape | adocs.py:164 | each line from `readlines` is a line, and only the last may lack its newline |
| Order.StripAllSpec | adocs.py:164 | the comprehension strips each line in place, keeping the count |
| Order.GetOrderSpec | adocs.py:147-166 | one entry per line of ORDER, each that line stripped, none holding a newline |
| Order.StrippedLineHasNoNewline | adocs.py:164 | stripping removes the only newline a line can hold |
| Order.GetOrderLine | adocs.py:163-164 | a newline-terminated first line contributes exactly its stripped self ahead of the rest's entries |
| Order.GetOrderLastLine | adocs.py:163-164 | a last line without a newline is still one entry |
| Order.StripTrailingNewline | adocs.py:164 | the newline that ends a line never reaches its entry |
| Order.LStripAppend | adocs.py:164 | left-stripping a concatenation keeps everything after the first non-space |
| Order.GetOrderFirstLine | adocs.py:163-164 | the first line of a file written as lines, ended by a newline, is its first entry, ahead of the entries of the remaining lines |
| Order.GetOrderOfLines | adocs.py:147-166 | an ORDER file written as lines, each ended by a newline, plus an optional unterminated last line gives exactly those lines stripped, in order; blank lines are kept as entries |
| Order.BlankLineIsEmptyEntry | adocs.py:164 | a whitespace-only line gives an empty entry |
| Markup.Soup.constructor | adocs.py:235 | parsing yields a soup whose children are the parsed nodes |
| Markup.Soup.Insert | adocs.py:144 | `insert(position, child)` puts the child at that position, or last when the position is past the end, and keeps every other child in order |
| Markup.Soup.Append | adocs.py:249 | `append` adds the child after all the others |
| AdventureDoc.ManifestIndexSpec | adocs.py:229 | `index` fails with `ValueError` exactly when the name is absent, and otherwise finds the first position holding it |
| AdventureDoc.BuiltSectionSpec | adocs.py:213-259 | `build_section` fails exactly for a name missing from the manifest, with that name's error, and otherwise returns a `<section>` whose id is the name's section id |
| AdventureDoc.SectionAt | adocs.py:254-255 | the section built for entry `k` is a `<section>` with the id of entry `k` |
| AdventureDoc.ReadAll | adocs.py:278-285 | reading the first `n` entries yields `n` contents when it succeeds |
| AdventureDoc.Finished | adocs.py:169-210 | the finished document is the highlight.js script, its stylesheet, the custom `<style>`, the body unchanged, then the initialiser script |
| AdventureDoc.PrependProgressBar | adocs.py:128-144 | a `<progress value max>` becomes the first child, in front of all the others |
| AdventureDoc.AddSpecialSeasoning | adocs.py:90-125 | the soup ends as the plugins applied one after another, each to what the one before left |
| AdventureDoc.PutInNiceBowl | adocs.py:169-210 | the soup becomes the finished document around its old children |
| AdventureDoc.BuildSection | adocs.py:213-259 | the method's result is the section `BuiltSection` specifies, including the `ValueError` case |
| AdventureDoc.FromDirectory | adocs.py:262-292 | the loop's result is `Document`: the first unreadable file's error, or the finished document of all sections in manifest order |
| AdventureDoc.FailureSticks | adocs.py:283-284 | once a file cannot be read, no later entry changes the error |
| AdventureDoc.BuildAllStep | adocs.py:278-288 | one more readable entry extends the contents read and the sections appended by exactly that entry's file and section |
| Navigation.ApplyPluginsConcat | adocs.py:116-125 | running two batches of plugins is running their concatenation |
| Navigation.FirstPluginFirst | adocs.py:116-125 | the first plugin sees the rendered content itself |
| Navigation.SectionLayout | adocs.py:228-259 | for the first position `i` holding the name, the section's children are progress `(i+1, len)`, the seasoned content, and a link to entry `i+1` exactly when it exists |
| Navigation.NextLinkExactlyWithSuccessor | adocs.py:243-252 | for the first position `i` holding the name, the next link is one extra child, present exactly when entry `i+1` exists, and points at `#` plus that entry's id |
| Navigation.LastSectionHasNoLink | adocs.py:239-252 | a last entry whose name does not occur earlier shows full progress and ends with its content |
| Navigation.OneEntryManifest | adocs.py:228-252 | a one-entry manifest gives progress 1/1 and no link |
| Navigation.MissingNameFails | adocs.py:229 | a name not in the manifest is `NotInManifest` for that name |
| Navigation.ReadAllSucceedsIff | adocs.py:278-285 | reading succeeds exactly when every entry's file exists |
| Navigation.ReadAllContents | adocs.py:281-284 | what is read is each entry's own file, in manifest order |
| Navigation.ReadAllFailsAtFirstMissing | adocs.py:278-285 | a failed read names the first entry whose file is missing, every earlier one being present |
| Navigation.BuildAllSections | adocs.py:278-288 | one section per entry read, entry `k`'s built from its own contents |
| Navigation.DocumentSucceedsIff | adocs.py:262-292 | `from_directory` succeeds exactly when every manifest entry's file can be read |
| Navigation.DocumentFailureNamesFirstMissing | adocs.py:278-285 | its error names the first entry whose file is missing |
| Navigation.DocumentLayout | adocs.py:262-292 | the document is the three header nodes, then one section per manifest entry in manifest order, then the initialiser; it is four nodes longer than the manifest |
| Navigation.ProgressCountsFirstOccurrence | adocs.py:229-240 | entry `j`'s progress is between 1 and `j+1` out of the manifest length; it is `j+1` exactly when the name did not occur earlier; a repeated name gets the same section as its first occurrence |
| Navigation.DistinctEntriesNavigate | adocs.py:228-259 | with distinct entries, section `k` shows progress `k+1` and links to entry `k+1` unless it is the last |
| Navigation.ExampleId | adocs.py:84-87 | a one-letter name with the `.md` extension, such as `a.md`, has that letter as its id |
| Navigation.ExampleLink | adocs.py:245-246 | the link to a one-letter name with the `.md` extension, such as `b.md`, points at `#b` |
| Navigation.FirstSectionExample | adocs.py:239-252 | in the manifest `a.md`, `b.md`, `c.md` the first section shows 1/3 and links to `#b` |
| Navigation.MiddleSectionExample | adocs.py:239-252 | in that manifest the middle section shows 2/3 and links to `#c` |
| Navigation.LastSectionExample | adocs.py:239-252 | and the last shows 3/3 with no link |
| Navigation.RepeatedLastEntry | adocs.py:229-252 | a last entry repeating the first is built as the first: progress 1 out of the manifest length, and a link to the second entry |
| Navigation.DuplicateLastLinks | adocs.py:229-252 | in the manifest `a.md`, `b.md`, `a.md` the last section shows 1/3 and links to `#b`, so a last section lacks a next link only when its name does not occur earlier |
| Navigation.ExampleDocumentIds | adocs.py:262-292 | with the manifest `a.md`, `b.md`, `c.md` and all three files present, the document succeeds, has seven nodes, and holds the sections `a`, `b`, `c` in that order after the three header nodes |

## Left out

- Markdown rendering (`markdown.markdown`) and HTML parsing (`BeautifulSoup(html, "html.parser")`), at adocs.py:234-235, are external libraries. They are a `Renderer` parameter; nodes they produce are opaque `Rendered` values.
- The UTF-8 decode at adocs.py:233 is left out, and so is its `UnicodeDecodeError`: strings are sequences of characters, with no encoding.
- `__str__` (`prettify` and UTF-8 encoding, adocs.py:58-60) is left out, and so is the CLI under `__main__` (docopt, writing the destination file): their output is text formatting and I/O.
- The file system is left out:
  - The ORDER file's text and the stylesheet's text are parameters. Their `IOError`s at adocs.py:163 and 188 are therefore not modelled.
  - Section files are a map keyed by manifest entry. `os.path.join(directory, file_name)` (adocs.py:281) is not modelled, so an absolute entry or a blank entry naming the directory is whatever the map says.
- `STYLESHEET` (adocs.py:48) is not modelled: it names the file whose text is the stylesheet parameter.
- `SECTION_CHOICE_KEYWORD` (adocs.py:49) is not modelled: it is only a constant, and the core never reads it.
- Plugin discovery (adocs.py:105-122) is left out: `glob` over `plugins/*.py`, the `__init__.py` skip, `__import__` and `getattr`. The plugins arrive as a sequence, in the order `glob` would give.
- Plugins are total functions of the soup's children. The class argument `cls` that `change_soup` receives is not passed, and a plugin that raises is not modelled.
- The `AdventureDoc` wrapper object (`__init__`, adocs.py:55-56) is left out: `FromDirectory` returns the finished sequence of nodes instead.
- Tag names are modelled by the constructors of `Node`, and the attributes the builder sets by their fields. Attribute order and `prettify` output are not modelled.
- Only POSIX path handling (`posixpath`) is modelled for `os.path.split` and `os.path.splitext`. On Windows, `os.path` is `ntpath`, which also splits at `\` and at drive letters; that behaviour is not captured.
- `AdventureDoc.BuildSection`: the finished `<section>` holds the seasoned soup's children directly. This is what appending a parsed document to a tag amounts to (adocs.py:257).
