# flusspferd generation pipeline in Dafny

A model of the page-generation core of flusspferd, a static-site generator
that turns a tree of Markdown documents into HTML pages:

- `getMarkdownFiles(directory)` (lib/scanner.js) lists the content tree.
  - It keeps the regular files whose name ends in ".md".
  - For each it records the absolute, normalized `path`, the `name` without
    ".md", the scanned root `baseDir` and the `subDir` leading from the root
    to the file's directory.
- `generateProject(contentDir, staticDir, templateDir, outputDir)`
  (lib/writer.js) runs the whole pipeline:
  - it checks its directories and the "base.html" template;
  - it renders every document (Markdown, then title extraction, then the
    template) and merges the page into the document record;
  - it writes each page to `outputDir/subDir/name.html`, creating the
    directory first when it is missing;
  - it copies the static tree to `outputDir/<file name of staticDir>`.

Modules:

- `Strings`: the string operations used: `startsWith` and `endsWith` from
  ringo's `ringo/utils/strings` module, and JavaScript's `indexOf` and
  `substring` (with its clamping and swapping).
- `Paths`: path strings as a root flag plus segments.
  - It covers Java's `toAbsolutePath().normalize()`, `relativize` and
    `toString`, and ringo's `fs.join`.
- `Files`: the filesystem as an immutable map from absolute, normalized
  locations to `File(content)` or `Dir`, with `makeTree` and `write`.
- `FilterMaps`: filter-then-map over a sequence, with its order and
  membership lemmas.
- `Scanner`: `getMarkdownFiles`.
- `Pages`: title extraction, `objects.merge`, rendering.
- `WriteLoop`: the page-writing loop over abstract jobs.
- `Writer`: the destination mapping, the static-copy destination and
  `generateProject`.

Behaviour of the code worth knowing:

- Title without "</h1>": content that starts with "<h1>" and has no "</h1>"
  gets the title "<h1>". The code computes `substring(4, -1)`, which
  JavaScript turns into `substring(0, 4)`.
- Static copy target: it is built from the static directory's file name as
  written, before normalization. A static directory written "." is copied
  into the output directory itself, and one written ".." into the output
  directory's parent (`Writer.StaticTargetDots`).
- Copy order: the static tree is copied after all pages are written, and
  only when every write succeeded.
- Failures: the first failed read or write throws, which ends the whole
  run. The model reports this as `Exit.Threw`, together with the filesystem
  as it was at that point.
- `subDir` escaping the root: it can climb out of `baseDir` ("..") for a
  listed name that itself climbs out. That `subDir` stays inside `baseDir` is
  proved for names as a tree listing produces them (`Scanner.CleanEntry`).

## Model

| member | source | states |
|---|---|---|
| Strings.IndexOf | lib/writer.js:42 | `indexOf` gives -1 exactly when the pattern does not occur, and otherwise the position of its first occurrence |
| Strings.JsSubstring | lib/writer.js:42 | `substring` returns the slice between its arguments, swaps them when the first is larger, and treats a negative end as 0 |
| Paths.Segments | lib/scanner.js:17 | a path string parses into non-empty, separator-free segments |
| Paths.ParseToString | lib/scanner.js:19 | printing a path and parsing the string back gives the same path (absolute flag and segments) |
| Paths.SegmentsJoin | lib/writer.js:55 | `fs.join` on strings is concatenation of the segment sequences |
| Paths.Normalize | lib/scanner.js:11 | normalization leaves no "", "." or ".." segment, and leaves an already normalized path unchanged |
| Paths.Resolve | lib/scanner.js:11 | `toAbsolutePath().normalize()` yields a location whose segments are all plain names |
| Paths.ResolveJoin | lib/scanner.js:15 | resolving `join(a, b)` resolves `a` and then walks the segments of `b`, unless `a` is empty and `b` is absolute |
| Paths.ResolveCanonical | lib/scanner.js:19 | resolving the printed form of a normalized absolute path gives back the same location |
| Paths.NormFromConcat | lib/scanner.js:17 | normalizing a concatenation normalizes the two parts in turn |
| Paths.NormFromUps | lib/scanner.js:22 | `k` ".." steps remove the last `k` names |
| Paths.Relativize | lib/scanner.js:22 | the relative path between two paths is itself made of non-empty, separator-free segments |
| Paths.RelativizeResolves | lib/scanner.js:22 | `base` followed by `base.relativize(other)`, normalized, is `other` |
| Paths.RelativizeEmpty | lib/scanner.js:22 | the relative path is empty exactly when the two paths are equal |
| Paths.RelativizeDescends | lib/scanner.js:22 | the relative path climbs with ".." exactly when `other` is not under `base`, and is the remainder of `other` when it is |
| Files.MakeTree | lib/writer.js:58-60 | `makeTree` fails exactly when a file stands at the target or at one of its ancestors; otherwise the target and all its ancestors are directories, existing entries are untouched, new entries are directories on the target's ancestry, and a tree stays a tree |
| Files.WriteFile | lib/writer.js:63 | `write` succeeds exactly when the parent is a directory and the target is not; it then sets the target's content and changes nothing else |
| Files.AncestorsAreDirs | lib/writer.js:58-60 | in a tree every ancestor of an entry is a directory |
| FilterMaps.FilterMapOrigins | lib/scanner.js:14-24 | the output of a filter-then-map keeps input order: later outputs come from later accepted inputs |
| FilterMaps.FilterMapCount | lib/scanner.js:14-24 | over an input without repetitions there is one output per accepted element |
| Scanner.GetMarkdownFiles | lib/scanner.js:9-28 | when `directory` is not an existing directory the result is empty, not an error; no returned item carries a page |
| Scanner.Selected | lib/scanner.js:15 | the filter keeps a listed name exactly when the content directory joined with it is a regular file and the name ends in ".md"; `Scanner.SelectMembers` and `Scanner.SelectOne` tie the scan to it |
| Scanner.MakeItem | lib/scanner.js:17-22 | the record built for a kept name carries no page yet; its `path`, `name`, `baseDir` and `subDir` are characterised by `Scanner.ItemPath`, `Scanner.ItemName` and `Scanner.ItemSubDir` |
| Scanner.Select | lib/scanner.js:14-24 | the scan yields at most one item per listed name, none of them with a page |
| Scanner.SelectMembers | lib/scanner.js:14-24 | an item is in the scan exactly when it is built from a listed name that is a regular file ending in ".md" |
| Scanner.SelectOne | lib/scanner.js:14-16 | a single listed name yields its item exactly when it names a regular file and ends in ".md", and nothing otherwise |
| Scanner.SelectAppend | lib/scanner.js:14-24 | the scan of a concatenated listing is the concatenation of the scans, so items appear in listing order |
| Scanner.SelectCount | lib/scanner.js:14-24 | over a listing without repetitions there are exactly as many items as kept names |
| Scanner.SelectOrigin | lib/scanner.js:14-24 | every item is built from a listed name that passes the filter |
| Scanner.SelectOrigins | lib/scanner.js:14-24 | of two items, the later one comes from a later listed name |
| Scanner.SelectAgree | lib/scanner.js:14-16 | the scan depends on the filesystem only through the filter's verdicts on the listed names |
| Scanner.LocatedLast | lib/scanner.js:15-17 | a listed name ending in ".md" resolves to a location whose final segment is the name's final component |
| Scanner.ItemPath | lib/scanner.js:17-21 | `path` prints the file's absolute normalized location and resolves back to it; `baseDir` prints the resolved root |
| Scanner.ItemName | lib/scanner.js:20 | `name` + ".md" is the file's final segment and a suffix of the listed name; `name` has no separator |
| Scanner.ItemSubDir | lib/scanner.js:22 | `subDir` is relative, `baseDir` joined with `subDir` resolves to the file's parent, and `subDir` is empty exactly when the file sits directly in the root |
| Scanner.CleanItem | lib/scanner.js:17-22 | for a name as a tree listing gives it, `path` is the root followed by the name's segments, and `subDir` is the name's directory part, without ".." |
| Scanner.CleanPathsDiffer | lib/scanner.js:17-19 | two different listed names give items with different paths |
| Scanner.ScanPathsDistinct | lib/scanner.js:14-24 | a listing of distinct names yields items with pairwise distinct paths |
| Pages.Title | lib/writer.js:42 | no leading "<h1>" gives ""; a leading "<h1>" without any "</h1>" gives "<h1>"; otherwise the content starts with "<h1>", the title, "</h1>", and the title holds no "</h1>" |
| Pages.TitleOfHeading | lib/writer.js:42 | title extraction recovers any title free of "</h1>" from heading markup followed by anything |
| Pages.TitleExample | lib/writer.js:42 | "<h1>Foo</h1><p>Bar</p>" has the title "Foo" |
| Pages.Merge | lib/writer.js:44-50 | merging keeps path, name, baseDir and subDir, and adds the page as `html` when the item has none |
| Pages.Page | lib/writer.js:41-49 | the page is the template applied to the document record, the title of the converted Markdown and the converted Markdown; `Pages.RenderItem` attaches it to the record |
| Pages.RenderItem | lib/writer.js:40-51 | rendering succeeds exactly when the item's path is a regular file; it keeps the scanned fields and attaches the template's page for the converted file content |
| Pages.RenderAll | lib/writer.js:40-51 | the render map succeeds exactly when every item's file is readable, and then renders each item in place |
| Pages.RenderAllReads | lib/writer.js:41 | two filesystems that agree on the documents' files render alike |
| WriteLoop.WriteItem | lib/writer.js:55-63 | after one iteration the directory exists, the file holds the page, its parent is a directory, every other entry is unchanged, and a tree stays a tree |
| WriteLoop.WriteItemSucceeds | lib/writer.js:58-63 | one iteration succeeds exactly when the directory exists as a directory (or can be made) and the destination is not a directory |
| WriteLoop.WriteAll | lib/writer.js:54-64 | the loop changes no entry that no job targets, never turns a directory into a file or back, and adds only targets and directories |
| WriteLoop.WriteAllPlaces | lib/writer.js:54-64 | after a successful loop every job's directory exists, its file's parent is a directory, and each written file holds its last write |
| WriteLoop.WriteAllDistinct | lib/writer.js:54-64 | with distinct destinations each destination holds its own job's page |
| WriteLoop.WriteAllIdempotent | lib/writer.js:54-64 | re-running a successful loop on its own result changes nothing |
| Writer.DestDirEmpty | lib/writer.js:55 | an empty `subDir` makes `destDir` the output directory itself |
| Writer.DestDir | lib/writer.js:55 | `destDir` has the segments of the output directory followed by those of `subDir` |
| Writer.DestFile | lib/writer.js:56 | `destFile` has the segments of the output directory, then those of `subDir`, then the page name `name` + ".html" |
| Writer.DestFileInDir | lib/writer.js:55-56 | `destFile` resolves to the resolved `destDir` followed by `name` + ".html" |
| Writer.CleanDest | lib/writer.js:55-56 | the output mirrors the content tree: the page of "a/b/c.md" is "a/b/c.html" under the output directory |
| Writer.CleanDestsDiffer | lib/writer.js:55-56 | two different listed names get different page files |
| Writer.PageLocationsDistinct | lib/writer.js:54-56 | distinct listed names give the scanned documents pairwise distinct page files |
| Writer.ScanRenders | lib/writer.js:37-41 | every scanned document's path names a regular file, so the render map never throws |
| Writer.Publish | lib/writer.js:37-64 | a failed read of a scanned document ends the page-writing part with the filesystem untouched; otherwise the write loop runs over one job per document (`Writer.PublishJobs`) |
| Writer.PublishJobs | lib/writer.js:37-64 | the write loop receives one job per scanned document, writing that document's page to its page file |
| Writer.PublishWrites | lib/writer.js:54-64 | after a successful run each document's page file holds its page, and in a tree every ancestor of it is a directory |
| Writer.PublishFrame | lib/writer.js:54-64 | a run changes no existing entry other than the page files and turns no directory into a file or back |
| Writer.PublishKeepsSelection | lib/writer.js:54-64 | writing pages does not change which listed names the scanner keeps |
| Writer.PublishKeepsSources | lib/writer.js:54-64 | writing pages leaves every document's source file as it was |
| Writer.PublishIdempotent | lib/writer.js:37-64 | a second run, with the same listing and the same template, on the result of a successful run leaves the filesystem as it is |
| Writer.StaticTargetChild | lib/writer.js:68 | for a static directory whose written name is a plain name, the static tree lands in a directory of that name inside the output directory, never in the output directory itself |
| Writer.FileName | lib/writer.js:68 | `getFileName` of the static directory as written: empty exactly when the path has no segments (the root), and never containing a separator |
| Writer.FileNameFinal | lib/writer.js:68 | for a static directory written without a trailing separator, the file name is its final component as written |
| Writer.StaticTarget | lib/writer.js:68 | the copy target has the segments of the output directory followed by the static directory's file name, if it has one |
| Writer.StaticTargetDots | lib/writer.js:68 | a static directory written "." lands in the output directory itself, and one written ".." in its parent |
| Writer.GenerateProject | lib/writer.js:19-72 | the run returns 1 exactly when a directory is missing or there is no "base.html", and then changes nothing; otherwise it returns 0 or throws |
| Writer.DirectoriesExist | lib/writer.js:21 | the first gate: the content, output and static directories each resolve to an existing directory |
| Writer.TemplateExists | lib/writer.js:26 | the second gate: something exists at `templateDir` joined with "base.html" |
| Writer.GenerateSucceeds | lib/writer.js:66-71 | the run returns 0 exactly when the checks pass, every page is written and the static copy succeeds; the final filesystem is the copy's result |

## Left out

- main.js: argument parsing, the `init` scaffolding and the exit-code plumbing are command-line glue.
- The CommonMark converter and the Reinhardt template are foreign libraries, so they appear as the functions `Engines.markdown` and `Engines.template`.
- A failure to load or compile the template (`getTemplate`) is not modelled: the compiled template is a total function.
- Logging has no effect on the result and is dropped.
- `fs.listTree(contentDir)` is an input (`Env.listing`), not computed from the filesystem map.
- `fs.copyTree` is an input function (`Env.copyTree`). Only its source and target locations are modelled, not what it copies.
- Symlinks are not modelled.
- Only '/' is a separator, and there are no drive letters.
- Strings are sequences of characters, with no encoding.
- I/O errors other than the filesystem shapes that make `makeTree` or `write` fail (permissions, full disks) are not modelled.
- ringo's `fs.join` is modelled as joining the non-empty arguments with one separator.
- Writer.FileName: a static directory with no final segment (the root) gets the name "". Java returns null there, which is not modelled.
- Writer.PublishIdempotent: covers the page-writing part with the same listing and the same compiled template on both runs. It does not cover the static copy, which is foreign code. It does not cover a listing that changes because the output directory lies inside the content tree. It also does not cover a template that changes between runs: the code loads `templateDir/base.html` afresh on every run (lib/writer.js:32-35), and when `templateDir` is the output directory, a top-level `base.md` writes its page over that file, so the second run may render with a different template.
- Scanner.ScanPathsDistinct: proved for listings of distinct names as a tree listing gives them (`Scanner.CleanEntry`), not for arbitrary strings.
- Writer.PublishWrites: proved for listings of distinct clean names. With repeated page files the last write wins (`WriteLoop.WriteAllPlaces`).
- Pages.RenderAll: stops at the first unreadable file. Reads cannot fail on a scan's own items (`Writer.ScanRenders`).
- Concurrency between rendering, writing and copying is not modelled; the source runs them in sequence.
