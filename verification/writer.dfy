/** `generateProject`: check the directories, scan the content tree, render
    every document, write each page under the output directory (creating its
    directory first), and copy the static tree. */
module Writer {
  import opened Options
  import opened Strings
  import opened Paths
  import opened Files
  import opened Scanner
  import opened Pages
  import opened WriteLoop

  const PageExtension := ".html"
  const TemplateName := "base.html"

  /** `destDir`: the output directory joined with the document's `subDir`. */
  function DestDir(outputDir: string, item: ContentItem): (d: string)
    ensures Segments(d) == Segments(outputDir) + Segments(item.subDir)
  {
    SegmentsJoin(outputDir, item.subDir);
    Join(outputDir, item.subDir)
  }

  /** `destFile`: the page file, named after the document, in `destDir`. */
  function DestFile(outputDir: string, item: ContentItem): (f: string)
    ensures Segments(f) == Segments(outputDir) + Segments(item.subDir) + Segments(item.name + PageExtension)
  {
    SegmentsJoin(DestDir(outputDir, item), item.name + PageExtension);
    Join(DestDir(outputDir, item), item.name + PageExtension)
  }

  /** A document in the root of the content tree is written to the output directory itself. */
  lemma {:induction false} DestDirEmpty(outputDir: string, item: ContentItem)
    requires item.subDir == ""
    ensures DestDir(outputDir, item) == outputDir
  {
  }

  /** A page name: the document's name, which has no separator, and ".html". */
  lemma {:induction false} PageName(name: string)
    requires '/' !in name
    ensures IsName(name + PageExtension)
    ensures !Parse(name + PageExtension).absolute
    ensures Segments(name + PageExtension) == [name + PageExtension]
  {
    var n := name + PageExtension;
    assert n[|name|..] == PageExtension;
    assert forall i :: 0 <= i < |n| ==> n[i] != '/' by {
      assert forall i :: 0 <= i < |name| ==> n[i] == name[i];
    }
    assert n != "." && n != "..";
    assert JoinSegs([n]) == n;
    SegmentsJoinSegs([n]);
  }

  /** The page file resolves to its name inside the resolved `destDir`. */
  lemma {:induction false} DestFileInDir(cwd: string, outputDir: string, item: ContentItem)
    requires '/' !in item.name
    ensures Resolve(cwd, DestFile(outputDir, item)) == Resolve(cwd, DestDir(outputDir, item)) + [item.name + PageExtension]
  {
    var n := item.name + PageExtension;
    PageName(item.name);
    ResolveJoin(cwd, DestDir(outputDir, item), n);
    NormFromNamed(Resolve(cwd, DestDir(outputDir, item)), [n]);
  }

  /** For a clean listed name the output mirrors the content tree: the page of
      "a/b/c.md" is written as "a/b/c.html" under the output directory. */
  lemma {:induction false} CleanDest(cwd: string, contentDir: string, outputDir: string, f: string)
    requires CleanEntry(f) && EndsWith(f, Extension)
    ensures var item := MakeItem(cwd, contentDir, f); var segs := Segments(f);
      && segs != []
      && segs[|segs| - 1] == item.name + Extension
      && Resolve(cwd, DestDir(outputDir, item)) == Resolve(cwd, outputDir) + segs[..|segs| - 1]
      && Resolve(cwd, DestFile(outputDir, item)) == Resolve(cwd, outputDir) + segs[..|segs| - 1] + [item.name + PageExtension]
  {
    var item := MakeItem(cwd, contentDir, f);
    var segs := Segments(f);
    CleanItem(cwd, contentDir, f);
    ItemName(cwd, contentDir, f);
    ResolveJoin(cwd, outputDir, item.subDir);
    NormFromNamed(Resolve(cwd, outputDir), segs[..|segs| - 1]);
    DestFileInDir(cwd, outputDir, item);
  }

  /** The page file of a clean listed name, in terms of the name's directory
      part `init` and its final part less ".md". */
  lemma {:induction false} CleanDestParts(cwd: string, contentDir: string, outputDir: string, f: string)
    returns (init: seq<string>, name: string)
    requires CleanEntry(f) && EndsWith(f, Extension)
    ensures Segments(f) == init + [name + Extension]
    ensures Resolve(cwd, DestFile(outputDir, MakeItem(cwd, contentDir, f))) == Resolve(cwd, outputDir) + init + [name + PageExtension]
  {
    var segs := Segments(f);
    var item := MakeItem(cwd, contentDir, f);
    CleanDest(cwd, contentDir, outputDir, f);
    init, name := segs[..|segs| - 1], item.name;
    SplitLast(segs, name + Extension);
  }

  /** A non-empty sequence is its front followed by its last element. */
  lemma {:induction false} SplitLast(segs: seq<string>, last: string)
    requires segs != [] && segs[|segs| - 1] == last
    ensures segs == segs[..|segs| - 1] + [last]
  {
  }

  /** Page locations determine the directory part and the name. */
  lemma {:induction false} PageLocationInjective(out: seq<string>, a: seq<string>, x: string, b: seq<string>, y: string)
    requires out + a + [x + PageExtension] == out + b + [y + PageExtension]
    ensures a == b && x == y
  {
    var d := out + a + [x + PageExtension];
    var e := out + b + [y + PageExtension];
    assert d[|out|..|d| - 1] == a && e[|out|..|e| - 1] == b;
    assert d[|d| - 1] == x + PageExtension && e[|e| - 1] == y + PageExtension;
    assert (x + PageExtension)[..|x|] == x && (y + PageExtension)[..|y|] == y;
  }

  /** Two different clean names ending in ".md" get different page files. */
  lemma {:induction false} CleanDestsDiffer(cwd: string, contentDir: string, outputDir: string, f: string, g: string)
    requires CleanEntry(f) && EndsWith(f, Extension)
    requires CleanEntry(g) && EndsWith(g, Extension)
    requires f != g
    ensures Resolve(cwd, DestFile(outputDir, MakeItem(cwd, contentDir, f)))
      != Resolve(cwd, DestFile(outputDir, MakeItem(cwd, contentDir, g)))
  {
    var a, x := CleanDestParts(cwd, contentDir, outputDir, f);
    var b, y := CleanDestParts(cwd, contentDir, outputDir, g);
    var out := Resolve(cwd, outputDir);
    if out + a + [x + PageExtension] == out + b + [y + PageExtension] {
      PageLocationInjective(out, a, x, b, y);
      CleanInjective(f, g);
    }
  }

  // ---------------------------------------------------------------------------
  // Writing the pages

  /** The write job for a rendered document: its `destDir`, its `destFile`
      and its page, at the locations the two strings name. */
  function JobOf(cwd: string, outputDir: string, item: ContentItem): Job
    requires item.html.Some?
  {
    Job(Resolve(cwd, DestDir(outputDir, item)), Resolve(cwd, DestFile(outputDir, item)), item.html.value)
  }

  /** The jobs of the write loop, one per rendered document, in order. */
  function Jobs(cwd: string, outputDir: string, pages: seq<ContentItem>): (jobs: seq<Job>)
    requires forall i :: 0 <= i < |pages| ==> pages[i].html.Some?
    ensures |jobs| == |pages|
    ensures forall i :: 0 <= i < |pages| ==> jobs[i] == JobOf(cwd, outputDir, pages[i])
  {
    seq(|pages|, i requires 0 <= i < |pages| => JobOf(cwd, outputDir, pages[i]))
  }

  /** Every scanned document can be read: its `path` names the regular file
      the filter kept, so the render map never throws, and every rendered
      document carries its page. */
  lemma {:induction false} ScanRenders(fs: FileSystem, cwd: string, contentDir: string, listing: seq<string>, engines: Engines)
    ensures var items := GetMarkdownFiles(fs, cwd, contentDir, listing);
      && (forall i :: 0 <= i < |items| ==> IsFile(fs, Resolve(cwd, items[i].path)))
      && RenderAll(fs, cwd, engines, items).Some?
      && forall i :: 0 <= i < |items| ==> RenderAll(fs, cwd, engines, items).value[i].html.Some?
  {
    var items := GetMarkdownFiles(fs, cwd, contentDir, listing);
    forall i | 0 <= i < |items|
      ensures IsFile(fs, Resolve(cwd, items[i].path))
    {
      var a := SelectOrigin(fs, cwd, contentDir, listing, i);
      ItemPath(cwd, contentDir, listing[a]);
    }
  }

  /** The page-writing part of a run: scan, render, then the write loop. A
      failed read leaves the filesystem as it was. */
  function Publish(fs: FileSystem, cwd: string, contentDir: string, outputDir: string, listing: seq<string>, engines: Engines): (w: Written)
    ensures RenderAll(fs, cwd, engines, GetMarkdownFiles(fs, cwd, contentDir, listing)).None? ==> w == Written(fs, false)
  {
    var items := GetMarkdownFiles(fs, cwd, contentDir, listing);
    match RenderAll(fs, cwd, engines, items)
    case None => Written(fs, false)
    case Some(pages) =>
      assert forall i :: 0 <= i < |pages| ==> pages[i].html.Some?;
      WriteAll(fs, Jobs(cwd, outputDir, pages))
  }

  /** The location the page of the `i`-th scanned document is written to. */
  ghost function PageLocation(fs: FileSystem, cwd: string, contentDir: string, outputDir: string, listing: seq<string>, i: nat): seq<string>
    requires i < |GetMarkdownFiles(fs, cwd, contentDir, listing)|
  {
    Resolve(cwd, DestFile(outputDir, GetMarkdownFiles(fs, cwd, contentDir, listing)[i]))
  }

  /** The jobs of a run are those of the scanned documents, each writing the
      page location of its document. */
  lemma {:induction false} PublishJobs(fs: FileSystem, cwd: string, contentDir: string, outputDir: string, listing: seq<string>, engines: Engines)
    returns (pages: seq<ContentItem>, jobs: seq<Job>)
    ensures var items := GetMarkdownFiles(fs, cwd, contentDir, listing);
      && RenderAll(fs, cwd, engines, items) == Some(pages)
      && |pages| == |jobs| == |items|
      && (forall i :: 0 <= i < |pages| ==> pages[i].html.Some?)
      && jobs == Jobs(cwd, outputDir, pages)
      && Publish(fs, cwd, contentDir, outputDir, listing, engines) == WriteAll(fs, jobs)
      && forall i :: 0 <= i < |items| ==>
           && jobs[i].file == PageLocation(fs, cwd, contentDir, outputDir, listing, i)
           && jobs[i].html == Page(engines, items[i], fs[Resolve(cwd, items[i].path)].content)
  {
    var items := GetMarkdownFiles(fs, cwd, contentDir, listing);
    ScanRenders(fs, cwd, contentDir, listing, engines);
    pages := RenderAll(fs, cwd, engines, items).value;
    jobs := Jobs(cwd, outputDir, pages);
  }

  /** Distinct clean listed names give the scanned documents distinct page locations. */
  lemma {:induction false} PageLocationsDistinct(fs: FileSystem, cwd: string, contentDir: string, outputDir: string, listing: seq<string>, i: nat, j: nat)
    requires forall f :: f in listing ==> CleanEntry(f)
    requires forall a, b :: 0 <= a < b < |listing| ==> listing[a] != listing[b]
    requires i < j < |GetMarkdownFiles(fs, cwd, contentDir, listing)|
    ensures PageLocation(fs, cwd, contentDir, outputDir, listing, i) != PageLocation(fs, cwd, contentDir, outputDir, listing, j)
  {
    assert GetMarkdownFiles(fs, cwd, contentDir, listing) == Select(fs, cwd, contentDir, listing);
    var a, b := SelectOrigins(fs, cwd, contentDir, listing, i, j);
    CleanDestsDiffer(cwd, contentDir, outputDir, listing[a], listing[b]);
  }

  /** After a successful run over distinct clean listed names, the page
      location of every scanned document holds that document's page, and in a
      well-formed tree every ancestor of it is a directory. */
  lemma {:induction false} PublishWrites(fs: FileSystem, cwd: string, contentDir: string, outputDir: string, listing: seq<string>, engines: Engines, i: nat)
    requires forall f :: f in listing ==> CleanEntry(f)
    requires forall a, b :: 0 <= a < b < |listing| ==> listing[a] != listing[b]
    requires Publish(fs, cwd, contentDir, outputDir, listing, engines).ok
    requires i < |GetMarkdownFiles(fs, cwd, contentDir, listing)|
    ensures var item := GetMarkdownFiles(fs, cwd, contentDir, listing)[i];
      var g := Publish(fs, cwd, contentDir, outputDir, listing, engines).fs;
      var q := PageLocation(fs, cwd, contentDir, outputDir, listing, i);
      && IsFile(fs, Resolve(cwd, item.path))
      && q in g
      && g[q] == File(Page(engines, item, fs[Resolve(cwd, item.path)].content))
      && (WellFormed(fs) ==> forall k :: 0 <= k < |q| ==> IsDir(g, q[..k]))
  {
    var items := GetMarkdownFiles(fs, cwd, contentDir, listing);
    ScanRenders(fs, cwd, contentDir, listing, engines);
    var pages, jobs := PublishJobs(fs, cwd, contentDir, outputDir, listing, engines);
    forall a, b | 0 <= a < b < |jobs|
      ensures jobs[a].file != jobs[b].file
    {
      PageLocationsDistinct(fs, cwd, contentDir, outputDir, listing, a, b);
    }
    WriteAllDistinct(fs, jobs, i);
    var g := WriteAll(fs, jobs).fs;
    var q := jobs[i].file;
    if WellFormed(fs) {
      forall k | 0 <= k < |q|
        ensures IsDir(g, q[..k])
      {
        AncestorsAreDirs(g, q, k);
      }
    }
  }

  /** A run changes no existing entry except at the page locations of the
      scanned documents, and turns no directory into a file or back. */
  lemma {:induction false} PublishFrame(fs: FileSystem, cwd: string, contentDir: string, outputDir: string, listing: seq<string>, engines: Engines, q: seq<string>)
    requires q in fs
    ensures var g := Publish(fs, cwd, contentDir, outputDir, listing, engines).fs;
      && q in g
      && (fs[q].Dir? <==> g[q].Dir?)
      && ((forall i :: 0 <= i < |GetMarkdownFiles(fs, cwd, contentDir, listing)| ==>
            q != PageLocation(fs, cwd, contentDir, outputDir, listing, i)) ==> g[q] == fs[q])
  {
    var pages, jobs := PublishJobs(fs, cwd, contentDir, outputDir, listing, engines);
    if Targets(jobs, q) {
      var i :| 0 <= i < |jobs| && jobs[i].file == q;
      assert q == PageLocation(fs, cwd, contentDir, outputDir, listing, i);
    }
  }

  // ---------------------------------------------------------------------------
  // Re-running

  /** No name ends both in ".md" and in ".html". */
  lemma {:induction false} NotBoth(x: string)
    ensures !(EndsWith(x, Extension) && EndsWith(x, PageExtension))
  {
    if |x| >= 5 {
      assert x[|x| - 3..][2] == x[|x| - 1] == x[|x| - 5..][4];
    }
  }

  /** The last name of the location `p` ends in `suffix`. */
  predicate LastEndsWith(p: seq<string>, suffix: string) {
    p != [] && EndsWith(p[|p| - 1], suffix)
  }

  /** A page location ends in a name ending in ".html". */
  lemma {:induction false} PageLocationIsPage(fs: FileSystem, cwd: string, contentDir: string, outputDir: string, listing: seq<string>, i: nat)
    requires i < |GetMarkdownFiles(fs, cwd, contentDir, listing)|
    ensures LastEndsWith(PageLocation(fs, cwd, contentDir, outputDir, listing, i), PageExtension)
  {
    var item := GetMarkdownFiles(fs, cwd, contentDir, listing)[i];
    var a := SelectOrigin(fs, cwd, contentDir, listing, i);
    ItemName(cwd, contentDir, listing[a]);
    DestFileInDir(cwd, outputDir, item);
    assert (item.name + PageExtension)[|item.name|..] == PageExtension;
  }

  /** The location of a listed name ending in ".md" ends in a name ending in ".md". */
  lemma {:induction false} LocatedIsSource(cwd: string, contentDir: string, f: string)
    requires EndsWith(f, Extension)
    ensures LastEndsWith(Located(cwd, contentDir, f), Extension)
  {
    LocatedLast(cwd, contentDir, f);
  }

  /** The location of a listed name ending in ".md" is no page location. */
  lemma {:induction false} LocatedNotPage(fs: FileSystem, cwd: string, contentDir: string, outputDir: string, listing: seq<string>, f: string, i: nat)
    requires EndsWith(f, Extension)
    requires i < |GetMarkdownFiles(fs, cwd, contentDir, listing)|
    ensures Located(cwd, contentDir, f) != PageLocation(fs, cwd, contentDir, outputDir, listing, i)
  {
    LocatedIsSource(cwd, contentDir, f);
    PageLocationIsPage(fs, cwd, contentDir, outputDir, listing, i);
    LastDiffers(Located(cwd, contentDir, f), PageLocation(fs, cwd, contentDir, outputDir, listing, i));
  }

  /** A location whose last name ends in ".md" differs from one whose last name ends in ".html". */
  lemma {:induction false} LastDiffers(p: seq<string>, q: seq<string>)
    requires LastEndsWith(p, Extension) && LastEndsWith(q, PageExtension)
    ensures p != q
  {
    NotBoth(p[|p| - 1]);
  }

  /** A run leaves the filter's verdict on every listed name as it was. */
  lemma {:induction false} PublishKeepsSelection(fs: FileSystem, cwd: string, contentDir: string, outputDir: string, listing: seq<string>, engines: Engines, f: string)
    ensures Selected(Publish(fs, cwd, contentDir, outputDir, listing, engines).fs, cwd, contentDir, f)
      == Selected(fs, cwd, contentDir, f)
  {
    var g := Publish(fs, cwd, contentDir, outputDir, listing, engines).fs;
    var p := Located(cwd, contentDir, f);
    if EndsWith(f, Extension) {
      var pages, jobs := PublishJobs(fs, cwd, contentDir, outputDir, listing, engines);
      if p in fs {
        PublishFrame(fs, cwd, contentDir, outputDir, listing, engines, p);
      } else {
        assert !Targets(jobs, p) by {
          forall i | 0 <= i < |jobs|
            ensures jobs[i].file != p
          {
            LocatedNotPage(fs, cwd, contentDir, outputDir, listing, f, i);
          }
        }
      }
    }
  }

  /** A run leaves the source file of every scanned document as it was. */
  lemma {:induction false} PublishKeepsSources(fs: FileSystem, cwd: string, contentDir: string, outputDir: string, listing: seq<string>, engines: Engines, i: nat)
    requires i < |GetMarkdownFiles(fs, cwd, contentDir, listing)|
    ensures var q := Resolve(cwd, GetMarkdownFiles(fs, cwd, contentDir, listing)[i].path);
      var g := Publish(fs, cwd, contentDir, outputDir, listing, engines).fs;
      IsFile(fs, q) && q in g && g[q] == fs[q]
  {
    var a := SelectOrigin(fs, cwd, contentDir, listing, i);
    ItemPath(cwd, contentDir, listing[a]);
    var q := Located(cwd, contentDir, listing[a]);
    forall k | 0 <= k < |GetMarkdownFiles(fs, cwd, contentDir, listing)|
      ensures q != PageLocation(fs, cwd, contentDir, outputDir, listing, k)
    {
      LocatedNotPage(fs, cwd, contentDir, outputDir, listing, listing[a], k);
    }
    PublishFrame(fs, cwd, contentDir, outputDir, listing, engines, q);
  }

  /** Running the page-writing part again, with the same listing, on the
      filesystem a successful run produced changes nothing. */
  lemma {:induction false} PublishIdempotent(fs: FileSystem, cwd: string, contentDir: string, outputDir: string, listing: seq<string>, engines: Engines)
    requires Publish(fs, cwd, contentDir, outputDir, listing, engines).ok
    ensures var g := Publish(fs, cwd, contentDir, outputDir, listing, engines).fs;
      Publish(g, cwd, contentDir, outputDir, listing, engines) == Publish(fs, cwd, contentDir, outputDir, listing, engines)
  {
    var w := Publish(fs, cwd, contentDir, outputDir, listing, engines);
    var g := w.fs;
    var items := GetMarkdownFiles(fs, cwd, contentDir, listing);
    var pages, jobs := PublishJobs(fs, cwd, contentDir, outputDir, listing, engines);
    var root := Resolve(cwd, contentDir);
    if root in fs {
      PublishFrame(fs, cwd, contentDir, outputDir, listing, engines, root);
    } else {
      assert items == [] && jobs == [];
    }
    assert IsDir(g, root) == IsDir(fs, root);
    forall f | f in listing
      ensures Selected(fs, cwd, contentDir, f) == Selected(g, cwd, contentDir, f)
    {
      PublishKeepsSelection(fs, cwd, contentDir, outputDir, listing, engines, f);
    }
    SelectAgree(fs, g, cwd, contentDir, listing);
    assert GetMarkdownFiles(g, cwd, contentDir, listing) == items;
    forall i | 0 <= i < |items|
      ensures IsFile(fs, Resolve(cwd, items[i].path)) && Resolve(cwd, items[i].path) in g
      ensures g[Resolve(cwd, items[i].path)] == fs[Resolve(cwd, items[i].path)]
    {
      PublishKeepsSources(fs, cwd, contentDir, outputDir, listing, engines, i);
    }
    RenderAllReads(fs, g, cwd, engines, items);
    WriteAllIdempotent(fs, jobs);
  }

  // ---------------------------------------------------------------------------
  // The static tree

  /** `getPath(staticDir).getFileName()`: the last segment of the path as
      written, not normalized; "" when it has none (the root). */
  function FileName(staticDir: string): (n: string)
    ensures n == "" <==> Segments(staticDir) == []
    ensures '/' !in n
  {
    var segs := Parse(staticDir).segs;
    if segs == [] then "" else segs[|segs| - 1]
  }

  /** For a static directory written without a trailing separator, the file
      name is its final component as written. */
  lemma {:induction false} FileNameFinal(staticDir: string)
    requires staticDir != "" && staticDir[|staticDir| - 1] != '/'
    ensures FileName(staticDir) != "" && FinalComponent(staticDir, FileName(staticDir))
  {
    SegmentsLast(staticDir);
  }

  /** Where the static tree is copied: the output directory joined with the
      static directory's file name. */
  function StaticTarget(staticDir: string, outputDir: string): (t: string)
    ensures Segments(t) == Segments(outputDir) + (if FileName(staticDir) == "" then [] else [FileName(staticDir)])
  {
    var n := FileName(staticDir);
    SegmentsJoin(outputDir, n);
    if n != "" then SegmentsPiece(n); Join(outputDir, n) else Join(outputDir, n)
  }

  /** When the static directory's written name is a plain name, the static
      tree lands in a directory of that name inside the output directory,
      never in the output directory itself. */
  lemma {:induction false} StaticTargetChild(cwd: string, staticDir: string, outputDir: string)
    requires IsName(FileName(staticDir))
    ensures Resolve(cwd, StaticTarget(staticDir, outputDir)) == Resolve(cwd, outputDir) + [FileName(staticDir)]
    ensures Resolve(cwd, StaticTarget(staticDir, outputDir)) != Resolve(cwd, outputDir)
  {
    var n := FileName(staticDir);
    assert JoinSegs([n]) == n;
    SegmentsJoinSegs([n]);
    assert n[0] != '/';
    ResolveJoin(cwd, outputDir, n);
    NormFromNamed(Resolve(cwd, outputDir), [n]);
  }

  /** The file name is taken before normalization: for a static directory
      written "." the static tree is copied into the output directory itself,
      and for ".." into its parent. */
  lemma {:induction false} StaticTargetDots(cwd: string, outputDir: string)
    ensures Resolve(cwd, StaticTarget(".", outputDir)) == Resolve(cwd, outputDir)
    ensures var out := Resolve(cwd, outputDir);
      out != [] ==> Resolve(cwd, StaticTarget("..", outputDir)) == out[..|out| - 1]
  {
    assert FirstSlash(".") == 1 && FirstSlash("..") == 2;
    assert Segments(".") == ["."] by {
      assert "."[..1] == "." && "."[1..] == [];
    }
    assert Segments("..") == [".."] by {
      assert ".."[..2] == ".." && ".."[2..] == [];
    }
    assert FileName(".") == "." && FileName("..") == "..";
    ResolveJoin(cwd, outputDir, ".");
    ResolveJoin(cwd, outputDir, "..");
  }

  // ---------------------------------------------------------------------------
  // The whole run

  /** The exit status: a code returned, or an exception thrown out of the run. */
  datatype Exit = Code(code: int) | Threw

  /** The exit status and the filesystem the run leaves. */
  datatype Outcome = Outcome(exit: Exit, fs: FileSystem)

  /** Everything the run depends on besides the filesystem and its four
      arguments: the working directory, the listing `fs.listTree(contentDir)`
      returns, the two engines, and `fs.copyTree` (source and target
      locations; `None` when it throws). */
  datatype Env = Env(
    cwd: string,
    listing: seq<string>,
    engines: Engines,
    copyTree: (FileSystem, seq<string>, seq<string>) -> Option<FileSystem>)

  /** The content, output and static directories all exist as directories. */
  predicate DirectoriesExist(fs: FileSystem, cwd: string, contentDir: string, staticDir: string, outputDir: string) {
    IsDir(fs, Resolve(cwd, contentDir)) && IsDir(fs, Resolve(cwd, outputDir)) && IsDir(fs, Resolve(cwd, staticDir))
  }

  /** Something exists at `templateDir` joined with "base.html". */
  predicate TemplateExists(fs: FileSystem, cwd: string, templateDir: string) {
    Resolve(cwd, Join(templateDir, TemplateName)) in fs
  }

  /** `generateProject(contentDir, staticDir, templateDir, outputDir)`. */
  function GenerateProject(fs: FileSystem, env: Env, contentDir: string, staticDir: string, templateDir: string, outputDir: string): (o: Outcome)
    ensures o.exit == Code(1) <==>
      !(DirectoriesExist(fs, env.cwd, contentDir, staticDir, outputDir) && TemplateExists(fs, env.cwd, templateDir))
    ensures o.exit == Code(1) ==> o.fs == fs
    ensures o.exit == Code(0) || o.exit == Code(1) || o.exit == Threw
  {
    if !DirectoriesExist(fs, env.cwd, contentDir, staticDir, outputDir) then Outcome(Code(1), fs)
    else if !TemplateExists(fs, env.cwd, templateDir) then Outcome(Code(1), fs)
    else
      var w := Publish(fs, env.cwd, contentDir, outputDir, env.listing, env.engines);
      if !w.ok then Outcome(Threw, w.fs)
      else
        match env.copyTree(w.fs, Resolve(env.cwd, staticDir), Resolve(env.cwd, StaticTarget(staticDir, outputDir)))
        case None => Outcome(Threw, w.fs)
        case Some(g) => Outcome(Code(0), g)
  }

  /** A run returns 0 exactly when the checks pass, every page is written and
      the static tree is copied to its target; the result is the copy's. */
  lemma {:induction false} GenerateSucceeds(fs: FileSystem, env: Env, contentDir: string, staticDir: string, templateDir: string, outputDir: string)
    ensures var o := GenerateProject(fs, env, contentDir, staticDir, templateDir, outputDir);
      var w := Publish(fs, env.cwd, contentDir, outputDir, env.listing, env.engines);
      var copied := env.copyTree(w.fs, Resolve(env.cwd, staticDir), Resolve(env.cwd, StaticTarget(staticDir, outputDir)));
      && (o.exit == Code(0) <==>
           DirectoriesExist(fs, env.cwd, contentDir, staticDir, outputDir) && TemplateExists(fs, env.cwd, templateDir)
           && w.ok && copied.Some?)
      && (o.exit == Code(0) ==> o.fs == copied.value)
  {
  }
}
