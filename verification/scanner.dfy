/** Markdown discovery (`getMarkdownFiles`): keep the listed regular files
    whose name ends in ".md" and give each its identity: absolute path, name,
    the scanned root, and the subdirectory relative to that root. */
module Scanner {
  import opened Options
  import opened Strings
  import opened Paths
  import opened Files
  import opened FilterMaps

  /** One discovered document. The path fields are printed paths, as the
      generator passes them on; `html` is absent until the page is rendered. */
  datatype ContentItem = ContentItem(
    path: string,
    name: string,
    baseDir: string,
    subDir: string,
    html: Option<string>)

  const Extension := ".md"

  /** The location a listed name denotes: `directory` joined with `file`, made
      absolute and normalized. */
  function Located(cwd: string, directory: string, file: string): seq<string> {
    Resolve(cwd, Join(directory, file))
  }

  /** The filter: a regular file whose listed name ends in ".md". */
  predicate Selected(fs: FileSystem, cwd: string, directory: string, file: string) {
    IsFile(fs, Located(cwd, directory, file)) && EndsWith(file, Extension)
  }

  /** The item for one kept file: the printed resolved path, the file name
      less its last three characters, the printed root, and the printed path
      from the root to the file's parent. */
  function MakeItem(cwd: string, directory: string, file: string): (item: ContentItem)
    requires EndsWith(file, Extension)
    ensures item.html == None
  {
    LocatedLast(cwd, directory, file);
    ItemAt(Located(cwd, directory, file), Resolve(cwd, directory))
  }

  /** The item for the file at location `p` under the root location `base`. */
  function ItemAt(p: seq<string>, base: seq<string>): ContentItem
    requires p != []
  {
    var fileName := p[|p| - 1];
    ContentItem(
      ToString(Path(true, p)),
      JsSubstring(fileName, 0, |fileName| - 3),
      ToString(Path(true, base)),
      ToString(Path(false, Relativize(base, p[..|p| - 1]))),
      None)
  }

  /** The printed locations parse and resolve back to the locations. */
  lemma {:induction false} ItemAtPath(cwd: string, p: seq<string>, base: seq<string>)
    requires p != [] && Named(p) && Named(base)
    ensures var item := ItemAt(p, base);
      && Parse(item.path) == Path(true, p)
      && Resolve(cwd, item.path) == p
      && Parse(item.baseDir) == Path(true, base)
      && Resolve(cwd, item.baseDir) == base
  {
    ParseToString(Path(true, p));
    ParseToString(Path(true, base));
    ResolveCanonical(cwd, p);
    ResolveCanonical(cwd, base);
  }

  /** `name` + ".md" is the last name of the location. */
  lemma {:induction false} ItemAtName(p: seq<string>, base: seq<string>)
    requires p != [] && IsName(p[|p| - 1]) && EndsWith(p[|p| - 1], Extension)
    ensures p[|p| - 1] == ItemAt(p, base).name + Extension
    ensures '/' !in ItemAt(p, base).name
  {
    var fileName := p[|p| - 1];
    assert ItemAt(p, base).name == fileName[..|fileName| - 3];
    assert fileName[..|fileName| - 3] + Extension == fileName;
  }

  /** `subDir` is relative, and resolving `baseDir` joined with it gives the parent location. */
  lemma {:induction false} ItemAtSubDir(cwd: string, p: seq<string>, base: seq<string>)
    requires p != [] && Named(p) && Named(base)
    ensures var item := ItemAt(p, base);
      && !Parse(item.subDir).absolute
      && Parse(item.subDir).segs == Relativize(base, p[..|p| - 1])
      && Resolve(cwd, Join(item.baseDir, item.subDir)) == p[..|p| - 1]
      && (item.subDir == "" <==> p[..|p| - 1] == base)
  {
    var item := ItemAt(p, base);
    var parent := p[..|p| - 1];
    var rel := Relativize(base, parent);
    assert Named(parent);
    ParseToString(Path(false, rel));
    ItemAtPath(cwd, p, base);
    ResolveJoin(cwd, item.baseDir, item.subDir);
    RelativizeResolves(base, parent);
    ToStringEmpty(Path(false, rel));
    RelativizeEmpty(base, parent);
  }

  /** `path` is the printed form of the file's absolute, normalized location,
      and `baseDir` that of the scanned root. */
  lemma {:induction false} ItemPath(cwd: string, directory: string, file: string)
    requires EndsWith(file, Extension)
    ensures var item := MakeItem(cwd, directory, file);
      && Parse(item.path) == Path(true, Located(cwd, directory, file))
      && Named(Parse(item.path).segs)
      && Resolve(cwd, item.path) == Located(cwd, directory, file)
      && Parse(item.baseDir) == Path(true, Resolve(cwd, directory))
      && Resolve(cwd, item.baseDir) == Resolve(cwd, directory)
  {
    LocatedLast(cwd, directory, file);
    ItemAtPath(cwd, Located(cwd, directory, file), Resolve(cwd, directory));
  }

  /** `name` followed by ".md" is the file's final component, both of the
      listed name and of the resolved path; it has no separator. */
  lemma {:induction false} ItemName(cwd: string, directory: string, file: string)
    requires EndsWith(file, Extension)
    ensures var item := MakeItem(cwd, directory, file); var p := Located(cwd, directory, file);
      && p != []
      && p[|p| - 1] == item.name + Extension
      && EndsWith(file, item.name + Extension)
      && '/' !in item.name
  {
    LocatedLast(cwd, directory, file);
    var p := Located(cwd, directory, file);
    var item := MakeItem(cwd, directory, file);
    assert item == ItemAt(p, Resolve(cwd, directory));
    assert IsName(p[|p| - 1]);
    ItemAtName(p, Resolve(cwd, directory));
    assert p[|p| - 1] == item.name + Extension;
  }

  /** `subDir` is relative; joining `baseDir` with it and resolving gives the
      file's parent directory, and it is empty exactly when the file sits
      directly in the scanned root. */
  lemma {:induction false} ItemSubDir(cwd: string, directory: string, file: string)
    requires EndsWith(file, Extension)
    ensures var item := MakeItem(cwd, directory, file); var p := Located(cwd, directory, file);
      && p != []
      && !Parse(item.subDir).absolute
      && Resolve(cwd, Join(item.baseDir, item.subDir)) == p[..|p| - 1]
      && (item.subDir == "" <==> p[..|p| - 1] == Resolve(cwd, directory))
  {
    LocatedLast(cwd, directory, file);
    ItemAtSubDir(cwd, Located(cwd, directory, file), Resolve(cwd, directory));
  }

  /** The filter, as a test on listed names. */
  function Keep(fs: FileSystem, cwd: string, directory: string): string -> bool {
    f => Selected(fs, cwd, directory, f)
  }

  /** The item construction, as a map on listed names ending in ".md". */
  function Make(cwd: string, directory: string): string --> ContentItem {
    f requires EndsWith(f, Extension) => MakeItem(cwd, directory, f)
  }

  /** The kept files of `listing`, in listing order. */
  function Select(fs: FileSystem, cwd: string, directory: string, listing: seq<string>): (items: seq<ContentItem>)
    ensures |items| <= |listing|
    ensures forall i :: 0 <= i < |items| ==> items[i].html == None
  {
    var items := FilterMap(listing, Keep(fs, cwd, directory), Make(cwd, directory));
    assert forall i :: 0 <= i < |items| ==> items[i].html == None by {
      forall i | 0 <= i < |items|
        ensures items[i].html == None
      {
        var a := FilterMapOrigin(listing, Keep(fs, cwd, directory), Make(cwd, directory), i);
      }
    }
    items
  }

  /** `getMarkdownFiles(directory)`, with `listing` the result of `fs.listTree(directory)`. */
  function GetMarkdownFiles(fs: FileSystem, cwd: string, directory: string, listing: seq<string>): (items: seq<ContentItem>)
    ensures !IsDir(fs, Resolve(cwd, directory)) ==> items == []
    ensures forall i :: 0 <= i < |items| ==> items[i].html == None
  {
    if IsDir(fs, Resolve(cwd, directory)) then Select(fs, cwd, directory, listing) else []
  }

  // ---------------------------------------------------------------------------

  /** The resolved location of a name ending in ".md" ends with the listed
      name's final component. */
  lemma {:induction false} LocatedLast(cwd: string, directory: string, file: string)
    requires EndsWith(file, Extension)
    ensures var p := Located(cwd, directory, file); var segs := Segments(file);
      && p != [] && segs != []
      && p[|p| - 1] == segs[|segs| - 1]
      && EndsWith(p[|p| - 1], Extension) && EndsWith(file, p[|p| - 1])
  {
    var segs := Segments(file);
    LastSegmentEndsWith(file, Extension);
    var last := segs[|segs| - 1];
    assert IsName(last);
    var start := LocatedFrom(cwd, directory, file);
    NormFromLast(start, segs);
  }

  /** The resolved location of a listed name is its segments normalized on top
      of the resolved root (or of the filesystem root, for an absolute name
      under an empty root). */
  lemma {:induction false} LocatedFrom(cwd: string, directory: string, file: string) returns (start: seq<string>)
    ensures Located(cwd, directory, file) == NormFrom(start, Segments(file))
    ensures directory != "" || !Parse(file).absolute ==> start == Resolve(cwd, directory)
  {
    if directory != "" || !Parse(file).absolute {
      start := Resolve(cwd, directory);
      ResolveJoin(cwd, directory, file);
    } else {
      start := [];
      assert Join(directory, file) == file;
      assert Located(cwd, directory, file) == Normalize(Segments(file));
    }
  }

  /** An item is in the scan exactly when it is made from a kept listed name. */
  lemma {:induction false} SelectMembers(fs: FileSystem, cwd: string, directory: string, listing: seq<string>, item: ContentItem)
    ensures item in Select(fs, cwd, directory, listing) <==>
      exists f :: f in listing && Selected(fs, cwd, directory, f) && item == MakeItem(cwd, directory, f)
  {
    FilterMapMembers(listing, Keep(fs, cwd, directory), Make(cwd, directory), item);
  }

  /** Scanning distributes over concatenation of the listing, so items come
      out in listing order. */
  lemma {:induction false} SelectAppend(fs: FileSystem, cwd: string, directory: string, a: seq<string>, b: seq<string>)
    ensures Select(fs, cwd, directory, a + b) == Select(fs, cwd, directory, a) + Select(fs, cwd, directory, b)
  {
    FilterMapAppend(a, b, Keep(fs, cwd, directory), Make(cwd, directory));
  }

  /** One listed name yields one item when it is kept and none otherwise. */
  lemma {:induction false} SelectOne(fs: FileSystem, cwd: string, directory: string, f: string)
    ensures Selected(fs, cwd, directory, f) ==> Select(fs, cwd, directory, [f]) == [MakeItem(cwd, directory, f)]
    ensures !Selected(fs, cwd, directory, f) ==> Select(fs, cwd, directory, [f]) == []
  {
    assert [f][1..] == [];
  }

  /** The kept listed names. */
  ghost function Kept(fs: FileSystem, cwd: string, directory: string, listing: seq<string>): set<string> {
    set f | f in listing && Selected(fs, cwd, directory, f)
  }

  /** The scan looks at the filesystem only through the filter: two
      filesystems on which the filter agrees over the listing scan alike. */
  lemma {:induction false} SelectAgree(fs: FileSystem, g: FileSystem, cwd: string, directory: string, listing: seq<string>)
    requires forall f :: f in listing ==> Selected(fs, cwd, directory, f) == Selected(g, cwd, directory, f)
    ensures Select(g, cwd, directory, listing) == Select(fs, cwd, directory, listing)
  {
    FilterMapAgree(listing, Keep(fs, cwd, directory), Keep(g, cwd, directory), Make(cwd, directory));
  }

  /** Over a listing without repetitions, there are exactly as many items as kept names. */
  lemma {:induction false} SelectCount(fs: FileSystem, cwd: string, directory: string, listing: seq<string>)
    requires forall a, b :: 0 <= a < b < |listing| ==> listing[a] != listing[b]
    ensures |Select(fs, cwd, directory, listing)| == |Kept(fs, cwd, directory, listing)|
  {
    FilterMapCount(listing, Keep(fs, cwd, directory), Make(cwd, directory));
    assert KeptSet(listing, Keep(fs, cwd, directory)) == Kept(fs, cwd, directory, listing);
  }

  /** Each item comes from a kept listed name. */
  lemma {:induction false} SelectOrigin(fs: FileSystem, cwd: string, directory: string, listing: seq<string>, i: nat)
    returns (a: nat)
    requires i < |Select(fs, cwd, directory, listing)|
    ensures a < |listing| && Selected(fs, cwd, directory, listing[a])
    ensures Select(fs, cwd, directory, listing)[i] == MakeItem(cwd, directory, listing[a])
  {
    a := FilterMapOrigin(listing, Keep(fs, cwd, directory), Make(cwd, directory), i);
  }

  /** Later items come from later listed names. */
  lemma {:induction false} SelectOrigins(fs: FileSystem, cwd: string, directory: string, listing: seq<string>, i: nat, j: nat)
    returns (a: nat, b: nat)
    requires i < j < |Select(fs, cwd, directory, listing)|
    ensures a < b < |listing|
    ensures Selected(fs, cwd, directory, listing[a]) && Selected(fs, cwd, directory, listing[b])
    ensures Select(fs, cwd, directory, listing)[i] == MakeItem(cwd, directory, listing[a])
    ensures Select(fs, cwd, directory, listing)[j] == MakeItem(cwd, directory, listing[b])
  {
    a, b := FilterMapOrigins(listing, Keep(fs, cwd, directory), Make(cwd, directory), i, j);
  }

  // ---------------------------------------------------------------------------
  // Listings as `fs.listTree` produces them

  /** A name as a tree listing gives it: relative, in canonical form, with no
      "." or ".." segment. */
  predicate CleanEntry(file: string) {
    Named(Segments(file)) && file == JoinSegs(Segments(file))
  }

  /** A clean listed name is relative, so it resolves to the root followed by its segments. */
  lemma {:induction false} CleanLocated(cwd: string, directory: string, file: string)
    requires CleanEntry(file) && file != ""
    ensures Segments(file) != []
    ensures Located(cwd, directory, file) == Resolve(cwd, directory) + Segments(file)
  {
    var segs := Segments(file);
    assert segs != [];
    JoinSegsHead(segs);
    assert !Parse(file).absolute;
    var start := LocatedFrom(cwd, directory, file);
    NormFromNamed(start, segs);
  }

  /** For a clean listed name the item sits under the scanned root: its path is
      the root followed by the name's segments, its `subDir` is the name's
      directory part (never climbing out), and its `name` the final part less ".md". */
  lemma {:induction false} CleanItem(cwd: string, directory: string, file: string)
    requires CleanEntry(file) && EndsWith(file, Extension)
    ensures var item := MakeItem(cwd, directory, file); var segs := Segments(file);
      && segs != []
      && Located(cwd, directory, file) == Resolve(cwd, directory) + segs
      && Parse(item.subDir) == Path(false, segs[..|segs| - 1])
      && Named(Parse(item.subDir).segs)
      && segs[|segs| - 1] == item.name + Extension
  {
    var segs := Segments(file);
    var base := Resolve(cwd, directory);
    CleanLocated(cwd, directory, file);
    LocatedLast(cwd, directory, file);
    CleanItemAt(cwd, base, segs);
  }

  /** For a location `base + segs` below the root `base`, `subDir` is the
      directory part of `segs` and `name` + ".md" its last name. */
  lemma {:induction false} CleanItemAt(cwd: string, base: seq<string>, segs: seq<string>)
    requires Named(base) && Named(segs) && segs != [] && EndsWith(segs[|segs| - 1], Extension)
    ensures var p := base + segs; var item := ItemAt(p, base);
      && Parse(item.subDir) == Path(false, segs[..|segs| - 1])
      && segs[|segs| - 1] == item.name + Extension
  {
    var p := base + segs;
    assert Named(p) by {
      assert forall i :: 0 <= i < |p| ==> p[i] == if i < |base| then base[i] else segs[i - |base|];
    }
    assert p[|p| - 1] == segs[|segs| - 1];
    var init := CleanRelative(base, segs);
    ItemAtSubDir(cwd, p, base);
    ItemAtName(p, base);
  }

  /** Relativizing the parent of `base + segs` against `base` gives the
      directory part of `segs`. */
  lemma {:induction false} CleanRelative(base: seq<string>, segs: seq<string>) returns (init: seq<string>)
    requires Named(base) && Named(segs) && segs != []
    ensures init == segs[..|segs| - 1] && Named(init)
    ensures var p := base + segs; Relativize(base, p[..|p| - 1]) == init
  {
    init := segs[..|segs| - 1];
    var p := base + segs;
    assert p[..|p| - 1] == base + init;
    assert Named(base + init) by {
      assert forall i :: 0 <= i < |init| ==> init[i] == segs[i];
      assert forall i :: 0 <= i < |base + init| ==> (base + init)[i] == if i < |base| then base[i] else init[i - |base|];
    }
    RelativizeDescends(base, base + init);
    assert (base + init)[..|base|] == base;
  }

  /** Listed names are in canonical form, so two clean names with the same
      segments are the same name. */
  lemma {:induction false} CleanInjective(f: string, g: string)
    requires CleanEntry(f) && CleanEntry(g) && Segments(f) == Segments(g)
    ensures f == g
  {
  }

  /** Two different clean names ending in ".md" give items with different paths. */
  lemma {:induction false} CleanPathsDiffer(cwd: string, directory: string, f: string, g: string)
    requires CleanEntry(f) && EndsWith(f, Extension)
    requires CleanEntry(g) && EndsWith(g, Extension)
    requires f != g
    ensures MakeItem(cwd, directory, f).path != MakeItem(cwd, directory, g).path
  {
    CleanItem(cwd, directory, f);
    CleanItem(cwd, directory, g);
    ItemPath(cwd, directory, f);
    ItemPath(cwd, directory, g);
    var base := Resolve(cwd, directory);
    var sf := Segments(f);
    var sg := Segments(g);
    assert (base + sf)[|base|..] == sf && (base + sg)[|base|..] == sg;
    if sf == sg {
      CleanInjective(f, g);
    }
  }

  /** A listing of distinct clean names yields items with pairwise distinct paths. */
  lemma {:induction false} ScanPathsDistinct(fs: FileSystem, cwd: string, directory: string, listing: seq<string>, i: nat, j: nat)
    requires forall f :: f in listing ==> CleanEntry(f)
    requires forall a, b :: 0 <= a < b < |listing| ==> listing[a] != listing[b]
    requires i < j < |GetMarkdownFiles(fs, cwd, directory, listing)|
    ensures GetMarkdownFiles(fs, cwd, directory, listing)[i].path != GetMarkdownFiles(fs, cwd, directory, listing)[j].path
  {
    assert GetMarkdownFiles(fs, cwd, directory, listing) == Select(fs, cwd, directory, listing);
    var a, b := SelectOrigins(fs, cwd, directory, listing, i, j);
    CleanPathsDiffer(cwd, directory, listing[a], listing[b]);
  }
}
