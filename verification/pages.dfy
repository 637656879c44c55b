/** Page assembly for one document: the rendered Markdown's title, the page
    from the template, and the document record enriched with that page. */
module Pages {
  import opened Options
  import opened Strings
  import opened Files
  import opened Paths
  import opened Scanner

  const Open := "<h1>"
  const Close := "</h1>"

  /** The title: when the content starts with "<h1>", what lies between index
      4 and the first "</h1>" (JavaScript `substring`, so an absent "</h1>",
      index -1, gives back the first four characters); otherwise empty. */
  function Title(content: string): (t: string)
    ensures !StartsWith(content, Open) ==> t == ""
    ensures StartsWith(content, Open) && !Contains(content, Close) ==> t == Open
    ensures StartsWith(content, Open) && Contains(content, Close) ==>
      StartsWith(content, Open + t + Close) && !Contains(t, Close)
  {
    if StartsWith(content, Open) then
      var k := IndexOf(content, Close);
      var t := JsSubstring(content, 4, k);
      assert k != -1 ==> 4 <= k && t == content[4..k] && StartsWith(content, Open + t + Close) && !Contains(t, Close) by {
        if k != -1 {
          CloseAfterOpen(content, k);
          assert content[..4] == Open && content[k..k + 5] == Close;
          assert content[..k + 5] == content[..4] + content[4..k] + content[k..k + 5];
          NotBefore(content, 4, k);
        }
      }
      t
    else ""
  }

  /** "</h1>" cannot start inside a leading "<h1>". */
  lemma {:induction false} CloseAfterOpen(content: string, k: int)
    requires StartsWith(content, Open) && OccursAt(content, Close, k)
    ensures 4 <= k
  {
    assert content[k] == '<' && content[k + 1] == '/';
    assert content[0] == '<' && content[1] == 'h' && content[2] == '1' && content[3] == '>';
  }

  /** A slice ending before the first occurrence contains none. */
  lemma {:induction false} NotBefore(content: string, a: nat, k: nat)
    requires a <= k <= |content|
    requires forall j :: 0 <= j < k ==> !OccursAt(content, Close, j)
    ensures !Contains(content[a..k], Close)
  {
    if Contains(content[a..k], Close) {
      var i :| OccursAt(content[a..k], Close, i);
      OccursInSlice(content, Close, a, k, i);
    }
  }

  /** Heading markup: the title between "<h1>" and "</h1>", then the rest. */
  function Heading(t: string, rest: string): string {
    Open + t + Close + rest
  }

  /** Title extraction undoes heading markup whenever the title has no "</h1>". */
  lemma {:induction false} TitleOfHeading(t: string, rest: string)
    requires !Contains(t, Close)
    ensures Title(Heading(t, rest)) == t
  {
    var c := Heading(t, rest);
    var n := 4 + |t|;
    assert c[..4] == Open;
    assert c[4..n] == t;
    assert c[n..n + 5] == Close;
    assert OccursAt(c, Close, n);
    assert forall m :: 1 <= m < 5 ==> Close[m] != '<';
    forall j | 0 <= j < n
      ensures !OccursAt(c, Close, j)
    {
      if j < 4 {
        assert c[j..j + 5][0] == Open[j] && c[j..j + 5][1] == c[j + 1];
        assert j < 3 ==> c[j + 1] == Open[j + 1];
      } else if j + 5 <= n {
        assert c[j..j + 5] == t[j - 4..j + 1];
        assert !OccursAt(t, Close, j - 4);
      } else {
        assert c[n] == '<' && 1 <= n - j < 5;
        assert j + 5 <= |c| && c[j..j + 5][n - j] == c[n];
      }
    }
    var k := IndexOf(c, Close);
    assert k == n;
  }

  /** A string shorter than "</h1>" cannot contain it. */
  lemma {:induction false} ShortFree(t: string)
    requires |t| < |Close|
    ensures !Contains(t, Close)
  {
  }

  /** The worked example: "<h1>Foo</h1>" followed by a paragraph has title "Foo". */
  lemma {:induction false} TitleExample()
    ensures Title("<h1>Foo</h1><p>Bar</p>") == "Foo"
  {
    var c := Heading("Foo", "<p>Bar</p>");
    assert c == "<h1>Foo</h1><p>Bar</p>";
    ShortFree("Foo");
    TitleOfHeading("Foo", "<p>Bar</p>");
  }

  // ---------------------------------------------------------------------------
  // Rendering

  /** What the template sees: the document record, its title and its HTML. */
  datatype Vars = Vars(vinyl: ContentItem, title: string, content: string)

  /** The Markdown converter and the compiled "base.html" template, both
      foreign code, as functions. */
  datatype Engines = Engines(markdown: string -> string, template: Vars -> string)

  /** The record without its page: the four fields the scan computed. */
  function Identity(item: ContentItem): ContentItem {
    item.(html := None)
  }

  /** `objects.merge(item, {html: page})`: a new record with every field of
      `item`; in a clash the earlier argument wins, so `page` fills `html` only
      when the item has none. */
  function Merge(item: ContentItem, page: string): (r: ContentItem)
    ensures Identity(r) == Identity(item)
    ensures item.html == None ==> r.html == Some(page)
    ensures item.html != None ==> r == item
  {
    if item.html.Some? then item else item.(html := Some(page))
  }

  /** The page for a document whose Markdown source is `text`. */
  function Page(engines: Engines, item: ContentItem, text: string): string {
    var content := engines.markdown(text);
    engines.template(Vars(item, Title(content), content))
  }

  /** One step of the render map: read the file at the item's path (reading
      anything but a regular file throws), convert it, extract its title,
      render the template and merge the page into the record. */
  function RenderItem(fs: FileSystem, cwd: string, engines: Engines, item: ContentItem): (r: Option<ContentItem>)
    ensures r.Some? <==> IsFile(fs, Resolve(cwd, item.path))
    ensures r.Some? ==> Identity(r.value) == Identity(item)
    ensures r.Some? && item.html == None ==>
      r.value.html == Some(Page(engines, item, fs[Resolve(cwd, item.path)].content))
  {
    var q := Resolve(cwd, item.path);
    if IsFile(fs, q) then Some(Merge(item, Page(engines, item, fs[q].content))) else None
  }

  /** The render map over all documents; the first failed read stops it. */
  function RenderAll(fs: FileSystem, cwd: string, engines: Engines, items: seq<ContentItem>): (r: Option<seq<ContentItem>>)
    ensures r.Some? <==> forall i :: 0 <= i < |items| ==> IsFile(fs, Resolve(cwd, items[i].path))
    ensures r.Some? ==> |r.value| == |items|
    ensures r.Some? ==> forall i :: 0 <= i < |items| ==> RenderItem(fs, cwd, engines, items[i]) == Some(r.value[i])
    decreases |items|
  {
    if items == [] then Some([])
    else
      var first := RenderItem(fs, cwd, engines, items[0]);
      var rest := RenderAll(fs, cwd, engines, items[1..]);
      assert forall i :: 1 <= i < |items| ==> items[i] == items[1..][i - 1];
      if first.None? || rest.None? then None
      else Some([first.value] + rest.value)
  }

  /** Rendering reads only the documents' files: two filesystems that agree on
      them render alike. */
  lemma {:induction false} RenderAllReads(fs: FileSystem, g: FileSystem, cwd: string, engines: Engines, items: seq<ContentItem>)
    requires forall i :: 0 <= i < |items| ==>
      IsFile(fs, Resolve(cwd, items[i].path)) &&
      Resolve(cwd, items[i].path) in g && g[Resolve(cwd, items[i].path)] == fs[Resolve(cwd, items[i].path)]
    ensures RenderAll(g, cwd, engines, items) == RenderAll(fs, cwd, engines, items)
    decreases |items|
  {
    if items != [] {
      assert forall i :: 1 <= i < |items| ==> items[i] == items[1..][i - 1];
      RenderAllReads(fs, g, cwd, engines, items[1..]);
    }
  }
}
