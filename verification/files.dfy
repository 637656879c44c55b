/** The filesystem as an immutable map from absolute, normalized locations
    (segment sequences) to nodes, and the two operations of ringo's `fs`
    module that change it: `makeTree` and `write`. */
module Files {
  import opened Options

  datatype Node = File(content: string) | Dir

  type FileSystem = map<seq<string>, Node>

  predicate IsDir(fs: FileSystem, p: seq<string>) {
    p in fs && fs[p].Dir?
  }

  predicate IsFile(fs: FileSystem, p: seq<string>) {
    p in fs && fs[p].File?
  }

  /** A tree: the root is a directory and every other entry sits in one. */
  ghost predicate WellFormed(fs: FileSystem) {
    && IsDir(fs, [])
    && forall p :: p in fs && p != [] ==> IsDir(fs, p[..|p| - 1])
  }

  /** `p` together with all of its ancestors. */
  function Prefixes(p: seq<string>): set<seq<string>> {
    set i | 0 <= i <= |p| :: p[..i]
  }

  /** A file stands at `p` or at one of its ancestors, so no directory can be made there. */
  predicate Blocked(fs: FileSystem, p: seq<string>) {
    exists i :: 0 <= i <= |p| && IsFile(fs, p[..i])
  }

  /** `fs.makeTree(p)` (Java's `createDirectories`): every missing ancestor of
      `p`, and `p` itself, becomes a directory; it fails when a file is in the way. */
  function MakeTree(fs: FileSystem, p: seq<string>): (r: Option<FileSystem>)
    ensures r.None? <==> Blocked(fs, p)
    ensures r.Some? ==> forall i :: 0 <= i <= |p| ==> IsDir(r.value, p[..i])
    ensures r.Some? ==> forall q :: q in fs ==> q in r.value && r.value[q] == fs[q]
    ensures r.Some? ==> forall q :: q in r.value && q !in fs ==> r.value[q] == Dir && q in Prefixes(p)
    ensures r.Some? && WellFormed(fs) ==> WellFormed(r.value)
  {
    if Blocked(fs, p) then None
    else
      var made := fs + map q | q in Prefixes(p) :: Dir;
      assert forall i :: 0 <= i <= |p| ==> p[..i] in Prefixes(p);
      assert forall q :: q in Prefixes(p) && q != [] ==> q[..|q| - 1] in Prefixes(p) by {
        forall q | q in Prefixes(p) && q != []
          ensures q[..|q| - 1] in Prefixes(p)
        {
          var i :| 0 <= i <= |p| && q == p[..i];
          assert q[..|q| - 1] == p[..i - 1];
        }
      }
      Some(made)
  }

  /** `fs.write(p, content)`: the parent must be a directory and `p` must not
      be one; an existing file is overwritten. */
  function WriteFile(fs: FileSystem, p: seq<string>, content: string): (r: Option<FileSystem>)
    ensures r.Some? <==> p != [] && IsDir(fs, p[..|p| - 1]) && !IsDir(fs, p)
    ensures r.Some? ==> r.value.Keys == fs.Keys + {p} && r.value[p] == File(content)
    ensures r.Some? ==> forall q :: q in fs && q != p ==> r.value[q] == fs[q]
    ensures r.Some? && WellFormed(fs) ==> WellFormed(r.value)
  {
    if p != [] && IsDir(fs, p[..|p| - 1]) && !IsDir(fs, p) then Some(fs[p := File(content)]) else None
  }

  /** In a tree every ancestor of an entry is a directory. */
  lemma {:induction false} AncestorsAreDirs(fs: FileSystem, p: seq<string>, i: nat)
    requires WellFormed(fs) && p in fs && i < |p|
    ensures IsDir(fs, p[..i])
    decreases |p| - i
  {
    var parent := p[..|p| - 1];
    if i < |p| - 1 {
      AncestorsAreDirs(fs, parent, i);
      assert parent[..i] == p[..i];
    }
  }
}
