/** Path strings and their structure. A path string is parsed into a flag
    (does it start at the root?) and a sequence of segments; the generator
    normalizes, joins and relativizes such paths through Java NIO and ringo's
    `fs` module. Separators are '/', and there are no drive letters. */
module Paths {
  import opened Strings

  /** A segment that survives normalization: non-empty, not "." or "..", and
      free of the separator. */
  predicate IsName(seg: string) {
    seg != "" && seg != "." && seg != ".." && '/' !in seg
  }

  /** Every segment is a name: the shape of an absolute path after normalization. */
  predicate Named(segs: seq<string>) {
    forall i :: 0 <= i < |segs| ==> IsName(segs[i])
  }

  /** Every segment is non-empty and separator-free: the shape of a parsed path string. */
  predicate Parsed(segs: seq<string>) {
    forall i :: 0 <= i < |segs| ==> segs[i] != "" && '/' !in segs[i]
  }

  /** Index of the first separator in `s`, or `|s|` when there is none. */
  function FirstSlash(s: string): (k: nat)
    ensures k <= |s|
    ensures forall j :: 0 <= j < k ==> s[j] != '/'
    ensures k < |s| ==> s[k] == '/'
  {
    if s == [] || s[0] == '/' then 0 else 1 + FirstSlash(s[1..])
  }

  /** The segments of a path string: the pieces between separators, with the
      empty pieces that repeated, leading or trailing separators leave dropped. */
  function Segments(s: string): (r: seq<string>)
    ensures Parsed(r)
    decreases |s|
  {
    if s == [] then []
    else if s[0] == '/' then Segments(s[1..])
    else
      var k := FirstSlash(s);
      [s[..k]] + Segments(s[k..])
  }

  /** The segments written out with a separator between each two. */
  function JoinSegs(segs: seq<string>): string {
    if segs == [] then ""
    else if |segs| == 1 then segs[0]
    else segs[0] + "/" + JoinSegs(segs[1..])
  }

  datatype Path = Path(absolute: bool, segs: seq<string>)

  /** Java's `getPath(s)`: the parsed form of a path string. */
  function Parse(s: string): Path {
    Path(|s| > 0 && s[0] == '/', Segments(s))
  }

  /** Java's `Path.toString()`: a leading separator for absolute paths, and the
      empty string for the empty relative path. */
  function ToString(p: Path): string {
    (if p.absolute then "/" else "") + JoinSegs(p.segs)
  }

  /** ringo's `fs.join` (and Java's `getPath(first, more)`): the non-empty
      arguments joined by a separator. */
  function Join(a: string, b: string): string {
    if a == "" then b else if b == "" then a else a + "/" + b
  }

  /** One step of Java's `normalize()` on an absolute path: "" and "." vanish,
      ".." removes the previous name and is dropped at the root. */
  function Step(stack: seq<string>, seg: string): seq<string> {
    if seg == "" || seg == "." then stack
    else if seg == ".." then (if stack == [] then stack else stack[..|stack| - 1])
    else stack + [seg]
  }

  /** Normalizes `segs` on top of the already normalized `stack`. */
  function NormFrom(stack: seq<string>, segs: seq<string>): (r: seq<string>)
    ensures Named(stack) && Parsed(segs) ==> Named(r)
    decreases |segs|
  {
    if segs == [] then stack else NormFrom(Step(stack, segs[0]), segs[1..])
  }

  /** Java's `normalize()` on an absolute path. */
  function Normalize(segs: seq<string>): (r: seq<string>)
    ensures Parsed(segs) ==> Named(r)
    ensures Named(segs) ==> r == segs
  {
    var r := NormFrom([], segs);
    assert Named(segs) ==> r == segs by {
      if Named(segs) {
        NormFromNamed([], segs);
      }
    }
    r
  }

  /** Java's `toAbsolutePath().normalize()`: the absolute, normalized
      location a path string names, relative strings being resolved against
      the working directory `cwd`. */
  function Resolve(cwd: string, s: string): (r: seq<string>)
    ensures Named(r)
  {
    var p := Parse(s);
    Normalize(if p.absolute then p.segs else Segments(cwd) + p.segs)
  }

  /** `k` parent steps. */
  function Ups(k: nat): (r: seq<string>)
    ensures |r| == k && forall i :: 0 <= i < k ==> r[i] == ".."
  {
    if k == 0 then [] else [".."] + Ups(k - 1)
  }

  /** Length of the longest common prefix of `a` and `b`. */
  function CommonPrefix(a: seq<string>, b: seq<string>): (n: nat)
    ensures n <= |a| && n <= |b| && a[..n] == b[..n]
    ensures n < |a| && n < |b| ==> a[n] != b[n]
  {
    if a == [] || b == [] || a[0] != b[0] then 0
    else
      var n := 1 + CommonPrefix(a[1..], b[1..]);
      assert a[..n] == [a[0]] + a[1..][..n - 1];
      assert b[..n] == [b[0]] + b[1..][..n - 1];
      n
  }

  /** Java's `base.relativize(other)` for two absolute normalized paths: climb
      out of `base` to the longest common prefix, then descend into `other`. */
  function Relativize(base: seq<string>, other: seq<string>): (r: seq<string>)
    ensures Parsed(other) ==> Parsed(r)
  {
    var n := CommonPrefix(base, other);
    Ups(|base| - n) + other[n..]
  }

  // ---------------------------------------------------------------------------
  // Parsing and printing

  lemma {:induction false} FirstSlashAppend(a: string, c: string)
    requires c == [] || c[0] == '/'
    ensures FirstSlash(a + c) == FirstSlash(a)
    decreases |a|
  {
    if a == [] {
      assert a + c == c;
    } else if a[0] != '/' {
      assert (a + c)[1..] == a[1..] + c;
      FirstSlashAppend(a[1..], c);
    }
  }

  /** Splitting distributes over a separator: the segments of `a + "/" + b`
      are those of `a` followed by those of `b`. */
  lemma {:induction false} SegmentsConcat(a: string, b: string)
    ensures Segments(a + "/" + b) == Segments(a) + Segments(b)
    decreases |a|
  {
    var s := a + "/" + b;
    if a == [] {
      assert s[1..] == b;
    } else if a[0] == '/' {
      assert s[1..] == a[1..] + "/" + b;
      SegmentsConcat(a[1..], b);
    } else {
      var k := FirstSlash(a);
      SegmentsConcat(a[k..], b);
      ConcatAfterPiece(a, b, k);
    }
  }

  /** The step of `SegmentsConcat` past the first piece of `a`. */
  lemma {:induction false} ConcatAfterPiece(a: string, b: string, k: nat)
    requires a != [] && a[0] != '/' && k == FirstSlash(a)
    requires Segments(a[k..] + "/" + b) == Segments(a[k..]) + Segments(b)
    ensures Segments(a + "/" + b) == Segments(a) + Segments(b)
  {
    var c := "/" + b;
    FirstSlashAppend(a, c);
    SliceConcat(a, c, k);
    ConcatAssoc(a, "/", b);
    ConcatAssoc(a[k..], "/", b);
    SegmentsAtPiece(a + c, k);
    SegmentsAtPiece(a, k);
    ConcatAssoc([a[..k]], Segments(a[k..]), Segments(b));
  }

  /** Concatenation is associative. */
  lemma {:induction false} ConcatAssoc<T>(x: seq<T>, y: seq<T>, z: seq<T>)
    ensures x + y + z == x + (y + z)
  {
  }

  /** Slicing a concatenation within its first part. */
  lemma {:induction false} SliceConcat(a: string, c: string, k: nat)
    requires k <= |a|
    ensures (a + c)[..k] == a[..k] && (a + c)[k..] == a[k..] + c
  {
  }

  /** A string starting with a non-separator is its first piece followed by the rest's segments. */
  lemma {:induction false} SegmentsAtPiece(s: string, k: nat)
    requires s != [] && s[0] != '/' && k == FirstSlash(s)
    ensures Segments(s) == [s[..k]] + Segments(s[k..])
  {
  }

  /** ringo's `fs.join` on strings is concatenation on segments. */
  lemma {:induction false} SegmentsJoin(a: string, b: string)
    ensures Segments(Join(a, b)) == Segments(a) + Segments(b)
  {
    if a == "" {
      assert Segments(a) == [];
    } else if b == "" {
      assert Segments(b) == [];
    } else {
      SegmentsConcat(a, b);
    }
  }

  lemma {:induction false} FirstSlashNone(s: string)
    requires '/' !in s
    ensures FirstSlash(s) == |s|
    decreases |s|
  {
    if s != [] {
      assert s[0] != '/';
      assert forall c :: c in s[1..] ==> c in s;
      FirstSlashNone(s[1..]);
    }
  }

  lemma {:induction false} JoinSegsHead(segs: seq<string>)
    requires Parsed(segs) && segs != []
    ensures JoinSegs(segs) != [] && JoinSegs(segs)[0] == segs[0][0]
  {
  }

  /** Splitting undoes joining, for segments that are non-empty and separator-free. */
  lemma {:induction false} SegmentsJoinSegs(segs: seq<string>)
    requires Parsed(segs)
    ensures Segments(JoinSegs(segs)) == segs
    decreases |segs|
  {
    if segs != [] {
      var x := segs[0];
      SegmentsPiece(x);
      if |segs| > 1 {
        SegmentsConcat(x, JoinSegs(segs[1..]));
        SegmentsJoinSegs(segs[1..]);
        assert segs == [x] + segs[1..];
      }
    }
  }

  /** A non-empty, separator-free string is a single segment. */
  lemma {:induction false} SegmentsPiece(x: string)
    requires x != "" && '/' !in x
    ensures Segments(x) == [x]
  {
    FirstSlashNone(x);
    assert x[..|x|] == x;
    assert Segments(x) == [x] + Segments(x[|x|..]);
  }

  /** The last segment of a string that does not end in a separator is its
      final component: a suffix, preceded by a separator or by nothing. */
  lemma {:induction false} SegmentsLast(s: string)
    requires s != [] && s[|s| - 1] != '/'
    ensures Segments(s) != [] && FinalComponent(s, Segments(s)[|Segments(s)| - 1])
    decreases |s|
  {
    if s[0] == '/' {
      var t := s[1..];
      SegmentsLast(t);
      LastAfterLeadingSlash(s);
    } else if FirstSlash(s) == |s| {
      assert s[..|s|] == s && s[|s|..] == [];
      assert Segments(s) == [s];
    } else {
      var k := FirstSlash(s);
      SegmentsLast(s[k..]);
      LastAfterPiece(s, k);
    }
  }

  /** A final component of a string whose tail is a final component of the string. */
  predicate FinalComponent(s: string, last: string) {
    EndsWith(s, last) && (|last| == |s| || s[|s| - |last| - 1] == '/')
  }

  /** A leading separator does not change the segments, nor the final component. */
  lemma {:induction false} LastAfterLeadingSlash(s: string)
    requires 1 < |s| && s[0] == '/'
    requires var t := s[1..]; Segments(t) != [] && FinalComponent(t, Segments(t)[|Segments(t)| - 1])
    ensures Segments(s) != [] && FinalComponent(s, Segments(s)[|Segments(s)| - 1])
  {
    var t := s[1..];
    assert Segments(s) == Segments(t);
    SuffixFromTail(s, 1, Segments(t)[|Segments(t)| - 1]);
  }

  /** After the first piece, the segments of the rest end with the string's final component. */
  lemma {:induction false} LastAfterPiece(s: string, k: nat)
    requires 0 < k < |s| && s[0] != '/' && k == FirstSlash(s)
    requires var t := s[k..]; Segments(t) != [] && FinalComponent(t, Segments(t)[|Segments(t)| - 1])
    ensures Segments(s) != [] && FinalComponent(s, Segments(s)[|Segments(s)| - 1])
  {
    var t := s[k..];
    var last := Segments(t)[|Segments(t)| - 1];
    assert Segments(s) == [s[..k]] + Segments(t);
    assert Segments(s)[|Segments(s)| - 1] == last;
    assert t[0] == '/';
    LastNotWhole(t, last);
    SuffixFromTail(s, k, last);
  }

  /** A separator-free non-empty suffix of a string starting with a separator
      is shorter than the string. */
  lemma {:induction false} LastNotWhole(t: string, last: string)
    requires t != [] && t[0] == '/' && EndsWith(t, last)
    requires last != [] && '/' !in last
    ensures |last| < |t|
  {
    assert t[|t| - |last|..][0] == last[0];
  }

  /** A suffix of `s[k..]` that is preceded by a separator there is a suffix of
      `s` preceded by a separator. */
  lemma {:induction false} SuffixFromTail(s: string, k: nat, last: string)
    requires k <= |s| && EndsWith(s[k..], last)
    requires |last| == |s| - k ==> 0 < k && s[k - 1] == '/'
    requires |last| < |s| - k ==> s[k..][|s| - k - |last| - 1] == '/'
    ensures FinalComponent(s, last)
  {
    var t := s[k..];
    var j := |s| - |last|;
    assert k <= j;
    assert t[j - k..] == s[j..];
    assert s[j..] == last;
    if |last| < |s| - k {
      assert t[j - k - 1] == s[j - 1];
    }
  }

  /** A string ending in `suffix`, which has no separator, has a final segment
      that ends in `suffix` too. */
  lemma {:induction false} LastSegmentEndsWith(s: string, suffix: string)
    requires suffix != [] && '/' !in suffix && EndsWith(s, suffix)
    ensures Segments(s) != []
    ensures var last := Segments(s)[|Segments(s)| - 1];
      EndsWith(s, last) && EndsWith(last, suffix) && '/' !in last
  {
    assert s[|s| - 1] == suffix[|suffix| - 1];
    SegmentsLast(s);
    var last := Segments(s)[|Segments(s)| - 1];
    assert forall i :: |s| - |suffix| <= i < |s| ==> s[i] == suffix[i - (|s| - |suffix|)];
    assert |last| >= |suffix|;
    assert last[|last| - |suffix|..] == s[|s| - |suffix|..];
  }

  /** Printing a path and parsing it back gives the same path. */
  lemma {:induction false} ParseToString(p: Path)
    requires Parsed(p.segs)
    ensures Parse(ToString(p)) == p
  {
    var j := JoinSegs(p.segs);
    SegmentsJoinSegs(p.segs);
    if p.absolute {
      assert ToString(p)[1..] == j;
    } else if p.segs != [] {
      JoinSegsHead(p.segs);
      assert ToString(p) == j;
      assert j[0] == p.segs[0][0] != '/';
    }
  }

  /** The printed form of a relative path is empty exactly when the path has no segments. */
  lemma {:induction false} ToStringEmpty(p: Path)
    requires Parsed(p.segs) && !p.absolute
    ensures ToString(p) == "" <==> p.segs == []
  {
    if p.segs != [] {
      JoinSegsHead(p.segs);
    }
  }

  // ---------------------------------------------------------------------------
  // Normalization

  /** Normalizing a concatenation is normalizing the parts in turn. */
  lemma {:induction false} NormFromConcat(stack: seq<string>, a: seq<string>, b: seq<string>)
    ensures NormFrom(stack, a + b) == NormFrom(NormFrom(stack, a), b)
    decreases |a|
  {
    if a == [] {
      assert a + b == b;
    } else {
      assert (a + b)[0] == a[0];
      assert (a + b)[1..] == a[1..] + b;
      NormFromConcat(Step(stack, a[0]), a[1..], b);
    }
  }

  /** Names are appended unchanged. */
  lemma {:induction false} NormFromNamed(stack: seq<string>, a: seq<string>)
    requires Named(a)
    ensures NormFrom(stack, a) == stack + a
    decreases |a|
  {
    if a == [] {
      assert stack + a == stack;
    } else {
      NormFromNamed(stack + [a[0]], a[1..]);
      assert stack + [a[0]] + a[1..] == stack + a;
    }
  }

  /** A trailing name survives normalization as the last segment. */
  lemma {:induction false} NormFromLast(stack: seq<string>, segs: seq<string>)
    requires segs != [] && IsName(segs[|segs| - 1])
    ensures NormFrom(stack, segs) == NormFrom(stack, segs[..|segs| - 1]) + [segs[|segs| - 1]]
  {
    var last := segs[|segs| - 1];
    assert segs == segs[..|segs| - 1] + [last];
    NormFromConcat(stack, segs[..|segs| - 1], [last]);
    var mid := NormFrom(stack, segs[..|segs| - 1]);
    assert NormFrom(mid, [last]) == NormFrom(Step(mid, last), []);
  }

  /** `k` parent steps remove the last `k` names. */
  lemma {:induction false} NormFromUps(stack: seq<string>, k: nat)
    requires k <= |stack|
    ensures NormFrom(stack, Ups(k)) == stack[..|stack| - k]
    decreases k
  {
    if k > 0 {
      assert Ups(k)[1..] == Ups(k - 1);
      NormFromUps(stack[..|stack| - 1], k - 1);
      assert stack[..|stack| - 1][..|stack| - 1 - (k - 1)] == stack[..|stack| - k];
    }
  }

  /** Resolving `join(a, b)` resolves `a` and then walks the segments of `b`,
      unless `a` is empty and `b` absolute (then `b` alone counts). */
  lemma {:induction false} ResolveJoin(cwd: string, a: string, b: string)
    requires a != "" || !Parse(b).absolute
    ensures Resolve(cwd, Join(a, b)) == NormFrom(Resolve(cwd, a), Segments(b))
  {
    var pa := Parse(a);
    var pj := Parse(Join(a, b));
    var pre: seq<string> := if pa.absolute then [] else Segments(cwd);
    JoinUnrooted(a, b);
    var whole := pre + pj.segs;
    assert whole == (pre + pa.segs) + Segments(b);
    if pa.absolute {
      assert pj.absolute;
      assert whole == pj.segs;
      assert pre + pa.segs == pa.segs;
    } else {
      assert !pj.absolute;
    }
    assert Resolve(cwd, Join(a, b)) == Normalize(whole);
    assert Resolve(cwd, a) == Normalize(pre + pa.segs);
    NormFromConcat([], pre + pa.segs, Segments(b));
  }

  /** The parsed form of `join(a, b)`: the root flag of `a`, and the segments of both. */
  lemma {:induction false} JoinUnrooted(a: string, b: string)
    requires a != "" || !Parse(b).absolute
    ensures Parse(Join(a, b)).absolute == Parse(a).absolute
    ensures Parse(Join(a, b)).segs == Parse(a).segs + Segments(b)
  {
    SegmentsJoin(a, b);
    if a != "" && b != "" {
      assert Join(a, b)[0] == a[0];
    }
  }

  /** Resolving the printed form of a normalized absolute path gives it back. */
  lemma {:induction false} ResolveCanonical(cwd: string, p: seq<string>)
    requires Named(p)
    ensures Resolve(cwd, ToString(Path(true, p))) == p
  {
    ParseToString(Path(true, p));
  }

  // ---------------------------------------------------------------------------
  // Relativization

  /** Joining `base` with `base.relativize(other)` and normalizing gives `other`. */
  lemma {:induction false} RelativizeResolves(base: seq<string>, other: seq<string>)
    requires Named(base) && Named(other)
    ensures NormFrom(base, Relativize(base, other)) == other
  {
    var n := CommonPrefix(base, other);
    ClimbThenDescend(base, other, n);
  }

  /** Walking names after any steps appends the names to where the steps led. */
  lemma {:induction false} NormFromThenNamed(stack: seq<string>, steps: seq<string>, names: seq<string>)
    requires Named(names)
    ensures NormFrom(stack, steps + names) == NormFrom(stack, steps) + names
  {
    NormFromConcat(stack, steps, names);
    NormFromNamed(NormFrom(stack, steps), names);
  }

  /** Climbing from `base` to a shared prefix of length `n` and descending
      into the rest of `other` lands on `other`. */
  lemma {:induction false} ClimbThenDescend(base: seq<string>, other: seq<string>, n: nat)
    requires n <= |base| && n <= |other| && base[..n] == other[..n] && Named(other)
    ensures NormFrom(base, Ups(|base| - n) + other[n..]) == other
  {
    var k := |base| - n;
    var rest := other[n..];
    NormFromUps(base, k);
    assert base[..|base| - k] == other[..n];
    assert Named(rest) by {
      assert forall i :: 0 <= i < |rest| ==> rest[i] == other[n + i];
    }
    NormFromThenNamed(base, Ups(k), rest);
    assert other[..n] + rest == other;
  }

  /** The relative path is empty exactly when the two paths are equal. */
  lemma {:induction false} RelativizeEmpty(base: seq<string>, other: seq<string>)
    ensures Relativize(base, other) == [] <==> base == other
  {
    var n := CommonPrefix(base, other);
    if base == other {
      assert n == |base|;
    }
    if Relativize(base, other) == [] {
      assert |Ups(|base| - n)| == 0;
      assert base == base[..n] && other == other[..n];
    }
  }

  /** The relative path climbs out of `base` (starts with "..") exactly when
      `other` does not lie under `base`; when it does, it is the remainder. */
  lemma {:induction false} RelativizeDescends(base: seq<string>, other: seq<string>)
    requires Named(other)
    ensures Named(Relativize(base, other)) <==> (|base| <= |other| && other[..|base|] == base)
    ensures |base| <= |other| && other[..|base|] == base ==> Relativize(base, other) == other[|base|..]
  {
    var n := CommonPrefix(base, other);
    var r := Relativize(base, other);
    if |base| <= |other| && other[..|base|] == base {
      assert forall i :: 0 <= i < |base| ==> other[i] == base[i];
      assert n == |base|;
      assert r == other[n..];
    } else {
      assert n < |base|;
      assert r[0] == "..";
    }
  }
}
