/**
 * The JavaScript and Node.js library semantics that the modelled code relies on:
 * `slice`/`subarray` index handling, string search and comparison, `trim`,
 * `replace` with a string pattern, ASCII case folding, and the POSIX flavour of
 * Node's `path` helpers.
 */
module Js {
  import opened Wrappers

  // ---------------------------------------------------------------------------
  // Array.prototype.slice and Buffer.prototype.subarray
  // ---------------------------------------------------------------------------

  /** How `slice` and `subarray` turn an argument into a position: negative values count from the end, and the result is clamped to [0, len]. */
  function RelIndex(i: int, len: nat): (r: nat)
    ensures r <= len
    ensures 0 <= i <= len ==> r == i
    ensures i > len ==> r == len
    ensures i < 0 ==> r == if len + i < 0 then 0 else len + i
  {
    if i < 0 then (if len + i < 0 then 0 else len + i)
    else if i > len then len
    else i
  }

  /** `s.slice(start, end)` on an array, `b.subarray(start, end)` on a buffer. */
  function Slice<T>(s: seq<T>, start: int, end: int): (r: seq<T>)
    ensures |r| <= |s|
    ensures 0 <= start <= end <= |s| ==> r == s[start..end]
    ensures 0 <= start <= |s| <= end ==> r == s[start..]
    ensures |s| <= start ==> r == []
    ensures RelIndex(start, |s|) + |r| <= |s|
    ensures forall k :: 0 <= k < |r| ==> r[k] == s[RelIndex(start, |s|) + k]
  {
    var a := RelIndex(start, |s|);
    var b := RelIndex(end, |s|);
    if a < b then s[a..b] else []
  }

  // ---------------------------------------------------------------------------
  // Strings
  // ---------------------------------------------------------------------------

  /** `sub` occurs in `s` starting at position i. */
  predicate OccursAt(s: string, sub: string, i: int) {
    0 <= i && i + |sub| <= |s| && s[i..i + |sub|] == sub
  }

  /** An occurrence after the first position is an occurrence in the tail, one place earlier. */
  lemma OccursTail(s: string, sub: string, i: int)
    requires 1 <= i && OccursAt(s, sub, i)
    ensures OccursAt(s[1..], sub, i - 1)
  {
    assert s[1..][i - 1..i - 1 + |sub|] == s[i..i + |sub|];
  }

  /** An occurrence in the tail is an occurrence in `s`, one place later. */
  lemma OccursFromTail(s: string, sub: string, j: int)
    requires |s| >= 1 && OccursAt(s[1..], sub, j)
    ensures OccursAt(s, sub, j + 1)
  {
    assert s[j + 1..j + 1 + |sub|] == s[1..][j..j + |sub|];
  }

  /** `s.includes(sub)` */
  function Includes(s: string, sub: string): (r: bool)
    ensures r <==> exists i :: OccursAt(s, sub, i)
    decreases |s|
  {
    if |sub| > |s| then false
    else if s[..|sub|] == sub then (assert OccursAt(s, sub, 0); true)
    else
      var rest := Includes(s[1..], sub);
      if rest then
        var j :| OccursAt(s[1..], sub, j);
        OccursFromTail(s, sub, j);
        true
      else
        assert forall i :: OccursAt(s, sub, i) ==> i == 0 || OccursAt(s[1..], sub, i - 1) by {
          forall i | OccursAt(s, sub, i) && i != 0 ensures OccursAt(s[1..], sub, i - 1) {
            OccursTail(s, sub, i);
          }
        }
        false
  }

  /** `s.indexOf(sub)`: the first position where `sub` occurs, or -1. */
  function IndexOf(s: string, sub: string): (r: int)
    ensures -1 <= r <= |s|
    ensures r == -1 <==> !Includes(s, sub)
    ensures r >= 0 ==> OccursAt(s, sub, r)
    ensures forall j :: 0 <= j < r ==> !OccursAt(s, sub, j)
    decreases |s|
  {
    if |sub| > |s| then -1
    else if s[..|sub|] == sub then (assert OccursAt(s, sub, 0); 0)
    else
      var k := IndexOf(s[1..], sub);
      if k < 0 then -1
      else
        OccursFromTail(s, sub, k);
        assert forall j :: 1 <= j < k + 1 ==> !OccursAt(s, sub, j) by {
          forall j | 1 <= j < k + 1 && OccursAt(s, sub, j) ensures false {
            OccursTail(s, sub, j);
          }
        }
        k + 1
  }

  /** `s.replace(pattern, replacement)` with a string pattern: only the first occurrence is replaced. */
  function ReplaceFirst(s: string, pattern: string, replacement: string): (r: string)
    ensures !Includes(s, pattern) ==> r == s
    ensures Includes(s, pattern) ==>
              exists i :: OccursAt(s, pattern, i) && r == s[..i] + replacement + s[i + |pattern|..]
  {
    var i := IndexOf(s, pattern);
    if i < 0 then s else s[..i] + replacement + s[i + |pattern|..]
  }

  predicate StartsWith(s: string, prefix: string) {
    |prefix| <= |s| && s[..|prefix|] == prefix
  }

  /** `s.endsWith(suffix)` */
  predicate EndsWith(s: string, suffix: string) {
    |suffix| <= |s| && s[|s| - |suffix|..] == suffix
  }

  /**
   * `a < b` on JavaScript strings: lexicographic order of the characters, a
   * proper prefix coming first.
   */
  predicate StrLess(a: string, b: string)
    decreases |a|
  {
    if |b| == 0 then false
    else if |a| == 0 then true
    else if a[0] != b[0] then a[0] < b[0]
    else StrLess(a[1..], b[1..])
  }

  lemma {:induction false} StrLessIrreflexive(a: string)
    ensures !StrLess(a, a)
    decreases |a|
  {
    if |a| > 0 {
      StrLessIrreflexive(a[1..]);
    }
  }

  lemma {:induction false} StrLessTrichotomy(a: string, b: string)
    ensures a == b || StrLess(a, b) || StrLess(b, a)
    ensures !(StrLess(a, b) && StrLess(b, a))
    decreases |a|
  {
    if |a| > 0 && |b| > 0 && a[0] == b[0] {
      StrLessTrichotomy(a[1..], b[1..]);
      if a[1..] == b[1..] {
        assert a == [a[0]] + a[1..] && b == [b[0]] + b[1..];
      }
    }
  }

  lemma {:induction false} StrLessTransitive(a: string, b: string, c: string)
    requires StrLess(a, b) && StrLess(b, c)
    ensures StrLess(a, c)
    decreases |a|
  {
    if |a| > 0 && a[0] == b[0] && b[0] == c[0] {
      StrLessTransitive(a[1..], b[1..], c[1..]);
    }
  }

  /** The characters `String.prototype.trim` removes: ECMAScript WhiteSpace and LineTerminator. */
  predicate IsJsSpace(c: char) {
    var n := c as int;
    n == 0x09 || n == 0x0A || n == 0x0B || n == 0x0C || n == 0x0D || n == 0x20 ||
    n == 0xA0 || n == 0x1680 || (0x2000 <= n <= 0x200A) || n == 0x2028 || n == 0x2029 ||
    n == 0x202F || n == 0x205F || n == 0x3000 || n == 0xFEFF
  }

  function TrimStart(s: string): (r: string)
    ensures |r| <= |s| && r == s[|s| - |r|..]
    ensures r != [] ==> !IsJsSpace(r[0])
    ensures forall k :: 0 <= k < |s| - |r| ==> IsJsSpace(s[k])
  {
    if |s| > 0 && IsJsSpace(s[0]) then TrimStart(s[1..]) else s
  }

  function TrimEnd(s: string): (r: string)
    ensures |r| <= |s| && r == s[..|r|]
    ensures r != [] ==> !IsJsSpace(r[|r| - 1])
    ensures forall k :: |r| <= k < |s| ==> IsJsSpace(s[k])
  {
    if |s| > 0 && IsJsSpace(s[|s| - 1]) then TrimEnd(s[..|s| - 1]) else s
  }

  /** `s.trim()` */
  function Trim(s: string): (r: string)
    ensures |r| <= |s|
    ensures r != [] ==> !IsJsSpace(r[0]) && !IsJsSpace(r[|r| - 1])
    ensures r == [] <==> forall k :: 0 <= k < |s| ==> IsJsSpace(s[k])
  {
    var t := TrimStart(s);
    var r := TrimEnd(t);
    assert r == [] ==> forall k :: 0 <= k < |s| ==> IsJsSpace(s[k]) by {
      if r == [] {
        assert t == [];
      }
    }
    r
  }

  function DigitChar(d: nat): char
    requires d < 10
  {
    "0123456789"[d]
  }

  /** The decimal text of a non-negative integer, as `String(n)` and template literals print it. */
  function Decimal(n: nat): (s: string)
    ensures |s| > 0
    decreases n
  {
    if n < 10 then [DigitChar(n)] else Decimal(n / 10) + [DigitChar(n % 10)]
  }

  function LowerChar(c: char): char {
    if 'A' <= c <= 'Z' then (c as int + 32) as char else c
  }

  /** `s.toLowerCase()` restricted to ASCII letters; every other character is kept. */
  function AsciiLower(s: string): (r: string)
    ensures |r| == |s|
    ensures forall k :: 0 <= k < |s| ==> r[k] == LowerChar(s[k])
  {
    seq(|s|, k requires 0 <= k < |s| => LowerChar(s[k]))
  }

  // ---------------------------------------------------------------------------
  // Node's `path` module, POSIX flavour
  // ---------------------------------------------------------------------------

  /** `path.join(dir, name)` for a plain directory entry name, as `readdir` returns it. */
  function Join(dir: string, name: string): string {
    if dir == "" then name else dir + "/" + name
  }

  /** The last position of `c` in `s`, or -1. */
  function LastIndexOf(s: string, c: char): (r: int)
    ensures -1 <= r < |s|
    ensures r >= 0 ==> s[r] == c
    ensures forall k :: r < k < |s| ==> s[k] != c
  {
    if |s| == 0 then -1
    else if s[|s| - 1] == c then |s| - 1
    else LastIndexOf(s[..|s| - 1], c)
  }

  function StripTrailingSlashes(p: string): (r: string)
    ensures |r| <= |p| && r == p[..|r|]
    ensures r == [] || r[|r| - 1] != '/'
  {
    if |p| > 0 && p[|p| - 1] == '/' then StripTrailingSlashes(p[..|p| - 1]) else p
  }

  /** `path.basename(p)`: the last segment, trailing slashes ignored. */
  function Basename(p: string): (r: string)
    ensures forall k :: 0 <= k < |r| ==> r[k] != '/'
  {
    var q := StripTrailingSlashes(p);
    q[LastIndexOf(q, '/') + 1..]
  }

  /**
   * `path.extname(p)`: from the last dot of the last segment to its end; empty
   * when the segment has no dot, when its only leading run of characters before
   * the last dot is empty (".pdf"), and for "..".
   */
  function Extname(p: string): (r: string)
    ensures r == [] || (r[0] == '.' && EndsWith(Basename(p), r))
  {
    var b := Basename(p);
    var dot := LastIndexOf(b, '.');
    if dot <= 0 then ""
    else if b[0] == '.' && dot == 1 && dot == |b| - 1 then ""
    else b[dot..]
  }

  /** `path.isAbsolute(p)` */
  predicate IsAbsolute(p: string) {
    |p| > 0 && p[0] == '/'
  }

  /** `a` lies inside the directory `b`. */
  predicate Under(a: string, b: string) {
    StartsWith(a, b + "/")
  }

  /** A name `readdir` can return: not empty, not "." or "..", without '/'. */
  predicate ValidName(s: string) {
    s != "" && s != "." && s != ".." && '/' !in s
  }

  /** The '/'-separated segments of a path, empty ones included: "a//b/" has "a", "", "b" and "". */
  function Segments(p: string): (r: seq<string>)
    ensures |r| >= 1
    ensures forall k :: 0 <= k < |r| ==> '/' !in r[k]
    decreases |p|
  {
    var i := LastIndexOf(p, '/');
    if i < 0 then [p]
    else
      var last := p[i + 1..];
      assert forall k :: 0 <= k < |last| ==> last[k] == p[i + 1 + k];
      Segments(p[..i]) + [last]
  }

  /** The segments joined back with '/'. */
  function JoinSegments(segs: seq<string>): string {
    if segs == [] then ""
    else if |segs| == 1 then segs[0]
    else JoinSegments(segs[..|segs| - 1]) + "/" + segs[|segs| - 1]
  }

  /** A relative path in normal form: every segment is a plain name. */
  predicate NormalPath(p: string) {
    forall k :: 0 <= k < |Segments(p)| ==> ValidName(Segments(p)[k])
  }

  /**
   * Where `path.join(dir, p)` lands, seen from `dir`, for the segments of `p`:
   * empty and "." segments are dropped and each ".." cancels the segment before
   * it; None once a ".." has nothing left to cancel, the joined path then being
   * outside `dir`.
   */
  function ResolveSegments(segs: seq<string>): (r: Option<seq<string>>)
    requires forall k :: 0 <= k < |segs| ==> '/' !in segs[k]
    ensures r.Some? ==> forall k :: 0 <= k < |r.value| ==> ValidName(r.value[k])
  {
    if segs == [] then Some([])
    else
      match ResolveSegments(segs[..|segs| - 1])
      case None => None
      case Some(acc) => ResolveStep(acc, segs[|segs| - 1])
  }

  /** One segment more: "" and "." stay, ".." goes up unless there is nothing to go up from, a name goes down. */
  function ResolveStep(acc: seq<string>, s: string): (r: Option<seq<string>>)
    requires '/' !in s && forall k :: 0 <= k < |acc| ==> ValidName(acc[k])
    ensures r.Some? ==> forall k :: 0 <= k < |r.value| ==> ValidName(r.value[k])
  {
    if s == "" || s == "." then Some(acc)
    else if s == ".." then (if acc == [] then None else Some(acc[..|acc| - 1]))
    else Some(acc + [s])
  }

  /** The segments of `path.join(dir, p)` below `dir`, or None when it leaves `dir`. */
  function Resolve(p: string): Option<seq<string>> {
    ResolveSegments(Segments(p))
  }

  /** A path without '/' is one segment. */
  lemma SegmentsPlain(name: string)
    requires '/' !in name
    ensures Segments(name) == [name]
  {
    assert LastIndexOf(name, '/') < 0;
  }

  /** Resolving one segment more. */
  lemma ResolveSnoc(segs: seq<string>, s: string)
    requires (forall k :: 0 <= k < |segs| ==> '/' !in segs[k]) && '/' !in s
    ensures ResolveSegments(segs + [s]) == if ResolveSegments(segs).None? then None else ResolveStep(ResolveSegments(segs).value, s)
  {
    assert (segs + [s])[..|segs|] == segs;
  }

  /** The segments of "./a", "/a" and "b/../a" all resolve to those of `dir/a`. */
  lemma ResolveDropsDots()
    ensures ResolveSegments([".", "a"]) == Some(["a"])
    ensures ResolveSegments(["", "a"]) == Some(["a"])
    ensures ResolveSegments(["b", "..", "a"]) == Some(["a"])
  {
    var none: seq<string> := [];
    var a: seq<string>, dot: seq<string>, empty: seq<string>, b: seq<string> := ["a"], ["."], [""], ["b"];
    assert "a" != "" && "a" != "." && "a" != ".." && "b" != "" && "b" != "." && "b" != "..";
    assert none + a == a && none + b == b;
    assert ResolveStep(none, "a") == Some(a);
    assert ResolveSegments(dot) == Some(none) by {
      assert dot[..0] == none;
    }
    assert ResolveSegments(empty) == Some(none) by {
      assert empty[..0] == none;
    }
    assert ResolveSegments(b) == Some(b) by {
      assert b[..0] == none;
      assert ResolveStep(none, "b") == Some(b);
    }
    var dota, emptya, bup, bupa: seq<string> := [".", "a"], ["", "a"], ["b", ".."], ["b", "..", "a"];
    assert dota[..1] == dot && emptya[..1] == empty && bup[..1] == b && bupa[..2] == bup;
    assert ResolveSegments(bup) == Some(none);
  }

  /** `path.join(dir, "../x")` is outside `dir`. */
  lemma ResolveEscapes()
    ensures Resolve("../x") == None
  {
    SegmentsPlain("..");
    assert "../x" == ".." + "/" + "x";
    SegmentsSnoc("..", "x");
    assert ["..", "x"][..1] == [".."] && [".."][..0] == [];
    assert ResolveSegments([".."]) == ResolveStep([], "..") == None;
  }

  /** Splitting a path after its last '/'. */
  lemma SegmentsSnoc(a: string, name: string)
    requires '/' !in name
    ensures Segments(a + "/" + name) == Segments(a) + [name]
  {
    var p := a + "/" + name;
    var i := LastIndexOf(p, '/');
    assert p[|a|] == '/';
    forall k | |a| < k < |p| ensures p[k] != '/' {
      assert p[k] == name[k - |a| - 1];
    }
    assert i == |a|;
    assert p[..i] == a && p[i + 1..] == name;
  }

  /** Splitting and joining are inverse. */
  lemma {:induction false} JoinSegmentsOfSegments(p: string)
    ensures JoinSegments(Segments(p)) == p
    decreases |p|
  {
    var i := LastIndexOf(p, '/');
    if i >= 0 {
      var init := Segments(p[..i]);
      var last := p[i + 1..];
      JoinSegmentsOfSegments(p[..i]);
      assert Segments(p) == init + [last];
      assert (init + [last])[..|init|] == init;
      assert JoinSegments(init + [last]) == JoinSegments(init) + "/" + last;
      assert p == p[..i] + "/" + last;
    } else {
      assert Segments(p) == [p];
    }
  }

  /** Joining plain names gives a normal path with exactly those segments. */
  lemma {:induction false} SegmentsOfJoin(segs: seq<string>)
    requires |segs| >= 1 && forall k :: 0 <= k < |segs| ==> ValidName(segs[k])
    ensures Segments(JoinSegments(segs)) == segs
  {
    if |segs| > 1 {
      var init := segs[..|segs| - 1];
      SegmentsOfJoin(init);
      SegmentsSnoc(JoinSegments(init), segs[|segs| - 1]);
    }
  }

  /** A path made of plain names resolves to itself: `path.join(dir, p)` is `dir/p`. */
  lemma {:induction false} ResolveNormalSegments(segs: seq<string>)
    requires forall k :: 0 <= k < |segs| ==> '/' !in segs[k] && ValidName(segs[k])
    ensures ResolveSegments(segs) == Some(segs)
  {
    if segs != [] {
      ResolveNormalSegments(segs[..|segs| - 1]);
      assert segs == segs[..|segs| - 1] + [segs[|segs| - 1]];
    }
  }

  /** A normal path stays where it is, does not end in '/', and names a file below the directory. */
  lemma ResolveNormal(p: string)
    requires NormalPath(p)
    ensures Resolve(p) == Some(Segments(p)) && JoinSegments(Segments(p)) == p
    ensures Segments(p) != [] && !EndsWith(p, "/")
  {
    ResolveNormalSegments(Segments(p));
    JoinSegmentsOfSegments(p);
  }

  /** What `path.join(rel, name)` gives for a name `readdir` returns is normal again. */
  lemma JoinNormal(rel: string, name: string)
    requires rel == "" || NormalPath(rel)
    requires ValidName(name)
    ensures NormalPath(Join(rel, name))
  {
    if rel != "" {
      SegmentsSnoc(rel, name);
    }
  }

  /** What extraction can add below a directory is a normal path. */
  lemma ResolvedIsNormal(segs: seq<string>)
    requires |segs| >= 1 && forall k :: 0 <= k < |segs| ==> ValidName(segs[k])
    ensures NormalPath(JoinSegments(segs))
  {
    SegmentsOfJoin(segs);
  }
}
