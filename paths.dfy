/** A model of Python's PurePosixPath: a path is a flag for a leading '/' and
    its non-empty components other than ".". Parsing drops empty and "."
    components exactly as pathlib does; `Str` renders the path back. */
module Paths {
  import opened Text

  datatype PurePath = PurePath(absolute: bool, parts: seq<string>)

  predicate WellFormed(p: PurePath) { forall i :: 0 <= i < |p.parts| ==> IsPart(p.parts[i]) }

  /** Split on '/', keeping empty pieces (`str.split('/')`). */
  function Split(s: string): (r: seq<string>)
    ensures |r| >= 1 && forall i :: 0 <= i < |r| ==> '/' !in r[i]
  {
    if s == [] then [""]
    else
      var rest := Split(s[1..]);
      if s[0] == '/' then [""] + rest else [[s[0]] + rest[0]] + rest[1..]
  }

  predicate IsPart(c: string) { c != "" && c != "." && '/' !in c }

  function KeepParts(cs: seq<string>): (r: seq<string>)
    requires forall i :: 0 <= i < |cs| ==> '/' !in cs[i]
    ensures forall i :: 0 <= i < |r| ==> IsPart(r[i])
  {
    if cs == [] then []
    else if cs[0] == "" || cs[0] == "." then KeepParts(cs[1..])
    else [cs[0]] + KeepParts(cs[1..])
  }

  /** `PurePosixPath(s)`. */
  function Parse(s: string): (p: PurePath)
    ensures WellFormed(p)
  {
    PurePath(|s| > 0 && s[0] == '/', KeepParts(Split(s)))
  }

  function JoinParts(parts: seq<string>): string
  {
    if parts == [] then ""
    else if |parts| == 1 then parts[0]
    else parts[0] + "/" + JoinParts(parts[1..])
  }

  /** `str(path)`. */
  function Str(p: PurePath): string
  {
    if p.absolute then "/" + JoinParts(p.parts)
    else if p.parts == [] then "."
    else JoinParts(p.parts)
  }

  /** `path / s`: an absolute right operand replaces the path. */
  function Div(p: PurePath, s: string): PurePath
  {
    var q := Parse(s);
    if q.absolute then q else PurePath(p.absolute, p.parts + q.parts)
  }

  /** `path.name`: the last component, or "" when there is none. */
  function Name(p: PurePath): (r: string)
    ensures WellFormed(p) ==> r == "" || IsPart(r)
  {
    if p.parts == [] then "" else p.parts[|p.parts| - 1]
  }

  /** `path.parent`: the path without its last component (a path with no components is its own parent). */
  function Parent(p: PurePath): PurePath
  {
    if p.parts == [] then p else PurePath(p.absolute, p.parts[..|p.parts| - 1])
  }

  /** Position of the last '.' in `s`, if any (`str.rfind('.')`, with -1 as None). */
  function LastDot(s: string): (r: int)
    ensures -1 <= r < |s|
    ensures r >= 0 ==> s[r] == '.' && forall j :: r < j < |s| ==> s[j] != '.'
    ensures r == -1 ==> forall j :: 0 <= j < |s| ==> s[j] != '.'
  {
    if s == [] then -1
    else if s[|s| - 1] == '.' then |s| - 1
    else LastDot(s[..|s| - 1])
  }

  /** `path.suffix` of a name: from its last dot, unless that dot leads or ends the name. */
  function NameSuffix(name: string): string
  {
    var i := LastDot(name);
    if 0 < i < |name| - 1 then name[i..] else ""
  }

  /** `path.stem` of a name: the name without its suffix. */
  function NameStem(name: string): string
  {
    var i := LastDot(name);
    if 0 < i < |name| - 1 then name[..i] else name
  }

  function Suffix(p: PurePath): string
  {
    NameSuffix(Name(p))
  }

  function Stem(p: PurePath): string
  {
    NameStem(Name(p))
  }

  lemma StemSuffix(name: string)
    ensures NameStem(name) + NameSuffix(name) == name
  {
  }

  /** The last dot of `a + b` is the last dot of `b` when it has one, else that of `a`. */
  lemma {:induction false} LastDotAppend(a: string, b: string)
    ensures LastDot(a + b) == if LastDot(b) >= 0 then |a| + LastDot(b) else LastDot(a)
  {
    if b == [] {
      assert a + b == a;
    } else {
      assert (a + b)[..|a + b| - 1] == a + b[..|b| - 1];
      if b[|b| - 1] != '.' {
        LastDotAppend(a, b[..|b| - 1]);
      }
    }
  }

  lemma {:induction false} SplitNoSlash(s: string)
    requires '/' !in s
    ensures Split(s) == [s]
  {
    if s != [] {
      SplitNoSlash(s[1..]);
      assert [s[0]] + s[1..] == s;
    }
  }

  /** A single component parses to itself. */
  lemma ParsePart(s: string)
    requires IsPart(s)
    ensures Parse(s) == PurePath(false, [s])
  {
    SplitNoSlash(s);
    assert KeepParts([s]) == [s] + KeepParts([]);
  }

  lemma {:induction false} SplitConcat(a: string, b: string)
    ensures Split(a + "/" + b) == Split(a) + Split(b)
  {
    if a == [] {
      assert a + "/" + b == "/" + b;
      assert ("/" + b)[1..] == b;
    } else {
      var s := a + "/" + b;
      assert s[0] == a[0];
      assert s[1..] == a[1..] + "/" + b;
      SplitConcat(a[1..], b);
    }
  }

  lemma {:induction false} KeepPartsAppend(x: seq<string>, y: seq<string>)
    requires forall i :: 0 <= i < |x| ==> '/' !in x[i]
    requires forall i :: 0 <= i < |y| ==> '/' !in y[i]
    ensures KeepParts(x + y) == KeepParts(x) + KeepParts(y)
  {
    if x == [] {
      assert x + y == y;
    } else {
      assert (x + y)[0] == x[0];
      assert (x + y)[1..] == x[1..] + y;
      KeepPartsAppend(x[1..], y);
    }
  }

  lemma {:induction false} ParseJoin(parts: seq<string>)
    requires |parts| >= 1 && forall i :: 0 <= i < |parts| ==> IsPart(parts[i])
    ensures KeepParts(Split(JoinParts(parts))) == parts
  {
    var a := parts[0];
    SplitNoSlash(a);
    assert KeepParts([a]) == [a] + KeepParts([]);
    if |parts| > 1 {
      var b := JoinParts(parts[1..]);
      SplitConcat(a, b);
      KeepPartsAppend([a], Split(b));
      ParseJoin(parts[1..]);
    }
  }

  /** Rendering a well-formed path and parsing it back gives the same path. */
  lemma ParseStr(p: PurePath)
    requires WellFormed(p)
    ensures Parse(Str(p)) == p
  {
    var s := Str(p);
    if p.parts == [] {
      if p.absolute {
        assert Split(s) == [""] + Split("");
        assert KeepParts(Split(s)) == KeepParts([""]);
      } else {
        assert s == ".";
        var rest := Split(s[1..]);
        assert s[1..] == "" && rest == [""];
        assert [s[0]] + rest[0] == "." && rest[1..] == [];
        assert Split(s) == [[s[0]] + rest[0]] + rest[1..];
        assert KeepParts(Split(s)) == KeepParts([]);
      }
    } else {
      ParseJoin(p.parts);
      var j := JoinParts(p.parts);
      if p.absolute {
        assert s[1..] == j;
        assert Split(s) == [""] + Split(j);
        assert KeepParts([""] + Split(j)) == KeepParts(Split(j));
      } else {
        assert |p.parts| > 1 ==> j == p.parts[0] + "/" + JoinParts(p.parts[1..]);
        assert j[0] == p.parts[0][0];
      }
    }
  }

  /** The name of `dir/name` is `name`, whatever the directory part. */
  lemma NameOfJoin(dir: string, name: string)
    requires IsPart(name)
    ensures Name(Parse(dir + "/" + name)) == name
  {
    SplitConcat(dir, name);
    SplitNoSlash(name);
    KeepPartsAppend(Split(dir), [name]);
    assert KeepParts([name]) == [name] + KeepParts([]);
  }

  // --------------------------------------------------------- path ordering

  /** What pathlib compares when it orders two paths: the rendered path split
      on '/' (`_parts_normcase`), so an absolute path starts with "". */
  function OrderKey(s: string): seq<string>
  {
    Split(Str(Parse(s)))
  }

  /** Python's `<=` on lists of strings: the first differing element
      decides, and a prefix comes first. */
  predicate PartsLe(a: seq<string>, b: seq<string>)
  {
    a == [] || (b != [] && (if a[0] == b[0] then PartsLe(a[1..], b[1..]) else StrLe(a[0], b[0])))
  }

  lemma {:induction false} PartsLeTotal(a: seq<string>, b: seq<string>)
    ensures PartsLe(a, b) || PartsLe(b, a)
  {
    if a != [] && b != [] {
      if a[0] == b[0] {
        PartsLeTotal(a[1..], b[1..]);
      } else {
        StrLeTotal(a[0], b[0]);
      }
    }
  }

  lemma {:induction false} PartsLeTransitive(a: seq<string>, b: seq<string>, c: seq<string>)
    requires PartsLe(a, b) && PartsLe(b, c)
    ensures PartsLe(a, c)
  {
    if a != [] {
      if a[0] == b[0] && b[0] == c[0] {
        PartsLeTransitive(a[1..], b[1..], c[1..]);
      } else if a[0] != b[0] && b[0] != c[0] {
        StrLeTransitive(a[0], b[0], c[0]);
        if a[0] == c[0] {
          StrLeAntisymmetric(a[0], b[0]);
        }
      }
    }
  }

  /** `p <= q` for the paths `PurePosixPath(p)` and `PurePosixPath(q)`. */
  predicate PathLe(p: string, q: string)
  {
    PartsLe(OrderKey(p), OrderKey(q))
  }

  /** Each path is at most the next one. */
  predicate Sorted(s: seq<string>)
  {
    forall i :: 0 < i < |s| ==> PathLe(s[i - 1], s[i])
  }

  /** Inserting `x` before the first path it does not exceed. */
  function Insert(x: string, s: seq<string>): (r: seq<string>)
    ensures multiset(r) == multiset(s) + multiset{x}
  {
    if s == [] then [x]
    else if PathLe(x, s[0]) then [x] + s
    else
      assert s == [s[0]] + s[1..];
      [s[0]] + Insert(x, s[1..])
  }

  /** `sorted(paths)`, as insertion sort. */
  function Sort(xs: seq<string>): seq<string>
  {
    if xs == [] then [] else Insert(xs[|xs| - 1], Sort(xs[..|xs| - 1]))
  }

  lemma {:induction false} InsertHead(x: string, s: seq<string>)
    ensures Insert(x, s)[0] == x || (s != [] && Insert(x, s)[0] == s[0])
  {
  }

  lemma {:induction false} InsertSorted(x: string, s: seq<string>)
    requires Sorted(s)
    ensures Sorted(Insert(x, s))
  {
    if s != [] && !PathLe(x, s[0]) {
      var t := Insert(x, s[1..]);
      InsertSorted(x, s[1..]);
      InsertHead(x, s[1..]);
      PartsLeTotal(OrderKey(x), OrderKey(s[0]));
      var r := Insert(x, s);
      assert r == [s[0]] + t;
      assert PathLe(r[0], r[1]) by {
        if t[0] != x {
          assert s[1..][0] == s[1];
        }
      }
      forall i | 1 < i < |r| ensures PathLe(r[i - 1], r[i]) {
        assert r[i - 1] == t[i - 2] && r[i] == t[i - 1];
      }
    }
  }

  /** `sorted` returns its input in path order. */
  lemma {:induction false} SortSorted(xs: seq<string>)
    ensures Sorted(Sort(xs)) && multiset(Sort(xs)) == multiset(xs)
  {
    if xs != [] {
      SortSorted(xs[..|xs| - 1]);
      InsertSorted(xs[|xs| - 1], Sort(xs[..|xs| - 1]));
      assert xs == xs[..|xs| - 1] + [xs[|xs| - 1]];
    }
  }

  /** Paths are ordered by their first differing component alone: a
      component that sorts first puts its path first, whatever follows. */
  lemma {:induction false} ComponentOrder(pre: seq<string>, a: string, b: string, rest: seq<string>, rest': seq<string>)
    requires a != b && StrLe(a, b)
    ensures PartsLe(pre + [a] + rest, pre + [b] + rest') && !PartsLe(pre + [b] + rest', pre + [a] + rest)
  {
    var x, y := pre + [a] + rest, pre + [b] + rest';
    if pre == [] {
      assert x == [a] + rest && y == [b] + rest';
      if StrLe(b, a) {
        StrLeAntisymmetric(a, b);
      }
    } else {
      ComponentOrder(pre[1..], a, b, rest, rest');
      assert x[0] == y[0] && x[1..] == pre[1..] + [a] + rest && y[1..] == pre[1..] + [b] + rest';
    }
  }

  /** Splitting a join of components gives the components back. */
  lemma {:induction false} SplitJoin(parts: seq<string>)
    requires |parts| >= 1 && forall i :: 0 <= i < |parts| ==> IsPart(parts[i])
    ensures Split(JoinParts(parts)) == parts
  {
    SplitNoSlash(parts[0]);
    if |parts| > 1 {
      SplitJoin(parts[1..]);
      SplitConcat(parts[0], JoinParts(parts[1..]));
      assert parts == [parts[0]] + parts[1..];
    }
  }

  /** An absolute path is ordered by "" followed by its components. */
  lemma OrderKeyAbsolute(s: string, parts: seq<string>)
    requires |parts| >= 1 && forall i :: 0 <= i < |parts| ==> IsPart(parts[i])
    requires s == "/" + JoinParts(parts)
    ensures OrderKey(s) == [""] + parts
  {
    var p := PurePath(true, parts);
    ParseStr(p);
    SplitJoin(parts);
    assert s[1..] == JoinParts(parts);
  }

  /** Path order is not string order: "a" is a prefix of "a b", so the
      first path comes first, while as strings ' ' sorts before '/'. */
  lemma PathOrderDiffersFromStringOrder(p: string, q: string)
    requires p == "/t/a/2.zip" && q == "/t/a b/1.zip"
    ensures PathLe(p, q) && !PathLe(q, p)
    ensures StrLe(q, p) && !StrLe(p, q)
  {
    ExamplePathOrder(p, q);
    ExampleStringOrder(p, q);
  }

  lemma ExamplePathOrder(p: string, q: string)
    requires p == "/t/a/2.zip" && q == "/t/a b/1.zip"
    ensures PathLe(p, q) && !PathLe(q, p)
  {
    ExampleOrderKeys(p, q);
    assert StrLe("a", "a b");
    assert OrderKey(p) == ["", "t"] + ["a"] + ["2.zip"] && OrderKey(q) == ["", "t"] + ["a b"] + ["1.zip"];
    ComponentOrder(["", "t"], "a", "a b", ["2.zip"], ["1.zip"]);
  }

  lemma ExampleOrderKeys(p: string, q: string)
    requires p == "/t/a/2.zip" && q == "/t/a b/1.zip"
    ensures OrderKey(p) == ["", "t", "a", "2.zip"] && OrderKey(q) == ["", "t", "a b", "1.zip"]
  {
    var x, y := ["t", "a", "2.zip"], ["t", "a b", "1.zip"];
    assert IsPart("t") && IsPart("a") && IsPart("2.zip") && IsPart("a b") && IsPart("1.zip");
    assert p == "/" + JoinParts(x) && q == "/" + JoinParts(y);
    OrderKeyAbsolute(p, x);
    OrderKeyAbsolute(q, y);
  }

  lemma ExampleStringOrder(p: string, q: string)
    requires p == "/t/a/2.zip" && q == "/t/a b/1.zip"
    ensures StrLe(q, p) && !StrLe(p, q)
  {
    assert StrLe("/t/a b/1.zip", "/t/a/2.zip") && !StrLe("/t/a/2.zip", "/t/a b/1.zip");
  }
}
