/** `hasher.py`: two-phase duplicate grouping over the zip records. Files are
    first partitioned by (size, normalised name); a singleton partition gets a
    synthetic key of its own, and the members of every other partition are
    regrouped by their `"{size}_{crc:08x}"` content key. */
module Hasher {
  import opened Base
  import opened Text
  import opened Paths
  import opened Groups
  import opened Scanner

  // ------------------------------------------------------- normalize_filename

  /** Number of consecutive ASCII digits in `s` from position `i` on. */
  function DigitsFrom(s: string, i: nat): (n: nat)
    requires i <= |s|
    ensures i + n <= |s|
    decreases |s| - i
  {
    if i < |s| && IsDigit(s[i]) then 1 + DigitsFrom(s, i + 1) else 0
  }

  /** A run of `n` digits ended by a non-digit or the end is counted exactly. */
  lemma {:induction false} DigitsFromRun(s: string, i: nat, n: nat)
    requires i + n <= |s| && (forall k :: i <= k < i + n ==> IsDigit(s[k]))
    requires i + n < |s| ==> !IsDigit(s[i + n])
    ensures DigitsFrom(s, i) == n
    decreases n
  {
    if n > 0 {
      DigitsFromRun(s, i + 1, n - 1);
    }
  }

  /** The lookahead `(?=\.[^.]+$|$)` at position `j`: a final extension with no
      further dot, or the end of the string (`$` also matches just before a
      trailing newline). */
  predicate ExtensionAt(s: string, j: nat)
    requires j <= |s|
  {
    || j == |s|
    || (j == |s| - 1 && s[j] == '\n')
    || (j + 2 <= |s| && s[j] == '.' && NoDotFrom(s, j + 1))
  }

  /** No '.' from position `k` to the end (`[^.]+$`). */
  predicate NoDotFrom(s: string, k: nat)
    requires k <= |s|
    decreases |s| - k
  {
    k == |s| || (s[k] != '.' && NoDotFrom(s, k + 1))
  }

  lemma {:induction false} NoDotFromAll(s: string, k: nat)
    requires k <= |s|
    ensures NoDotFrom(s, k) <==> forall m :: k <= m < |s| ==> s[m] != '.'
    decreases |s| - k
  {
    if k < |s| {
      NoDotFromAll(s, k + 1);
    }
  }

  /** Where a match of `\(\d+\)(?=\.[^.]+$|$)` starting at `i` ends, if there is one. */
  function MatchAt(s: string, i: nat): (r: Option<nat>)
    requires i <= |s|
    ensures r.Some? ==> i + 3 <= r.value <= |s|
  {
    if i < |s| && s[i] == '(' then
      var n := DigitsFrom(s, i + 1);
      if n >= 1 && i + n + 1 < |s| && s[i + n + 1] == ')' && ExtensionAt(s, i + n + 2) then Some(i + n + 2)
      else None
    else None
  }

  /** `re.sub` from position `i` on: every non-overlapping match, scanned left
      to right, is deleted and every other character kept. */
  function SubFrom(s: string, i: nat): string
    requires i <= |s|
    decreases |s| - i
  {
    if i == |s| then []
    else
      match MatchAt(s, i)
      case Some(j) => SubFrom(s, j)
      case None => [s[i]] + SubFrom(s, i + 1)
  }

  /** `DUPLICATE_SUFFIX_PATTERN.sub('', s)`. */
  function StripCopySuffixes(s: string): string
  {
    SubFrom(s, 0)
  }

  /** `normalize_filename`: the final path component with copy suffixes
      removed, lowercased. */
  function NormalizeFilename(filePath: string): string
  {
    Lower(StripCopySuffixes(Name(Parse(filePath))))
  }

  /** `get_size_name_key`. */
  function SizeNameKey(f: ZipFileInfo): (nat, string)
  {
    (f.fileSize, NormalizeFilename(f.filePath))
  }

  /** No '(' at the positions from `a` up to `b`. */
  predicate NoParen(s: string, a: nat, b: nat)
  {
    a <= b <= |s| && forall k :: a <= k < b ==> s[k] != '('
  }

  /** `\(\d+\)` occupies the positions from `i` to `j` of `s`. */
  predicate ParenGroup(s: string, i: nat, j: nat)
  {
    i + 1 < j < |s| && s[i] == '(' && s[j] == ')' && forall k :: i < k < j ==> IsDigit(s[k])
  }

  /** Where no match starts, the character is kept. */
  lemma SubKeepsOne(s: string, i: nat)
    requires i < |s| && MatchAt(s, i) == None
    ensures SubFrom(s, i) == [s[i]] + SubFrom(s, i + 1)
  {
  }

  /** A stretch where no match starts is copied unchanged. */
  lemma {:induction false} SubSkips(s: string, i: nat, j: nat)
    requires i <= j <= |s| && forall k :: i <= k < j ==> MatchAt(s, k) == None
    ensures SubFrom(s, i) == s[i..j] + SubFrom(s, j)
    decreases j - i
  {
    if i < j {
      var rest := SubFrom(s, j);
      SubKeepsOne(s, i);
      SubSkips(s, i + 1, j);
      assert [s[i]] + (s[i + 1..j] + rest) == ([s[i]] + s[i + 1..j]) + rest;
      assert s[i..j] == [s[i]] + s[i + 1..j];
    }
  }

  /** A stretch without '(' is copied unchanged. */
  lemma SubCopies(s: string, i: nat, j: nat)
    requires NoParen(s, i, j)
    ensures SubFrom(s, i) == s[i..j] + SubFrom(s, j)
  {
    SubSkips(s, i, j);
  }

  /** From `j` on there is no '(': the rest is copied. */
  lemma SubTail(s: string, j: nat)
    requires NoParen(s, j, |s|)
    ensures SubFrom(s, j) == s[j..]
  {
    SubCopies(s, j, |s|);
    assert s[j..|s|] == s[j..];
  }

  /** A string without '(' is left alone. */
  lemma StripNothing(s: string)
    requires '(' !in s
    ensures StripCopySuffixes(s) == s
  {
    SubTail(s, 0);
  }

  /** At `i` stands '(', then digits up to the ')' at `j`: a match ending
      after `j` exactly when the lookahead agrees there. */
  lemma ParenDigitsAt(s: string, i: nat, j: nat)
    requires ParenGroup(s, i, j)
    ensures MatchAt(s, i) == if ExtensionAt(s, j + 1) then Some(j + 1) else None
  {
    DigitsFromRun(s, i + 1, j - i - 1);
  }

  /** A `(digits)` group not followed by an extension or the end is kept. */
  lemma SubKeepsNonMatch(s: string, i: nat, j: nat)
    requires ParenGroup(s, i, j) && !ExtensionAt(s, j + 1)
    ensures SubFrom(s, i) == s[i..j + 1] + SubFrom(s, j + 1)
  {
    assert MatchAt(s, i) == None by {
      ParenDigitsAt(s, i, j);
    }
    SubKeepsOne(s, i);
    assert NoParen(s, i + 1, j + 1) by {
      forall k | i + 1 <= k < j + 1 ensures s[k] != '(' {
        if k < j {
          assert IsDigit(s[k]);
        }
      }
    }
    var rest := SubFrom(s, j + 1);
    assert SubFrom(s, i + 1) == s[i + 1..j + 1] + rest by {
      SubCopies(s, i + 1, j + 1);
    }
    assert [s[i]] + (s[i + 1..j + 1] + rest) == ([s[i]] + s[i + 1..j + 1]) + rest;
    assert [s[i]] + s[i + 1..j + 1] == s[i..j + 1];
  }

  /** A `(digits)` group followed by an extension or the end is deleted. */
  lemma SubDropsMatch(s: string, i: nat, j: nat)
    requires ParenGroup(s, i, j) && ExtensionAt(s, j + 1)
    ensures SubFrom(s, i) == SubFrom(s, j + 1)
  {
    ParenDigitsAt(s, i, j);
  }

  /** A final extension `.x` with no further dot satisfies the lookahead. */
  lemma ExtensionAtEnd(s: string, j: nat, ext: string)
    requires j <= |s| && s[j..] == ext && |ext| >= 2 && ext[0] == '.' && '.' !in ext[1..]
    ensures ExtensionAt(s, j)
  {
    forall k | j < k < |s| ensures s[k] != '.' {
      assert s[k] == ext[k - j] == ext[1..][k - j - 1];
    }
    NoDotFromAll(s, j + 1);
  }

  /** Positions in `a + "(" + d + ")" + b`. */
  lemma ParenLayout(a: string, d: string, b: string)
    requires d != [] && AllDigits(d)
    ensures var s := a + "(" + d + ")" + b; var p, j := |a|, |a| + |d| + 1;
      && |s| == j + 1 + |b| && s[..p] == a && s[j + 1..] == b && ParenGroup(s, p, j)
      && ('(' !in a ==> NoParen(s, 0, p)) && ('(' !in b ==> NoParen(s, j + 1, |s|))
  {
    var s := a + "(" + d + ")" + b;
    var p, j := |a|, |a| + |d| + 1;
    forall k | p < k < j ensures IsDigit(s[k]) {
      assert s[k] == d[k - p - 1];
    }
    if '(' !in a {
      forall k | 0 <= k < p ensures s[k] != '(' {
        assert s[k] == a[k];
      }
    }
    if '(' !in b {
      forall k | j + 1 <= k < |s| ensures s[k] != '(' {
        assert s[k] == b[k - j - 1];
      }
    }
  }

  /** Facts about a prefix `h` of `s` carry over to `s`. */
  lemma PrefixKeeps(s: string, h: string, p: nat, j: nat)
    requires |h| <= |s| && s[..|h|] == h && NoParen(h, 0, p) && ParenGroup(h, p, j)
    ensures NoParen(s, 0, p) && ParenGroup(s, p, j)
  {
    forall k | 0 <= k <= j ensures s[k] == h[k] {
      assert s[..|h|][k] == s[k];
    }
  }

  /** The group followed by the extension is removed, and the rest copied. */
  lemma DropThenTail(s: string, i: nat, j: nat)
    requires ParenGroup(s, i, j) && ExtensionAt(s, j + 1) && NoParen(s, j + 1, |s|)
    ensures SubFrom(s, i) == s[j + 1..]
  {
    SubTail(s, j + 1);
    SubDropsMatch(s, i, j);
  }

  /** The group not followed by the extension is kept, and the rest copied. */
  lemma KeepThenTail(s: string, i: nat, j: nat)
    requires ParenGroup(s, i, j) && !ExtensionAt(s, j + 1) && NoParen(s, j + 1, |s|)
    ensures SubFrom(s, i) == s[i..]
  {
    SubKeepsNonMatch(s, i, j);
    SubTail(s, j + 1);
    assert s[i..j + 1] + s[j + 1..] == s[i..];
  }

  /** One `(digits)` group before the extension, no other '(': only the group goes. */
  lemma StripOneAt(s: string, p: nat, j: nat)
    requires NoParen(s, 0, p) && ParenGroup(s, p, j) && ExtensionAt(s, j + 1) && NoParen(s, j + 1, |s|)
    ensures SubFrom(s, 0) == s[..p] + s[j + 1..]
  {
    DropThenTail(s, p, j);
    SubCopies(s, 0, p);
    assert s[0..p] == s[..p];
  }

  /** Two adjacent groups before the extension, from the first on: the first
      is kept, the second goes. */
  lemma StripSecondTail(s: string, p: nat, j: nat, r: nat)
    requires ParenGroup(s, p, j) && ParenGroup(s, j + 1, r)
    requires ExtensionAt(s, r + 1) && NoParen(s, r + 1, |s|)
    ensures SubFrom(s, p) == s[p..j + 1] + s[r + 1..]
  {
    DropThenTail(s, j + 1, r);
    SubKeepsNonMatch(s, p, j);
  }

  /** Two adjacent groups before the extension: the first is kept, the second goes. */
  lemma StripSecondAt(s: string, p: nat, j: nat, r: nat)
    requires NoParen(s, 0, p) && ParenGroup(s, p, j) && ParenGroup(s, j + 1, r)
    requires ExtensionAt(s, r + 1) && NoParen(s, r + 1, |s|)
    ensures SubFrom(s, 0) == s[..j + 1] + s[r + 1..]
  {
    var tail := s[r + 1..];
    assert SubFrom(s, p) == s[p..j + 1] + tail by {
      StripSecondTail(s, p, j, r);
    }
    assert SubFrom(s, 0) == s[0..p] + SubFrom(s, p) by {
      SubCopies(s, 0, p);
    }
    SliceJoin(s, 0, p, j + 1, tail);
  }

  /** One group not followed by an extension, no other '(': nothing goes. */
  lemma StripNoneAt(s: string, p: nat, j: nat)
    requires NoParen(s, 0, p) && ParenGroup(s, p, j) && !ExtensionAt(s, j + 1) && NoParen(s, j + 1, |s|)
    ensures SubFrom(s, 0) == s
  {
    KeepThenTail(s, p, j);
    SubCopies(s, 0, p);
    assert s[0..p] + s[p..] == s;
  }

  /** The name of a single-component path goes through the pattern whole. */
  lemma NormalizeName(name: string)
    requires IsPart(name)
    ensures NormalizeFilename(name) == Lower(StripCopySuffixes(name))
  {
    ParsePart(name);
  }

  lemma DigitsHaveNoParen(d: string)
    requires AllDigits(d)
    ensures '/' !in d && '(' !in d && ')' !in d
  {
    assert forall i :: 0 <= i < |d| ==> d[i] != '/' && d[i] != '(' && d[i] != ')';
  }

  /** The documented case: `stem(N).ext` loses its `(N)`, for a stem and an
      extension without '(' and an extension that is one dot followed by no
      other dot. */
  lemma StripBeforeExtension(stem: string, d: string, ext: string)
    requires '(' !in stem && '(' !in ext && d != [] && AllDigits(d)
    requires |ext| >= 2 && ext[0] == '.' && '.' !in ext[1..]
    ensures StripCopySuffixes(stem + "(" + d + ")" + ext) == stem + ext
  {
    var s := stem + "(" + d + ")" + ext;
    ParenLayout(stem, d, ext);
    ExtensionAtEnd(s, |stem| + |d| + 2, ext);
    StripOneAt(s, |stem|, |stem| + |d| + 1);
  }

  /** `stem(N).ext` normalises to the lowercase `stem.ext` (for a file name without '/'). */
  lemma NormalizeCopy(stem: string, d: string, ext: string)
    requires '(' !in stem && '(' !in ext && '/' !in stem && '/' !in ext && stem != ""
    requires d != [] && AllDigits(d)
    requires |ext| >= 2 && ext[0] == '.' && '.' !in ext[1..]
    ensures NormalizeFilename(stem + "(" + d + ")" + ext) == Lower(stem + ext)
  {
    var name := stem + "(" + d + ")" + ext;
    assert name[0] == stem[0];
    DigitsHaveNoParen(d);
    NormalizeName(name);
    StripBeforeExtension(stem, d, ext);
  }

  /** The lowercase form of the docstring example's name. */
  lemma LowerSpelling(s: string, t: string)
    requires s == "IMG_1234.jpg" && t == "img_1234.jpg"
    ensures Lower(s) == t
  {
  }

  lemma NormalizeCopyExample(name: string)
    requires name == "IMG_1234(1).jpg"
    ensures NormalizeFilename(name) == "img_1234.jpg"
  {
    var stem, d, ext := "IMG_1234", "1", ".jpg";
    assert stem + "(" + d + ")" + ext == name;
    NormalizeCopy(stem, d, ext);
    assert stem + ext == "IMG_1234.jpg";
    LowerSpelling("IMG_1234.jpg", "img_1234.jpg");
  }

  /** A name without '(' or '/' normalises to its lowercase form. */
  lemma NormalizePlain(name: string)
    requires IsPart(name) && '(' !in name
    ensures NormalizeFilename(name) == Lower(name)
  {
    NormalizeName(name);
    StripNothing(name);
  }

  /** Only the final path component is compared. */
  lemma NormalizeIgnoresDirectory(dir: string, name: string)
    requires IsPart(name)
    ensures NormalizeFilename(dir + "/" + name) == NormalizeFilename(name)
  {
    NameOfJoin(dir, name);
    ParsePart(name);
  }

  lemma StripStacked(stem: string, da: string, db: string, ext: string)
    requires '(' !in stem && da != [] && AllDigits(da) && db != [] && AllDigits(db)
    requires '(' !in ext && |ext| >= 2 && ext[0] == '.' && '.' !in ext[1..]
    ensures StripCopySuffixes(stem + "(" + da + ")" + "(" + db + ")" + ext) == stem + "(" + da + ")" + ext
  {
    var head := stem + "(" + da + ")";
    var s := head + "(" + db + ")" + ext;
    var p, j, r := |stem|, |head| - 1, |head| + |db| + 1;
    assert NoParen(s, 0, p) && ParenGroup(s, p, j) by {
      assert head + "" == head;
      ParenLayout(stem, da, "");
      ParenLayout(head, db, ext);
      PrefixKeeps(s, head, p, j);
    }
    assert ParenGroup(s, j + 1, r) && ExtensionAt(s, r + 1) && NoParen(s, r + 1, |s|)
        && s[..j + 1] == head && s[r + 1..] == ext by {
      ParenLayout(head, db, ext);
      ExtensionAtEnd(s, r + 1, ext);
    }
    StripSecondAt(s, p, j, r);
  }

  /** A single pass: of two stacked suffixes only the last one is removed, so
      `video(1)(2).mp4` becomes `video(1).mp4` (the docstring's
      `video(1)(2).mp4 -> video.mp4` does not hold). */
  lemma NormalizeStackedSuffixes(stem: string, da: string, db: string, ext: string)
    requires '(' !in stem && '(' !in ext && '/' !in stem && '/' !in ext && stem != ""
    requires da != [] && AllDigits(da) && db != [] && AllDigits(db)
    requires |ext| >= 2 && ext[0] == '.' && '.' !in ext[1..]
    ensures NormalizeFilename(stem + "(" + da + ")" + "(" + db + ")" + ext)
         == Lower(stem + "(" + da + ")" + ext)
  {
    var s := stem + "(" + da + ")" + "(" + db + ")" + ext;
    DigitsHaveNoParen(da);
    DigitsHaveNoParen(db);
    assert s[0] == stem[0];
    NormalizeName(s);
    StripStacked(stem, da, db, ext);
  }

  lemma StripDoubleExtension(stem: string, d: string, ext: string)
    requires '(' !in stem && d != [] && AllDigits(d) && '(' !in ext
    requires |ext| >= 2 && ext[0] == '.' && '.' in ext[1..]
    ensures StripCopySuffixes(stem + "(" + d + ")" + ext) == stem + "(" + d + ")" + ext
  {
    var s := stem + "(" + d + ")" + ext;
    var j := |stem| + |d| + 1;
    ParenLayout(stem, d, ext);
    assert !ExtensionAt(s, j + 1) by {
      var k := IndexOf(ext[1..], '.');
      assert s[j + 2 + k] == '.';
      NoDotFromAll(s, j + 2);
    }
    StripNoneAt(s, |stem|, j);
  }

  /** A suffix before a double extension is kept: `a(1).tar.gz` is unchanged
      apart from case. */
  lemma NormalizeDoubleExtension(stem: string, d: string, ext: string)
    requires '(' !in stem && '/' !in stem && stem != ""
    requires d != [] && AllDigits(d)
    requires '(' !in ext && '/' !in ext
    requires |ext| >= 2 && ext[0] == '.' && '.' in ext[1..]
    ensures NormalizeFilename(stem + "(" + d + ")" + ext) == Lower(stem + "(" + d + ")" + ext)
  {
    var s := stem + "(" + d + ")" + ext;
    DigitsHaveNoParen(d);
    assert s[0] == stem[0];
    NormalizeName(s);
    StripDoubleExtension(stem, d, ext);
  }

  // ------------------------------------------------------------ build_hash_map

  /** `f"__unique_{i}_{size}"`. */
  function SyntheticKey(i: nat, size: nat): (k: string)
    ensures |k| >= 1 && k[0] == '_'
  {
    "__unique_" + Dec(i) + "_" + Dec(size)
  }

  lemma SyntheticKeyInjective(i: nat, s: nat, j: nat, t: nat)
    requires SyntheticKey(i, s) == SyntheticKey(j, t)
    ensures i == j && s == t
  {
    var p := "__unique_";
    assert SyntheticKey(i, s)[|p|..] == Dec(i) + "_" + Dec(s);
    assert SyntheticKey(j, t)[|p|..] == Dec(j) + "_" + Dec(t);
    SplitAt('_', Dec(i), Dec(s), Dec(j), Dec(t));
    DecInjective(i, j);
    DecInjective(s, t);
  }

  /** A synthetic key never equals a content key: one starts with '_', the other with a digit. */
  lemma SyntheticNotContent(i: nat, size: nat, f: ZipFileInfo)
    ensures SyntheticKey(i, size) != ContentKey(f)
  {
  }

  /** Singleton partitions, one file each, in partition order. */
  function Uniques(pg: Table<(nat, string), ZipFileInfo>): seq<ZipFileInfo>
  {
    if pg == [] then []
    else
      var g := pg[|pg| - 1].1;
      Uniques(pg[..|pg| - 1]) + (if |g| == 1 then [g[0]] else [])
  }

  /** Members of the other partitions, partition by partition. */
  function PotentialDuplicates(pg: Table<(nat, string), ZipFileInfo>): seq<ZipFileInfo>
  {
    if pg == [] then []
    else
      var g := pg[|pg| - 1].1;
      PotentialDuplicates(pg[..|pg| - 1]) + (if |g| == 1 then [] else g)
  }

  /** One synthetic entry per unique file, numbered from 0. */
  function SyntheticTable(us: seq<ZipFileInfo>): Table<string, ZipFileInfo>
  {
    if us == [] then []
    else SyntheticTable(us[..|us| - 1]) + [(SyntheticKey(|us| - 1, us[|us| - 1].fileSize), [us[|us| - 1]])]
  }

  function Partitions(files: seq<ZipFileInfo>): Table<(nat, string), ZipFileInfo>
  {
    GroupBy(files, SizeNameKey)
  }

  /** No other input file shares `f`'s (size, normalised name) partition. */
  predicate AloneInPartition(files: seq<ZipFileInfo>, f: ZipFileInfo)
  {
    |Select(files, SizeNameKey, SizeNameKey(f))| == 1
  }

  /** Keys of the form `__unique_…`, which begin with '_'. */
  predicate Synthetic(k: string)
  {
    |k| >= 1 && k[0] == '_'
  }

  /** The dictionary `build_hash_map(files)` returns. */
  function HashMap(files: seq<ZipFileInfo>): Table<string, ZipFileInfo>
  {
    var pg := Partitions(files);
    SyntheticTable(Uniques(pg)) + GroupBy(PotentialDuplicates(pg), ContentKey)
  }

  lemma {:induction false} SyntheticTableShape(us: seq<ZipFileInfo>)
    ensures |SyntheticTable(us)| == |us|
    ensures forall i :: 0 <= i < |us| ==> SyntheticTable(us)[i] == (SyntheticKey(i, us[i].fileSize), [us[i]])
  {
    if us != [] {
      SyntheticTableShape(us[..|us| - 1]);
    }
  }

  lemma PutFresh<K, V>(t: Table<K, V>, k: K, vs: seq<V>)
    requires k !in Keys(t)
    ensures Put(t, k, vs) == t + [(k, vs)]
  {
    if t != [] {
      assert Keys(t) == [t[0].0] + Keys(t[1..]);
      PutFresh(t[1..], k, vs);
    }
  }

  /** Step 1 of `build_hash_map`: `potential_groups[key].append(f)` for every file. */
  method GroupBySizeName(files: seq<ZipFileInfo>) returns (pg: Table<(nat, string), ZipFileInfo>)
    ensures pg == Partitions(files)
  {
    pg := [];
    var i := 0;
    while i < |files|
      invariant 0 <= i <= |files|
      invariant pg == AddAll([], files[..i], SizeNameKey)
    {
      assert files[..i + 1][..i] == files[..i];
      pg := Add(pg, SizeNameKey(files[i]), files[i]);
      i := i + 1;
    }
    assert files[..i] == files;
  }

  /** Step 2: singleton partitions go to `unique_files`, the others are
      appended whole to `potential_duplicates`. */
  method SeparateUniques(pg: Table<(nat, string), ZipFileInfo>)
    returns (uniques: seq<ZipFileInfo>, potential: seq<ZipFileInfo>)
    ensures uniques == Uniques(pg) && potential == PotentialDuplicates(pg)
  {
    uniques, potential := [], [];
    var i := 0;
    while i < |pg|
      invariant 0 <= i <= |pg|
      invariant uniques == Uniques(pg[..i]) && potential == PotentialDuplicates(pg[..i])
    {
      assert pg[..i + 1][..i] == pg[..i];
      var group := pg[i].1;
      if |group| == 1 {
        uniques := uniques + [group[0]];
      } else {
        potential := potential + group;
      }
      i := i + 1;
    }
    assert pg[..i] == pg;
  }

  /** `hash_map[f"__unique_{i}_{f.file_size}"] = [f]` for every unique file. */
  method AddSynthetic(uniques: seq<ZipFileInfo>) returns (hashMap: Table<string, ZipFileInfo>)
    ensures hashMap == SyntheticTable(uniques)
  {
    hashMap := [];
    var i := 0;
    while i < |uniques|
      invariant 0 <= i <= |uniques|
      invariant hashMap == SyntheticTable(uniques[..i])
    {
      assert uniques[..i + 1][..i] == uniques[..i];
      var k := SyntheticKey(i, uniques[i].fileSize);
      SyntheticKeysFresh(uniques[..i], i, uniques[i].fileSize);
      PutFresh(hashMap, k, [uniques[i]]);
      hashMap := Put(hashMap, k, [uniques[i]]);
      i := i + 1;
    }
    assert uniques[..i] == uniques;
  }

  /** Step 3: `hash_map.setdefault(f.get_content_key(), []).append(f)`. */
  method AddContentKeys(synth: Table<string, ZipFileInfo>, potential: seq<ZipFileInfo>)
    returns (hashMap: Table<string, ZipFileInfo>)
    ensures hashMap == AddAll(synth, potential, ContentKey)
  {
    hashMap := synth;
    var i := 0;
    while i < |potential|
      invariant 0 <= i <= |potential|
      invariant hashMap == AddAll(synth, potential[..i], ContentKey)
    {
      assert potential[..i + 1][..i] == potential[..i];
      hashMap := Add(hashMap, ContentKey(potential[i]), potential[i]);
      i := i + 1;
    }
    assert potential[..i] == potential;
  }

  /** `build_hash_map(files)`. */
  method BuildHashMap(files: seq<ZipFileInfo>) returns (hashMap: Table<string, ZipFileInfo>)
    ensures hashMap == HashMap(files)
  {
    var pg := GroupBySizeName(files);
    var uniques, potential := SeparateUniques(pg);
    var synth := AddSynthetic(uniques);
    hashMap := AddContentKeys(synth, potential);
    SyntheticKeysNotContent(uniques, potential);
    AddAllFresh(synth, potential, ContentKey);
  }

  /** A synthetic key with a new index is not yet in the table. */
  lemma SyntheticKeysFresh(us: seq<ZipFileInfo>, i: nat, size: nat)
    requires i == |us|
    ensures SyntheticKey(i, size) !in Keys(SyntheticTable(us))
  {
    SyntheticTableShape(us);
    var t := SyntheticTable(us);
    forall j | 0 <= j < |t| ensures t[j].0 != SyntheticKey(i, size) {
      if t[j].0 == SyntheticKey(i, size) {
        SyntheticKeyInjective(j, us[j].fileSize, i, size);
      }
    }
  }

  lemma SyntheticKeysNotContent(us: seq<ZipFileInfo>, xs: seq<ZipFileInfo>)
    ensures forall j :: 0 <= j < |xs| ==> ContentKey(xs[j]) !in Keys(SyntheticTable(us))
  {
    SyntheticTableShape(us);
    var t := SyntheticTable(us);
    forall j, m | 0 <= j < |xs| && 0 <= m < |t| ensures t[m].0 != ContentKey(xs[j]) {
      SyntheticNotContent(m, us[m].fileSize, xs[j]);
    }
  }

  // ----------------------------------------------------------------- lemmas

  lemma {:induction false} SplitPartitions(pg: Table<(nat, string), ZipFileInfo>)
    requires forall i :: 0 <= i < |pg| ==> pg[i].1 != []
    ensures multiset(Uniques(pg)) + multiset(PotentialDuplicates(pg)) == multiset(Flatten(pg))
  {
    if pg != [] {
      var init, g := pg[..|pg| - 1], pg[|pg| - 1].1;
      var u, d := multiset(Uniques(init)), multiset(PotentialDuplicates(init));
      assert u + d == multiset(Flatten(init)) by {
        SplitPartitions(init);
      }
      assert multiset(Flatten(pg)) == multiset(Flatten(init)) + multiset(g) by {
        FlattenSnoc(pg);
      }
      if |g| == 1 {
        assert g == [g[0]];
        assert multiset(Uniques(pg)) == u + multiset(g);
        assert multiset(PotentialDuplicates(pg)) == d;
      } else {
        assert multiset(Uniques(pg)) == u;
        assert multiset(PotentialDuplicates(pg)) == d + multiset(g);
      }
    }
  }

  lemma {:induction false} SyntheticFlatten(us: seq<ZipFileInfo>)
    ensures Flatten(SyntheticTable(us)) == us
  {
    if us != [] {
      var init := us[..|us| - 1];
      SyntheticFlatten(init);
      var e := (SyntheticKey(|us| - 1, us[|us| - 1].fileSize), [us[|us| - 1]]);
      FlattenAppend(SyntheticTable(init), [e]);
      assert Flatten([e]) == [us[|us| - 1]] + Flatten(SyntheticTable([]));
      assert us == init + [us[|us| - 1]];
    }
  }

  /** `build_hash_map` loses no file and invents none: its groups, read in
      order, hold exactly the input files. */
  lemma HashMapMultiset(files: seq<ZipFileInfo>)
    ensures multiset(Flatten(HashMap(files))) == multiset(files)
  {
    var pg := Partitions(files);
    var us := Uniques(pg);
    var pd := PotentialDuplicates(pg);
    GroupByGroups(files, SizeNameKey);
    GroupByMultiset(files, SizeNameKey);
    SplitPartitions(pg);
    SyntheticFlatten(us);
    GroupByMultiset(pd, ContentKey);
    FlattenAppend(SyntheticTable(us), GroupBy(pd, ContentKey));
  }

  /** The group sizes add up to the number of files. */
  lemma HashMapSizes(files: seq<ZipFileInfo>)
    ensures Sum(Sizes(HashMap(files))) == |files|
  {
    HashMapMultiset(files);
    SumSizesIsFlattenLength(HashMap(files));
    assert |Flatten(HashMap(files))| == |multiset(files)|;
  }

  /** Synthetic keys differ from one another by their index. */
  lemma SyntheticDistinct(us: seq<ZipFileInfo>)
    ensures DistinctKeys(SyntheticTable(us))
  {
    SyntheticTableShape(us);
    var t := SyntheticTable(us);
    forall i, j | 0 <= i < j < |t| ensures t[i].0 != t[j].0 {
      if t[i].0 == t[j].0 {
        SyntheticKeyInjective(i, us[i].fileSize, j, us[j].fileSize);
      }
    }
  }

  /** No key occurs twice: synthetic keys differ from one another by their
      index and from content keys by their first character. */
  lemma HashMapDistinct(files: seq<ZipFileInfo>)
    ensures DistinctKeys(HashMap(files))
  {
    var pg := Partitions(files);
    var us := Uniques(pg);
    var pd := PotentialDuplicates(pg);
    var st := SyntheticTable(us);
    var cg := GroupBy(pd, ContentKey);
    SyntheticDistinct(us);
    GroupByKeys(pd, ContentKey);
    FirstKeysProps(MapKey(pd, ContentKey));
    SyntheticKeysNotContent(us, pd);
    forall j | 0 <= j < |cg| ensures cg[j].0 !in Keys(st) {
      assert cg[j].0 == Keys(cg)[j];
      assert cg[j].0 in MapKey(pd, ContentKey);
    }
    DistinctAppend(st, cg);
  }

  /** The first file of every group of `build_hash_map` is an input file. */
  lemma HashMapFirstsAreFiles(files: seq<ZipFileInfo>)
    ensures forall i :: 0 <= i < |HashMap(files)| ==> HashMap(files)[i].1 != [] && HashMap(files)[i].1[0] in files
  {
    HashMapNonEmpty(files);
    HashMapMultiset(files);
    var h := HashMap(files);
    forall i | 0 <= i < |h| ensures h[i].1[0] in files {
      FlattenHas(h, i, 0);
      assert h[i].1[0] in multiset(Flatten(h));
    }
  }

  /** One entry of the synthetic table followed by the content groups. */
  lemma TablesEntry(us: seq<ZipFileInfo>, pd: seq<ZipFileInfo>, i: nat)
    requires i < |SyntheticTable(us) + GroupBy(pd, ContentKey)|
    ensures var g := (SyntheticTable(us) + GroupBy(pd, ContentKey))[i];
      && g.1 != []
      && ((|g.0| >= 1 && g.0[0] == '_') || g.0 == ContentKey(g.1[0]))
  {
    var st, cg := SyntheticTable(us), GroupBy(pd, ContentKey);
    SyntheticTableShape(us);
    if i < |st| {
      assert (st + cg)[i] == st[i];
    } else {
      assert (st + cg)[i] == cg[i - |st|];
      GroupByGroups(pd, ContentKey);
    }
  }

  /** A lone file comes from a partition of exactly that one file. */
  lemma {:induction false} UniquesFrom(pg: Table<(nat, string), ZipFileInfo>, x: ZipFileInfo)
    requires x in Uniques(pg)
    ensures exists m :: 0 <= m < |pg| && pg[m].1 == [x]
  {
    var init, g := pg[..|pg| - 1], pg[|pg| - 1].1;
    if x in Uniques(init) {
      UniquesFrom(init, x);
      var m :| 0 <= m < |init| && init[m].1 == [x];
      assert pg[m] == init[m];
    } else {
      assert g == [x];
    }
  }

  /** A potential duplicate comes from a partition of some other size than one. */
  lemma {:induction false} PotentialFrom(pg: Table<(nat, string), ZipFileInfo>, x: ZipFileInfo)
    requires x in PotentialDuplicates(pg)
    ensures exists m :: 0 <= m < |pg| && x in pg[m].1 && |pg[m].1| != 1
  {
    var init, g := pg[..|pg| - 1], pg[|pg| - 1].1;
    if x in PotentialDuplicates(init) {
      PotentialFrom(init, x);
      var m :| 0 <= m < |init| && x in init[m].1 && |init[m].1| != 1;
      assert pg[m] == init[m];
    }
  }

  /** Every lone file of the partitions is alone in its partition. */
  lemma UniqueAlone(files: seq<ZipFileInfo>, x: ZipFileInfo)
    requires x in Uniques(Partitions(files))
    ensures AloneInPartition(files, x)
  {
    var pg := Partitions(files);
    UniquesFrom(pg, x);
    var m :| 0 <= m < |pg| && pg[m].1 == [x];
    GroupByGroups(files, SizeNameKey);
    assert pg[m].1 == Select(files, SizeNameKey, pg[m].0);
    assert SizeNameKey(pg[m].1[0]) == pg[m].0;
  }

  /** Every potential duplicate shares its partition with another file. */
  lemma PotentialNotAlone(files: seq<ZipFileInfo>, x: ZipFileInfo)
    requires x in PotentialDuplicates(Partitions(files))
    ensures !AloneInPartition(files, x)
  {
    var pg := Partitions(files);
    PotentialFrom(pg, x);
    var m :| 0 <= m < |pg| && x in pg[m].1 && |pg[m].1| != 1;
    GroupByGroups(files, SizeNameKey);
    assert pg[m].1 == Select(files, SizeNameKey, pg[m].0);
    var j :| 0 <= j < |pg[m].1| && pg[m].1[j] == x;
    assert SizeNameKey(pg[m].1[j]) == pg[m].0;
  }

  /** The shape of the `i`-th group `g` of `build_hash_map(files)`. A
      synthetic group is keyed `__unique_{i}_{size}` and holds one file that
      is alone in its partition; every other group is keyed by the content
      key of each of its members, none of which is alone in its partition. */
  predicate GroupShape(files: seq<ZipFileInfo>, i: nat, g: (string, seq<ZipFileInfo>))
  {
    && g.1 != []
    && (Synthetic(g.0) || g.0 == ContentKey(g.1[0]))
    && (Synthetic(g.0) ==>
          g.0 == SyntheticKey(i, g.1[0].fileSize) && g.1 == [g.1[0]] && AloneInPartition(files, g.1[0]))
    && (!Synthetic(g.0) ==>
          forall j :: 0 <= j < |g.1| ==> ContentKey(g.1[j]) == g.0 && !AloneInPartition(files, g.1[j]))
  }

  /** The `i`-th synthetic entry holds one file alone in its partition. */
  lemma SyntheticGroup(files: seq<ZipFileInfo>, i: nat)
    requires i < |SyntheticTable(Uniques(Partitions(files)))|
    ensures GroupShape(files, i, SyntheticTable(Uniques(Partitions(files)))[i])
  {
    var us := Uniques(Partitions(files));
    SyntheticTableShape(us);
    UniqueAlone(files, us[i]);
  }

  /** A content group is keyed by the content key of each of its members,
      none of which is alone in its partition. */
  lemma ContentGroup(files: seq<ZipFileInfo>, i: nat, c: nat)
    requires c < |GroupBy(PotentialDuplicates(Partitions(files)), ContentKey)|
    ensures GroupShape(files, i, GroupBy(PotentialDuplicates(Partitions(files)), ContentKey)[c])
  {
    var pd := PotentialDuplicates(Partitions(files));
    var g := GroupBy(pd, ContentKey)[c];
    GroupByGroups(pd, ContentKey);
    assert g.1 == Select(pd, ContentKey, g.0);
    forall j | 0 <= j < |g.1| ensures !AloneInPartition(files, g.1[j]) {
      SelectMember(pd, ContentKey, g.1[j]);
      PotentialNotAlone(files, g.1[j]);
    }
  }

  /** Every group of `build_hash_map` has the shape `GroupShape` describes
      for its position. */
  lemma HashMapEntry(files: seq<ZipFileInfo>, i: nat)
    requires i < |HashMap(files)|
    ensures GroupShape(files, i, HashMap(files)[i])
  {
    var pg := Partitions(files);
    var st, cg := SyntheticTable(Uniques(pg)), GroupBy(PotentialDuplicates(pg), ContentKey);
    if i < |st| {
      assert HashMap(files)[i] == st[i];
      SyntheticGroup(files, i);
    } else {
      assert HashMap(files)[i] == cg[i - |st|];
      ContentGroup(files, i, i - |st|);
    }
  }

  /** No group is empty. */
  lemma HashMapNonEmpty(files: seq<ZipFileInfo>)
    ensures forall i :: 0 <= i < |HashMap(files)| ==> HashMap(files)[i].1 != []
  {
    forall i | 0 <= i < |HashMap(files)| ensures HashMap(files)[i].1 != [] {
      HashMapEntry(files, i);
    }
  }

  /** Every key of `build_hash_map` is synthetic (it starts with '_') or is
      the content key of every file of its group. */
  lemma HashMapKeys(files: seq<ZipFileInfo>)
    ensures forall i :: 0 <= i < |HashMap(files)| ==>
      var g := HashMap(files)[i];
      Synthetic(g.0) || (g.1 != [] && g.0 == ContentKey(g.1[0]))
    ensures forall i, j :: 0 <= i < |HashMap(files)| && 0 <= j < |HashMap(files)[i].1| ==>
      Synthetic(HashMap(files)[i].0) || ContentKey(HashMap(files)[i].1[j]) == HashMap(files)[i].0
  {
    forall i | 0 <= i < |HashMap(files)|
      ensures var g := HashMap(files)[i];
        && (Synthetic(g.0) || (g.1 != [] && g.0 == ContentKey(g.1[0])))
        && forall j :: 0 <= j < |g.1| ==> Synthetic(g.0) || ContentKey(g.1[j]) == g.0
    {
      HashMapEntry(files, i);
    }
  }

  /** Every input file sits in some group. */
  lemma HashMapHas(files: seq<ZipFileInfo>, f: ZipFileInfo) returns (i: nat)
    requires f in files
    ensures i < |HashMap(files)| && f in HashMap(files)[i].1
  {
    var h := HashMap(files);
    HashMapMultiset(files);
    assert f in multiset(Flatten(h));
    FlattenMember(h, f);
    i :| 0 <= i < |h| && f in h[i].1;
  }

  /** An input file gets a synthetic group of its own exactly when no other
      input file has its size and normalised name; otherwise it sits in the
      group of its content key. */
  lemma HashMapLoneFiles(files: seq<ZipFileInfo>, f: ZipFileInfo)
    requires f in files
    ensures AloneInPartition(files, f) <==>
      exists i :: 0 <= i < |HashMap(files)| && Synthetic(HashMap(files)[i].0) && HashMap(files)[i].1 == [f]
    ensures !AloneInPartition(files, f) ==>
      exists i :: 0 <= i < |HashMap(files)| && HashMap(files)[i].0 == ContentKey(f) && f in HashMap(files)[i].1
  {
    var h := HashMap(files);
    var i := HashMapHas(files, f);
    HashMapEntry(files, i);
    forall k | 0 <= k < |h| && Synthetic(h[k].0) && h[k].1 == [f] ensures AloneInPartition(files, f) {
      HashMapEntry(files, k);
    }
  }

  /** One duplicate pair and one file of another size, as in
      `[a.jpg 100/crc, a(1).jpg 100/crc, b.png 50/crc']`: the lone file gets
      the synthetic key `__unique_0_50` and the pair is grouped under its
      content key. The two names need only normalise alike (`NormalizeCopy`
      shows that `a(1).jpg` and `a.jpg` do). */
  lemma HashMapScenario(zip: string, a: string, a1: string, b: string, s: nat, t: nat, c: nat, d: nat)
    requires NormalizeFilename(a) == NormalizeFilename(a1) && s != t
    ensures var x := ZipFileInfo(zip, a, s, c, None);
      var x1 := ZipFileInfo(zip, a1, s, c, None);
      var y := ZipFileInfo(zip, b, t, d, None);
      HashMap([x, x1, y]) == [(SyntheticKey(0, t), [y]), (CrcKey(s, c), [x, x1])]
  {
    var x := ZipFileInfo(zip, a, s, c, None);
    var x1 := ZipFileInfo(zip, a1, s, c, None);
    var y := ZipFileInfo(zip, b, t, d, None);
    var files := [x, x1, y];
    var pg := Partitions(files);
    assert pg == [(SizeNameKey(x), [x, x1]), (SizeNameKey(y), [y])] by {
      GroupByPairThenOne(x, x1, y, SizeNameKey);
    }
    SeparatePairThenOne(SizeNameKey(x), x, x1, SizeNameKey(y), y);
    assert SyntheticTable([y]) == [(SyntheticKey(0, t), [y])] by {
      assert [y][..0] == [];
    }
    assert GroupBy([x, x1], ContentKey) == [(CrcKey(s, c), [x, x1])] by {
      GroupByPair(x, x1, ContentKey);
    }
  }

  /** Two partitions of two: nothing is unique. */
  lemma SeparateTwoPairs(k: (nat, string), a: ZipFileInfo, b: ZipFileInfo, l: (nat, string), c: ZipFileInfo, d: ZipFileInfo)
    ensures Uniques([(k, [a, b]), (l, [c, d])]) == []
    ensures PotentialDuplicates([(k, [a, b]), (l, [c, d])]) == [a, b, c, d]
  {
    var pg := [(k, [a, b]), (l, [c, d])];
    var p1 := pg[..1];
    assert p1 == [(k, [a, b])] && p1[..0] == [];
    assert Uniques(p1[..0]) == [] && PotentialDuplicates(p1[..0]) == [];
    assert Uniques(p1) == [] && PotentialDuplicates(p1) == [a, b];
  }

  /** A partition of two, then a partition of one. */
  lemma SeparatePairThenOne(k: (nat, string), a: ZipFileInfo, b: ZipFileInfo, l: (nat, string), c: ZipFileInfo)
    ensures Uniques([(k, [a, b]), (l, [c])]) == [c]
    ensures PotentialDuplicates([(k, [a, b]), (l, [c])]) == [a, b]
  {
    var pg := [(k, [a, b]), (l, [c])];
    var p1 := pg[..1];
    assert p1 == [(k, [a, b])] && p1[..0] == [];
    assert Uniques(p1[..0]) == [] && PotentialDuplicates(p1[..0]) == [];
    assert Uniques(p1) == [] && PotentialDuplicates(p1) == [a, b];
  }

  /** With two names that normalise differently, `[x0, x1, x2, x3]`
      (names a, b, a, b, one size) forms two partitions of two, so nothing is
      unique and the content grouping sees `[x0, x2, x1, x3]`. */
  lemma InterleavedPartitions(x0: ZipFileInfo, x1: ZipFileInfo, x2: ZipFileInfo, x3: ZipFileInfo)
    requires SizeNameKey(x0) == SizeNameKey(x2) && SizeNameKey(x1) == SizeNameKey(x3)
    requires SizeNameKey(x0) != SizeNameKey(x1)
    ensures HashMap([x0, x1, x2, x3]) == GroupBy([x0, x2, x1, x3], ContentKey)
  {
    GroupByInterleaved(x0, x1, x2, x3, SizeNameKey);
    SeparateTwoPairs(SizeNameKey(x0), x0, x2, SizeNameKey(x1), x1, x3);
    assert SyntheticTable([]) == [];
  }

  /** The canonical (first) member of a group need not be the earliest input
      file with that content: partitions are visited in order of first
      appearance, so in `[x0, x1, x2, x3]` with `x0`, `x2` sharing one name
      and `x1`, `x3` another, `x2` comes before the earlier `x1` in the group
      of their common content. */
  lemma CanonicalNotEarliest(zip: string, a: string, b: string, s: nat, c0: nat, c: nat, c3: nat)
    requires NormalizeFilename(a) != NormalizeFilename(b) && c0 != c && c3 != c
    ensures var x0 := ZipFileInfo(zip, a, s, c0, None);
      var x1 := ZipFileInfo(zip, b, s, c, None);
      var x2 := ZipFileInfo(zip, a, s, c, None);
      var x3 := ZipFileInfo(zip, b, s, c3, None);
      Get(HashMap([x0, x1, x2, x3]), ContentKey(x1)) == Some([x2, x1])
  {
    var x0 := ZipFileInfo(zip, a, s, c0, None);
    var x1 := ZipFileInfo(zip, b, s, c, None);
    var x2 := ZipFileInfo(zip, a, s, c, None);
    var x3 := ZipFileInfo(zip, b, s, c3, None);
    InterleavedPartitions(x0, x1, x2, x3);
    var k := ContentKey(x1);
    assert ContentKey(x0) != k by {
      if ContentKey(x0) == k { CrcKeyInjective(s, c0, s, c); }
    }
    assert ContentKey(x3) != k by {
      if ContentKey(x3) == k { CrcKeyInjective(s, c3, s, c); }
    }
    SelectMiddlePair(x0, x2, x1, x3, ContentKey, k);
    GetGroupBy([x0, x2, x1, x3], ContentKey, x1);
  }

  // ------------------------------------------------------------ get_duplicates

  /** `get_duplicates`: the entries with more than one member, in order, unchanged. */
  function Duplicates(t: Table<string, ZipFileInfo>): (r: Table<string, ZipFileInfo>)
    ensures forall e :: e in r <==> e in t && |e.1| > 1
  {
    if t == [] then []
    else (if |t[0].1| > 1 then [t[0]] else []) + Duplicates(t[1..])
  }
}
