/** File-name handling of remove_ext: POSIX os.path.split and os.path.join,
    str.split and str.join on '.', and the extension stripping built on them. */
module Paths {

  /** Index of the last occurrence of `c` in `s`, or -1 when there is none. */
  function LastIndex(s: string, c: char): (r: int)
    ensures -1 <= r < |s|
    ensures r == -1 <==> c !in s
    ensures r >= 0 ==> s[r] == c && c !in s[r + 1..]
  {
    if |s| == 0 then -1
    else if s[|s| - 1] == c then
      assert s[|s|..] == [];
      |s| - 1
    else
      var r := LastIndex(s[..|s| - 1], c);
      LastIndexStep(s[..|s| - 1], s[|s| - 1], c, r);
      assert s == s[..|s| - 1] + [s[|s| - 1]];
      r
  }

  /** A last occurrence in `init` stays the last once a different character
      is appended. */
  lemma LastIndexStep(init: string, last: char, c: char, r: int)
    requires last != c
    requires -1 <= r < |init|
    requires r == -1 <==> c !in init
    requires r >= 0 ==> init[r] == c && c !in init[r + 1..]
    ensures r == -1 <==> c !in init + [last]
    ensures r >= 0 ==> (init + [last])[r] == c && c !in (init + [last])[r + 1..]
  {
    if r >= 0 {
      assert (init + [last])[r + 1..] == init[r + 1..] + [last];
    }
  }

  predicate AllSlashes(s: string) {
    forall k :: 0 <= k < |s| ==> s[k] == '/'
  }

  /** The path up to and including its last '/', empty when it has none. */
  function DirPrefix(p: string): (h: string)
    ensures h <= p
    ensures h == [] || h[|h| - 1] == '/'
  {
    p[..LastIndex(p, '/') + 1]
  }

  /** The file-name component: everything after the last '/'. */
  function Basename(p: string): (name: string)
    ensures '/' !in name
    ensures p == DirPrefix(p) + name
  {
    var k := LastIndex(p, '/') + 1;
    assert p == p[..k] + p[k..];
    p[k..]
  }

  /** `s` without its trailing run of '/'. */
  function RStripSlashes(s: string): (r: string)
    ensures r <= s
    ensures r == [] || r[|r| - 1] != '/'
    ensures AllSlashes(s[|r|..])
  {
    if |s| > 0 && s[|s| - 1] == '/' then
      var r := RStripSlashes(s[..|s| - 1]);
      assert s[|r|..] == s[..|s| - 1][|r|..] + ['/'];
      r
    else s
  }

  /** The directory component of posixpath.split: the prefix through the last
      '/', with its trailing separators removed unless it is made of
      separators only. */
  function Dirname(p: string): (d: string)
    ensures d <= DirPrefix(p) && AllSlashes(DirPrefix(p)[|d|..])
    ensures DirShaped(d)
    ensures d == [] <==> DirPrefix(p) == []
  {
    var head := DirPrefix(p);
    if head != [] && !AllSlashes(head) then RStripSlashes(head) else head
  }

  /** The shapes a directory from posixpath.split takes: empty, made of
      separators only, or not ending in a separator. */
  predicate DirShaped(d: string) {
    d == [] || d[|d| - 1] != '/' || AllSlashes(d)
  }

  /** posixpath.join of two components: a component starting with '/'
      replaces the directory; otherwise one '/' is put between them unless
      the directory is empty or already ends in one. */
  function JoinPath(a: string, b: string): (r: string)
    ensures |b| > 0 && b[0] == '/' ==> r == b
    ensures (|b| == 0 || b[0] != '/') ==>
              |r| == |a| + |b| + (if a == [] || a[|a| - 1] == '/' then 0 else 1) &&
              a <= r && r[|r| - |b|..] == b &&
              (|r| > |a| + |b| ==> r[|a|] == '/')
  {
    if |b| > 0 && b[0] == '/' then b
    else if a == [] || a[|a| - 1] == '/' then a + b
    else a + "/" + b
  }

  /** str.split(sep): the pieces of `s` between the occurrences of `sep`. */
  function SplitOn(s: string, sep: char): (pieces: seq<string>)
    ensures |pieces| >= 1
    ensures |pieces| == 1 <==> sep !in s
    ensures forall k :: 0 <= k < |pieces| ==> sep !in pieces[k]
    decreases |s|
  {
    var k := LastIndex(s, sep);
    if k < 0 then [s] else SplitOn(s[..k], sep) + [s[k + 1..]]
  }

  /** sep.join(parts): the first piece opens the result, the last closes it,
      and a join of two or more pieces holds the separator. */
  function JoinWith(sep: char, parts: seq<string>): (r: string)
    ensures |parts| >= 1 ==> parts[0] <= r
    ensures |parts| >= 1 ==> |parts[|parts| - 1]| <= |r| && r[|r| - |parts[|parts| - 1]|..] == parts[|parts| - 1]
    ensures |parts| >= 2 ==> sep in r
  {
    if |parts| == 0 then ""
    else if |parts| == 1 then parts[0]
    else JoinWith(sep, parts[..|parts| - 1]) + [sep] + parts[|parts| - 1]
  }

  /** Joining one more piece adds a separator and the piece. */
  lemma JoinWithSnoc(sep: char, init: seq<string>, last: string)
    requires |init| >= 1
    ensures JoinWith(sep, init + [last]) == JoinWith(sep, init) + [sep] + last
  {
    assert (init + [last])[..|init|] == init;
  }

  /** A string is the part before position k, the character there, and the rest. */
  lemma SplitAround(s: string, k: int)
    requires 0 <= k < |s|
    ensures s == s[..k] + [s[k]] + s[k + 1..]
  {
  }

  /** Joining the pieces of a split with the same separator gives the string back. */
  lemma {:induction false} JoinSplit(s: string, sep: char)
    ensures JoinWith(sep, SplitOn(s, sep)) == s
    decreases |s|
  {
    var k := LastIndex(s, sep);
    if k >= 0 {
      var init := SplitOn(s[..k], sep);
      assert SplitOn(s, sep) == init + [s[k + 1..]];
      JoinSplit(s[..k], sep);
      JoinWithSnoc(sep, init, s[k + 1..]);
      SplitAround(s, k);
    }
  }

  /** The last separator of `a + [c] + b` is the one between them when `b` has none. */
  lemma LastIndexOfJoin(a: string, c: char, b: string)
    requires c !in b
    ensures LastIndex(a + [c] + b, c) == |a|
  {
    assert (a + [c] + b)[|a|] == c;
  }

  /** Splitting after one more separator and piece adds that piece. */
  lemma SplitOnSnoc(front: string, sep: char, last: string)
    requires sep !in last
    ensures SplitOn(front + [sep] + last, sep) == SplitOn(front, sep) + [last]
  {
    var s := front + [sep] + last;
    LastIndexOfJoin(front, sep, last);
    assert s[..|front|] == front && s[|front| + 1..] == last;
  }

  /** Splitting a join of separator-free pieces gives the pieces back. */
  lemma {:induction false} SplitJoin(sep: char, parts: seq<string>)
    requires |parts| >= 1
    requires forall k :: 0 <= k < |parts| ==> sep !in parts[k]
    ensures SplitOn(JoinWith(sep, parts), sep) == parts
  {
    if |parts| > 1 {
      var init, last := parts[..|parts| - 1], parts[|parts| - 1];
      assert parts == init + [last];
      JoinWithSnoc(sep, init, last);
      SplitOnSnoc(JoinWith(sep, init), sep, last);
      SplitJoin(sep, init);
    }
  }

  /** The name before its last '.': the part remove_ext keeps. */
  function Stem(name: string): (stem: string)
    requires '.' in name
    ensures stem <= name && |stem| < |name|
    ensures name[|stem|] == '.' && '.' !in name[|stem| + 1..]
  {
    name[..LastIndex(name, '.')]
  }

  /** The name from its last '.' on: the part remove_ext drops. */
  function Extension(name: string): (ext: string)
    requires '.' in name
    ensures |ext| >= 1 && ext[0] == '.' && '.' !in ext[1..]
    ensures name == Stem(name) + ext
  {
    name[LastIndex(name, '.')..]
  }

  /** Every piece but the last of a split on '.', re-joined with '.', is the
      name up to its last '.', inner dots included. */
  lemma JoinAllButLastPiece(name: string)
    requires '.' in name
    ensures var pieces := SplitOn(name, '.');
            JoinWith('.', pieces[..|pieces| - 1]) == Stem(name)
  {
    var pieces := SplitOn(name, '.');
    var k := LastIndex(name, '.');
    assert pieces[..|pieces| - 1] == SplitOn(name[..k], '.');
    JoinSplit(name[..k], '.');
  }

  /** remove_ext: the path with the last dot-suffix of its file name removed,
      rebuilt from its directory and the shortened name; a path whose file
      name has no '.' comes back unchanged. */
  function RemoveExt(filepath: string): (r: string)
    ensures '.' !in Basename(filepath) ==> r == filepath
    ensures '.' in Basename(filepath) ==>
              r == JoinPath(Dirname(filepath), Stem(Basename(filepath)))
    ensures Dirname(filepath) <= r
  {
    var dir, name := Dirname(filepath), Basename(filepath);
    var nameSplit := SplitOn(name, '.');
    if |nameSplit| == 1 then
      PrefixTrans(dir, DirPrefix(filepath), filepath);
      filepath
    else
      JoinAllButLastPiece(name);
      var stem := JoinWith('.', nameSplit[..|nameSplit| - 1]);
      StemLacksSlash(name);
      JoinPath(dir, stem)
  }

  lemma PrefixTrans(a: string, b: string, c: string)
    requires a <= b && b <= c
    ensures a <= c
  {
    assert c[..|a|] == b[..|a|];
  }

  /** The stem of a file name holds no '/' either. */
  lemma StemLacksSlash(name: string)
    requires '.' in name && '/' !in name
    ensures '/' !in Stem(name)
  {
    assert forall k :: 0 <= k < |Stem(name)| ==> Stem(name)[k] == name[k];
  }

  /** The file name remove_ext leaves: the stem when the name has a '.',
      the whole name otherwise. */
  function NameWithoutExt(name: string): (kept: string)
    ensures kept <= name
    ensures '.' in name ==> |kept| < |name| && name[|kept|] == '.'
  {
    if '.' in name then Stem(name) else name
  }

  /** remove_ext keeps the directory and cuts only the file name: splitting
      its result gives the input's directory and the name without its extension. */
  lemma RemoveExtSplitsBack(p: string)
    ensures Dirname(RemoveExt(p)) == Dirname(p)
    ensures Basename(RemoveExt(p)) == NameWithoutExt(Basename(p))
  {
    var name := Basename(p);
    if '.' in name {
      PrefixLacks(Stem(name), name, '/');
      SplitJoinPath(Dirname(p), Stem(name));
    }
  }

  /** Appending a separator-free suffix to a path lengthens its file name and
      leaves its directory alone. */
  lemma AppendToName(p: string, w: string)
    requires '/' !in w
    ensures Dirname(p + w) == Dirname(p) && Basename(p + w) == Basename(p) + w
  {
    var h, name := DirPrefix(p), Basename(p);
    assert p + w == h + (name + w);
    SplitAfterSlash(h, name + w);
  }

  lemma ConcatAssoc(p: string, h: string, name: string, stem: string, ext: string)
    requires p == h + name && name == stem + ext
    ensures p == (h + stem) + ext
  {
  }

  /** The directory prefix does not end in a repeated separator, unless it is
      made of separators only. */
  predicate NoRepeatedSeparator(p: string) {
    var h := DirPrefix(p);
    |h| < 2 || h[|h| - 2] != '/' || AllSlashes(h)
  }

  /** Dirname joined with an empty name: the directory prefix with any run of
      repeated trailing separators cut down to one. */
  lemma DirnameSeparatorPrefix(p: string)
    ensures var d, h := JoinPath(Dirname(p), ""), DirPrefix(p);
            d <= h && AllSlashes(h[|d|..])
            && (NoRepeatedSeparator(p) ==> d == h)
  {
    var h := DirPrefix(p);
    if h != [] && !AllSlashes(h) {
      var g := RStripSlashes(h);
      assert h[|g|] == '/';
      assert h[|g| + 1..] == h[|g|..][1..];
      if |h| > |g| + 1 {
        assert h[|h| - 2] == h[|g|..][|h| - 2 - |g|];
      }
    }
  }

  /** With its last '/' at the end of `j`, a path splits into `j` and the
      separator-free rest. */
  lemma SplitAfterSlash(j: string, b: string)
    requires j == [] || j[|j| - 1] == '/'
    requires '/' !in b
    ensures DirPrefix(j + b) == j && Basename(j + b) == b
  {
    if j == [] {
      assert j + b == b;
    } else {
      var i := j[..|j| - 1];
      assert j + b == i + ['/'] + b;
      LastIndexOfJoin(i, '/', b);
    }
  }

  /** Splitting a join gives its parts back: posixpath.split undoes
      posixpath.join of a directory of the shape split produces and a name
      without '/'. */
  lemma SplitJoinPath(a: string, b: string)
    requires DirShaped(a) && '/' !in b
    ensures Dirname(JoinPath(a, b)) == a && Basename(JoinPath(a, b)) == b
  {
    var j := JoinPath(a, "");
    JoinPathAppends(a, b);
    SplitAfterSlash(j, b);
    if a != [] && !AllSlashes(a) {
      assert j == a + "/";
      assert j[|a| - 1] != '/';
      assert j[..|j| - 1] == a;
    }
  }

  /** Joining onto a name that does not start with '/' appends it to the
      directory joined with an empty name. */
  lemma JoinPathAppends(a: string, b: string)
    requires |b| == 0 || b[0] != '/'
    ensures JoinPath(a, b) == JoinPath(a, "") + b
  {
  }

  /** With a '.' in the file name, remove_ext gives the directory (its
      separator included) followed by the stem. */
  lemma RemoveExtSplitsAtStem(p: string)
    requires '.' in Basename(p)
    ensures RemoveExt(p) == JoinPath(Dirname(p), "") + Stem(Basename(p))
  {
    var name := Basename(p);
    var stem := Stem(name);
    assert stem <= name;
    assert |stem| == 0 || stem[0] != '/' by {
      if |stem| > 0 {
        assert stem[0] == name[0];
      }
    }
    JoinPathAppends(Dirname(p), stem);
  }

  /** When the directory has no doubled separator, remove_ext drops exactly
      the file name's extension: the path is the result followed by it. */
  lemma RemoveExtDropsExtension(p: string)
    requires '.' in Basename(p)
    requires NoRepeatedSeparator(p)
    ensures p == RemoveExt(p) + Extension(Basename(p))
  {
    var h, name := DirPrefix(p), Basename(p);
    DirnameSeparatorPrefix(p);
    RemoveExtSplitsAtStem(p);
    ConcatAssoc(p, h, name, Stem(name), Extension(name));
  }

  /** A prefix of a string that lacks `c` lacks it too. */
  lemma PrefixLacks(s: string, t: string, c: char)
    requires s <= t && c !in t
    ensures c !in s
  {
  }

  /** `d + stem + w` differs from `d + slashes + stem + ext` when `w` does not
      start as `ext` does and neither `stem` nor `w` holds a separator. */
  lemma ShapesDiffer(p: string, r: string, w: string,
                     d: string, slashes: string, stem: string, ext: string)
    requires p == d + (slashes + stem + ext) && r == d + stem
    requires AllSlashes(slashes)
    requires '/' !in stem && '/' !in w
    requires |w| >= 1 && |ext| >= 1 && w[0] != ext[0]
    ensures r + w != p
  {
    var left, right := stem + w, slashes + stem + ext;
    assert r + w == d + left;
    var at := if |slashes| == 0 then |stem| else 0;
    assert left[at] != right[at] by {
      if |slashes| == 0 {
        assert left[at] == w[0] && right[at] == ext[0];
      } else {
        assert right[0] == '/';
        assert left[0] == if |stem| > 0 then stem[0] else w[0];
      }
    }
    assert (d + left)[|d| + at] != (d + right)[|d| + at];
  }

  /** The path, cut at the directory joined with an empty name. */
  lemma PathAroundDirectory(p: string, h: string, d: string, name: string, stem: string, ext: string)
    requires p == h + name && name == stem + ext && d <= h
    ensures p == d + (h[|d|..] + stem + ext)
  {
    assert h == d + h[|d|..];
  }

  /** Appending a separator-free suffix that does not start with '.' to the
      result of remove_ext never rebuilds the path it came from. */
  lemma RemoveExtPlusSuffixIsNotPath(p: string, w: string)
    requires |w| >= 1 && w[0] != '.' && '/' !in w
    ensures RemoveExt(p) + w != p
  {
    var name := Basename(p);
    if '.' in name {
      var h, d := DirPrefix(p), JoinPath(Dirname(p), "");
      var stem, ext := Stem(name), Extension(name);
      DirnameSeparatorPrefix(p);
      RemoveExtSplitsAtStem(p);
      PrefixLacks(stem, name, '/');
      PathAroundDirectory(p, h, d, name, stem, ext);
      ShapesDiffer(p, RemoveExt(p), w, d, h[|d|..], stem, ext);
    } else {
      assert |RemoveExt(p) + w| > |p|;
    }
  }
}
