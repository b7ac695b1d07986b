/** The pieces of Python's built-ins and standard library that backupDirs.py
    relies on, written out over Dafny strings and sequences: `str.split`,
    `str.startswith`, `str.lstrip`, `str.upper`, `list.sort`, `list.remove`,
    `itertools.filterfalse`, and the Windows flavour of `os.path.join` and
    `os.path.splitdrive`. */
module PyLib {

  datatype Option<T> = None | Some(value: T)

  /** What an `os`/`shutil` call did: it returned normally, or it raised an
      exception whose first argument (`inst.args[0]`) is `detail`. */
  datatype FsOutcome = Done | Raised(detail: string)

  // ---------------------------------------------------------------------
  // str.split(sep) and its inverse, sep.join(parts)

  function Split(s: string, sep: char): (parts: seq<string>)
    ensures |parts| >= 1
    ensures forall i :: 0 <= i < |parts| ==> sep !in parts[i]
  {
    if s == [] then [""]
    else
      var rest := Split(s[1..], sep);
      if s[0] == sep then [""] + rest
      else [[s[0]] + rest[0]] + rest[1..]
  }

  function Join(parts: seq<string>, sep: char): string
    requires |parts| >= 1
  {
    if |parts| == 1 then parts[0] else parts[0] + [sep] + Join(parts[1..], sep)
  }

  /** Splitting loses nothing: the separators come back with `Join`. */
  lemma {:induction false} JoinSplit(s: string, sep: char)
    ensures Join(Split(s, sep), sep) == s
  {
    if s != [] {
      JoinSplit(s[1..], sep);
      var rest := Split(s[1..], sep);
      if s[0] == sep {
        assert Split(s, sep)[1..] == rest;
        assert s == [sep] + s[1..];
      } else if |rest| == 1 {
        assert s == [s[0]] + s[1..];
      } else {
        assert Split(s, sep)[1..] == rest[1..];
        calc {
          Join(Split(s, sep), sep);
          ([s[0]] + rest[0]) + [sep] + Join(rest[1..], sep);
          [s[0]] + (rest[0] + [sep] + Join(rest[1..], sep));
          [s[0]] + Join(rest, sep);
          s;
        }
      }
    }
  }

  lemma {:induction false} SplitNoSeparator(a: string, sep: char)
    requires sep !in a
    ensures Split(a, sep) == [a]
  {
    if a != [] {
      SplitNoSeparator(a[1..], sep);
      assert a == [a[0]] + a[1..];
    }
  }

  lemma {:induction false} SplitAfterPiece(a: string, b: string, sep: char)
    requires sep !in a
    ensures Split(a + [sep] + b, sep) == [a] + Split(b, sep)
  {
    if a == [] {
      assert a + [sep] + b == [sep] + b;
      assert ([sep] + b)[1..] == b;
    } else {
      assert (a + [sep] + b)[1..] == a[1..] + [sep] + b;
      SplitAfterPiece(a[1..], b, sep);
      assert [a[0]] + a[1..] == a;
    }
  }

  /** Joining pieces that hold no separator, then splitting, gives the pieces back. */
  lemma {:induction false} SplitJoin(parts: seq<string>, sep: char)
    requires |parts| >= 1
    requires forall i :: 0 <= i < |parts| ==> sep !in parts[i]
    ensures Split(Join(parts, sep), sep) == parts
  {
    if |parts| == 1 {
      SplitNoSeparator(parts[0], sep);
    } else {
      SplitJoin(parts[1..], sep);
      SplitAfterPiece(parts[0], Join(parts[1..], sep), sep);
      assert parts == [parts[0]] + parts[1..];
    }
  }

  // ---------------------------------------------------------------------
  // str.startswith and list(filter(lambda k: k.startswith(c), lines))

  predicate StartsWith(s: string, c: char) {
    |s| > 0 && s[0] == c
  }

  function FilterStartsWith(lines: seq<string>, c: char): (r: seq<string>)
    ensures forall i :: 0 <= i < |r| ==> StartsWith(r[i], c)
    ensures forall x :: multiset(r)[x] == if StartsWith(x, c) then multiset(lines)[x] else 0
  {
    if lines == [] then []
    else
      var rest := FilterStartsWith(lines[1..], c);
      assert lines == [lines[0]] + lines[1..];
      if StartsWith(lines[0], c) then [lines[0]] + rest else rest
  }

  // ---------------------------------------------------------------------
  // str.lstrip(chars)

  /** The suffix left after every leading character from `chars` is removed. */
  function LStrip(s: string, chars: set<char>): (r: string)
    ensures |r| <= |s| && r == s[|s| - |r|..]
    ensures forall i :: 0 <= i < |s| - |r| ==> s[i] in chars
    ensures r == [] || r[0] !in chars
  {
    if |s| > 0 && s[0] in chars then LStrip(s[1..], chars) else s
  }

  /** The three properties in LStrip's contract pin its result down: no other
      suffix of `s` has them. */
  lemma LStripUnique(s: string, chars: set<char>, r: string)
    requires |r| <= |s| && r == s[|s| - |r|..]
    requires forall i :: 0 <= i < |s| - |r| ==> s[i] in chars
    requires r == [] || r[0] !in chars
    ensures r == LStrip(s, chars)
  {
  }

  // ---------------------------------------------------------------------
  // list.sort() on strings: code-point lexicographic order

  predicate StrLe(a: string, b: string) {
    if a == [] then true
    else if b == [] then false
    else a[0] < b[0] || (a[0] == b[0] && StrLe(a[1..], b[1..]))
  }

  lemma {:induction false} StrLeTotal(a: string, b: string)
    ensures StrLe(a, b) || StrLe(b, a)
  {
    if a != [] && b != [] && a[0] == b[0] {
      StrLeTotal(a[1..], b[1..]);
    }
  }

  lemma {:induction false} StrLeReflexive(a: string)
    ensures StrLe(a, a)
  {
    if a != [] {
      StrLeReflexive(a[1..]);
    }
  }

  lemma {:induction false} StrLeTransitive(a: string, b: string, c: string)
    requires StrLe(a, b) && StrLe(b, c)
    ensures StrLe(a, c)
  {
    if a != [] && b != [] && c != [] && a[0] == b[0] == c[0] {
      StrLeTransitive(a[1..], b[1..], c[1..]);
    }
  }

  lemma {:induction false} StrLeAntisymmetric(a: string, b: string)
    requires StrLe(a, b) && StrLe(b, a)
    ensures a == b
  {
    if a != [] && b != [] {
      StrLeAntisymmetric(a[1..], b[1..]);
      assert a == [a[0]] + a[1..] && b == [b[0]] + b[1..];
    }
  }

  ghost predicate Sorted(s: seq<string>) {
    forall i, j :: 0 <= i < j < |s| ==> StrLe(s[i], s[j])
  }

  function Insert(x: string, s: seq<string>): (r: seq<string>)
    requires Sorted(s)
    ensures Sorted(r)
    ensures multiset(r) == multiset(s) + multiset{x}
  {
    if s == [] then [x]
    else if StrLe(x, s[0]) then
      LowerBound(x, s);
      [x] + s
    else
      var rest := Insert(x, s[1..]);
      StrLeTotal(x, s[0]);
      assert s == [s[0]] + s[1..];
      BelowInserted(s[0], x, s[1..], rest);
      [s[0]] + rest
  }

  lemma LowerBound(x: string, s: seq<string>)
    requires Sorted(s) && s != [] && StrLe(x, s[0])
    ensures Sorted([x] + s)
  {
    forall j | 0 < j < |s| ensures StrLe(x, s[j]) {
      StrLeTransitive(x, s[0], s[j]);
    }
  }

  lemma BelowInserted(h: string, x: string, tail: seq<string>, rest: seq<string>)
    requires StrLe(h, x) && Sorted(rest)
    requires forall j :: 0 <= j < |tail| ==> StrLe(h, tail[j])
    requires multiset(rest) == multiset(tail) + multiset{x}
    ensures Sorted([h] + rest)
  {
    forall j | 0 <= j < |rest| ensures StrLe(h, rest[j]) {
      assert rest[j] in multiset(rest);
      if rest[j] != x {
        assert rest[j] in multiset(tail);
        var k :| 0 <= k < |tail| && tail[k] == rest[j];
      }
    }
  }

  /** The order `list.sort()` leaves the strings in. */
  function SortStrings(s: seq<string>): (r: seq<string>)
    ensures Sorted(r)
    ensures multiset(r) == multiset(s)
  {
    if s == [] then []
    else
      assert s == [s[0]] + s[1..];
      Insert(s[0], SortStrings(s[1..]))
  }

  /** A sorted arrangement of a multiset of strings is unique, so SortStrings
      agrees with whatever algorithm `list.sort()` runs. */
  lemma {:induction false} SortedUnique(a: seq<string>, b: seq<string>)
    requires Sorted(a) && Sorted(b)
    requires multiset(a) == multiset(b)
    ensures a == b
  {
    assert |a| == |multiset(a)| == |multiset(b)| == |b|;
    if a != [] {
      SameHead(a, b);
      SortedUnique(a[1..], b[1..]);
      assert a == [a[0]] + a[1..] && b == [b[0]] + b[1..];
    }
  }

  lemma SameHead(a: seq<string>, b: seq<string>)
    requires Sorted(a) && Sorted(b) && a != [] && b != []
    requires multiset(a) == multiset(b)
    ensures a[0] == b[0] && multiset(a[1..]) == multiset(b[1..])
    ensures Sorted(a[1..]) && Sorted(b[1..])
  {
    assert a[0] in multiset(b) && b[0] in multiset(a);
    HeadIsLeast(a, b[0]);
    HeadIsLeast(b, a[0]);
    StrLeAntisymmetric(a[0], b[0]);
    TailMultiset(a);
    TailMultiset(b);
  }

  lemma TailMultiset(a: seq<string>)
    requires a != []
    ensures multiset(a[1..]) == multiset(a) - multiset{a[0]}
  {
    assert a == [a[0]] + a[1..];
  }

  lemma HeadIsLeast(s: seq<string>, y: string)
    requires Sorted(s) && y in s
    ensures StrLe(s[0], y)
  {
    var i :| 0 <= i < |s| && s[i] == y;
    if i == 0 {
      StrLeReflexive(y);
    }
  }

  // ---------------------------------------------------------------------
  // list.remove(x) and list(filterfalse(b.__contains__, a))

  /** `s.index(x)`: where `x` first occurs. */
  function IndexOf<T(==)>(s: seq<T>, x: T): (k: nat)
    requires x in s
    ensures k < |s| && s[k] == x && x !in s[..k]
  {
    if s[0] == x then 0
    else
      assert s[1..][..IndexOf(s[1..], x)] == s[1..IndexOf(s[1..], x) + 1];
      1 + IndexOf(s[1..], x)
  }

  /** `list.remove(x)`: drops the first occurrence of `x`; Python raises
      ValueError when there is none, which callers check beforehand. */
  function RemoveFirst<T(==)>(s: seq<T>, x: T): (r: seq<T>)
    requires x in s
    ensures exists k :: 0 <= k < |s| && s[k] == x && x !in s[..k] && r == s[..k] + s[k + 1..]
    ensures multiset(r) == multiset(s) - multiset{x}
  {
    var k := IndexOf(s, x);
    assert s == s[..k] + [x] + s[k + 1..];
    s[..k] + s[k + 1..]
  }

  /** `list(filterfalse(b.__contains__, a))`: the elements of `a` that are not in `b`, in order. */
  function Without(a: seq<string>, b: seq<string>): (r: seq<string>)
    ensures forall x :: multiset(r)[x] == if x in b then 0 else multiset(a)[x]
  {
    if a == [] then []
    else
      var rest := Without(a[1..], b);
      assert a == [a[0]] + a[1..];
      if a[0] in b then rest else [a[0]] + rest
  }

  /** `filterfalse` keeps the order of `a`: filtering a concatenation filters
      each part. */
  lemma {:induction false} WithoutAppend(a1: seq<string>, a2: seq<string>, b: seq<string>)
    ensures Without(a1 + a2, b) == Without(a1, b) + Without(a2, b)
  {
    if a1 != [] {
      var a := a1 + a2;
      var keep := if a1[0] in b then [] else [a1[0]];
      assert a[0] == a1[0] && a[1..] == a1[1..] + a2;
      WithoutAppend(a1[1..], a2, b);
      WithoutCons(a, b);
      WithoutCons(a1, b);
      assert Without(a, b) == keep + (Without(a1[1..], b) + Without(a2, b));
      assert Without(a1, b) == keep + Without(a1[1..], b);
    } else {
      assert a1 + a2 == a2;
    }
  }

  lemma WithoutCons(a: seq<string>, b: seq<string>)
    requires a != []
    ensures Without(a, b) == (if a[0] in b then [] else [a[0]]) + Without(a[1..], b)
  {
  }

  /** Each element of `a`, in its place, is kept exactly when it is not in `b`. */
  lemma WithoutKeepsOrder(a1: seq<string>, x: string, a2: seq<string>, b: seq<string>)
    ensures Without(a1 + [x] + a2, b) == Without(a1, b) + (if x in b then [] else [x]) + Without(a2, b)
  {
    var keep := if x in b then [] else [x];
    WithoutCons([x], b);
    assert [x][1..] == [] && Without([], b) == [];
    assert Without([x], b) == keep;
    WithoutAppend(a1, [x], b);
    WithoutAppend(a1 + [x], a2, b);
  }

  // ---------------------------------------------------------------------
  // str.upper() and str.lower(), on ASCII letters

  function UpperChar(c: char): char {
    if 'a' <= c <= 'z' then (c as int - 32) as char else c
  }

  function LowerChar(c: char): char {
    if 'A' <= c <= 'Z' then (c as int + 32) as char else c
  }

  function Upper(s: string): string {
    seq(|s|, i requires 0 <= i < |s| => UpperChar(s[i]))
  }

  function Lower(s: string): string {
    seq(|s|, i requires 0 <= i < |s| => LowerChar(s[i]))
  }

  // ---------------------------------------------------------------------
  // os.path.join and os.path.splitdrive, Windows flavour (ntpath)

  const PathSeparator: char := '\\'

  /** `os.path.join(dir, name)` for a plain name: the directory, one
      separator unless it is empty or already ends with one, then the name. */
  function JoinPath(dir: string, name: string): string {
    if dir == [] || dir[|dir| - 1] == '\\' || dir[|dir| - 1] == '/' then dir + name
    else dir + [PathSeparator] + name
  }

  /** What a joined path consists of: the directory, then one separator
      unless the directory is empty or already ends with one, then the name. */
  lemma JoinPathParts(dir: string, name: string)
    ensures var r := JoinPath(dir, name);
            var ends := dir == [] || dir[|dir| - 1] == '\\' || dir[|dir| - 1] == '/';
            (ends ==> |r| == |dir| + |name|) &&
            (!ends ==> |r| == |dir| + 1 + |name| && r[|dir|] == PathSeparator) &&
            r[..|dir|] == dir && r[|r| - |name|..] == name
  {
  }

  /** `PurePath(base, name)` for a plain name: like `os.path.join`, except
      that a base of "." is dropped, as `pathlib` drops `.` parts. */
  function PureJoin(base: string, name: string): string {
    if base == "." then name else JoinPath(base, name)
  }

  /** A pathlib join of a name onto "." or onto nothing is the bare name;
      onto any other base it is the `os.path.join` of the two. */
  lemma PureJoinParts(base: string, name: string)
    ensures base == "." || base == [] ==> PureJoin(base, name) == name
    ensures base != "." ==> PureJoin(base, name) == JoinPath(base, name)
    ensures PureJoin(".", name) != JoinPath(".", name)
  {
    JoinPathParts(".", name);
    JoinPathParts(base, name);
  }

  /** `os.path.splitdrive(p)[1]`: the path without its "X:" drive prefix. */
  function StripDrive(p: string): (r: string)
    ensures |p| >= 2 && p[1] == ':' ==> r == p[2..] && p == p[..2] + r
    ensures !(|p| >= 2 && p[1] == ':') ==> r == p
  {
    if |p| >= 2 && p[1] == ':' then p[2..] else p
  }
}
