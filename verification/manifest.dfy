/** The manifest (`notas.txt`) read at the start of removeOldTargets
    (backupDirs.py:58-66): the lines that start with '-' name the target
    directories to remove. The raw lines are sorted first, and only then is
    every leading '-' and space stripped from each; trailing characters stay. */
module Manifest {
  import opened PyLib

  /** The characters `lstrip('- ')` removes. */
  const StripChars: set<char> := {'-', ' '}

  /** The file text split on "\n", keeping the lines whose first character
      is '-' (backupDirs.py:61). */
  function DashLines(text: string): seq<string> {
    FilterStartsWith(Split(text, '\n'), '-')
  }

  /** `selectedDirs` after `selectedDirs.sort()` (backupDirs.py:63). */
  function SelectedLines(text: string): seq<string> {
    SortStrings(DashLines(text))
  }

  function StripAll(lines: seq<string>): seq<string> {
    seq(|lines|, i requires 0 <= i < |lines| => LStrip(lines[i], StripChars))
  }

  /** The names `selDirs` holds after backupDirs.py:64-66: one per '-' line,
      duplicates kept, in the order of the sorted raw lines. */
  function ManifestNames(text: string): (names: seq<string>)
    ensures |names| == |DashLines(text)|
    ensures forall i :: 0 <= i < |names| ==>
              var line := SelectedLines(text)[i];
              StartsWith(line, '-') &&
              |names[i]| < |line| && names[i] == line[|line| - |names[i]|..] &&
              (forall j :: 0 <= j < |line| - |names[i]| ==> line[j] in StripChars) &&
              (names[i] == [] || names[i][0] !in StripChars)
  {
    SelectedAreDashLines(text);
    StripAll(SelectedLines(text))
  }

  /** Sorting keeps the `-` lines and their number. */
  lemma SelectedAreDashLines(text: string)
    ensures |SelectedLines(text)| == |DashLines(text)|
    ensures forall i :: 0 <= i < |SelectedLines(text)| ==> StartsWith(SelectedLines(text)[i], '-')
  {
    var raw := SelectedLines(text);
    assert forall i :: 0 <= i < |raw| ==> raw[i] in multiset(DashLines(text));
    assert |raw| == |multiset(raw)| == |multiset(DashLines(text))| == |DashLines(text)|;
  }

  /** The loop of backupDirs.py:63-66. */
  method ParseManifest(text: string) returns (selDirs: seq<string>)
    ensures selDirs == ManifestNames(text)
  {
    var selectedDirs := FilterStartsWith(Split(text, '\n'), '-');
    selectedDirs := SortStrings(selectedDirs);
    selDirs := [];
    for i := 0 to |selectedDirs|
      invariant selDirs == StripAll(selectedDirs[..i])
    {
      StripAllSnoc(selectedDirs, i);
      selDirs := selDirs + [LStrip(selectedDirs[i], StripChars)];
    }
    assert selectedDirs[..|selectedDirs|] == selectedDirs;
  }

  lemma StripAllSnoc(lines: seq<string>, i: nat)
    requires i < |lines|
    ensures StripAll(lines[..i + 1]) == StripAll(lines[..i]) + [LStrip(lines[i], StripChars)]
  {
    assert lines[..i + 1][i] == lines[i];
  }

  /** The names do not depend on how the sort is carried out: stripping any
      sorted arrangement of the '-' lines gives them. */
  lemma ManifestNamesOfSorted(text: string, raw: seq<string>)
    requires Sorted(raw) && multiset(raw) == multiset(DashLines(text))
    ensures ManifestNames(text) == StripAll(raw)
  {
    SortedUnique(raw, SelectedLines(text));
  }

  /** A manifest whose lines are "- Foo", "-Bar", "baz" and "-  Qux  " names
      "Qux  ", "Foo" and "Bar", in that order: the raw lines sort as
      "-  Qux  " < "- Foo" < "-Bar" because ' ' comes before letters, and the
      trailing spaces of "Qux  " stay. */
  lemma ExampleManifest(text: string)
    requires Split(text, '\n') == ["- Foo", "-Bar", "baz", "-  Qux  "]
    ensures ManifestNames(text) == ["Qux  ", "Foo", "Bar"]
  {
    ExampleSorted(text);
    ExampleStrip();
  }

  lemma ExampleSorted(text: string)
    requires Split(text, '\n') == ["- Foo", "-Bar", "baz", "-  Qux  "]
    ensures ManifestNames(text) == StripAll(["-  Qux  ", "- Foo", "-Bar"])
  {
    ExampleLines(Split(text, '\n'));
    var raw := ["-  Qux  ", "- Foo", "-Bar"];
    ExampleOrder();
    Rotate("- Foo", "-Bar", "-  Qux  ");
    ManifestNamesOfSorted(text, raw);
  }

  lemma ExampleStrip()
    ensures StripAll(["-  Qux  ", "- Foo", "-Bar"]) == ["Qux  ", "Foo", "Bar"]
  {
    var raw := ["-  Qux  ", "- Foo", "-Bar"];
    StripQux(raw[0]);
    StripFoo(raw[1]);
    StripBar(raw[2]);
    StripThree(raw, "Qux  ", "Foo", "Bar");
  }

  lemma Rotate(x: string, y: string, z: string)
    ensures multiset([z, x, y]) == multiset([x, y, z])
  {
  }

  lemma ExampleLines(lines: seq<string>)
    requires lines == ["- Foo", "-Bar", "baz", "-  Qux  "]
    ensures FilterStartsWith(lines, '-') == ["- Foo", "-Bar", "-  Qux  "]
  {
    assert lines[1..][1..][1..][1..] == [];
    assert FilterStartsWith(lines[1..][1..][1..], '-') == ["-  Qux  "];
    assert FilterStartsWith(lines[1..][1..], '-') == ["-  Qux  "];
    assert FilterStartsWith(lines[1..], '-') == ["-Bar", "-  Qux  "];
  }

  lemma ExampleOrder()
    ensures Sorted(["-  Qux  ", "- Foo", "-Bar"])
  {
    var q, f, b := "-  Qux  ", "- Foo", "-Bar";
    assert q[1..][1..] == " Qux  " && f[1..][1..] == "Foo";
    assert StrLe(q[1..][1..], f[1..][1..]);
    assert q[1..] == "  Qux  " && f[1..] == " Foo";
    assert StrLe(q[1..], f[1..]);
    assert StrLe(q, f);
    assert f[1..] == " Foo" && b[1..] == "Bar";
    assert StrLe(f[1..], b[1..]);
    assert StrLe(f, b);
    StrLeTransitive(q, f, b);
  }

  lemma StripThree(lines: seq<string>, a: string, b: string, c: string)
    requires |lines| == 3
    requires LStrip(lines[0], StripChars) == a && LStrip(lines[1], StripChars) == b && LStrip(lines[2], StripChars) == c
    ensures StripAll(lines) == [a, b, c]
  {
  }

  lemma StripQux(s: string)
    requires s == "-  Qux  "
    ensures LStrip(s, StripChars) == "Qux  "
  {
    StripsTo(s, 3, "Qux  ");
  }

  lemma StripFoo(s: string)
    requires s == "- Foo"
    ensures LStrip(s, StripChars) == "Foo"
  {
    StripsTo(s, 2, "Foo");
  }

  lemma StripBar(s: string)
    requires s == "-Bar"
    ensures LStrip(s, StripChars) == "Bar"
  {
    StripsTo(s, 1, "Bar");
  }

  /** Stripping a line whose first `n` characters are dashes and spaces, and
      whose next one is not, leaves the rest of it. */
  lemma StripsTo(s: string, n: nat, r: string)
    requires n <= |s| && r == s[n..]
    requires forall i :: 0 <= i < n ==> s[i] in StripChars
    requires r == [] || r[0] !in StripChars
    ensures LStrip(s, StripChars) == r
  {
    LStripUnique(s, StripChars, r);
  }
}
