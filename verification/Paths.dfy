/** The path and string helpers of src/efsw/FileSystem.cpp and src/efsw/String.cpp, with '/' as
    the separator, and what they mean for paths built from file names. */
module Paths {

  const Slash: char := '/'

  predicate SlashAtEnd(dir: string) {
    |dir| > 0 && dir[|dir| - 1] == Slash
  }

  function AddSlash(dir: string): string {
    if |dir| >= 1 && dir[|dir| - 1] != Slash then dir + [Slash] else dir
  }

  function RemoveSlash(dir: string): string {
    if |dir| >= 1 && dir[|dir| - 1] == Slash then dir[..|dir| - 1] else dir
  }

  /** Index of the last separator, -1 when there is none. */
  function LastSlash(s: string): (i: int)
    ensures -1 <= i < |s|
    ensures i >= 0 ==> s[i] == Slash
    ensures forall j :: i < j < |s| ==> s[j] != Slash
  {
    if s == "" then -1
    else if s[|s| - 1] == Slash then |s| - 1
    else LastSlash(s[..|s| - 1])
  }

  function FileName(path: string): string {
    var p := RemoveSlash(path);
    p[LastSlash(p) + 1..]
  }

  function RemoveFileName(path: string): string {
    var p := RemoveSlash(path);
    if LastSlash(p) >= 0 then p[..LastSlash(p) + 1] else p
  }

  /** strStartsWith(start, str) != -1: the empty string starts nothing. */
  predicate StartsWith(start: string, str: string) {
    start != "" && start <= str
  }

  /** split(str, '/', false): the non-empty pieces between separators. */
  function Split(s: string): seq<string> {
    SplitFrom(s, "")
  }

  function SplitFrom(s: string, piece: string): seq<string> {
    if s == "" then (if piece == "" then [] else [piece])
    else if s[0] == Slash then
      (if piece == "" then [] else [piece]) + SplitFrom(s[1..], "")
    else SplitFrom(s[1..], piece + [s[0]])
  }

  /** A directory entry's name. */
  predicate IsName(s: string) {
    s != "" && Slash !in s
  }

  predicate AreNames(names: seq<string>) {
    forall n | n in names :: IsName(n)
  }

  /** A directory path as the watchers store it: absolute and slash-terminated. */
  predicate IsDirPath(s: string) {
    SlashAtEnd(s) && s[0] == Slash
  }

  function ChildDir(dir: string, name: string): string {
    dir + name + [Slash]
  }

  /** The names, each followed by a separator. */
  function Join(names: seq<string>): string {
    if names == [] then "" else names[0] + [Slash] + Join(names[1..])
  }

  // ---------- one name below a directory ----------

  lemma LastSlashBefore(dir: string, name: string)
    requires SlashAtEnd(dir) && Slash !in name
    ensures LastSlash(dir + name) == |dir| - 1
  {
    assert (dir + name)[|dir| - 1] == Slash;
    assert forall j :: |dir| <= j < |dir + name| ==> (dir + name)[j] == name[j - |dir|];
  }

  /** A child's path splits back into its directory and its name, with or without a final slash. */
  lemma ChildParts(dir: string, name: string)
    requires SlashAtEnd(dir) && IsName(name)
    ensures FileName(dir + name) == name
    ensures FileName(dir + name + [Slash]) == name
    ensures RemoveFileName(dir + name) == dir
    ensures RemoveFileName(dir + name + [Slash]) == dir
    ensures AddSlash(dir + name) == dir + name + [Slash]
    ensures SlashAtEnd(dir + name + [Slash])
  {
    LastSlashBefore(dir, name);
    var p := dir + name;
    assert p[|p| - 1] == name[|name| - 1];
    assert name[|name| - 1] in name;
    assert RemoveSlash(p + [Slash]) == p;
    assert p[|dir|..] == name && p[..|dir|] == dir;
  }

  lemma {:induction false} NoSlash(s: string)
    requires Slash !in s
    ensures LastSlash(s) == -1
    decreases |s|
  {
    if s != "" {
      assert s[|s| - 1] in s;
      NoSlash(s[..|s| - 1]);
    }
  }

  lemma FileNameOfName(name: string)
    requires IsName(name)
    ensures FileName(name) == name
  {
    assert name[|name| - 1] in name;
    NoSlash(name);
  }

  // ---------- Split ----------

  lemma SplitFromName(s: string, piece: string, name: string)
    requires IsName(name) && (s == "" ==> piece == "")
    requires s == "" || SlashAtEnd(s)
    ensures SplitFrom(s + name, piece) == SplitFrom(s, piece) + [name]
    ensures SplitFrom(s + name + [Slash], piece) == SplitFrom(s, piece) + [name]
    decreases |s|
  {
    if s == "" {
      assert s + name == name && s + name + [Slash] == name + [Slash];
      SplitFromOneName(name, "");
      assert "" + name == name;
    } else {
      assert (s + name)[1..] == s[1..] + name;
      assert (s + name + [Slash])[1..] == s[1..] + name + [Slash];
      if |s| > 1 {
        assert s[1..][|s[1..]| - 1] == s[|s| - 1];
      }
      SplitFromName(s[1..], if s[0] == Slash then "" else piece + [s[0]], name);
    }
  }

  lemma SplitFromOneName(name: string, piece: string)
    requires Slash !in name && (name != "" || piece != "")
    ensures SplitFrom(name, piece) == [piece + name]
    ensures SplitFrom(name + [Slash], piece) == [piece + name]
    decreases |name|
  {
    if name == "" {
      assert piece + name == piece;
      assert name + [Slash] == [Slash];
      assert SplitFrom([Slash][1..], "") == [];
    } else {
      var c, rest := name[0], name[1..];
      assert c != Slash && forall d | d in rest :: d in name;
      assert (name + [Slash])[1..] == rest + [Slash];
      assert piece + [c] + rest == piece + name;
      SplitFromOneName(rest, piece + [c]);
    }
  }

  /** Splitting a child's path adds one component, with or without a final slash. */
  lemma SplitChild(dir: string, name: string)
    requires SlashAtEnd(dir) && IsName(name)
    ensures Split(dir + name) == Split(dir) + [name]
    ensures Split(dir + name + [Slash]) == Split(dir) + [name]
  {
    SplitFromName(dir, "", name);
  }

  lemma {:induction false} SplitJoin(dir: string, names: seq<string>)
    requires SlashAtEnd(dir) && AreNames(names)
    ensures Split(dir + Join(names)) == Split(dir) + names
    decreases |names|
  {
    hide Split;
    if names == [] {
      assert dir + Join(names) == dir;
    } else {
      var name, rest := names[0], Join(names[1..]);
      SplitChild(dir, name);
      SplitJoin(ChildDir(dir, name), names[1..]);
      assert dir + Join(names) == ChildDir(dir, name) + rest;
      assert names == [name] + names[1..];
    }
  }

  // ---------- Join ----------

  lemma {:induction false} JoinAppend(a: seq<string>, b: seq<string>)
    ensures Join(a + b) == Join(a) + Join(b)
    decreases |a|
  {
    if a == [] {
      assert a + b == b;
    } else {
      assert (a + b)[1..] == a[1..] + b;
      JoinAppend(a[1..], b);
    }
  }

  lemma NameBoundary(n: string, m: string, x: string, y: string)
    requires Slash !in n && Slash !in m
    requires n + [Slash] + x <= m + [Slash] + y
    ensures n == m && x <= y
  {
    var s, t := n + [Slash] + x, m + [Slash] + y;
    assert forall i | 0 <= i < |s| :: s[i] == t[i];
    assert forall i | 0 <= i < |m| :: t[i] == m[i] && m[i] != Slash;
    assert forall i | 0 <= i < |n| :: s[i] == n[i] && n[i] != Slash;
    assert s[|n|] == Slash && t[|n|] == Slash && t[|m|] == Slash;
    assert |m| <= |n|;
    assert s[|m|] == Slash;
    assert n == s[..|n|] == t[..|n|] == m;
    assert x == s[|n| + 1..] && y == t[|n| + 1..];
    assert forall i | 0 <= i < |x| :: x[i] == s[|n| + 1 + i] && y[i] == t[|n| + 1 + i];
  }

  /** A string prefix between two rendered paths is a component prefix, and the other way round. */
  lemma {:induction false} JoinPrefix(a: seq<string>, b: seq<string>)
    requires AreNames(a) && AreNames(b)
    ensures Join(a) <= Join(b) <==> a <= b
    decreases |a|
  {
    if a == [] {
    } else if b == [] {
    } else {
      assert IsName(a[0]) && IsName(b[0]);
      assert a == [a[0]] + a[1..] && b == [b[0]] + b[1..];
      JoinPrefix(a[1..], b[1..]);
      if Join(a) <= Join(b) {
        NameBoundary(a[0], b[0], Join(a[1..]), Join(b[1..]));
      }
      if a <= b {
        assert a[0] == b[0];
        assert a[1..] <= b[1..];
      }
    }
  }

  lemma JoinInjective(a: seq<string>, b: seq<string>)
    requires AreNames(a) && AreNames(b) && Join(a) == Join(b)
    ensures a == b
  {
    JoinPrefix(a, b);
    JoinPrefix(b, a);
  }

  // ---------- lexicographic order (std::string operator<) ----------

  predicate Less(a: string, b: string) {
    if b == "" then false
    else if a == "" then true
    else if a[0] != b[0] then a[0] < b[0]
    else Less(a[1..], b[1..])
  }

  /** The strings first differ at k, where a has the smaller character. */
  predicate DiffersAt(a: string, b: string, k: int) {
    0 <= k < |a| && k < |b| && a[..k] == b[..k] && a[k] < b[k]
  }

  lemma DiffersLater(c: char, x: string, y: string, k: int)
    ensures DiffersAt([c] + x, [c] + y, k) <==> DiffersAt(x, y, k - 1)
  {
    var a, b := [c] + x, [c] + y;
    if 0 < k <= |x| && k <= |y| {
      assert a[..k] == [c] + x[..k - 1] && b[..k] == [c] + y[..k - 1];
      if a[..k] == b[..k] {
        assert a[..k][1..] == x[..k - 1] && b[..k][1..] == y[..k - 1];
      }
    }
  }

  /** The order is by the first character that differs, and a proper prefix comes first. */
  lemma {:induction false} LessMeans(a: string, b: string)
    ensures Less(a, b) <==> (a <= b && a != b) || exists k :: DiffersAt(a, b, k)
    decreases |a|
  {
    hide DiffersAt;
    if a == "" || b == "" {
      NeverDiffer(a, b);
    } else if a[0] != b[0] {
      DiffersFirst(a, b);
    } else {
      var x, y := a[1..], b[1..];
      assert a == [a[0]] + x && b == [b[0]] + y;
      LessMeans(x, y);
      forall k {
        DiffersLater(a[0], x, y, k);
      }
      if k :| DiffersAt(x, y, k) {
        DiffersLater(a[0], x, y, k + 1);
      }
    }
  }

  lemma NeverDiffer(a: string, b: string)
    requires a == "" || b == ""
    ensures !exists k :: DiffersAt(a, b, k)
  {
  }

  lemma DiffersFirst(a: string, b: string)
    requires a != "" && b != "" && a[0] != b[0]
    ensures (exists k :: DiffersAt(a, b, k)) <==> a[0] < b[0]
    ensures !(a <= b)
  {
    if a[0] < b[0] {
      assert DiffersAt(a, b, 0);
    }
    forall k
      ensures DiffersAt(a, b, k) ==> k == 0
    {
      if 0 < k <= |a| && k <= |b| {
        assert a[..k][0] == a[0] && b[..k][0] == b[0];
      }
    }
  }

  lemma LessIrreflexive(a: string)
    ensures !Less(a, a)
  {
  }

  lemma {:induction false} LessTransitive(a: string, b: string, c: string)
    requires Less(a, b) && Less(b, c)
    ensures Less(a, c)
    decreases |a|
  {
    if a != "" && a[0] == b[0] && b[0] == c[0] {
      LessTransitive(a[1..], b[1..], c[1..]);
    }
  }

  lemma {:induction false} LessTotal(a: string, b: string)
    ensures Less(a, b) || a == b || Less(b, a)
    ensures !(Less(a, b) && Less(b, a))
    decreases |a|
  {
    if a != "" && b != "" && a[0] == b[0] {
      LessTotal(a[1..], b[1..]);
      assert a == [a[0]] + a[1..] && b == [b[0]] + b[1..];
    }
  }

  lemma {:induction false} LessSamePrefix(p: string, a: string, b: string)
    ensures Less(p + a, p + b) == Less(a, b)
    decreases |p|
  {
    if p == "" {
      assert p + a == a && p + b == b;
    } else {
      assert (p + a)[1..] == p[1..] + a && (p + b)[1..] == p[1..] + b;
      LessSamePrefix(p[1..], a, b);
    }
  }

  lemma {:induction false} LessProperPrefix(a: string, b: string)
    requires a <= b && a != b
    ensures Less(a, b)
    decreases |a|
  {
    if a != "" {
      assert a[1..] <= b[1..];
      assert a == [a[0]] + a[1..] && b == [b[0]] + b[1..];
      LessProperPrefix(a[1..], b[1..]);
    }
  }
}
