/** The documentation generator: numbering the commands of the command line for the sidebar, and indenting text. */
module Sidebar {
  import opened Ordering

  datatype Command = Command(name: string, children: seq<Command>)

  /** The full path of a subcommand. */
  function Below(path: string, name: string): string {
    path + " " + name
  }

  /** A command and everything below it, parents first. */
  function Preorder(cmd: Command, path: string): seq<string>
    decreases cmd, |cmd.children| + 1
  {
    [path] + PreorderOfChildren(cmd, path, |cmd.children|)
  }

  function PreorderOfChildren(cmd: Command, path: string, n: nat): seq<string>
    requires n <= |cmd.children|
    decreases cmd, n
  {
    if n == 0 then []
    else
      var child := cmd.children[n - 1];
      PreorderOfChildren(cmd, path, n - 1) + Preorder(child, Below(path, child.name))
  }

  /** The positions handed out for a list of paths; a path met again gets the later number. */
  function Numbered(paths: seq<string>, from: nat): map<string, nat> {
    if paths == [] then map[]
    else
      var last := |paths| - 1;
      Numbered(paths[..last], from)[paths[last] := from + |paths|]
  }

  lemma {:induction false} NumberedConcat(a: seq<string>, b: seq<string>, from: nat)
    ensures Numbered(a + b, from) == Numbered(a, from) + Numbered(b, from + |a|)
  {
    if b == [] {
      assert a + b == a;
    } else {
      var last := |b| - 1;
      NumberedConcat(a, b[..last], from);
      assert (a + b)[..|a + b| - 1] == a + b[..last];
      assert (a + b)[|a + b| - 1] == b[last];
    }
  }

  /** The commands that have their number once `n` of the subcommands have been treated. */
  function Visited(cmd: Command, path: string, n: nat): seq<string>
    requires n <= |cmd.children|
  {
    [path] + PreorderOfChildren(cmd, path, n)
  }

  lemma FirstNumber(before: map<string, nat>, path: string, from: nat)
    ensures before[path := from + 1] == before + Numbered([path], from)
  {
    assert [path][..0] == [];
    assert Numbered([], from) == map[];
  }

  lemma Merge(a: map<string, nat>, b: map<string, nat>, c: map<string, nat>)
    ensures a + b + c == a + (b + c)
  {
  }

  lemma VisitChild(before: map<string, nat>, cmd: Command, path: string, i: nat, from: nat)
    requires i < |cmd.children|
    ensures var child, done := cmd.children[i], Visited(cmd, path, i);
            var more := Preorder(child, Below(path, child.name));
            && Visited(cmd, path, i + 1) == done + more
            && before + Numbered(done, from) + Numbered(more, from + |done|) == before + Numbered(done + more, from)
  {
    var child, done := cmd.children[i], Visited(cmd, path, i);
    var more := Preorder(child, Below(path, child.name));
    NumberedConcat(done, more, from);
    Merge(before, Numbered(done, from), Numbered(more, from + |done|));
  }

  class Generator {
    var sidebarPosition: nat
    var sidebarPositionMap: map<string, nat>

    constructor ()
      ensures sidebarPosition == 0 && sidebarPositionMap == map[]
    {
      sidebarPosition, sidebarPositionMap := 0, map[];
    }

    method GenerateSidebarPositions(cmd: Command, path: string)
      modifies this
      ensures sidebarPosition == old(sidebarPosition) + |Preorder(cmd, path)|
      ensures sidebarPositionMap == old(sidebarPositionMap) + Numbered(Preorder(cmd, path), old(sidebarPosition))
      decreases cmd
    {
      ghost var start, before := sidebarPosition, sidebarPositionMap;
      sidebarPosition := sidebarPosition + 1;
      sidebarPositionMap := sidebarPositionMap[path := sidebarPosition];
      FirstNumber(before, path, start);
      for i := 0 to |cmd.children|
        invariant sidebarPosition == start + |Visited(cmd, path, i)|
        invariant sidebarPositionMap == before + Numbered(Visited(cmd, path, i), start)
      {
        var c := cmd.children[i];
        VisitChild(before, cmd, path, i, start);
        GenerateSidebarPositions(c, Below(path, c.name));
      }
    }
  }

  predicate Distinct(paths: seq<string>) {
    forall i, j :: 0 <= i < j < |paths| ==> paths[i] != paths[j]
  }

  lemma {:induction false} NumberedKeys(paths: seq<string>, from: nat)
    ensures forall p :: p in Numbered(paths, from) <==> p in paths
  {
    if paths == [] {
    } else {
      var last := |paths| - 1;
      NumberedKeys(paths[..last], from);
      assert paths == paths[..last] + [paths[last]];
    }
  }

  lemma {:induction false} NumberedAt(paths: seq<string>, from: nat, i: nat)
    requires Distinct(paths) && i < |paths|
    ensures paths[i] in Numbered(paths, from) && Numbered(paths, from)[paths[i]] == from + i + 1
    decreases |paths|
  {
    var last := |paths| - 1;
    if i == last {
    } else {
      NumberedAt(paths[..last], from, i);
      assert paths[..last][i] == paths[i] != paths[last];
    }
  }

  lemma NumberedOf(paths: seq<string>, from: nat)
    requires Distinct(paths)
    ensures forall p :: p in Numbered(paths, from) <==> p in paths
    ensures forall i :: 0 <= i < |paths| ==> paths[i] in paths && Numbered(paths, from)[paths[i]] == from + i + 1
  {
    NumberedKeys(paths, from);
    forall i | 0 <= i < |paths|
      ensures paths[i] in paths && Numbered(paths, from)[paths[i]] == from + i + 1
    {
      NumberedAt(paths, from, i);
    }
  }

  /** The given numbers are exactly 1, 2, ... n, one for each of n paths. */
  predicate Bijective(m: map<string, nat>, n: nat) {
    && (forall p :: p in m ==> 1 <= m[p] <= n)
    && (forall p, q :: p in m && q in m && m[p] == m[q] ==> p == q)
    && (forall k :: 1 <= k <= n ==> k in m.Values)
  }

  lemma NumberedIsBijective(paths: seq<string>)
    requires Distinct(paths)
    ensures Bijective(Numbered(paths, 0), |paths|)
  {
    var m := Numbered(paths, 0);
    NumberedOf(paths, 0);
    forall p | p in m
      ensures 1 <= m[p] <= |paths| && paths[m[p] - 1] == p
    {
      var i :| 0 <= i < |paths| && paths[i] == p;
    }
    forall k | 1 <= k <= |paths|
      ensures k in m.Values
    {
      assert paths[k - 1] in m && m[paths[k - 1]] == k;
    }
  }

  /** Every number from 1 to the number of commands is given to exactly one command. */
  lemma PositionsAreBijective(cmd: Command, path: string)
    requires WellNamed(cmd)
    ensures var m, n := Numbered(Preorder(cmd, path), 0), |Preorder(cmd, path)|;
            && (forall p :: p in m <==> p in Preorder(cmd, path))
            && (forall p :: p in m ==> 1 <= m[p] <= n)
            && (forall p, q :: p in m && q in m && m[p] == m[q] ==> p == q)
            && (forall k :: 1 <= k <= n ==> k in m.Values)
  {
    NumberedKeys(Preorder(cmd, path), 0);
    PathsAreDistinct(cmd, path);
    NumberedIsBijective(Preorder(cmd, path));
  }

  /** `sub` is reached from `cmd` by following the given children. */
  function At(cmd: Command, path: string, route: seq<nat>): Option<(Command, string)> {
    if route == [] then Some((cmd, path))
    else if route[0] >= |cmd.children| then None
    else
      var child := cmd.children[route[0]];
      At(child, Below(path, child.name), route[1..])
  }

  lemma {:induction false} ChildIsSlice(cmd: Command, path: string, n: nat, i: nat) returns (a: nat)
    requires i < n <= |cmd.children|
    ensures var part := Preorder(cmd.children[i], Below(path, cmd.children[i].name));
            a == |PreorderOfChildren(cmd, path, i)| && a + |part| <= |PreorderOfChildren(cmd, path, n)|
            && PreorderOfChildren(cmd, path, n)[a..a + |part|] == part
    decreases n
  {
    var part := Preorder(cmd.children[i], Below(path, cmd.children[i].name));
    var before := PreorderOfChildren(cmd, path, n - 1);
    if i == n - 1 {
      a := |before|;
      assert (before + part)[a..a + |part|] == part;
    } else {
      a := ChildIsSlice(cmd, path, n - 1, i);
      assert PreorderOfChildren(cmd, path, n)[..|before|] == before;
      assert PreorderOfChildren(cmd, path, n)[a..a + |part|] == before[a..a + |part|];
    }
  }

  /** Everything below a command, and the command itself in front, is a stretch of the whole order. */
  lemma {:induction false} SubtreeIsSlice(cmd: Command, path: string, route: seq<nat>) returns (a: nat)
    requires At(cmd, path, route).Some?
    ensures var sub := At(cmd, path, route).value;
            var part := Preorder(sub.0, sub.1);
            a + |part| <= |Preorder(cmd, path)| && Preorder(cmd, path)[a..a + |part|] == part
    ensures route != [] ==> a > 0
    decreases |route|
  {
    var whole := Preorder(cmd, path);
    if route == [] {
      a := 0;
      assert whole[0..|whole|] == whole;
    } else {
      var child := cmd.children[route[0]];
      var sub := At(cmd, path, route).value;
      var size := |Preorder(sub.0, sub.1)|;
      var b := SubtreeIsSlice(child, Below(path, child.name), route[1..]);
      var c := ChildIsSlice(cmd, path, |cmd.children|, route[0]);
      var inner := Preorder(child, Below(path, child.name));
      var rest := PreorderOfChildren(cmd, path, |cmd.children|);
      a := 1 + c + b;
      assert whole[1..] == rest;
      SliceOfSlice(rest, inner, c, b, size);
      assert whole[a..a + size] == whole[1..][c + b..c + b + size];
    }
  }

  lemma SliceOfSlice<T>(rest: seq<T>, inner: seq<T>, c: nat, b: nat, size: nat)
    requires c + |inner| <= |rest| && rest[c..c + |inner|] == inner && b + size <= |inner|
    ensures rest[c + b..c + b + size] == inner[b..b + size]
  {
    var x, y := rest[c + b..c + b + size], inner[b..b + size];
    forall i | 0 <= i < size
      ensures x[i] == y[i]
    {
      assert rest[c..c + |inner|][b + i] == inner[b + i];
    }
  }

  /** The path of a subcommand is that of its parent, a blank and its own name. */
  lemma PathOfChild(cmd: Command, path: string, i: nat)
    requires i < |cmd.children|
    ensures At(cmd, path, [i]) == Some((cmd.children[i], path + " " + cmd.children[i].name))
  {
    assert [i][1..] == [];
  }

  /** Only commands of the tree get a number. */
  lemma {:induction false} OnlyCommands(cmd: Command, path: string, p: string) returns (route: seq<nat>)
    requires p in Preorder(cmd, path)
    ensures At(cmd, path, route).Some? && At(cmd, path, route).value.1 == p
    decreases cmd, |cmd.children| + 1
  {
    if p == path {
      route := [];
    } else {
      route := OnlyBelow(cmd, path, |cmd.children|, p);
    }
  }

  lemma {:induction false} OnlyBelow(cmd: Command, path: string, n: nat, p: string) returns (route: seq<nat>)
    requires n <= |cmd.children| && p in PreorderOfChildren(cmd, path, n)
    ensures At(cmd, path, route).Some? && At(cmd, path, route).value.1 == p
    decreases cmd, n
  {
    var child := cmd.children[n - 1];
    if p in PreorderOfChildren(cmd, path, n - 1) {
      route := OnlyBelow(cmd, path, n - 1, p);
    } else {
      var rest := OnlyCommands(child, Below(path, child.name), p);
      route := [n - 1] + rest;
      assert route[1..] == rest;
    }
  }

  lemma {:induction false} ChildrenGrow(cmd: Command, path: string, i: nat, j: nat)
    requires i < j <= |cmd.children|
    ensures |PreorderOfChildren(cmd, path, i)| < |PreorderOfChildren(cmd, path, j)|
    decreases j
  {
    if i < j - 1 {
      ChildrenGrow(cmd, path, i, j - 1);
    }
  }

  /** Subcommands are numbered in the order in which they are listed. */
  lemma ChildrenInOrder(cmd: Command, path: string, i: nat, j: nat)
    requires Distinct(Preorder(cmd, path)) && i < j < |cmd.children|
    ensures var m := Numbered(Preorder(cmd, path), 0);
            var p, q := path + " " + cmd.children[i].name, path + " " + cmd.children[j].name;
            p in m && q in m && m[p] < m[q]
  {
    var a := ChildStarts(cmd, path, i);
    var b := ChildStarts(cmd, path, j);
    ChildrenGrow(cmd, path, i, j);
    NumberedAt(Preorder(cmd, path), 0, a);
    NumberedAt(Preorder(cmd, path), 0, b);
  }

  lemma ChildStarts(cmd: Command, path: string, i: nat) returns (a: nat)
    requires i < |cmd.children|
    ensures a == 1 + |PreorderOfChildren(cmd, path, i)| < |Preorder(cmd, path)|
    ensures Preorder(cmd, path)[a] == path + " " + cmd.children[i].name
  {
    var own := Below(path, cmd.children[i].name);
    var c := ChildIsSlice(cmd, path, |cmd.children|, i);
    PreorderStarts(cmd.children[i], own);
    a := 1 + c;
    var part := Preorder(cmd.children[i], own);
    assert Preorder(cmd, path)[a] == PreorderOfChildren(cmd, path, |cmd.children|)[c..c + |part|][0];
  }

  lemma PreorderStarts(cmd: Command, path: string)
    ensures Preorder(cmd, path) != [] && Preorder(cmd, path)[0] == path
  {
  }

  /** The positions of a command and all its descendants are consecutive, and the command comes first. */
  lemma SubtreeIsInterval(cmd: Command, path: string, route: seq<nat>)
    requires Distinct(Preorder(cmd, path)) && At(cmd, path, route).Some?
    ensures var m := Numbered(Preorder(cmd, path), 0);
            var sub := At(cmd, path, route).value;
            var part := Preorder(sub.0, sub.1);
            && sub.1 in m
            && (forall p :: p in m ==> (p in part <==> m[sub.1] <= m[p] < m[sub.1] + |part|))
            && (forall p :: p in part && p != sub.1 ==> p in m && m[sub.1] < m[p])
            && (route != [] ==> path in m && m[path] < m[sub.1])
  {
    var whole := Preorder(cmd, path);
    var sub := At(cmd, path, route).value;
    var part := Preorder(sub.0, sub.1);
    var a := SubtreeIsSlice(cmd, path, route);
    NumberedOf(whole, 0);
    SliceIsInterval(whole, a, part);
    PreorderStarts(cmd, path);
    PreorderStarts(sub.0, sub.1);
  }

  lemma SliceIsInterval(whole: seq<string>, a: nat, part: seq<string>)
    requires Distinct(whole) && part != [] && a + |part| <= |whole| && whole[a..a + |part|] == part
    ensures var m := Numbered(whole, 0);
            && part[0] in m && m[part[0]] == a + 1
            && (forall p :: p in m ==> (p in part <==> a + 1 <= m[p] < a + 1 + |part|))
            && (forall p :: p in part && p != part[0] ==> p in m && a + 1 < m[p])
  {
    var m := Numbered(whole, 0);
    NumberedOf(whole, 0);
    forall k | 0 <= k < |part|
      ensures part[k] in m && m[part[k]] == a + k + 1
    {
      assert part[k] == whole[a + k];
    }
    forall p | p in m
      ensures p in part <==> a + 1 <= m[p] < a + 1 + |part|
    {
      var i :| 0 <= i < |whole| && whole[i] == p;
      if a <= i < a + |part| {
        assert part[i - a] == p;
      }
    }
  }

  /***** Paths are distinct if no command has two subcommands of the same name *****/

  predicate ValidName(name: string) {
    ' ' !in name
  }

  /** cobra takes the name from the first word of the usage line. */
  predicate WellNamed(cmd: Command)
    decreases cmd
  {
    && ValidName(cmd.name)
    && (forall i, j :: 0 <= i < j < |cmd.children| ==> cmd.children[i].name != cmd.children[j].name)
    && (forall i :: 0 <= i < |cmd.children| ==> WellNamed(cmd.children[i]))
  }

  /** A path that extends another one, by nothing or by further words. */
  predicate Extends(p: string, path: string) {
    path <= p && (|p| == |path| || p[|path|] == ' ')
  }

  lemma {:induction false} AllExtend(cmd: Command, path: string, n: nat, p: string)
    requires n <= |cmd.children|
    requires p in PreorderOfChildren(cmd, path, n)
    ensures exists i :: 0 <= i < n && p in Preorder(cmd.children[i], Below(path, cmd.children[i].name))
                        && Extends(p, Below(path, cmd.children[i].name))
    decreases cmd, n
  {
    var child := cmd.children[n - 1];
    var own := Below(path, child.name);
    if p in Preorder(child, own) {
      if p != own {
        AllExtend(child, own, |child.children|, p);
        var i :| 0 <= i < |child.children| && Extends(p, Below(own, child.children[i].name));
      }
      assert Extends(p, own);
    } else {
      AllExtend(cmd, path, n - 1, p);
    }
  }

  lemma ExtendsOne(path: string, a: string, b: string, p: string)
    requires ValidName(a) && ValidName(b)
    requires Extends(p, Below(path, a)) && Extends(p, Below(path, b))
    ensures a == b
  {
    var k := |path| + 1;
    assert Below(path, a)[k..] == a && Below(path, b)[k..] == b;
    assert p[k..k + |a|] == a && p[k..k + |b|] == b;
    if |a| < |b| {
      LongerWord(path, a, b, p);
    } else if |b| < |a| {
      LongerWord(path, b, a, p);
    }
  }

  lemma LongerWord(path: string, a: string, b: string, p: string)
    requires |a| < |b| && ValidName(b) && Extends(p, Below(path, a))
    ensures !Extends(p, Below(path, b))
  {
    var k := |Below(path, a)|;
    assert Below(path, b)[k] == b[|a|];
  }

  lemma {:induction false} PathsAreDistinct(cmd: Command, path: string)
    requires WellNamed(cmd)
    ensures Distinct(Preorder(cmd, path))
    decreases cmd, |cmd.children| + 1
  {
    var n := |cmd.children|;
    ChildPathsAreDistinct(cmd, path, n);
    if path in PreorderOfChildren(cmd, path, n) {
      AllExtend(cmd, path, n, path);
    }
  }

  lemma {:induction false} ChildPathsAreDistinct(cmd: Command, path: string, n: nat)
    requires WellNamed(cmd) && n <= |cmd.children|
    ensures Distinct(PreorderOfChildren(cmd, path, n))
    decreases cmd, n
  {
    if n == 0 {
    } else {
      var child := cmd.children[n - 1];
      var own := Below(path, child.name);
      var a, b := PreorderOfChildren(cmd, path, n - 1), Preorder(child, own);
      ChildPathsAreDistinct(cmd, path, n - 1);
      PathsAreDistinct(child, own);
      forall i, j | 0 <= i < |a| && 0 <= j < |b|
        ensures a[i] != b[j]
      {
        if a[i] == b[j] {
          NotInBoth(cmd, path, n, a[i]);
        }
      }
    }
  }

  lemma NotInBoth(cmd: Command, path: string, n: nat, p: string)
    requires WellNamed(cmd) && 0 < n <= |cmd.children|
    requires p in PreorderOfChildren(cmd, path, n - 1)
    ensures p !in Preorder(cmd.children[n - 1], Below(path, cmd.children[n - 1].name))
  {
    var child := cmd.children[n - 1];
    var own := Below(path, child.name);
    AllExtend(cmd, path, n - 1, p);
    var i :| 0 <= i < n - 1 && Extends(p, Below(path, cmd.children[i].name));
    if p in Preorder(child, own) {
      if p != own {
        AllExtend(child, own, |child.children|, p);
        var k :| 0 <= k < |child.children| && Extends(p, Below(own, child.children[k].name));
      }
      ExtendsOne(path, cmd.children[i].name, child.name, p);
    }
  }

  /***** Indenting *****/

  /** The text cut at its newlines; there is always at least one line. */
  function Lines(s: string): (lines: seq<string>)
    ensures lines != []
    ensures forall i :: 0 <= i < |lines| ==> '\n' !in lines[i]
  {
    if s == "" then [""]
    else
      var last := s[|s| - 1];
      var before := Lines(s[..|s| - 1]);
      if last == '\n' then before + [""] else before[..|before| - 1] + [before[|before| - 1] + [last]]
  }

  function Unlines(lines: seq<string>): string
    requires lines != []
  {
    (if |lines| == 1 then "" else Unlines(lines[..|lines| - 1]) + "\n") + lines[|lines| - 1]
  }

  /** Everything up to the last line. */
  function Before(lines: seq<string>): string
    requires lines != []
  {
    if |lines| == 1 then "" else Unlines(lines[..|lines| - 1]) + "\n"
  }

  lemma UnlinesAtLast(lines: seq<string>)
    requires lines != []
    ensures Unlines(lines) == Before(lines) + lines[|lines| - 1]
  {
  }

  lemma LastLineGrows(lines: seq<string>, more: string)
    requires lines != []
    ensures Unlines(lines[..|lines| - 1] + [lines[|lines| - 1] + more]) == Unlines(lines) + more
  {
    var last := |lines| - 1;
    var grown := lines[..last] + [lines[last] + more];
    UnlinesAtLast(lines);
    UnlinesAtLast(grown);
    assert Before(grown) == Before(lines) by {
      assert grown[..last] == lines[..last];
    }
    Associate(Before(lines), lines[last], more);
  }

  /** Each line that is not empty gets the prefix. */
  function IndentedLine(line: string, prefix: string): string {
    if line == "" then "" else prefix + line
  }

  function IndentedLines(lines: seq<string>, prefix: string): (indented: seq<string>)
    ensures |indented| == |lines|
  {
    seq(|lines|, i requires 0 <= i < |lines| => IndentedLine(lines[i], prefix))
  }

  function Indented(s: string, prefix: string): string {
    Unlines(IndentedLines(Lines(s), prefix))
  }

  /** How the indented text grows with one more character. */
  lemma IndentStep(s: string, c: char, prefix: string)
    ensures var bol := s == "" || s[|s| - 1] == '\n';
            Indented(s + [c], prefix) == Indented(s, prefix) + (if bol && c != '\n' then prefix else "") + [c]
  {
    var lines := Lines(s);
    EmptyLastLine(s);
    LinesStep(s, c);
    if c == '\n' {
      NewLine(lines, prefix);
    } else {
      LineGrows(lines, c, prefix);
    }
  }

  lemma LinesStep(s: string, c: char)
    ensures var lines := Lines(s);
            Lines(s + [c]) ==
            if c == '\n' then lines + [""] else lines[..|lines| - 1] + [lines[|lines| - 1] + [c]]
  {
    assert (s + [c])[..|s|] == s;
  }

  lemma NewLine(lines: seq<string>, prefix: string)
    requires lines != []
    ensures Unlines(IndentedLines(lines + [""], prefix)) == Unlines(IndentedLines(lines, prefix)) + "\n"
  {
    var indented := IndentedLines(lines, prefix);
    assert IndentedLines(lines + [""], prefix) == indented + [""];
    assert (indented + [""])[..|indented|] == indented;
    UnlinesAtLast(indented + [""]);
  }

  lemma LineGrows(lines: seq<string>, c: char, prefix: string)
    requires lines != []
    ensures var last := |lines| - 1;
            Unlines(IndentedLines(lines[..last] + [lines[last] + [c]], prefix)) ==
            Unlines(IndentedLines(lines, prefix)) + (if lines[last] == "" then prefix else "") + [c]
  {
    var last := |lines| - 1;
    var indented := IndentedLines(lines, prefix);
    var space := if lines[last] == "" then prefix else "";
    var more := space + [c];
    assert IndentedLine(lines[last] + [c], prefix) == indented[last] + more;
    assert IndentedLines(lines[..last] + [lines[last] + [c]], prefix) == indented[..last] + [indented[last] + more];
    LastLineGrows(indented, more);
    Associate(Unlines(indented), space, [c]);
  }

  lemma EmptyLastLine(s: string)
    ensures var lines := Lines(s); lines[|lines| - 1] == "" <==> s == "" || s[|s| - 1] == '\n'
  {
  }

  lemma {:induction false} LinesAfterNewline(s: string, line: string)
    requires '\n' !in line
    ensures Lines(s + "\n" + line) == Lines(s) + [line]
  {
    if line == "" {
      assert s + "\n" + line == s + ['\n'];
      LinesStep(s, '\n');
    } else {
      var last := |line| - 1;
      LinesAfterNewline(s, line[..last]);
      assert line == line[..last] + [line[last]];
      Associate(s + "\n", line[..last], [line[last]]);
      LinesStep(s + "\n" + line[..last], line[last]);
    }
  }

  lemma {:induction false} OneLine(line: string)
    requires '\n' !in line
    ensures Lines(line) == [line]
  {
    if line != "" {
      var last := |line| - 1;
      OneLine(line[..last]);
      assert line == line[..last] + [line[last]];
    }
  }

  lemma {:induction false} LinesInvertsUnlines(lines: seq<string>)
    requires lines != [] && forall i :: 0 <= i < |lines| ==> '\n' !in lines[i]
    ensures Lines(Unlines(lines)) == lines
  {
    var last := |lines| - 1;
    assert lines == lines[..last] + [lines[last]];
    if last == 0 {
      assert Unlines(lines) == lines[0];
      OneLine(lines[0]);
    } else {
      LinesInvertsUnlines(lines[..last]);
      LinesAfterNewline(Unlines(lines[..last]), lines[last]);
    }
  }

  /** Indenting neither joins nor splits lines: line by line, the prefix goes before whatever is not empty. */
  lemma IndentedLineByLine(s: string, prefix: string)
    requires '\n' !in prefix
    ensures |Lines(Indented(s, prefix))| == |Lines(s)|
    ensures forall k :: 0 <= k < |Lines(s)| ==>
                          Lines(Indented(s, prefix))[k] == if Lines(s)[k] == "" then "" else prefix + Lines(s)[k]
  {
    LinesInvertsUnlines(IndentedLines(Lines(s), prefix));
  }

  method IndentString(s: string, p: string) returns (res: string)
    ensures res == Indented(s, p)
  {
    res := "";
    var bol := true;
    for i := 0 to |s|
      invariant res == Indented(s[..i], p)
      invariant bol == (i == 0 || s[i - 1] == '\n')
    {
      var c := s[i];
      IndentStep(s[..i], c, p);
      assert s[..i + 1] == s[..i] + [c];
      if bol && c != '\n' {
        res := res + p;
      }
      res := res + [c];
      bol := c == '\n';
    }
    assert s[..|s|] == s;
  }
}
