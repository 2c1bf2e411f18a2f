/**
 Where the launcher looks for its memory ceiling
 (cmd/openvox-ca/launcher_memlimit.go): the path named by /proc/self/cgroup joined
 onto the mount root, if it stays beneath it, and then the mount root itself.
 */
module CgroupPaths {
  import opened Options
  import opened Strings
  import opened Paths

  // ----- Containment

  function WithinRoot(root: string, path: string): (r: bool) {
    HasPrefix(Clean(path), Clean(root) + "/")
  }

  lemma {:induction false} HeadsAgree(x: string, u: string, y: string, v: string)
    requires '/' !in x && '/' !in y
    ensures x + "/" + u <= y + "/" + v <==> x == y && u <= v
    ensures !(x + "/" + u <= y)
  {
    if x + "/" + u <= y + "/" + v {
      BeforeSlash(x, u);
      var w := (y + "/" + v)[|x + "/" + u|..];
      assert y + "/" + v == x + "/" + (u + w);
      BeforeSlash(x, u + w);
      BeforeSlash(y, v);
      assert (y + "/" + v)[|y| + 1..] == v && (x + "/" + (u + w))[|x| + 1..] == u + w;
    }
    if |x| < |y| {
      assert (x + "/" + u)[|x|] == '/' && y[|x|] in y;
    }
  }

  lemma PrefixOfCons(a: seq<string>, b: seq<string>)
    requires a != [] && b != []
    ensures a < b <==> a[0] == b[0] && a[1..] < b[1..]
  {
    if a[0] == b[0] && a[1..] < b[1..] {
      assert a == [a[0]] + a[1..] && b == [b[0]] + b[1..];
    }
  }

  /** A string prefix ending in a slash is a proper prefix element by element. */
  lemma {:induction false} PrefixIsElementwise(a: seq<string>, b: seq<string>)
    requires AllElements(a) && AllElements(b) && a != []
    ensures Slashed(a) + "/" <= Slashed(b) <==> a < b
    decreases |a|
  {
    if b == [] {
      return;
    }
    var u := if |a| == 1 then "" else Slashed(a[1..]) + "/";
    var v := if |b| == 1 then "" else Slashed(b[1..]);
    assert Slashed(a) + "/" == a[0] + "/" + u;
    HeadsAgree(a[0], u, b[0], v);
    PrefixOfCons(a, b);
    if |a| == 1 || |b| == 1 {
    } else {
      PrefixIsElementwise(a[1..], b[1..]);
    }
  }

  /**
   The string test agrees with containment element by element, for every pair of
   absolute paths, ".." included. The one root it never accepts anything under is
   the filesystem root, whose cleaned form already ends in the separator.
   */
  lemma WithinRootIff(root: string, path: string)
    requires Rooted(root) && Rooted(path)
    ensures WithinRoot(root, path) <==> Elements(root) != [] && Elements(root) < Elements(path)
  {
    var a, b := Elements(root), Elements(path);
    ElementsRooted(root);
    ElementsRooted(path);
    if a == [] {
      assert (Clean(root) + "/")[1] == '/';
      if b != [] {
        assert Element(b[0]) && b[0][0] in b[0] && Clean(path)[1] == b[0][0];
      }
    } else {
      PrefixIsElementwise(a, b);
      assert Clean(root) + "/" == "/" + (Slashed(a) + "/");
      assert "/" + (Slashed(a) + "/") <= "/" + Slashed(b) <==> Slashed(a) + "/" <= Slashed(b) by {
        SameHead(Slashed(a) + "/", Slashed(b));
      }
    }
  }

  // ----- Relative roots

  /** Any ".." elements come before all others. */
  ghost predicate DotsFirst(parts: seq<string>) {
    forall i, j :: 0 <= i < j < |parts| && parts[j] == ".." ==> parts[i] == ".."
  }

  /** What can be left of a relative path. */
  ghost predicate CleanRelative(parts: seq<string>) { AllElements(parts) && "." !in parts && DotsFirst(parts) }

  lemma CleanExtended(parts: seq<string>, last: string)
    requires CleanRelative(parts) && Element(last) && last != "."
    requires last == ".." && parts != [] ==> parts[|parts| - 1] == ".."
    ensures CleanRelative(parts + [last])
  {
    var r := parts + [last];
    forall i, j | 0 <= i < j < |r| && r[j] == ".." ensures r[i] == ".." {
      if j == |parts| && i < |parts| - 1 {
        assert parts[|parts| - 1] == "..";
      }
    }
  }

  lemma {:induction false} ReducedRelative(parts: seq<string>)
    requires forall i :: 0 <= i < |parts| ==> '/' !in parts[i]
    ensures CleanRelative(Reduce(parts, false))
  {
    if parts == [] {
    } else {
      var acc, last := Reduce(parts[..|parts| - 1], false), parts[|parts| - 1];
      ReducedRelative(parts[..|parts| - 1]);
      if last == "" || last == "." {
      } else if last != ".." || acc == [] || acc[|acc| - 1] == ".." {
        CleanExtended(acc, last);
      } else {
        assert CleanRelative(acc[..|acc| - 1]);
      }
    }
  }

  lemma ElementsRelative(path: string)
    requires !Rooted(path)
    ensures AllElements(Elements(path)) && "." !in Elements(path) && DotsFirst(Elements(path))
  {
    forall i | 0 <= i < |Split(path, '/')| ensures '/' !in Split(path, '/')[i] {
      assert Split(path, '/')[i] in Split(path, '/');
    }
    ReducedRelative(Split(path, '/'));
  }

  /** A cleaned path tells by its first character what it starts from. */
  lemma CleanStarts(path: string)
    ensures Rooted(Clean(path)) <==> Rooted(path)
    ensures !Rooted(path) ==> !HasPrefix(Clean(path), "./")
  {
    if !Rooted(path) && Elements(path) != [] {
      var parts := Elements(path);
      ElementsRelative(path);
      assert Element(parts[0]) && parts[0] in parts && parts[0] != ".";
      assert Clean(path)[0] == parts[0][0] && parts[0][0] in parts[0];
      if |parts[0]| > 1 {
        assert Clean(path)[1] == parts[0][1] && parts[0][1] in parts[0];
      } else {
        assert parts[0] == [parts[0][0]];
      }
    }
  }

  /** On relative paths, too, the string test compares element by element. */
  lemma WithinRelativeRoot(root: string, path: string)
    requires !Rooted(root)
    ensures WithinRoot(root, path) <==> Elements(root) != [] && !Rooted(path) && Elements(root) < Elements(path)
  {
    var a, b := Elements(root), Elements(path);
    ElementsRelative(root);
    CleanStarts(root);
    CleanStarts(path);
    if a == [] {
      assert Clean(root) + "/" == "./";
      if Rooted(path) {
        assert Clean(path)[0] == '/';
      }
    } else if Rooted(path) {
      assert (Clean(root) + "/")[0] == Clean(root)[0] != '/';
    } else {
      ElementsRelative(path);
      if b == [] {
        assert |Clean(path)| == 1 && |Clean(root) + "/"| >= 2;
      } else {
        PrefixIsElementwise(a, b);
      }
    }
  }

  /** The path starts where the root does, passes through it, and never climbs after it. */
  ghost predicate Beneath(root: string, path: string) {
    && Rooted(path) == Rooted(root) && Elements(root) < Elements(path)
    && ".." !in Elements(path)[|Elements(root)|..]
  }

  /** The root is absolute, or is the current directory, or its last element is not "..". */
  predicate EndsBelow(root: string) {
    Rooted(root) || Elements(root) == [] || Elements(root)[|Elements(root)| - 1] != ".."
  }

  lemma AcceptedIsBeneath(root: string, path: string)
    requires EndsBelow(root) && WithinRoot(root, path)
    ensures Beneath(root, path)
  {
    if Rooted(root) {
      CleanStarts(path);
      assert Clean(path)[0] == (Clean(root) + "/")[0];
      WithinRootIff(root, path);
      ElementsRooted(path);
    } else {
      WithinRelativeRoot(root, path);
      ElementsRelative(path);
      var a, b := Elements(root), Elements(path);
      assert b[|a| - 1] == a[|a| - 1] != "..";
    }
  }

  ghost predicate AllDots(parts: seq<string>) { forall i :: 0 <= i < |parts| ==> parts[i] == ".." }

  lemma {:induction false} ReduceDots(parts: seq<string>)
    requires AllDots(parts)
    ensures Reduce(parts, false) == parts
  {
    if parts == [] {
    } else {
      ReduceDots(parts[..|parts| - 1]);
      assert parts == parts[..|parts| - 1] + [".."];
    }
  }

  /** A relative root that ends in ".." accepts its own parent directory. */
  lemma ClimbingRootEscapes(root: string) returns (path: string)
    requires !EndsBelow(root)
    ensures WithinRoot(root, path) && !Beneath(root, path)
  {
    ElementsRelative(root);
    var up := Elements(root) + [".."];
    assert AllDots(up);
    path := Slashed(up);
    SplitSlashed(up);
    ReduceDots(up);
    assert path[0] == up[0][0] == '.';
    assert Elements(path) == up && up[|Elements(root)|..] == [".."];
    WithinRelativeRoot(root, path);
  }

  /**
   Exactly when the test can be relied on, over every root a caller could pass:
   whatever it accepts lies beneath the root if and only if the root is absolute,
   is the current directory, or does not end in "..".
   */
  lemma WithinRootSoundIff(root: string)
    ensures (forall path :: WithinRoot(root, path) ==> Beneath(root, path)) <==> EndsBelow(root)
  {
    if EndsBelow(root) {
      forall path | WithinRoot(root, path) ensures Beneath(root, path) {
        AcceptedIsBeneath(root, path);
      }
    } else {
      var path := ClimbingRootEscapes(root);
    }
  }

  lemma SameHead(u: string, v: string)
    ensures "/" + u <= "/" + v <==> u <= v
  {
    assert ("/" + u)[1..] == u && ("/" + v)[1..] == v;
    if u <= v {
      assert v == u + v[|u|..];
    }
    if "/" + u <= "/" + v {
      assert ("/" + v)[..|u| + 1][1..] == v[..|u|];
    }
  }

  // ----- /proc/self/cgroup

  /** The path of the first line with an empty controller list; "" where it is the root or there is none. */
  function SelfCgroupOf(lines: seq<string>): (r: string) {
    if lines == [] then ""
    else
      var line := TrimSpace(lines[0]);
      if !HasPrefix(line, "0::") then SelfCgroupOf(lines[1..])
      else if line[3..] == "/" then ""
      else line[3..]
  }

  /** The i-th line is the first that starts "0::" once trimmed. */
  ghost predicate FirstUnified(lines: seq<string>, i: nat) {
    && i < |lines| && HasPrefix(TrimSpace(lines[i]), "0::")
    && forall j :: 0 <= j < i ==> !HasPrefix(TrimSpace(lines[j]), "0::")
  }

  /** What the file says: what follows "0::" on the first such line, the root and no such line counting as nothing. */
  ghost predicate IsSelfCgroup(lines: seq<string>, r: string) {
    && (forall i: nat :: FirstUnified(lines, i) ==>
          var line := TrimSpace(lines[i]); r == if line == "0::/" then "" else line[3..])
    && ((forall i :: 0 <= i < |lines| ==> !HasPrefix(TrimSpace(lines[i]), "0::")) ==> r == "")
  }

  lemma {:induction false} SelfCgroupIs(lines: seq<string>)
    ensures IsSelfCgroup(lines, SelfCgroupOf(lines))
  {
    if lines == [] {
    } else {
      var line := TrimSpace(lines[0]);
      if HasPrefix(line, "0::") {
        assert FirstUnified(lines, 0);
        assert line == "0::" + line[3..];
      } else {
        SelfCgroupIs(lines[1..]);
        forall i: nat | FirstUnified(lines, i) ensures FirstUnified(lines[1..], i - 1) {
          forall j | 0 <= j < i - 1 ensures !HasPrefix(TrimSpace(lines[1..][j]), "0::") {
            assert lines[1..][j] == lines[j + 1];
          }
        }
      }
    }
  }

  method ParseSelfCgroup(content: string) returns (r: string)
    ensures r == SelfCgroupOf(Split(content, '\n'))
    ensures r != "/"
    ensures IsSelfCgroup(Split(content, '\n'), r)
  {
    var lines := Split(content, '\n');
    SelfCgroupIs(lines);
    for i := 0 to |lines|
      invariant SelfCgroupOf(lines) == SelfCgroupOf(lines[i..])
      invariant forall j :: 0 <= j < i ==> !HasPrefix(TrimSpace(lines[j]), "0::")
    {
      assert lines[i..][1..] == lines[i + 1..];
      var line := TrimSpace(lines[i]);
      if !HasPrefix(line, "0::") {
        continue;
      }
      var rest := line[3..];
      return if rest == "" || rest == "/" then "" else rest;
    }
    r := "";
  }

  const MEMORY_MAX := "memory.max"

  /** This process's cgroup below the mount root; `self` is the self-cgroup file if it could be read. */
  function SelfCgroup(self: Option<string>): (r: string) {
    if self.None? then "" else SelfCgroupOf(Split(self.value, '\n'))
  }

  /** The candidate files, most specific first. */
  function Candidates(mountRoot: string, self: Option<string>): (r: seq<string>)
    ensures r != [] && r[|r| - 1] == Join([mountRoot, MEMORY_MAX])
  {
    var rel := SelfCgroup(self);
    var p := Join([mountRoot, rel, MEMORY_MAX]);
    (if rel != "" && WithinRoot(mountRoot, p) then [p] else []) + [Join([mountRoot, MEMORY_MAX])]
  }

  method CgroupMemoryMaxCandidates(mountRoot: string, self: Option<string>) returns (r: seq<string>)
    ensures r == Candidates(mountRoot, self)
  {
    r := [];
    if self.Some? {
      var rel := ParseSelfCgroup(self.value);
      if rel != "" {
        var p := Join([mountRoot, rel, MEMORY_MAX]);
        if WithinRoot(mountRoot, p) {
          r := r + [p];
        }
      }
    }
    r := r + [Join([mountRoot, MEMORY_MAX])];
  }

  /**
   For every content of the self-cgroup file and every absolute mount root but
   "/", each candidate lies strictly beneath the root, and the more specific one
   is left out only where the file names no cgroup or one with a ".." in it.
   */
  lemma CandidatesStayBeneath(mountRoot: string, self: Option<string>)
    requires Rooted(mountRoot) && Elements(mountRoot) != []
    ensures forall p :: p in Candidates(mountRoot, self) ==> Rooted(p) && Elements(mountRoot) < Elements(p)
    ensures |Candidates(mountRoot, self)| == 1 ==> SelfCgroup(self) == "" || ".." in Split(SelfCgroup(self), '/')
    ensures var all := Candidates(mountRoot, self);
            && 1 <= |all| <= 2 && Elements(all[|all| - 1]) == Elements(mountRoot) + ["memory.max"]
            && (SelfCgroup(self) == "" ==> |all| == 1)
            && (|all| == 2 && ".." !in Split(SelfCgroup(self), '/') ==>
                  Elements(all[0]) == Elements(mountRoot) + Reduce(Split(SelfCgroup(self), '/'), true) + ["memory.max"])
  {
    MountRootBeneath(mountRoot);
    var rel := SelfCgroup(self);
    if rel != "" {
      JoinedRooted(mountRoot, rel);
      WithinRootIff(mountRoot, Join([mountRoot, rel, MEMORY_MAX]));
    }
  }

  lemma MemoryMaxElements()
    ensures Split(MEMORY_MAX, '/') == [MEMORY_MAX] && Element(MEMORY_MAX)
    ensures Reduce([MEMORY_MAX], true) == [MEMORY_MAX]
  {
    SplitHead(MEMORY_MAX, "");
    ReduceFixed([MEMORY_MAX]);
  }

  lemma MountRootBeneath(root: string)
    requires Rooted(root)
    ensures var p := Join([root, MEMORY_MAX]); Rooted(p) && Elements(p) == Elements(root) + [MEMORY_MAX]
  {
    var joined := root + "/" + MEMORY_MAX;
    assert [root, MEMORY_MAX][1..] == [MEMORY_MAX] && [MEMORY_MAX][1..] == [];
    assert NonEmpty([MEMORY_MAX]) == [MEMORY_MAX];
    assert NonEmpty([root, MEMORY_MAX]) == [root, MEMORY_MAX];
    assert Slashed([root, MEMORY_MAX]) == joined;
    MemoryMaxElements();
    SplitJoined(root, MEMORY_MAX);
    ReduceAppend(Split(root, '/'), [MEMORY_MAX]);
    assert Rooted(joined);
    CleanKeepsElements(joined);
  }

  /** A relative part without ".." lands beneath the root with all its elements. */
  lemma JoinedRooted(root: string, rel: string)
    requires Rooted(root) && rel != ""
    ensures var p := Join([root, rel, MEMORY_MAX]);
            && Rooted(p)
            && (".." !in Split(rel, '/') ==>
                  Elements(p) == Elements(root) + Reduce(Split(rel, '/'), true) + [MEMORY_MAX])
  {
    var rest := rel + "/" + MEMORY_MAX;
    var joined := root + "/" + rest;
    JoinOfThree(root, rel);
    assert Rooted(joined);
    CleanKeepsElements(joined);
    if ".." !in Split(rel, '/') {
      MemoryMaxElements();
      var r, m := Split(root, '/'), Split(rel, '/') + [MEMORY_MAX];
      calc {
        Elements(joined);
        { SplitJoined(root, rest); SplitJoined(rel, MEMORY_MAX); }
        Reduce(r + m, true);
        { ReduceAppend(r, m); }
        Elements(root) + Reduce(m, true);
        { ReduceAppend(Split(rel, '/'), [MEMORY_MAX]); }
        Elements(root) + (Reduce(Split(rel, '/'), true) + [MEMORY_MAX]);
        Elements(root) + Reduce(Split(rel, '/'), true) + [MEMORY_MAX];
      }
    }
  }

  lemma JoinOfThree(root: string, rel: string)
    requires root != "" && rel != ""
    ensures Join([root, rel, MEMORY_MAX]) == Clean(root + "/" + (rel + "/" + MEMORY_MAX))
  {
    var parts := [root, rel, MEMORY_MAX];
    assert parts[1..] == [rel, MEMORY_MAX] && [rel, MEMORY_MAX][1..] == [MEMORY_MAX] && [MEMORY_MAX][1..] == [];
    assert NonEmpty([MEMORY_MAX]) == [MEMORY_MAX] && NonEmpty([rel, MEMORY_MAX]) == [rel, MEMORY_MAX];
    assert NonEmpty(parts) == parts;
    assert Slashed([rel, MEMORY_MAX]) == rel + "/" + MEMORY_MAX;
  }
}
