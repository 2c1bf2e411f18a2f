/**
 Cleaning and joining of paths, as Go's filepath.Clean and filepath.Join do it on
 a slash-separated system.
 */
module Paths {
  import opened Strings

  // ----- filepath.Clean and filepath.Join

  predicate Rooted(path: string) { path != "" && path[0] == '/' }

  /** Drop empty and "." elements and resolve ".." against what precedes it. */
  function Reduce(parts: seq<string>, rooted: bool): (r: seq<string>) {
    if parts == [] then []
    else
      var acc, last := Reduce(parts[..|parts| - 1], rooted), parts[|parts| - 1];
      if last == "" || last == "." then acc
      else if last != ".." then acc + [last]
      else if acc != [] && acc[|acc| - 1] != ".." then acc[..|acc| - 1]
      else if rooted then acc
      else acc + [last]
  }

  /** The path's elements after cleaning. */
  function Elements(path: string): (r: seq<string>) { Reduce(Split(path, '/'), Rooted(path)) }

  function Slashed(parts: seq<string>): (r: string) {
    if parts == [] then "" else if |parts| == 1 then parts[0] else parts[0] + "/" + Slashed(parts[1..])
  }

  function Clean(path: string): (r: string) {
    if Rooted(path) then "/" + Slashed(Elements(path))
    else if Elements(path) == [] then "."
    else Slashed(Elements(path))
  }

  /** Join with slashes, skipping empty arguments, and clean. */
  function Join(parts: seq<string>): (r: string) {
    var kept := NonEmpty(parts);
    if kept == [] then "" else Clean(Slashed(kept))
  }

  function NonEmpty(parts: seq<string>): (r: seq<string>) {
    if parts == [] then [] else (if parts[0] == "" then [] else [parts[0]]) + NonEmpty(parts[1..])
  }

  // ----- Splitting undoes joining

  /** A path element: not empty and without a slash. */
  predicate Element(p: string) { p != "" && '/' !in p }

  predicate AllElements(parts: seq<string>) { forall i :: 0 <= i < |parts| ==> Element(parts[i]) }

  lemma {:induction false} BeforeSlash(x: string, rest: string)
    requires '/' !in x
    ensures Before(x, '/') == x && Before(x + "/" + rest, '/') == x
  {
    if x != "" {
      BeforeSlash(x[1..], rest);
      assert (x + "/" + rest)[1..] == x[1..] + "/" + rest;
    } else {
      assert x + "/" + rest == "/" + rest;
    }
  }

  lemma {:induction false} SplitHead(x: string, rest: string)
    requires '/' !in x
    ensures Split(x, '/') == [x]
    ensures Split(x + "/" + rest, '/') == [x] + Split(rest, '/')
  {
    BeforeSlash(x, rest);
    assert (x + "/" + rest)[|x| + 1..] == rest;
  }

  lemma {:induction false} SplitJoined(a: string, b: string)
    ensures Split(a + "/" + b, '/') == Split(a, '/') + Split(b, '/')
    decreases |a|
  {
    var head := Before(a, '/');
    if |head| == |a| {
      assert a == head;
      SplitHead(a, b);
    } else {
      var rest := a[|head| + 1..];
      var tail := rest + "/" + b;
      assert a == head + "/" + rest;
      calc {
        Split(a + "/" + b, '/');
        { assert a + "/" + b == head + "/" + tail; }
        Split(head + "/" + tail, '/');
        { SplitHead(head, tail); }
        [head] + Split(tail, '/');
        { SplitJoined(rest, b); }
        [head] + (Split(rest, '/') + Split(b, '/'));
        ([head] + Split(rest, '/')) + Split(b, '/');
        { SplitHead(head, rest); }
        Split(a, '/') + Split(b, '/');
      }
    }
  }

  lemma {:induction false} SplitSlashed(parts: seq<string>)
    requires parts != [] && AllElements(parts)
    ensures Split(Slashed(parts), '/') == parts
  {
    if |parts| == 1 {
      SplitHead(parts[0], "");
    } else {
      SplitSlashed(parts[1..]);
      SplitHead(parts[0], Slashed(parts[1..]));
    }
  }

  /** What cleaning can leave of a rooted path. */
  lemma {:induction false} ReducedRooted(parts: seq<string>)
    requires forall i :: 0 <= i < |parts| ==> '/' !in parts[i]
    ensures AllElements(Reduce(parts, true)) && "." !in Reduce(parts, true) && ".." !in Reduce(parts, true)
  {
    if parts == [] {
    } else {
      ReducedRooted(parts[..|parts| - 1]);
    }
  }

  lemma ElementsRooted(path: string)
    requires Rooted(path)
    ensures AllElements(Elements(path)) && "." !in Elements(path) && ".." !in Elements(path)
  {
    forall i | 0 <= i < |Split(path, '/')| ensures '/' !in Split(path, '/')[i] {
      assert Split(path, '/')[i] in Split(path, '/');
    }
    ReducedRooted(Split(path, '/'));
  }

  /** Elements that need no cleaning are appended as they are. */
  lemma {:induction false} ReduceAppend(a: seq<string>, b: seq<string>)
    requires ".." !in b
    ensures Reduce(a + b, true) == Reduce(a, true) + Reduce(b, true)
  {
    if b == [] {
      assert a + b == a;
    } else {
      var b' := b[..|b| - 1];
      assert (a + b)[..|a + b| - 1] == a + b';
      ReduceAppend(a, b');
    }
  }

  lemma {:induction false} ReduceFixed(parts: seq<string>)
    requires AllElements(parts) && "." !in parts && ".." !in parts
    ensures Reduce(parts, true) == parts
  {
    if parts == [] {
    } else {
      var last := parts[|parts| - 1];
      assert last in parts;
      ReduceFixed(parts[..|parts| - 1]);
    }
  }

  /** Cleaning a rooted path changes none of its elements, so cleaning twice is cleaning once. */
  lemma CleanKeepsElements(path: string)
    requires Rooted(path)
    ensures Rooted(Clean(path)) && Elements(Clean(path)) == Elements(path)
  {
    var parts := Elements(path);
    ElementsRooted(path);
    if parts == [] {
      assert Clean(path) == "/";
      SplitHead("", "");
      assert "" + "/" + "" == "/";
      assert Split("/", '/') == ["", ""];
      assert ["", ""][..1] == [""] && [""][..0] == [];
    } else {
      SplitSlashed(parts);
      SplitHead("", Slashed(parts));
      assert "" + "/" + Slashed(parts) == Clean(path);
      ReduceAppend([""], parts);
      ReduceFixed(parts);
      assert [""][..0] == [];
    }
  }
}
