/**
 The pairing of Helm matrix entries with Renovate annotations (magefile.go): an
 annotation vouches only for the entry on its line, every entry needs one that
 reads the same version, and no annotation may be left over. The YAML matrix and
 the regular-expression matches arrive already read.
 */
module HelmAnnotations {
  import opened Options

  datatype MatrixEntry = MatrixEntry(version: string, line: nat)

  /** One match of the annotation expression; a group that took no part is None. */
  datatype Match = Match(datasource: Option<string>, packageName: Option<string>, value: Option<string>, line: nat)

  datatype Verdict = Passes | Unannotated(entry: MatrixEntry) | Mismatched(entry: MatrixEntry, got: string)
                   | Stray(line: nat)

  const HELM_DATASOURCE := "github-releases"
  const HELM_PACKAGE := "helm/helm"

  predicate Accepted(m: Match) {
    m.datasource == Some(HELM_DATASOURCE) && m.packageName == Some(HELM_PACKAGE) && m.value.Some?
  }

  /** The line-to-version map of the accepted annotations; a later match on a line replaces an earlier one. */
  function Annotated(matches: seq<Match>): (r: map<nat, string>) {
    if matches == [] then map[]
    else
      var before, last := Annotated(matches[..|matches| - 1]), matches[|matches| - 1];
      if Accepted(last) then before[last.line := last.value.value] else before
  }

  method CollectAnnotations(matches: seq<Match>) returns (annotated: map<nat, string>)
    ensures annotated == Annotated(matches)
  {
    annotated := map[];
    for i := 0 to |matches|
      invariant annotated == Annotated(matches[..i])
    {
      assert matches[..i + 1][..i] == matches[..i];
      var m := matches[i];
      if m.datasource != Some(HELM_DATASOURCE) {
        continue;
      }
      if m.packageName != Some(HELM_PACKAGE) {
        continue;
      }
      if m.value.None? {
        continue;
      }
      annotated := annotated[m.line := m.value.value];
    }
    assert matches[..|matches|] == matches;
  }

  /** The i-th match names the Helm release source, sits on this line and is not followed by another that does. */
  ghost predicate LastOnLine(matches: seq<Match>, line: nat, i: nat) {
    i < |matches| && NamesHelm(matches[i], line) && forall j :: i < j < |matches| ==> !NamesHelm(matches[j], line)
  }

  ghost predicate NamesHelm(m: Match, line: nat) {
    m.datasource == Some("github-releases") && m.packageName == Some("helm/helm") && m.value.Some? && m.line == line
  }

  /** What the collected map holds for a line: the value of its last complete Helm match, and nothing where there is none. */
  lemma {:induction false} AnnotatedIs(matches: seq<Match>, line: nat)
    ensures line in Annotated(matches) <==> exists i :: 0 <= i < |matches| && NamesHelm(matches[i], line)
    ensures line in Annotated(matches) ==>
              exists i: nat :: LastOnLine(matches, line, i) && matches[i].value == Some(Annotated(matches)[line])
  {
    if matches == [] {
    } else {
      var n := |matches| - 1;
      var rest, last := matches[..n], matches[n];
      AnnotatedIs(rest, line);
      assert matches == rest + [last];
      if NamesHelm(last, line) {
        assert LastOnLine(matches, line, n) && matches[n].value == Some(Annotated(matches)[line]);
      } else if line in Annotated(rest) {
        var i: nat :| LastOnLine(rest, line, i) && rest[i].value == Some(Annotated(rest)[line]);
        assert LastOnLine(matches, line, i) && matches[i].value == Some(Annotated(matches)[line]);
      } else {
        forall i | 0 <= i < |matches| ensures !NamesHelm(matches[i], line) {
          if i < n {
            assert rest[i] == matches[i];
          }
        }
      }
    }
  }

  ghost predicate DistinctLines(entries: seq<MatrixEntry>) {
    forall i, j :: 0 <= i < j < |entries| ==> entries[i].line != entries[j].line
  }

  function Lines(entries: seq<MatrixEntry>): (r: set<nat>) { set i | 0 <= i < |entries| :: entries[i].line }

  ghost predicate Agrees(entries: seq<MatrixEntry>, annotated: map<nat, string>) {
    forall i :: 0 <= i < |entries| ==> entries[i].line in annotated && annotated[entries[i].line] == entries[i].version
  }

  /** The annotations are a bijection with the entries: same lines, same versions, nothing over. */
  ghost predicate Matches(entries: seq<MatrixEntry>, annotated: map<nat, string>) {
    DistinctLines(entries) && Agrees(entries, annotated) && annotated.Keys == Lines(entries)
  }

  lemma OneMoreLine(entries: seq<MatrixEntry>, i: nat)
    requires i < |entries|
    ensures Lines(entries[..i + 1]) == Lines(entries[..i]) + {entries[i].line}
    ensures Lines(entries[..i + 1]) <= Lines(entries)
    ensures entries[i].line in Lines(entries[..i]) ==> !DistinctLines(entries)
    ensures DistinctLines(entries[..i]) && entries[i].line !in Lines(entries[..i]) ==> DistinctLines(entries[..i + 1])
  {
    var shorter, longer := entries[..i], entries[..i + 1];
    forall line ensures line in Lines(longer) <==> line in Lines(shorter) + {entries[i].line} {
      if line in Lines(shorter) {
        var j :| 0 <= j < i && shorter[j].line == line;
        assert longer[j].line == line;
      }
      assert longer[i] == entries[i];
    }
    forall line | line in Lines(longer) ensures line in Lines(entries) {
      var j :| 0 <= j < |longer| && longer[j].line == line;
      assert entries[j].line == line;
    }
    if entries[i].line in Lines(shorter) {
      var j :| 0 <= j < i && shorter[j].line == entries[i].line;
      assert entries[j].line == entries[i].line;
    }
  }

  /** The matching loop, which deletes each annotation it has used. */
  method MatchEntries(entries: seq<MatrixEntry>, all: map<nat, string>) returns (v: Verdict, rest: map<nat, string>)
    ensures !v.Passes? ==> !Matches(entries, all)
    ensures v.Unannotated? ==> v.entry in entries && (v.entry.line !in all || !DistinctLines(entries))
    ensures v.Mismatched? ==> v.entry in entries && v.entry.line in all && all[v.entry.line] == v.got != v.entry.version
    ensures !v.Stray?
    ensures v.Passes? ==> DistinctLines(entries) && Agrees(entries, all) && rest == all - Lines(entries)
  {
    rest := all;
    assert Lines(entries[..0]) == {};
    for i := 0 to |entries|
      invariant DistinctLines(entries[..i]) && Agrees(entries[..i], all)
      invariant rest == all - Lines(entries[..i])
    {
      var e := entries[i];
      OneMoreLine(entries, i);
      if e.line !in rest {
        assert !Matches(entries, all);
        return Unannotated(e), rest;
      }
      if rest[e.line] != e.version {
        assert !Agrees(entries, all);
        return Mismatched(e, rest[e.line]), rest;
      }
      assert Agrees(entries[..i + 1], all);
      rest := rest - {e.line};
    }
    assert entries[..|entries|] == entries;
    v := Passes;
  }

  /**
   The check passes exactly when entries sit on distinct lines and the accepted
   annotations map each of those lines, and no other, to the entry's version. A
   failure names its culprit; of several stray annotations, the lowest.
   */
  method VerifyHelmAnnotations(entries: seq<MatrixEntry>, matches: seq<Match>) returns (v: Verdict)
    ensures v.Passes? <==> Matches(entries, Annotated(matches))
    ensures v.Mismatched? ==> v.entry in entries && v.entry.line in Annotated(matches) &&
                              Annotated(matches)[v.entry.line] == v.got != v.entry.version
    ensures v.Unannotated? ==> v.entry in entries && (v.entry.line !in Annotated(matches) || !DistinctLines(entries))
    ensures v.Stray? ==> v.line in Annotated(matches).Keys - Lines(entries) &&
                         forall line :: line in Annotated(matches).Keys - Lines(entries) ==> v.line <= line
  {
    var annotated := CollectAnnotations(matches);
    var rest;
    v, rest := MatchEntries(entries, annotated);
    if !v.Passes? {
      return;
    }
    assert rest.Keys == annotated.Keys - Lines(entries);
    if rest.Keys != {} {
      var line := Lowest(rest.Keys);
      return Stray(line);
    }
    forall line | line in annotated.Keys ensures line in Lines(entries) {
      assert line !in rest.Keys;
    }
  }

  method Lowest(lines: set<nat>) returns (r: nat)
    requires lines != {}
    ensures r in lines && forall n :: n in lines ==> r <= n
  {
    r :| r in lines;
    var rest := lines - {r};
    while rest != {}
      invariant r in lines && rest <= lines
      invariant forall n :: n in lines ==> n in rest || r <= n
      decreases rest
    {
      var n :| n in rest;
      rest := rest - {n};
      if n < r {
        r := n;
      }
    }
  }

  function VersionsByLine(entries: seq<MatrixEntry>): (r: map<nat, string>) {
    if entries == [] then map[]
    else
      var last := entries[|entries| - 1];
      VersionsByLine(entries[..|entries| - 1])[last.line := last.version]
  }

  lemma {:induction false} VersionsByLineMatches(entries: seq<MatrixEntry>)
    requires DistinctLines(entries)
    ensures Matches(entries, VersionsByLine(entries))
  {
    if entries != [] {
      var i := |entries| - 1;
      VersionsByLineMatches(entries[..i]);
      OneMoreLine(entries, i);
      assert entries[..i + 1] == entries;
      forall j | 0 <= j < |entries|
        ensures entries[j].line in VersionsByLine(entries) && VersionsByLine(entries)[entries[j].line] == entries[j].version
      {
        if j < i {
          assert entries[..i][j] == entries[j] && entries[j].line != entries[i].line;
        }
      }
    } else {
      assert Lines(entries) == {};
    }
  }

  /** Passing is equality of the two line-to-version maps, not only agreement on the entries. */
  lemma MatchesIsMapEquality(entries: seq<MatrixEntry>, annotated: map<nat, string>)
    requires DistinctLines(entries)
    ensures Matches(entries, annotated) <==> annotated == VersionsByLine(entries)
  {
    VersionsByLineMatches(entries);
    var byLine := VersionsByLine(entries);
    if Matches(entries, annotated) {
      forall line | line in annotated ensures annotated[line] == byLine[line] {
        var i :| 0 <= i < |entries| && entries[i].line == line;
      }
    }
  }
}
