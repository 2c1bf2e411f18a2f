/**
 Release archives (magefile.go): the writer packs named files of a directory in
 order, the extractor takes wanted names out again. An archive is the list of
 its entries; the gzip and tar framing is taken as lossless.
 */
module Archives {
  import opened Options

  type Bytes = seq<int>

  datatype TypeFlag = Regular | NotRegular

  datatype Entry = Entry(name: string, flag: TypeFlag, mode: nat, content: Bytes)

  /** A file on disk; permission bits only. */
  datatype File = File(perm: nat, content: Bytes)

  function Perm(mode: nat): (p: nat) { mode % 0x200 }

  /** What to pack: a name and the mode it must extract as. */
  datatype Item = Item(name: string, mode: nat)

  // ----- filepath.Base

  function TrimSlashes(s: string): (r: string)
    ensures r <= s && (r != "" ==> r[|r| - 1] != '/')
  {
    if s != "" && s[|s| - 1] == '/' then TrimSlashes(s[..|s| - 1]) else s
  }

  function AfterLastSlash(s: string): (r: string)
    ensures '/' !in r && |r| <= |s| && ('/' !in s ==> r == s)
  {
    if s == "" || s[|s| - 1] == '/' then ""
    else
      assert s == s[..|s| - 1] + [s[|s| - 1]];
      AfterLastSlash(s[..|s| - 1]) + [s[|s| - 1]]
  }

  function Base(path: string): (r: string) {
    if path == "" then "."
    else if TrimSlashes(path) == "" then "/"
    else AfterLastSlash(TrimSlashes(path))
  }

  /** The check for a plain filename. */
  predicate Plain(name: string) { name == Base(name) }

  /** A name passes exactly when it is non-empty and slash-free, or is the single slash. */
  lemma PlainIff(name: string)
    ensures Plain(name) <==> name == "/" || (name != "" && '/' !in name)
  {
    if name != "" {
      if '/' !in name {
        assert name[|name| - 1] != '/';
      } else if name == "/" {
        assert name[..0] == "";
      }
    }
  }

  /** Plain names that lead to a directory instead of a file in the destination. */
  const DIRECTORIES := {"/", ".", ".."}

  /** Whether an exclusive create of the name fails. */
  predicate Occupied(name: string, dest: map<string, File>) { name in dest || name in DIRECTORIES }

  // ----- Writing

  /** The entries of an archive of these items, if every file is there. */
  function Packed(items: seq<Item>, dir: map<string, File>): (r: seq<Entry>)
    requires forall i :: i in items ==> i.name in dir
  {
    if items == [] then []
    else
      var last := items[|items| - 1];
      Packed(items[..|items| - 1], dir) + [Entry(last.name, Regular, last.mode, dir[last.name].content)]
  }

  /** The i-th entry is the i-th item's file, regular, in the item's mode. */
  lemma {:induction false} PackedAt(items: seq<Item>, dir: map<string, File>, i: nat)
    requires (forall i :: i in items ==> i.name in dir) && i < |items|
    ensures |Packed(items, dir)| == |items| && items[i] in items
    ensures Packed(items, dir)[i] == Entry(items[i].name, Regular, items[i].mode, dir[items[i].name].content)
  {
    var n := |items| - 1;
    assert items[i] in items;
    if n == 0 {
    } else {
      PackedAt(items[..n], dir, if i < n then i else 0);
    }
  }

  method CreateTarGz(items: seq<Item>, dir: map<string, File>) returns (r: Option<seq<Entry>>)
    ensures r.Some? <==> forall i :: i in items ==> i.name in dir
    ensures r.Some? ==> r.value == Packed(items, dir)
  {
    var entries: seq<Entry> := [];
    for n := 0 to |items|
      invariant forall i :: i in items[..n] ==> i.name in dir
      invariant entries == Packed(items[..n], dir)
    {
      var item := items[n];
      if item.name !in dir {
        assert item in items;
        return None;
      }
      assert items[..n + 1][..n] == items[..n];
      entries := entries + [Entry(item.name, Regular, item.mode, dir[item.name].content)];
    }
    assert items[..|items|] == items;
    r := Some(entries);
  }

  // ----- Extracting

  /** The k-th entry has the name and none before it does. */
  ghost predicate IsFirst(entries: seq<Entry>, name: string, k: nat) {
    k < |entries| && entries[k].name == name && forall j :: 0 <= j < k ==> entries[j].name != name
  }

  /** The first entry of a name. */
  function First(entries: seq<Entry>, name: string): (r: Option<Entry>)
    ensures r.Some? ==> r.value in entries && r.value.name == name
    ensures r.None? <==> forall e :: e in entries ==> e.name != name
  {
    if entries == [] then None
    else
      var before := First(entries[..|entries| - 1], name);
      var last := entries[|entries| - 1];
      assert entries == entries[..|entries| - 1] + [last];
      if before.Some? then before else if last.name == name then Some(last) else None
  }

  lemma {:induction false} FirstIsFirst(entries: seq<Entry>, name: string) returns (k: nat)
    requires First(entries, name).Some?
    ensures IsFirst(entries, name, k) && entries[k] == First(entries, name).value
  {
    var n := |entries| - 1;
    var rest := entries[..n];
    assert entries == rest + [entries[n]];
    if First(rest, name).Some? {
      k := FirstIsFirst(rest, name);
    } else {
      k := n;
      forall j | 0 <= j < n ensures entries[j].name != name {
        assert entries[j] in rest;
      }
    }
  }

  /** An entry that may be written out. */
  predicate Acceptable(e: Entry, maxBytes: nat) { e.flag == Regular && |e.content| <= maxBytes }

  ghost predicate AllPlain(entries: seq<Entry>) { forall e :: e in entries ==> Plain(e.name) }

  function FileOf(e: Entry): (f: File) { File(Perm(e.mode), e.content) }

  /** The condition under which extraction succeeds. */
  ghost predicate Extractable(entries: seq<Entry>, dest: map<string, File>, want: seq<string>, maxBytes: nat) {
    && AllPlain(entries)
    && forall n :: n in want ==>
         First(entries, n).Some? && Acceptable(First(entries, n).value, maxBytes) && !Occupied(n, dest)
  }

  /** What extraction asks of a wanted name, on the archive and the directory themselves. */
  ghost predicate Obtainable(entries: seq<Entry>, dest: map<string, File>, name: string, maxBytes: nat) {
    && name !in dest && name != "/" && name != "." && name != ".."
    && exists k: nat :: IsFirst(entries, name, k) && entries[k].flag == Regular && |entries[k].content| <= maxBytes
  }

  lemma FirstIsUnique(entries: seq<Entry>, name: string, j: nat, k: nat)
    requires IsFirst(entries, name, j) && IsFirst(entries, name, k)
    ensures j == k
  {
  }

  lemma ObtainableIff(entries: seq<Entry>, dest: map<string, File>, name: string, maxBytes: nat)
    ensures Obtainable(entries, dest, name, maxBytes) <==>
            First(entries, name).Some? && Acceptable(First(entries, name).value, maxBytes) && !Occupied(name, dest)
  {
    if First(entries, name).Some? {
      var k := FirstIsFirst(entries, name);
      forall j: nat | IsFirst(entries, name, j) ensures j == k {
        FirstIsUnique(entries, name, j, k);
      }
    } else {
      forall k: nat | k < |entries| ensures entries[k].name != name {
        assert entries[k] in entries;
      }
    }
  }

  /** Extraction succeeds exactly when no entry's name holds a slash or is empty, "/" apart, and every wanted name is obtainable. */
  lemma ExtractableIff(entries: seq<Entry>, dest: map<string, File>, want: seq<string>, maxBytes: nat)
    ensures Extractable(entries, dest, want, maxBytes) <==>
            && (forall e :: e in entries ==> e.name == "/" || (e.name != "" && '/' !in e.name))
            && (forall n :: n in want ==> Obtainable(entries, dest, n, maxBytes))
  {
    forall e | e in entries ensures Plain(e.name) <==> e.name == "/" || (e.name != "" && '/' !in e.name) {
      PlainIff(e.name);
    }
    forall n | n in want
      ensures Obtainable(entries, dest, n, maxBytes) <==>
              First(entries, n).Some? && Acceptable(First(entries, n).value, maxBytes) && !Occupied(n, dest)
    {
      ObtainableIff(entries, dest, n, maxBytes);
    }
  }

  lemma {:induction false} FirstSnoc(entries: seq<Entry>, e: Entry, name: string)
    ensures First(entries + [e], name) ==
            if First(entries, name).Some? then First(entries, name) else if e.name == name then Some(e) else None
  {
    assert (entries + [e])[..|entries|] == entries;
  }

  lemma {:induction false} FirstIsStable(entries: seq<Entry>, k: nat, name: string)
    requires k <= |entries| && First(entries[..k], name).Some?
    ensures First(entries, name) == First(entries[..k], name)
    decreases |entries| - k
  {
    if k == |entries| {
      assert entries[..k] == entries;
    } else {
      FirstSnoc(entries[..k], entries[k], name);
      assert entries[..k] + [entries[k]] == entries[..k + 1];
      FirstIsStable(entries, k + 1, name);
    }
  }

  /** `met` records the first entry of every wanted name in the prefix. */
  ghost predicate Firsts(prefix: seq<Entry>, want: seq<string>, met: map<string, Entry>) {
    && (forall n :: n in met ==> n in want)
    && forall n :: n in want ==> First(prefix, n) == if n in met then Some(met[n]) else None
  }

  lemma {:induction false} FirstsSnoc(prefix: seq<Entry>, e: Entry, want: seq<string>, met: map<string, Entry>)
    requires Firsts(prefix, want, met)
    ensures Firsts(prefix + [e], want, if e.name in want && e.name !in met then met[e.name := e] else met)
  {
    forall n | n in want
      ensures First(prefix + [e], n) == if n in met then Some(met[n]) else if n == e.name then Some(e) else None
    {
      FirstSnoc(prefix, e, n);
    }
  }

  /** The directory holds what it held and, beside it, the entries met, none of which was refused. */
  ghost predicate WrittenOut(met: map<string, Entry>, dest: map<string, File>, after: map<string, File>, maxBytes: nat) {
    && after.Keys == dest.Keys + met.Keys
    && (forall n :: n in met ==> !Occupied(n, dest) && Acceptable(met[n], maxBytes) && after[n] == FileOf(met[n]))
    && (forall n :: n in dest ==> after[n] == dest[n])
  }

  lemma WriteOne(met: map<string, Entry>, dest: map<string, File>, after: map<string, File>, maxBytes: nat, e: Entry)
    requires WrittenOut(met, dest, after, maxBytes) && !Occupied(e.name, after) && Acceptable(e, maxBytes)
    ensures WrittenOut(met[e.name := e], dest, after[e.name := FileOf(e)], maxBytes)
  {
  }

  lemma PlainSnoc(prefix: seq<Entry>, e: Entry)
    requires AllPlain(prefix) && Plain(e.name)
    ensures AllPlain(prefix + [e])
  {
  }

  /** A wanted first entry that is not acceptable, or not new, means the archive cannot be extracted. */
  lemma {:induction false} Refusal(entries: seq<Entry>, k: nat, dest: map<string, File>, want: seq<string>,
                                   maxBytes: nat, met: map<string, Entry>)
    requires k < |entries| && Firsts(entries[..k], want, met)
    requires entries[k].name in want && entries[k].name !in met
    requires !Acceptable(entries[k], maxBytes) || Occupied(entries[k].name, dest)
    ensures !Extractable(entries, dest, want, maxBytes)
  {
    var e := entries[k];
    assert entries[..k + 1] == entries[..k] + [e];
    FirstSnoc(entries[..k], e, e.name);
    FirstIsStable(entries, k + 1, e.name);
  }

  /** io.Copy through a reader limited to maxBytes + 1. */
  function LimitedCopy(content: Bytes, maxBytes: nat): (r: Bytes)
    ensures |r| > maxBytes <==> |content| > maxBytes
    ensures |content| <= maxBytes ==> r == content
  {
    if |content| <= maxBytes + 1 then content else content[..maxBytes + 1]
  }

  /** Of a file over the bound exactly one byte more than the bound is written before it is refused. */
  lemma LimitedCopyIs(content: Bytes, maxBytes: nat)
    ensures LimitedCopy(content, maxBytes) <= content
    ensures |content| > maxBytes ==> |LimitedCopy(content, maxBytes)| == maxBytes + 1
  {
  }

  /** Create one file and copy one entry into it; a refusal may leave a new file behind, and changes no other. */
  method WriteEntry(e: Entry, files: map<string, File>, maxBytes: nat) returns (ok: bool, after: map<string, File>)
    ensures ok <==> Acceptable(e, maxBytes) && !Occupied(e.name, files)
    ensures ok <==> e.flag == Regular && |e.content| <= maxBytes && e.name !in files && e.name !in {"/", ".", ".."}
    ensures ok ==> after == files[e.name := FileOf(e)]
    ensures forall n :: n in files ==> n in after && after[n] == files[n]
    ensures after.Keys <= files.Keys + {e.name}
  {
    after := files;
    if e.flag != Regular || Occupied(e.name, files) {
      return false, after;
    }
    var copied := LimitedCopy(e.content, maxBytes);
    after := after[e.name := File(Perm(e.mode), copied)];
    ok := |copied| <= maxBytes;
  }

  /** The loop over the archive's entries. */
  method ScanEntries(entries: seq<Entry>, dest: map<string, File>, want: seq<string>, maxBytes: nat)
    returns (ok: bool, after: map<string, File>, found: set<string>, ghost met: map<string, Entry>)
    ensures !ok ==> !Extractable(entries, dest, want, maxBytes)
    ensures ok ==> AllPlain(entries) && Firsts(entries, want, met) && found == met.Keys
    ensures ok ==> WrittenOut(met, dest, after, maxBytes)
    ensures forall n :: n in dest ==> n in after && after[n] == dest[n]
  {
    ok, after, found, met := true, dest, {}, map[];
    for k := 0 to |entries|
      invariant ok && AllPlain(entries[..k])
      invariant Firsts(entries[..k], want, met) && found == met.Keys
      invariant WrittenOut(met, dest, after, maxBytes)
    {
      var e := entries[k];
      assert entries[..k + 1] == entries[..k] + [e];
      if !Plain(e.name) {
        assert e in entries;
        ok := false;
        return;
      }
      PlainSnoc(entries[..k], e);
      FirstsSnoc(entries[..k], e, want, met);
      if e.name !in want || e.name in found {
        continue;
      }
      ghost var before := after;
      ok, after := WriteEntry(e, after, maxBytes);
      if !ok {
        Refusal(entries, k, dest, want, maxBytes, met);
        return;
      }
      WriteOne(met, dest, before, maxBytes, e);
      found := found + {e.name};
      met := met[e.name := e];
    }
    assert entries[..|entries|] == entries;
  }

  method FirstMissing(want: seq<string>, found: set<string>) returns (r: Option<string>)
    ensures r.Some? ==> r.value in want && r.value !in found
    ensures r.None? ==> forall n :: n in want ==> n in found
  {
    for i := 0 to |want|
      invariant forall j :: 0 <= j < i ==> want[j] in found
    {
      if want[i] !in found {
        return Some(want[i]);
      }
    }
    r := None;
  }

  lemma NotFound(entries: seq<Entry>, dest: map<string, File>, want: seq<string>, maxBytes: nat,
                 met: map<string, Entry>, name: string)
    requires Firsts(entries, want, met) && name in want && name !in met
    ensures !Extractable(entries, dest, want, maxBytes)
  {
    assert First(entries, name).None?;
  }

  lemma AllFound(entries: seq<Entry>, dest: map<string, File>, want: seq<string>, maxBytes: nat,
                 met: map<string, Entry>, after: map<string, File>)
    requires AllPlain(entries) && Firsts(entries, want, met) && WrittenOut(met, dest, after, maxBytes)
    requires forall n :: n in want ==> n in met
    ensures Extractable(entries, dest, want, maxBytes)
    ensures after.Keys == dest.Keys + (set n | n in want)
    ensures forall n :: n in want ==> after[n] == FileOf(First(entries, n).value)
  {
    forall n | n in want
      ensures First(entries, n) == Some(met[n]) && !Occupied(n, dest) && Acceptable(met[n], maxBytes)
    {
    }
    assert met.Keys == set n | n in want;
  }

  /**
   Extraction succeeds exactly when every entry name is plain and every wanted
   name's first entry exists, is regular, is within the bound and is new in the
   destination. Then it has written, beside what was there, the full content of
   those first entries and nothing else. A failure may leave new files behind but
   changes none that was there.
   */
  method ExtractTarGz(entries: seq<Entry>, dest: map<string, File>, want: seq<string>, maxBytes: nat)
    returns (ok: bool, after: map<string, File>)
    ensures ok <==> Extractable(entries, dest, want, maxBytes)
    ensures ok ==> after.Keys == dest.Keys + (set n | n in want)
    ensures ok ==> forall n :: n in want ==> after[n] == FileOf(First(entries, n).value)
    ensures ok ==> forall n :: n in want ==>
              exists k: nat :: IsFirst(entries, n, k) && after[n] == File(entries[k].mode % 512, entries[k].content)
    ensures forall n :: n in dest ==> n in after && after[n] == dest[n]
  {
    var found: set<string>;
    ghost var met: map<string, Entry>;
    ok, after, found, met := ScanEntries(entries, dest, want, maxBytes);
    if !ok {
      return;
    }
    var missing := FirstMissing(want, found);
    if missing.Some? {
      NotFound(entries, dest, want, maxBytes, met, missing.value);
      ok := false;
      return;
    }
    AllFound(entries, dest, want, maxBytes, met, after);
    forall n | n in want
      ensures exists k: nat :: IsFirst(entries, n, k) && after[n] == File(entries[k].mode % 512, entries[k].content)
    {
      var k := FirstIsFirst(entries, n);
    }
  }

  // ----- Round trip

  lemma {:induction false} FirstPacked(items: seq<Item>, dir: map<string, File>, name: string)
    requires forall i :: i in items ==> i.name in dir
    ensures First(Packed(items, dir), name).Some? <==> exists i :: i in items && i.name == name
    ensures First(Packed(items, dir), name).Some? ==>
              var e := First(Packed(items, dir), name).value;
              e.flag == Regular && e.content == dir[name].content && Item(name, e.mode) in items
  {
    if items == [] {
    } else {
      var rest, last := items[..|items| - 1], items[|items| - 1];
      assert items == rest + [last];
      FirstPacked(rest, dir, name);
      FirstSnoc(Packed(rest, dir), Entry(last.name, Regular, last.mode, dir[last.name].content), name);
    }
  }

  lemma {:induction false} PackedNames(items: seq<Item>, dir: map<string, File>)
    requires forall i :: i in items ==> i.name in dir
    ensures forall e :: e in Packed(items, dir) ==> exists i :: i in items && i.name == e.name
  {
    if items == [] {
    } else {
      var rest, last := items[..|items| - 1], items[|items| - 1];
      assert items == rest + [last];
      PackedNames(rest, dir);
      assert last in items;
    }
  }

  /** The file an item extracts as. */
  function Unpacked(item: Item, dir: map<string, File>): (f: File)
    requires item.name in dir
  {
    File(Perm(item.mode), dir[item.name].content)
  }

  lemma PackedIsExtractable(items: seq<Item>, dir: map<string, File>, want: seq<string>, maxBytes: nat)
    requires forall i :: i in items ==> i.name in dir && Plain(i.name)
    requires forall n :: n in want ==> (exists i :: i in items && i.name == n) && n in dir && |dir[n].content| <= maxBytes
    requires dir.Keys !! DIRECTORIES
    ensures Extractable(Packed(items, dir), map[], want, maxBytes)
  {
    PackedNames(items, dir);
    forall n | n in want
      ensures First(Packed(items, dir), n).Some? && Acceptable(First(Packed(items, dir), n).value, maxBytes)
      ensures !Occupied(n, map[])
    {
      FirstPacked(items, dir, n);
      assert n in dir.Keys;
    }
  }

  /** Extracting packed plain names into an empty directory gives back the files, byte for byte, in their packed modes. */
  method RoundTrip(items: seq<Item>, dir: map<string, File>, want: seq<string>, maxBytes: nat)
    returns (ok: bool, after: map<string, File>)
    requires forall i :: i in items ==> i.name in dir && Plain(i.name)
    requires forall n :: n in want ==> (exists i :: i in items && i.name == n) && n in dir && |dir[n].content| <= maxBytes
    requires dir.Keys !! DIRECTORIES
    ensures ok && after.Keys == set n | n in want
    ensures forall n :: n in want ==> exists i :: i in items && i.name == n && after[n] == Unpacked(i, dir)
  {
    var archive := CreateTarGz(items, dir);
    var entries := archive.value;
    PackedIsExtractable(items, dir, want, maxBytes);
    ok, after := ExtractTarGz(entries, map[], want, maxBytes);
    forall n | n in want ensures exists i :: i in items && i.name == n && after[n] == Unpacked(i, dir) {
      FirstPacked(items, dir, n);
      var i := Item(n, First(entries, n).value.mode);
      assert i in items && i.name == n && after[n] == Unpacked(i, dir);
    }
  }
}
