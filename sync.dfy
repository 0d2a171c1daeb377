/** What `Generate` and `RemoveAllCustomSnipets` do to the disk, as functions of the
    disk before them. A disk maps every existing file's path to its text. */
module Sync {
  import opened Strings
  import opened TextFiles
  import opened Snippets
  import opened Extraction
  import opened Patterns

  /** The snippet files of a list of type names. */
  ghost function SnippetPaths(location: string, names: seq<string>): set<string> {
    set n | n in names :: SnippetPath(location, n)
  }

  /** The names of `previous` that are not among the current `names`, in order: the list
      the first loop of `RemoveUnneededSnippet` builds. */
  function Removed(previous: seq<string>, names: seq<string>): seq<string> {
    if previous == [] then []
    else Removed(previous[..|previous| - 1], names) + (if previous[|previous| - 1] in names then [] else [previous[|previous| - 1]])
  }

  /** A name is removed exactly when it was listed before and is listed no more. */
  lemma {:induction false} RemovedMembers(previous: seq<string>, names: seq<string>, n: string)
    ensures n in Removed(previous, names) <==> n in previous && n !in names
  {
    if previous != [] {
      var init := previous[..|previous| - 1];
      RemovedMembers(init, names, n);
      assert previous == init + [previous[|previous| - 1]];
    }
  }

  /** The disk after deleting the snippet of every name in turn. */
  function DeleteSnippets(disk: map<string, string>, location: string, names: seq<string>): map<string, string> {
    if names == [] then disk
    else DeleteSnippets(disk, location, names[..|names| - 1]) - {SnippetPath(location, names[|names| - 1])}
  }

  /** Deleting the snippets of some names removes exactly their files. */
  lemma {:induction false} DeleteSnippetsRemovesPaths(disk: map<string, string>, location: string, names: seq<string>)
    ensures DeleteSnippets(disk, location, names) == disk - SnippetPaths(location, names)
  {
    if names != [] {
      var init, last := names[..|names| - 1], names[|names| - 1];
      DeleteSnippetsRemovesPaths(disk, location, init);
      assert names == init + [last];
      assert SnippetPaths(location, names) == SnippetPaths(location, init) + {SnippetPath(location, last)};
    }
  }

  /** The disk after `CreateNewSnippet(n, n, n)` for every name in turn. */
  function WriteSnippets(disk: map<string, string>, location: string, names: seq<string>,
                         render: string -> string): map<string, string> {
    if names == [] then disk
    else WriteSnippets(disk, location, names[..|names| - 1], render)[SnippetPath(location, names[|names| - 1]) := render(names[|names| - 1])]
  }

  /** After writing, every name's snippet file holds its snippet, and every other file is
      as it was. Duplicate names write the same file twice with the same text. */
  lemma {:induction false} WriteSnippetsEffect(disk: map<string, string>, location: string, names: seq<string>,
                                                   render: string -> string)
    ensures var after := WriteSnippets(disk, location, names, render);
            (forall p :: p in after <==> p in disk || p in SnippetPaths(location, names)) &&
            (forall n :: n in names ==> after[SnippetPath(location, n)] == render(n)) &&
            (forall p :: p in disk && p !in SnippetPaths(location, names) ==> after[p] == disk[p])
  {
    if names != [] {
      var init, last := names[..|names| - 1], names[|names| - 1];
      WriteSnippetsEffect(disk, location, init, render);
      assert names == init + [last];
      assert SnippetPaths(location, names) == SnippetPaths(location, init) + {SnippetPath(location, last)};
      forall n | n in names
        ensures WriteSnippets(disk, location, names, render)[SnippetPath(location, n)] == render(n)
      {
        SnippetPathInjective(location, n, last);
      }
    }
  }

  /** Writing snippets that are already on the disk changes nothing. */
  lemma {:induction false} WriteSnippetsUnchanged(disk: map<string, string>, location: string, names: seq<string>,
                                                      render: string -> string)
    requires forall n :: n in names ==> SnippetPath(location, n) in disk && disk[SnippetPath(location, n)] == render(n)
    ensures WriteSnippets(disk, location, names, render) == disk
  {
    if names != [] {
      var init := names[..|names| - 1];
      assert forall n :: n in init ==> n in names;
      WriteSnippetsUnchanged(disk, location, init, render);
    }
  }

  /** The disk after the `if` of `Generate`: on the first run (no manifest) the manifest
      is written; otherwise the snippets of the names listed in the manifest that are no
      longer current are deleted. */
  function Cleaned(disk: map<string, string>, location: string, projectDir: string,
                   names: seq<string>, nl: string): map<string, string> {
    var manifest := ManifestPath(projectDir);
    if manifest !in disk then disk[manifest := WriteLines(names, nl)]
    else DeleteSnippets(disk, location, Removed(ReadLines(disk[manifest]), names))
  }

  /** The disk after `Generate` has found `names`: cleaned, every snippet written, and the
      manifest listing the names. */
  function Generated(disk: map<string, string>, location: string, projectDir: string,
                     names: seq<string>, nl: string, render: string -> string): map<string, string> {
    WriteSnippets(Cleaned(disk, location, projectDir, names, nl), location, names, render)[ManifestPath(projectDir) := WriteLines(names, nl)]
  }

  /** The manifest lists the names, one per line, and reading it gives them back when
      none of them holds a line break. */
  lemma GeneratedManifest(disk: map<string, string>, location: string, projectDir: string,
                          names: seq<string>, nl: string, render: string -> string)
    requires IsNewLine(nl) && forall k :: 0 <= k < |names| ==> IsSingleLine(names[k])
    ensures var after := Generated(disk, location, projectDir, names, nl, render);
            ManifestPath(projectDir) in after && ReadLines(after[ManifestPath(projectDir)]) == names
  {
    ReadWriteLines(names, nl);
  }

  /** Every name found gets its snippet file, holding the snippet of that name. */
  lemma GeneratedSnippets(disk: map<string, string>, location: string, projectDir: string,
                          names: seq<string>, nl: string, render: string -> string, n: string)
    requires n in names
    ensures var after := Generated(disk, location, projectDir, names, nl, render);
            SnippetPath(location, n) in after && after[SnippetPath(location, n)] == render(n)
  {
    WriteSnippetsEffect(Cleaned(disk, location, projectDir, names, nl), location, names, render);
    SnippetPathNotManifest(location, n, projectDir);
  }

  /** A name the manifest listed is stale when it is no longer found. */
  ghost predicate Stale(disk: map<string, string>, projectDir: string, names: seq<string>, n: string) {
    ManifestPath(projectDir) in disk && n in ReadLines(disk[ManifestPath(projectDir)]) && n !in names
  }

  /** `Generate` deletes a file exactly when it is the snippet file of a stale name. */
  lemma GeneratedDeletes(disk: map<string, string>, location: string, projectDir: string,
                         names: seq<string>, nl: string, render: string -> string, p: string)
    ensures p in disk && p !in Generated(disk, location, projectDir, names, nl, render) <==>
            p in disk && exists n :: Stale(disk, projectDir, names, n) && p == SnippetPath(location, n)
  {
    var manifest := ManifestPath(projectDir);
    var cleaned := Cleaned(disk, location, projectDir, names, nl);
    WriteSnippetsEffect(cleaned, location, names, render);
    if manifest in disk {
      var removed := Removed(ReadLines(disk[manifest]), names);
      DeleteSnippetsRemovesPaths(disk, location, removed);
      if exists n :: Stale(disk, projectDir, names, n) && p == SnippetPath(location, n) {
        var n :| Stale(disk, projectDir, names, n) && p == SnippetPath(location, n);
        RemovedMembers(ReadLines(disk[manifest]), names, n);
        SnippetPathNotManifest(location, n, projectDir);
        forall m | m in names ensures SnippetPath(location, m) != p {
          SnippetPathInjective(location, m, n);
        }
      }
      if p in disk && p !in Generated(disk, location, projectDir, names, nl, render) {
        assert p in SnippetPaths(location, removed);
        var n :| n in removed && p == SnippetPath(location, n);
        RemovedMembers(ReadLines(disk[manifest]), names, n);
      }
    }
  }

  /** The files `Generate` leaves in place keep their text, unless they are the
      manifest or the snippet of a name found; and it creates no other file. */
  lemma GeneratedFrame(disk: map<string, string>, location: string, projectDir: string,
                       names: seq<string>, nl: string, render: string -> string, p: string)
    requires p != ManifestPath(projectDir) && p !in SnippetPaths(location, names)
    ensures p in Generated(disk, location, projectDir, names, nl, render) ==>
            p in disk && Generated(disk, location, projectDir, names, nl, render)[p] == disk[p]
  {
    var manifest := ManifestPath(projectDir);
    var cleaned := Cleaned(disk, location, projectDir, names, nl);
    WriteSnippetsEffect(cleaned, location, names, render);
    if manifest in disk {
      DeleteSnippetsRemovesPaths(disk, location, Removed(ReadLines(disk[manifest]), names));
    }
  }

  /** The first run, when there is no manifest yet, deletes nothing. */
  lemma FirstRunDeletesNothing(disk: map<string, string>, location: string, projectDir: string,
                               names: seq<string>, nl: string, render: string -> string)
    requires ManifestPath(projectDir) !in disk
    ensures forall p :: p in disk ==> p in Generated(disk, location, projectDir, names, nl, render)
  {
    forall p | p in disk ensures p in Generated(disk, location, projectDir, names, nl, render) {
      GeneratedDeletes(disk, location, projectDir, names, nl, render, p);
    }
  }

  /** `Generate` changes no `.cs` file, so the names found in a listing do not change. */
  lemma GeneratedKeepsSources(disk: map<string, string>, location: string, projectDir: string,
                              names: seq<string>, nl: string, render: string -> string,
                              listing: seq<string>)
    requires IsNewLine(nl)
    ensures var after := Generated(disk, location, projectDir, names, nl, render);
            TypeNames(after, listing, nl) == TypeNames(disk, listing, nl)
  {
    var after := Generated(disk, location, projectDir, names, nl, render);
    forall p | p in listing && EndsWith(p, ".cs")
      ensures (p in disk <==> p in after) && (p in disk ==> disk[p] == after[p])
    {
      if p == ManifestPath(projectDir) {
        GeneratedPathsNotSources(location, "", projectDir);
      } else if p in SnippetPaths(location, names) {
        var n :| n in names && p == SnippetPath(location, n);
        GeneratedPathsNotSources(location, n, projectDir);
      } else {
        GeneratedFrame(disk, location, projectDir, names, nl, render, p);
        GeneratedDeletes(disk, location, projectDir, names, nl, render, p);
        if exists n :: Stale(disk, projectDir, names, n) && p == SnippetPath(location, n) {
          var n :| Stale(disk, projectDir, names, n) && p == SnippetPath(location, n);
          GeneratedPathsNotSources(location, n, projectDir);
        }
      }
    }
    ExtractionReadsOnlySources(disk, after, listing, nl);
  }

  /** A disk on which the manifest already lists `names` and every snippet of them is
      in place is left as it is by another run that finds `names`. */
  lemma RegenerateUnchanged(disk: map<string, string>, location: string, projectDir: string,
                            names: seq<string>, nl: string, render: string -> string)
    requires ManifestPath(projectDir) in disk && disk[ManifestPath(projectDir)] == WriteLines(names, nl)
    requires ReadLines(disk[ManifestPath(projectDir)]) == names
    requires forall n :: n in names ==> SnippetPath(location, n) in disk && disk[SnippetPath(location, n)] == render(n)
    ensures Generated(disk, location, projectDir, names, nl, render) == disk
  {
    assert Removed(names, names) == [] by {
      var r := Removed(names, names);
      if r != [] {
        RemovedMembers(names, names, r[0]);
      }
    }
    assert Cleaned(disk, location, projectDir, names, nl) == disk;
    WriteSnippetsUnchanged(disk, location, names, render);
  }

  /** Generating twice in a row is the same as generating once, provided no name found
      holds a line break. The second run may see another listing, such as one that now
      holds the manifest, as long as it lists the same `.cs` files in the same order. */
  lemma GenerateIdempotent(disk: map<string, string>, location: string, projectDir: string,
                           listing: seq<string>, listing2: seq<string>, nl: string, render: string -> string)
    requires IsNewLine(nl) && CsFiles(listing2) == CsFiles(listing)
    requires var names := TypeNames(disk, listing, nl);
             forall k :: 0 <= k < |names| ==> IsSingleLine(names[k])
    ensures var names := TypeNames(disk, listing, nl);
            var once := Generated(disk, location, projectDir, names, nl, render);
            TypeNames(once, listing2, nl) == names &&
            Generated(once, location, projectDir, TypeNames(once, listing2, nl), nl, render) == once
  {
    var names := TypeNames(disk, listing, nl);
    var once := Generated(disk, location, projectDir, names, nl, render);
    GeneratedKeepsSources(disk, location, projectDir, names, nl, render, listing);
    assert TypeNames(once, listing2, nl) == TypeNames(once, listing, nl);
    GeneratedManifest(disk, location, projectDir, names, nl, render);
    forall n | n in names
      ensures SnippetPath(location, n) in once && once[SnippetPath(location, n)] == render(n)
    {
      GeneratedSnippets(disk, location, projectDir, names, nl, render, n);
    }
    RegenerateUnchanged(once, location, projectDir, names, nl, render);
  }

  /** The listing of the project directory after the first run holds the manifest as
      well, wherever it sorts; the `.cs` files it lists are the same. */
  lemma ManifestAddsNoSource(before: seq<string>, after: seq<string>, projectDir: string)
    ensures CsFiles(before + [ManifestPath(projectDir)] + after) == CsFiles(before + after)
  {
    CsFilesAppend(before + [ManifestPath(projectDir)], after);
    CsFilesAppend(before, [ManifestPath(projectDir)]);
    GeneratedPathsNotSources("", "", projectDir);
    assert CsFiles([ManifestPath(projectDir)]) == [] by {
      assert [ManifestPath(projectDir)][1..] == [];
    }
    CsFilesAppend(before, after);
  }

  /** A struct name with a line break in it, such as `A` + LF found in `struct A` + LF
      + `{`, is written to the manifest as two lines, and the next run takes both for
      stale names: it deletes `A.snippet`, a snippet the generator never wrote. */
  lemma BrokenNameDeletesForeignSnippet(render: string -> string)
    ensures var disk := map[SnippetPath("S\\", "A") := "mine", ManifestPath("P") := WriteLines(["A\n"], "\n")];
            SnippetPath("S\\", "A") in disk &&
            SnippetPath("S\\", "A") !in Generated(disk, "S\\", "P", ["A\n"], "\n", render)
  {
    var disk := map[SnippetPath("S\\", "A") := "mine", ManifestPath("P") := WriteLines(["A\n"], "\n")];
    BrokenLineSplits();
    assert Stale(disk, "P", ["A\n"], "A") by {
      SnippetPathNotManifest("S\\", "A", "P");
      assert "A" != "A\n";
    }
    GeneratedDeletes(disk, "S\\", "P", ["A\n"], "\n", render, SnippetPath("S\\", "A"));
  }

  /** The disk after `RemoveAllCustomSnipets`: every snippet the manifest lists deleted
      and the manifest emptied; nothing when there is no manifest to read. */
  function Purged(disk: map<string, string>, location: string, projectDir: string): Option<map<string, string>> {
    var manifest := ManifestPath(projectDir);
    if manifest !in disk then None
    else Some(DeleteSnippets(disk, location, ReadLines(disk[manifest]))[manifest := ""])
  }

  /** Purging fails exactly when there is no manifest. */
  lemma PurgeNeedsManifest(disk: map<string, string>, location: string, projectDir: string)
    ensures Purged(disk, location, projectDir).None? <==> ManifestPath(projectDir) !in disk
  {
  }

  /** Purging empties the manifest, deletes the snippets it listed and keeps every other
      file as it was, snippets of one's own included. */
  lemma PurgedEffect(disk: map<string, string>, location: string, projectDir: string, p: string)
    requires ManifestPath(projectDir) in disk
    ensures var manifest := ManifestPath(projectDir);
            var after := Purged(disk, location, projectDir).value;
            manifest in after && after[manifest] == "" &&
            (p != manifest ==>
              (p in after <==> p in disk && p !in SnippetPaths(location, ReadLines(disk[manifest]))) &&
              (p in after ==> after[p] == disk[p]))
  {
    DeleteSnippetsRemovesPaths(disk, location, ReadLines(disk[ManifestPath(projectDir)]));
  }

  /** Purging a purged disk succeeds and changes nothing more. */
  lemma PurgeIdempotent(disk: map<string, string>, location: string, projectDir: string)
    requires ManifestPath(projectDir) in disk
    ensures var once := Purged(disk, location, projectDir).value;
            Purged(once, location, projectDir) == Some(once)
  {
    var manifest := ManifestPath(projectDir);
    var once := Purged(disk, location, projectDir).value;
    assert once[manifest] == "";
    assert ReadLines(once[manifest]) == [];
    assert once[manifest := ""] == once;
  }

  /** Purging right after generating deletes every generated snippet, provided no name
      holds a line break, and leaves an empty manifest. */
  lemma PurgeAfterGenerate(disk: map<string, string>, location: string, projectDir: string,
                           names: seq<string>, nl: string, render: string -> string, n: string)
    requires IsNewLine(nl) && forall k :: 0 <= k < |names| ==> IsSingleLine(names[k])
    requires n in names
    ensures var r := Purged(Generated(disk, location, projectDir, names, nl, render), location, projectDir);
            r.Some? && SnippetPath(location, n) !in r.value && r.value[ManifestPath(projectDir)] == ""
  {
    var once := Generated(disk, location, projectDir, names, nl, render);
    GeneratedManifest(disk, location, projectDir, names, nl, render);
    PurgedEffect(once, location, projectDir, SnippetPath(location, n));
    SnippetPathNotManifest(location, n, projectDir);
  }
}
