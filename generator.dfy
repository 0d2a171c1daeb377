/** The generator object and the file system it works on. */
module Generator {
  import opened Strings
  import opened TextFiles
  import opened Patterns
  import opened Extraction
  import opened Snippets
  import opened Sync

  /** The exceptions the modelled file operations raise. */
  datatype Error = DirectoryNotFound | FileNotFound

  datatype Outcome<T> = Success(value: T) | Failure(error: Error)

  /** The files on disk, each path mapped to its text; `System.IO.File` on them. */
  class FileSystem {
    var files: map<string, string>

    constructor (files: map<string, string>)
      ensures this.files == files
    {
      this.files := files;
    }

    /** `File.Exists(path)`. */
    predicate Exists(path: string)
      reads this
    {
      path in files
    }

    /** `File.ReadAllText(path)`. */
    function ReadAllText(path: string): string
      reads this
      requires Exists(path)
    {
      files[path]
    }

    /** `File.ReadAllLines(path)`: the lines of the file, as `ReadLines` cuts them. */
    function ReadAllLines(path: string): (lines: seq<string>)
      reads this
      requires Exists(path)
      ensures forall k :: 0 <= k < |lines| ==> IsSingleLine(lines[k])
      ensures lines == [] <==> files[path] == []
    {
      ReadLines(files[path])
    }

    /** `File.WriteAllText(path, text)`: the file is created or overwritten. */
    method WriteAllText(path: string, text: string)
      modifies this
      ensures files == old(files)[path := text]
    {
      files := files[path := text];
    }

    /** `File.WriteAllLines(path, lines)`: every line followed by the newline. */
    method WriteAllLines(path: string, lines: seq<string>, nl: string)
      modifies this
      ensures files == old(files)[path := WriteLines(lines, nl)]
    {
      files := files[path := WriteLines(lines, nl)];
    }

    /** `File.Delete(path)`: a file that does not exist is no error. */
    method Delete(path: string)
      modifies this
      ensures files == old(files) - {path}
    {
      files := files - {path};
    }
  }

  /** `ASGenerator`: the project directory it scans, the directory its snippets go to
      and the manifest that lists the snippets it made. All are fixed at construction;
      what changes is the file system. */
  class ASGenerator {
    const fs: FileSystem
    const dirName: string
    const snippetLocation: string
    const manifestPath: string
    /** `Environment.NewLine`. */
    const newLine: string

    ghost predicate Valid() {
      IsNewLine(newLine) && EndsWithBackslash(snippetLocation) && manifestPath == ManifestPath(dirName)
    }

    constructor (fs: FileSystem, projectDirName: string, snippetLocation: string, newLine: string)
      requires IsNewLine(newLine)
      ensures Valid()
      ensures this.fs == fs && dirName == projectDirName && this.newLine == newLine
      ensures this.snippetLocation == SnippetDirectory(snippetLocation)
      ensures manifestPath == ManifestPath(projectDirName)
    {
      this.fs := fs;
      dirName := projectDirName;
      this.snippetLocation := if EndsWithBackslash(snippetLocation) then snippetLocation else snippetLocation + "\\";
      var manifest := ManifestName;
      manifestPath := if EndsWithBackslash(projectDirName) then projectDirName + manifest else projectDirName + "\\" + manifest;
      this.newLine := newLine;
    }

    /** `GetConstructors`: the type names of the `.cs` files of the project directory,
        whose contents are `listing` (`None` when the directory does not exist). */
    method GetConstructors(listing: Option<seq<string>>) returns (r: Outcome<seq<string>>)
      requires Valid()
      ensures listing.None? ==> r == Failure(DirectoryNotFound)
      ensures listing.Some? ==> r == Success(TypeNames(fs.files, listing.value, newLine))
    {
      if listing.None? {
        return Failure(DirectoryNotFound);
      }
      var fileNames := CsFiles(listing.value);
      var ctorNames: seq<string> := [];
      for i := 0 to |fileNames|
        invariant ctorNames == Collect(SourceNames(fs.files, newLine), fileNames[..i])
      {
        var fileName := fileNames[i];
        assert fileNames[..i + 1][..i] == fileNames[..i];
        if fs.Exists(fileName) {
          var text := fs.ReadAllText(fileName);
          var structMatches := Scan(StructDeclaration, text, 0, newLine);
          var defaultConstructors := Scan(DefaultConstructor, text, 0, newLine);
          ctorNames := ctorNames + Names(StructDeclaration, text, structMatches, newLine);
          ctorNames := ctorNames + Names(DefaultConstructor, text, defaultConstructors, newLine);
        }
      }
      assert fileNames[..|fileNames|] == fileNames;
      return Success(ctorNames);
    }

    /** `CreateNewSnippet`: writes the snippet of one type into the snippet directory. */
    method CreateNewSnippet(typeName: string, shortcutName: string, title: string,
                            author: string := DefaultAuthor, description: string := DefaultDescription)
      modifies fs
      ensures fs.files == old(fs.files)[SnippetPath(snippetLocation, typeName) :=
                                        Render(typeName, shortcutName, title, author, description)]
    {
      var snippet := Render(typeName, shortcutName, title, author, description);
      fs.WriteAllText(snippetLocation + typeName + ".snippet", snippet);
    }

    /** `RemoveUnneededSnippet`: deletes the snippets of the names the manifest lists
        that are not among `newSnippets`. */
    method RemoveUnneededSnippet(newSnippets: seq<string>) returns (r: Outcome<()>)
      requires Valid()
      modifies fs
      ensures manifestPath !in old(fs.files) ==> r == Failure(FileNotFound) && fs.files == old(fs.files)
      ensures manifestPath in old(fs.files) ==>
                r.Success? &&
                fs.files == DeleteSnippets(old(fs.files), snippetLocation,
                                           Removed(ReadLines(old(fs.files)[manifestPath]), newSnippets))
    {
      if !fs.Exists(manifestPath) {
        return Failure(FileNotFound);
      }
      var oldClassNames := fs.ReadAllLines(manifestPath);
      var removedClasses: seq<string> := [];
      for i := 0 to |oldClassNames|
        invariant removedClasses == Removed(oldClassNames[..i], newSnippets)
      {
        assert oldClassNames[..i + 1][..i] == oldClassNames[..i];
        if oldClassNames[i] !in newSnippets {
          removedClasses := removedClasses + [oldClassNames[i]];
        }
      }
      assert oldClassNames[..|oldClassNames|] == oldClassNames;
      for i := 0 to |removedClasses|
        invariant fs.files == DeleteSnippets(old(fs.files), snippetLocation, removedClasses[..i])
      {
        assert removedClasses[..i + 1][..i] == removedClasses[..i];
        fs.Delete(snippetLocation + removedClasses[i] + ".snippet");
      }
      assert removedClasses[..|removedClasses|] == removedClasses;
      return Success(());
    }

    /** `Generate`: finds the type names, deletes the snippets of the names that are
        gone (or writes the manifest on the first run), writes a snippet per name and
        rewrites the manifest. */
    method Generate(listing: Option<seq<string>>) returns (r: Outcome<()>)
      requires Valid()
      modifies fs
      ensures listing.None? ==> r == Failure(DirectoryNotFound) && fs.files == old(fs.files)
      ensures listing.Some? ==>
                r.Success? &&
                fs.files == Generated(old(fs.files), snippetLocation, dirName,
                                      TypeNames(old(fs.files), listing.value, newLine), newLine,
                                      GeneratedSnippet)
    {
      var found := GetConstructors(listing);
      if found.Failure? {
        return Failure(found.error);
      }
      var ctorNames := found.value;
      if !fs.Exists(manifestPath) {
        fs.WriteAllLines(manifestPath, ctorNames, newLine);
      } else {
        var _ := RemoveUnneededSnippet(ctorNames);
      }
      CreateSnippets(ctorNames);
      fs.WriteAllLines(manifestPath, ctorNames, newLine);
      return Success(());
    }

    /** The `foreach` of `Generate`: `CreateNewSnippet(ct, ct, ct)` for every name found. */
    method CreateSnippets(ctorNames: seq<string>)
      modifies fs
      ensures fs.files == WriteSnippets(old(fs.files), snippetLocation, ctorNames, GeneratedSnippet)
    {
      for i := 0 to |ctorNames|
        invariant fs.files == WriteSnippets(old(fs.files), snippetLocation, ctorNames[..i], GeneratedSnippet)
      {
        assert ctorNames[..i + 1][..i] == ctorNames[..i];
        CreateNewSnippet(ctorNames[i], ctorNames[i], ctorNames[i]);
      }
      assert ctorNames[..|ctorNames|] == ctorNames;
    }

    /** `RemoveAllCustomSnipets`: deletes every snippet the manifest lists and empties
        the manifest; snippets it does not list stay. */
    method RemoveAllCustomSnipets() returns (r: Outcome<()>)
      requires Valid()
      modifies fs
      ensures Purged(old(fs.files), snippetLocation, dirName).None? ==>
                r == Failure(FileNotFound) && fs.files == old(fs.files)
      ensures Purged(old(fs.files), snippetLocation, dirName).Some? ==>
                r.Success? && fs.files == Purged(old(fs.files), snippetLocation, dirName).value
    {
      if !fs.Exists(manifestPath) {
        return Failure(FileNotFound);
      }
      var agsFileNames := fs.ReadAllLines(manifestPath);
      for i := 0 to |agsFileNames|
        invariant fs.files == DeleteSnippets(old(fs.files), snippetLocation, agsFileNames[..i])
      {
        assert agsFileNames[..i + 1][..i] == agsFileNames[..i];
        fs.Delete(snippetLocation + agsFileNames[i] + ".snippet");
      }
      assert agsFileNames[..|agsFileNames|] == agsFileNames;
      fs.WriteAllText(manifestPath, "");
      return Success(());
    }
  }
}
