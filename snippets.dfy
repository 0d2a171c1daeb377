/** The paths the generator writes to and the text of one Visual Studio code snippet. */
module Snippets {
  import opened Strings

  /** The author and description `CreateNewSnippet` puts in when none is given. */
  const DefaultAuthor: string := "DefaultAuthor"
  const DefaultDescription: string := "DefaultDescription"

  /** The file name of the manifest, the list of the snippets the generator made. */
  const ManifestName: string := "SNIPPET_DATA.txt"

  /** `path.EndsWith('\\')`. */
  predicate EndsWithBackslash(path: string) {
    |path| > 0 && path[|path| - 1] == '\\'
  }

  /** The snippet location as the constructor stores it: with a backslash added unless
      it already ends with one. */
  function SnippetDirectory(location: string): (dir: string)
    ensures EndsWithBackslash(dir)
    ensures EndsWithBackslash(location) ==> dir == location
    ensures |location| <= |dir| <= |location| + 1 && dir[..|location|] == location
  {
    if EndsWithBackslash(location) then location else location + "\\"
  }

  /** Normalising a normalised location changes nothing. */
  lemma SnippetDirectoryIdempotent(location: string)
    ensures SnippetDirectory(SnippetDirectory(location)) == SnippetDirectory(location)
  {
  }

  /** Where the constructor puts the manifest: in the project directory itself, joined
      with a backslash unless the directory name already ends with one. */
  function ManifestPath(projectDir: string): (path: string)
    ensures EndsWith(path, "\\" + ManifestName)
    ensures |projectDir| < |path| && path[..|projectDir|] == projectDir
  {
    if EndsWithBackslash(projectDir) then projectDir + ManifestName
    else projectDir + "\\" + ManifestName
  }

  /** The manifest is the file `SNIPPET_DATA.txt` of the normalised project directory. */
  lemma ManifestInProjectDirectory(projectDir: string)
    ensures ManifestPath(projectDir) == SnippetDirectory(projectDir) + ManifestName
  {
    if !EndsWithBackslash(projectDir) {
      assert projectDir + "\\" + ManifestName == (projectDir + "\\") + ManifestName;
    }
  }

  /** The file the snippet of `typeName` lives in. */
  function SnippetPath(location: string, typeName: string): (path: string)
    ensures EndsWith(path, ".snippet")
    ensures |path| == |location| + |typeName| + 8 && path[..|location|] == location
  {
    location + typeName + ".snippet"
  }

  /** Different type names have different snippet files. */
  lemma SnippetPathInjective(location: string, a: string, b: string)
    ensures SnippetPath(location, a) == SnippetPath(location, b) <==> a == b
  {
    if SnippetPath(location, a) == SnippetPath(location, b) {
      assert |a| == |b|;
      assert forall k :: 0 <= k < |a| ==> a[k] == SnippetPath(location, a)[|location| + k];
      assert forall k :: 0 <= k < |b| ==> b[k] == SnippetPath(location, b)[|location| + k];
    }
  }

  /** Two paths that disagree in their second-to-last character differ. */
  lemma DifferentEndings(p: string, q: string, s: string, t: string)
    requires EndsWith(p, s) && EndsWith(q, t) && |s| >= 2 && |t| >= 2 && s[|s| - 2] != t[|t| - 2]
    ensures p != q
  {
    assert p[|p| - 2] == s[|s| - 2];
    assert q[|q| - 2] == t[|t| - 2];
  }

  /** No snippet file is the manifest. */
  lemma SnippetPathNotManifest(location: string, typeName: string, projectDir: string)
    ensures SnippetPath(location, typeName) != ManifestPath(projectDir)
  {
    DifferentEndings(SnippetPath(location, typeName), ManifestPath(projectDir), ".snippet", "\\" + ManifestName);
  }

  /** No snippet file, and not the manifest, is a C# source file. */
  lemma GeneratedPathsNotSources(location: string, typeName: string, projectDir: string)
    ensures !EndsWith(SnippetPath(location, typeName), ".cs")
    ensures !EndsWith(ManifestPath(projectDir), ".cs")
  {
    var p := SnippetPath(location, typeName);
    var m := ManifestPath(projectDir);
    assert p[|p| - 2] == 'e';
    assert m[|m| - 2] == 'x';
  }

  /** `sub` stands in `s` at position `at`. */
  predicate OccursAt(s: string, sub: string, at: nat) {
    at + |sub| <= |s| && s[at..at + |sub|] == sub
  }

  /** `s` holds `sub` somewhere. */
  ghost predicate Contains(s: string, sub: string) {
    exists at: nat :: OccursAt(s, sub, at)
  }

  lemma ContainsEnd(s: string, sub: string)
    ensures Contains(s + sub, sub)
  {
    assert OccursAt(s + sub, sub, |s|);
  }

  lemma ContainsExtend(s: string, t: string, sub: string)
    requires Contains(s, sub)
    ensures Contains(s + t, sub)
  {
    var at: nat :| OccursAt(s, sub, at);
    assert (s + t)[at..at + |sub|] == s[at..at + |sub|];
    assert OccursAt(s + t, sub, at);
  }

  /** The statement a snippet inserts: a variable of the type, made by its default
      constructor. */
  function CodeLine(typeName: string): string {
    typeName + " $varName$ = new " + typeName + "();"
  }

  function TitleElement(title: string): string {
    "<Title>" + title + "</Title>"
  }

  function ShortcutElement(shortcutName: string): string {
    "<Shortcut> " + shortcutName + " </Shortcut>"
  }

  /** The template up to the title. */
  const Prolog: string := "<?xml version=\"1.0\" encoding=\"utf-8\"?>\n  <CodeSnippets xmlns = \"http://schemas.microsoft.com/VisualStudio/2005/CodeSnippet\">  \n     <CodeSnippet Format = \"1.0.0\">   \n         <Header>    \n            "

  /** The template from the title to the shortcut, with the author and description. */
  function Credits(author: string, description: string): string {
    "    \n            <Author>" + author + "</Author>\n            <Description> " + description + "</Description>\n            "
  }

  /** The template from the shortcut to the inserted code. */
  const CodeOpening: string := "   \n         </Header>   \n         <Snippet>  \n           <Code Language = \"CSharp\">    \n                 <![CDATA["

  /** The template after the inserted code: the declaration of the `varName` literal. */
  const Epilogue: string := "]]>     \n             </Code>     \n             <Declarations>      \n                <Literal>      \n                    <ID> varName </ID>      \n                    <ToolTip> variable name.</ToolTip>         \n                       <Default > obj </Default>        \n                   </Literal>       \n                </Declarations>         \n             </Snippet>        \n           </CodeSnippet>\n         </CodeSnippets>"

  /** The snippet text `CreateNewSnippet` writes, the template with its five holes
      filled in; its line breaks are line feeds. */
  function Render(typeName: string, shortcutName: string, title: string, author: string, description: string): string {
    Prolog + TitleElement(title) + Credits(author, description) + ShortcutElement(shortcutName)
    + CodeOpening + CodeLine(typeName) + Epilogue
  }

  /** In `a + b + c + d + e + f + g` the pieces `b`, `d` and `f` all stand somewhere. */
  lemma ContainsPieces(a: string, b: string, c: string, d: string, e: string, f: string, g: string)
    ensures var s := a + b + c + d + e + f + g;
            Contains(s, b) && Contains(s, d) && Contains(s, f)
  {
    ContainsEnd(a, b);
    ContainsExtend(a + b, c, b);
    ContainsExtend(a + b + c, d, b);
    ContainsEnd(a + b + c, d);
    ContainsExtend(a + b + c + d, e, b);
    ContainsExtend(a + b + c + d, e, d);
    ContainsExtend(a + b + c + d + e, f, b);
    ContainsExtend(a + b + c + d + e, f, d);
    ContainsEnd(a + b + c + d + e, f);
    ContainsExtend(a + b + c + d + e + f, g, b);
    ContainsExtend(a + b + c + d + e + f, g, d);
    ContainsExtend(a + b + c + d + e + f, g, f);
  }

  /** A rendered snippet carries its title, its shortcut and the statement that creates
      an object of its type. */
  lemma RenderShows(typeName: string, shortcutName: string, title: string, author: string, description: string)
    ensures var text := Render(typeName, shortcutName, title, author, description);
            Contains(text, TitleElement(title)) && Contains(text, ShortcutElement(shortcutName)) &&
            Contains(text, CodeLine(typeName))
  {
    ContainsPieces(Prolog, TitleElement(title), Credits(author, description), ShortcutElement(shortcutName),
                   CodeOpening, CodeLine(typeName), Epilogue);
  }

  /** The snippet `Generate` writes for a type name: the name as type, shortcut and
      title, with the default author and description. */
  function GeneratedSnippet(typeName: string): string {
    Render(typeName, typeName, typeName, DefaultAuthor, DefaultDescription)
  }

  /** A generated snippet is titled and triggered by its type name, and inserts
      `<name> $varName$ = new <name>();`. */
  lemma GeneratedSnippetShows(typeName: string)
    ensures var text := GeneratedSnippet(typeName);
            Contains(text, TitleElement(typeName)) && Contains(text, ShortcutElement(typeName)) &&
            Contains(text, typeName + " $varName$ = new " + typeName + "();")
  {
    RenderShows(typeName, typeName, typeName, DefaultAuthor, DefaultDescription);
  }
}
