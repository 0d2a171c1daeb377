/** Type-name extraction: `GetConstructors` without its file I/O. The names of one
    file are its struct names then its constructor names; the names of a directory
    are those of its `.cs` files in listing order, duplicates kept. */
module Extraction {
  import opened Strings
  import opened TextFiles
  import opened Patterns

  /** The name a default-constructor match yields:
      `value.TrimStart().TrimEnd().Split(" ")[1].Split("(")[0]`, that is, the part of
      the second space-separated field that comes before its first `(`. */
  function ConstructorName(value: string): (n: string)
    requires ' ' in TrimEnd(TrimStart(value))
    ensures ' ' !in n && '(' !in n
    ensures var field := Split(TrimEnd(TrimStart(value)), ' ')[1];
            |n| <= |field| && n == field[..|n|] && (|n| == |field| || field[|n|] == '(')
  {
    var trimmed := TrimEnd(TrimStart(value));
    var field := Split(trimmed, ' ')[1];
    var n := Split(field, '(')[0];
    assert Split(field, '(') == [n] + Split(field, '(')[1..];
    assert n == field[..|n|] && (|n| == |field| || field[|n|] == '(') by {
      JoinSplit(field, '(');
      JoinFirst(Split(field, '('), '(');
    }
    n
  }

  /** The name a struct match yields:
      `value.TrimStart().TrimEnd().Split(" ")[1].Trim().Replace("{", "")`: the second
      space-separated field, trimmed, then stripped of every `{`. The trim comes before
      the `{` is removed, so white space just before the brace stays in the name. */
  function StructName(value: string): (n: string)
    requires ' ' in TrimEnd(TrimStart(value))
    ensures ' ' !in n && '{' !in n
  {
    RemoveChar(Trim(Split(TrimEnd(TrimStart(value)), ' ')[1]), '{')
  }

  /** Joining pieces puts the first piece in front, followed by the separator when
      there is more than one piece. */
  lemma JoinFirst(parts: seq<string>, sep: char)
    requires |parts| >= 1
    ensures var j := Join(parts, sep);
            |parts[0]| <= |j| && j[..|parts[0]|] == parts[0] &&
            (|parts| > 1 ==> |parts[0]| < |j| && j[|parts[0]|] == sep)
  {
  }

  function NameOf(pat: Pattern, value: string): string
    requires ' ' in TrimEnd(TrimStart(value))
  {
    match pat
    case DefaultConstructor => ConstructorName(value)
    case StructDeclaration => StructName(value)
  }

  /** The value of a match is untouched by trimming and has a space right after the keyword. */
  lemma HitValueShape(pat: Pattern, text: string, h: Hit, nl: string)
    requires IsHit(pat, text, h, nl)
    ensures var v := Value(text, h);
            6 < |v| && v[..6] == Keyword(pat) && v[6] == ' ' &&
            LeadingWhiteSpace(v) == 0 && TrailingWhiteSpace(v) == 0 && TrimEnd(TrimStart(v)) == v
  {
    var v := Value(text, h);
    assert v[0] == Keyword(pat)[0];
    assert v[|v| - 1] == text[h.end - 1];
    Untrimmed(v);
  }

  /** What `AddRange(matches.Select(...))` adds: one name per match, in match order. */
  function Names(pat: Pattern, text: string, hits: seq<Hit>, nl: string): (names: seq<string>)
    requires forall k :: 0 <= k < |hits| ==> IsHit(pat, text, hits[k], nl)
    ensures |names| == |hits|
  {
    if hits == [] then []
    else
      HitValueShape(pat, text, hits[0], nl);
      [NameOf(pat, Value(text, hits[0]))] + Names(pat, text, hits[1..], nl)
  }

  /** No match gives no name, and a single match gives the one name of its value. */
  lemma NamesNone(pat: Pattern, text: string, nl: string)
    ensures Names(pat, text, [], nl) == []
  {
  }

  lemma NamesOne(pat: Pattern, text: string, h: Hit, nl: string)
    requires IsHit(pat, text, h, nl)
    ensures ' ' in TrimEnd(TrimStart(Value(text, h))) &&
            Names(pat, text, [h], nl) == [NameOf(pat, Value(text, h))]
  {
    HitValueShape(pat, text, h, nl);
    assert [h][1..] == [];
  }

  /** The first match gives the first name; the rest give the rest. */
  lemma NamesCons(pat: Pattern, text: string, hits: seq<Hit>, nl: string)
    requires forall k :: 0 <= k < |hits| ==> IsHit(pat, text, hits[k], nl)
    requires hits != []
    ensures forall k :: 0 <= k < |hits[1..]| ==> IsHit(pat, text, hits[1..][k], nl)
    ensures IsHit(pat, text, hits[0], nl) && ' ' in TrimEnd(TrimStart(Value(text, hits[0])))
    ensures Names(pat, text, hits, nl) ==
            [NameOf(pat, Value(text, hits[0]))] + Names(pat, text, hits[1..], nl)
  {
    HitValueShape(pat, text, hits[0], nl);
  }

  /** A name holds neither a space nor the pattern's opening character. */
  lemma NameIsWord(pat: Pattern, value: string)
    requires ' ' in TrimEnd(TrimStart(value))
    ensures ' ' !in NameOf(pat, value) && Opener(pat) !in NameOf(pat, value)
  {
  }

  /** Every name a match yields is free of spaces and of the pattern's opening character. */
  lemma {:induction false} NamesAreWords(pat: Pattern, text: string, hits: seq<Hit>, nl: string)
    requires forall k :: 0 <= k < |hits| ==> IsHit(pat, text, hits[k], nl)
    ensures var names := Names(pat, text, hits, nl);
            forall k :: 0 <= k < |names| ==> ' ' !in names[k] && Opener(pat) !in names[k]
  {
    if hits != [] {
      NamesCons(pat, text, hits, nl);
      NamesAreWords(pat, text, hits[1..], nl);
      NameIsWord(pat, Value(text, hits[0]));
    }
  }

  /** The names one file contributes: every struct name, then every constructor name. */
  function ExtractText(text: string, nl: string): seq<string>
    requires IsNewLine(nl)
  {
    Names(StructDeclaration, text, Scan(StructDeclaration, text, 0, nl), nl) +
    Names(DefaultConstructor, text, Scan(DefaultConstructor, text, 0, nl), nl)
  }

  /** No name extracted from a file holds a space; a struct name holds no `{` and a
      constructor name no `(`. */
  lemma ExtractedNamesAreWords(text: string, nl: string)
    requires IsNewLine(nl)
    ensures var structs := Names(StructDeclaration, text, Scan(StructDeclaration, text, 0, nl), nl);
            var ctors := Names(DefaultConstructor, text, Scan(DefaultConstructor, text, 0, nl), nl);
            ExtractText(text, nl) == structs + ctors &&
            (forall k :: 0 <= k < |structs| ==> ' ' !in structs[k] && '{' !in structs[k]) &&
            (forall k :: 0 <= k < |ctors| ==> ' ' !in ctors[k] && '(' !in ctors[k])
  {
    NamesAreWords(StructDeclaration, text, Scan(StructDeclaration, text, 0, nl), nl);
    NamesAreWords(DefaultConstructor, text, Scan(DefaultConstructor, text, 0, nl), nl);
  }

  /** `Where(x => x.FullName.EndsWith(".cs"))`: the source files of a listing, in order. */
  function CsFiles(listing: seq<string>): (files: seq<string>)
    ensures |files| <= |listing|
    ensures forall f :: f in files <==> f in listing && EndsWith(f, ".cs")
  {
    if listing == [] then []
    else (if EndsWith(listing[0], ".cs") then [listing[0]] else []) + CsFiles(listing[1..])
  }

  /** The filter keeps order: the source files of a concatenation are those of each part. */
  lemma {:induction false} CsFilesAppend(a: seq<string>, b: seq<string>)
    ensures CsFiles(a + b) == CsFiles(a) + CsFiles(b)
  {
    if a != [] {
      assert (a + b)[0] == a[0] && (a + b)[1..] == a[1..] + b;
      CsFilesAppend(a[1..], b);
    } else {
      assert a + b == b;
    }
  }

  /** The names one listed file contributes: none if it no longer exists. */
  function FileNames(files: map<string, string>, path: string, nl: string): seq<string>
    requires IsNewLine(nl)
  {
    if path in files then ExtractText(files[path], nl) else []
  }

  /** The extractor `GetConstructors` applies to each listed file, as a function value,
      so that the folding below can be reasoned about whatever a file yields. */
  function SourceNames(files: map<string, string>, nl: string): (extract: string -> seq<string>)
    requires IsNewLine(nl)
    ensures forall p :: extract(p) == FileNames(files, p, nl)
  {
    p => FileNames(files, p, nl)
  }

  /** The names a sequence of files gives, the `foreach` of `GetConstructors`: each
      file's names appended in turn. */
  function Collect(extract: string -> seq<string>, paths: seq<string>): seq<string> {
    if paths == [] then []
    else Collect(extract, paths[..|paths| - 1]) + extract(paths[|paths| - 1])
  }

  /** What `GetConstructors` returns when the directory lists `listing`. */
  function TypeNames(files: map<string, string>, listing: seq<string>, nl: string): seq<string>
    requires IsNewLine(nl)
  {
    Collect(SourceNames(files, nl), CsFiles(listing))
  }

  lemma {:induction false} CollectAppend(extract: string -> seq<string>, a: seq<string>, b: seq<string>)
    ensures Collect(extract, a + b) == Collect(extract, a) + Collect(extract, b)
    decreases |b|
  {
    if b == [] {
      assert a + b == a;
    } else {
      var b', last := b[..|b| - 1], b[|b| - 1];
      assert (a + b)[..|a + b| - 1] == a + b';
      assert (a + b)[|a + b| - 1] == last;
      CollectAppend(extract, a, b');
    }
  }

  /** A name is collected exactly when one of the files yields it. */
  lemma {:induction false} CollectMembers(extract: string -> seq<string>, paths: seq<string>, n: string)
    ensures n in Collect(extract, paths) <==> exists k :: 0 <= k < |paths| && n in extract(paths[k])
    decreases |paths|
  {
    if paths != [] {
      var init, last := paths[..|paths| - 1], paths[|paths| - 1];
      CollectMembers(extract, init, n);
      if exists k :: 0 <= k < |paths| && n in extract(paths[k]) {
        var k :| 0 <= k < |paths| && n in extract(paths[k]);
        if k < |init| {
          assert paths[k] == init[k];
        }
      }
      if exists k :: 0 <= k < |init| && n in extract(init[k]) {
        var k :| 0 <= k < |init| && n in extract(init[k]);
        assert paths[k] == init[k];
      }
    }
  }

  /** Two extractors that agree on every path collect the same names. */
  lemma {:induction false} CollectAgree(f1: string -> seq<string>, f2: string -> seq<string>, paths: seq<string>)
    requires forall k :: 0 <= k < |paths| ==> f1(paths[k]) == f2(paths[k])
    ensures Collect(f1, paths) == Collect(f2, paths)
    decreases |paths|
  {
    if paths != [] {
      var init := paths[..|paths| - 1];
      assert forall k :: 0 <= k < |init| ==> init[k] == paths[k];
      CollectAgree(f1, f2, init);
    }
  }

  /** Names are concatenated in listing order: the names of a listing split in two are
      the names of the first part followed by those of the second. */
  lemma ExtractionAppend(files: map<string, string>, a: seq<string>, b: seq<string>, nl: string)
    requires IsNewLine(nl)
    ensures TypeNames(files, a + b, nl) == TypeNames(files, a, nl) + TypeNames(files, b, nl)
  {
    CsFilesAppend(a, b);
    CollectAppend(SourceNames(files, nl), CsFiles(a), CsFiles(b));
  }

  /** One listed file contributes its own names if it is a `.cs` file that still exists,
      and nothing otherwise. */
  lemma ExtractionSingle(files: map<string, string>, path: string, nl: string)
    requires IsNewLine(nl)
    ensures TypeNames(files, [path], nl) ==
            if EndsWith(path, ".cs") && path in files then ExtractText(files[path], nl) else []
  {
    var extract := SourceNames(files, nl);
    assert CsFiles([path]) == (if EndsWith(path, ".cs") then [path] else []) + CsFiles([]);
    if EndsWith(path, ".cs") {
      assert CsFiles([path]) == [path];
      assert [path][..0] == [];
      assert Collect(extract, [path]) == Collect(extract, []) + extract(path);
    }
  }

  /** Two existing `.cs` files listed one after the other give the names of the first,
      then those of the second. */
  lemma ExtractionPair(files: map<string, string>, a: string, b: string, nl: string)
    requires IsNewLine(nl)
    requires EndsWith(a, ".cs") && a in files && EndsWith(b, ".cs") && b in files
    ensures TypeNames(files, [a, b], nl) == ExtractText(files[a], nl) + ExtractText(files[b], nl)
  {
    assert [a, b] == [a] + [b];
    ExtractionAppend(files, [a], [b], nl);
    ExtractionSingle(files, a, nl);
    ExtractionSingle(files, b, nl);
  }

  /** The names of a listing are exactly the names of its `.cs` files that exist. */
  lemma ExtractionMembers(files: map<string, string>, listing: seq<string>, n: string, nl: string)
    requires IsNewLine(nl)
    ensures n in TypeNames(files, listing, nl) <==>
            exists k :: 0 <= k < |listing| && EndsWith(listing[k], ".cs") && listing[k] in files &&
                        n in ExtractText(files[listing[k]], nl)
  {
    if n in TypeNames(files, listing, nl) {
      ExtractedFromSomeSource(files, listing, n, nl);
    }
    if exists k :: 0 <= k < |listing| && EndsWith(listing[k], ".cs") && listing[k] in files &&
                   n in ExtractText(files[listing[k]], nl) {
      var k :| 0 <= k < |listing| && EndsWith(listing[k], ".cs") && listing[k] in files &&
               n in ExtractText(files[listing[k]], nl);
      EverySourceContributes(files, listing, k, n, nl);
    }
  }

  lemma ExtractedFromSomeSource(files: map<string, string>, listing: seq<string>, n: string, nl: string)
    requires IsNewLine(nl) && n in TypeNames(files, listing, nl)
    ensures exists k :: 0 <= k < |listing| && EndsWith(listing[k], ".cs") && listing[k] in files &&
                        n in ExtractText(files[listing[k]], nl)
  {
    var extract := SourceNames(files, nl);
    var sources := CsFiles(listing);
    CollectMembers(extract, sources, n);
    var j :| 0 <= j < |sources| && n in extract(sources[j]);
    assert sources[j] in listing;
    var k :| 0 <= k < |listing| && listing[k] == sources[j];
    assert n in FileNames(files, listing[k], nl);
  }

  lemma EverySourceContributes(files: map<string, string>, listing: seq<string>, k: int, n: string, nl: string)
    requires IsNewLine(nl) && 0 <= k < |listing|
    requires EndsWith(listing[k], ".cs") && listing[k] in files && n in ExtractText(files[listing[k]], nl)
    ensures n in TypeNames(files, listing, nl)
  {
    var extract := SourceNames(files, nl);
    var sources := CsFiles(listing);
    CollectMembers(extract, sources, n);
    assert listing[k] in sources;
    var j :| 0 <= j < |sources| && sources[j] == listing[k];
    assert n in extract(sources[j]);
  }

  /** Extraction reads nothing but the listed `.cs` files: two disks that agree on them
      give the same names. */
  lemma ExtractionReadsOnlySources(f1: map<string, string>, f2: map<string, string>,
                                   listing: seq<string>, nl: string)
    requires IsNewLine(nl)
    requires forall p :: p in listing && EndsWith(p, ".cs") ==>
               (p in f1 <==> p in f2) && (p in f1 ==> f1[p] == f2[p])
    ensures TypeNames(f1, listing, nl) == TypeNames(f2, listing, nl)
  {
    var sources := CsFiles(listing);
    forall k | 0 <= k < |sources|
      ensures SourceNames(f1, nl)(sources[k]) == SourceNames(f2, nl)(sources[k])
    {
      assert sources[k] in sources;
    }
    CollectAgree(SourceNames(f1, nl), SourceNames(f2, nl), sources);
  }
}
