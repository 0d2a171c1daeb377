/** What the extractor makes of single declarations, quirks included:
    - a constructor declared with more than one space after `public`, or a struct with
      more than one space after `struct`, yields the empty name;
    - a struct whose `{`, or a constructor whose `(`, follows a tab or a line break
      keeps that character in its name. */
module Declarations {
  import opened Strings
  import opened TextFiles
  import opened Patterns
  import opened Extraction

  /** A type name as a programmer writes it: no white space and no `(` or `{`. */
  predicate IsPlainWord(w: string) {
    w != [] && forall k :: 0 <= k < |w| ==> !IsWhiteSpace(w[k]) && w[k] != '(' && w[k] != '{'
  }

  lemma HitHasOpener(pat: Pattern, text: string, h: Hit, nl: string)
    requires IsHit(pat, text, h, nl)
    ensures Opener(pat) in text
  {
    assert text[h.open] == Opener(pat);
  }

  /** A text without the pattern's opening character holds no match of it. */
  lemma NoOpenerNoHit(pat: Pattern, text: string, nl: string)
    requires IsNewLine(nl)
    requires Opener(pat) !in text
    ensures Scan(pat, text, 0, nl) == []
  {
    var hits := Scan(pat, text, 0, nl);
    if hits != [] {
      HitHasOpener(pat, text, hits[0], nl);
      assert false;
    }
  }

  /** When `MatchAt` succeeds at 0 and the match runs to the end of the text, `Scan`
      finds exactly that match. */
  lemma ScanWhole(pat: Pattern, text: string, h: Hit, nl: string)
    requires IsNewLine(nl) && 0 < |text|
    requires MatchAt(pat, text, 0, nl) == Some(h) && h.end == |text|
    ensures Scan(pat, text, 0, nl) == [h]
  {
    assert Scan(pat, text, h.end, nl) == [];
  }

  /** A match that spans the whole text, whose opening character occurs nowhere else,
      and whose `\S+` part cannot be extended (the (ws)* part is empty or starts with
      white space) is the one match `Scan` finds. */
  lemma SoleMatch(pat: Pattern, text: string, h: Hit, nl: string)
    requires IsNewLine(nl) && IsHit(pat, text, h, nl) && h.start == 0 && h.end == |text|
    requires forall k :: 0 <= k < |text| && text[k] == Opener(pat) ==> k == h.open
    requires h.wordEnd == h.open || IsWhiteSpace(text[h.wordEnd])
    ensures Scan(pat, text, 0, nl) == [h]
  {
    MatchAtFinds(pat, text, h, nl);
    var m := MatchAt(pat, text, 0, nl).value;
    assert m.open == h.open;
    SpacesUnique(text, 6, m.wordStart, h.wordStart);
    HitDeterminedByWord(pat, text, m, h, nl);
    ScanWhole(pat, text, m, nl);
  }

  /** The constructor pattern matches `text` once, as a whole, and the struct pattern
      nowhere. */
  predicate SoleConstructorMatch(text: string, m: Hit, nl: string) {
    IsNewLine(nl) && m.start == 0 && m.end == |text| &&
    Scan(StructDeclaration, text, 0, nl) == [] && Scan(DefaultConstructor, text, 0, nl) == [m]
  }

  /** The struct pattern matches `text` once, as a whole, and the constructor pattern
      nowhere. */
  predicate SoleStructMatch(text: string, m: Hit, nl: string) {
    IsNewLine(nl) && m.start == 0 && m.end == |text| &&
    Scan(StructDeclaration, text, 0, nl) == [m] && Scan(DefaultConstructor, text, 0, nl) == []
  }

  /** A text that the constructor pattern matches once, as a whole, and the struct
      pattern nowhere yields the one name the whole text gives. */
  lemma ExtractSoleConstructor(text: string, m: Hit, nl: string)
    requires SoleConstructorMatch(text, m, nl)
    ensures ' ' in TrimEnd(TrimStart(text)) && ExtractText(text, nl) == [ConstructorName(text)]
  {
    assert Scan(DefaultConstructor, text, 0, nl)[0] == m;
    assert Value(text, m) == text;
    NamesNone(StructDeclaration, text, nl);
    NamesOne(DefaultConstructor, text, m, nl);
  }

  /** A text that the struct pattern matches once, as a whole, and the constructor
      pattern nowhere yields the one name the whole text gives. */
  lemma ExtractSoleStruct(text: string, m: Hit, nl: string)
    requires SoleStructMatch(text, m, nl)
    ensures ' ' in TrimEnd(TrimStart(text)) && ExtractText(text, nl) == [StructName(text)]
  {
    assert Scan(StructDeclaration, text, 0, nl)[0] == m;
    assert Value(text, m) == text;
    NamesOne(StructDeclaration, text, m, nl);
    NamesNone(DefaultConstructor, text, nl);
  }

  /** The text of a constructor declaration: `public`, spaces, a name and `()`. */
  function ConstructorText(spaces: string, w: string): string {
    "public" + spaces + w + "()"
  }

  /** The match of a constructor declaration: it spans the text, and its word ends
      right at the `(`. */
  function ConstructorHit(spaces: string, w: string): Hit {
    var we := 6 + |spaces| + |w|;
    Hit(0, 6 + |spaces|, we, we, we + 2)
  }

  predicate AllSpaces(s: string) {
    forall k :: 0 <= k < |s| ==> s[k] == ' '
  }

  /** A constructor declaration, character by character. */
  lemma ConstructorShape(spaces: string, w: string)
    requires IsPlainWord(w) && AllSpaces(spaces)
    ensures var text := ConstructorText(spaces, w);
            var ws := 6 + |spaces|;
            var we := ws + |w|;
            && |text| == we + 2 && text[0..6] == "public"
            && (forall k :: 6 <= k < ws ==> text[k] == ' ')
            && (forall k :: ws <= k < we ==> !IsWhiteSpace(text[k]))
            && text[we] == '(' && text[we + 1] == ')'
            && (forall k :: 0 <= k < |text| && text[k] == '(' ==> k == we)
            && '{' !in text
  {
    var text := ConstructorText(spaces, w);
    var ws := 6 + |spaces|;
    assert forall k :: 6 <= k < ws ==> text[k] == spaces[k - 6];
    assert forall k :: ws <= k < ws + |w| ==> text[k] == w[k - ws];
  }

  /** The default-constructor pattern matches a constructor declaration once, from its
      first to its last character, the word being the declared name. */
  lemma ConstructorDeclarationHit(spaces: string, w: string, nl: string)
    requires IsNewLine(nl) && IsPlainWord(w) && |spaces| >= 1 && AllSpaces(spaces)
    ensures Scan(DefaultConstructor, ConstructorText(spaces, w), 0, nl) == [ConstructorHit(spaces, w)]
  {
    var text := ConstructorText(spaces, w);
    ConstructorShape(spaces, w);
    var cand := ConstructorHit(spaces, w);
    assert IsHit(DefaultConstructor, text, cand, nl);
    SoleMatch(DefaultConstructor, text, cand, nl);
  }

  /** After a single space the constructor name is the declared name. */
  lemma ConstructorNameOneSpace(w: string)
    requires IsPlainWord(w)
    ensures var text := ConstructorText(" ", w);
            ' ' in TrimEnd(TrimStart(text)) && ConstructorName(text) == w
  {
    var text := ConstructorText(" ", w);
    Untrimmed(text);
    var field := w + "()";
    assert text == "public" + [' '] + field;
    assert field == w + ['('] + ")";
    SplitTwo("public", field, ' ');
    SplitTwo(w, ")", '(');
  }

  /** After two or more spaces the constructor name is the empty field between the
      first two of them. */
  lemma ConstructorNameMoreSpaces(spaces: string, w: string)
    requires IsPlainWord(w) && |spaces| >= 2 && AllSpaces(spaces)
    ensures var text := ConstructorText(spaces, w);
            ' ' in TrimEnd(TrimStart(text)) && ConstructorName(text) == ""
  {
    var text := ConstructorText(spaces, w);
    Untrimmed(text);
    assert text[6] == ' ';
    var rest := spaces[2..] + w + "()";
    assert text == "public" + [' '] + ([] + [' '] + rest);
    SplitAround("public", [] + [' '] + rest, ' ');
    SplitAround([], rest, ' ');
    assert Split(text, ' ')[1] == [];
    assert Split([], '(') == [[]];
  }

  /** `public`, a space, then a name free of spaces and of `(` followed by `()`: the
      constructor name is that name. */
  lemma ConstructorNameOf(value: string, name: string)
    requires value == "public" + [' '] + name + "()"
    requires ' ' !in name && '(' !in name
    ensures ' ' in TrimEnd(TrimStart(value)) && ConstructorName(value) == name
  {
    var field := name + "()";
    assert ' ' !in field by {
      assert forall k :: 0 <= k < |name| ==> field[k] == name[k];
    }
    assert value == "public" + [' '] + field;
    assert value[0] == 'p' && value[|value| - 1] == ')';
    Untrimmed(value);
    SplitTwo("public", field, ' ');
    assert field == name + ['('] + ")";
    SplitTwo(name, ")", '(');
  }

  /** With a tab or a newline between the name and `()`, the constructor name is the
      declared name followed by that character: only the first `(` ends the name. */
  lemma ConstructorNameGap(w: string, gap: string, nl: string)
    requires IsNewLine(nl) && IsPlainWord(w) && IsGap(gap, nl) && gap != " "
    ensures var text := "public " + w + gap + "()";
            ' ' in TrimEnd(TrimStart(text)) && ConstructorName(text) == w + gap
  {
    var name := w + gap;
    assert ' ' !in name && '(' !in name by {
      assert gap == "" || gap == "\t" || gap == "\n" || gap == "\r\n";
      assert forall k :: 0 <= k < |w| ==> name[k] == w[k];
      assert forall k :: |w| <= k < |name| ==> name[k] == gap[k - |w|];
    }
    assert "public " + w + gap + "()" == "public" + [' '] + name + "()";
    ConstructorNameOf("public " + w + gap + "()", name);
  }

  /** `public`, one or more spaces, a plain name and `()`: the extractor finds that
      one constructor, and names it after the declaration only when a single space
      follows `public`. */
  lemma ConstructorDeclarationName(spaces: string, w: string, nl: string)
    requires IsNewLine(nl) && IsPlainWord(w) && |spaces| >= 1 && AllSpaces(spaces)
    ensures ExtractText(ConstructorText(spaces, w), nl) == [if |spaces| == 1 then w else ""]
  {
    ConstructorDeclarationMatches(spaces, w, nl);
    ExtractSoleConstructor(ConstructorText(spaces, w), ConstructorHit(spaces, w), nl);
    ConstructorDeclarationConstructorName(spaces, w);
  }

  /** A constructor declaration is matched once, as a whole, and only as a constructor. */
  lemma ConstructorDeclarationMatches(spaces: string, w: string, nl: string)
    requires IsNewLine(nl) && IsPlainWord(w) && |spaces| >= 1 && AllSpaces(spaces)
    ensures SoleConstructorMatch(ConstructorText(spaces, w), ConstructorHit(spaces, w), nl)
  {
    ConstructorDeclarationNoStruct(spaces, w, nl);
    ConstructorDeclarationHit(spaces, w, nl);
  }

  /** The constructor name of a constructor declaration: the declared name after one
      space, the empty string after more. */
  lemma ConstructorDeclarationConstructorName(spaces: string, w: string)
    requires IsPlainWord(w) && |spaces| >= 1 && AllSpaces(spaces)
    ensures var text := ConstructorText(spaces, w);
            ' ' in TrimEnd(TrimStart(text)) && ConstructorName(text) == if |spaces| == 1 then w else ""
  {
    if |spaces| == 1 {
      assert spaces == " ";
      ConstructorNameOneSpace(w);
    } else {
      ConstructorNameMoreSpaces(spaces, w);
    }
  }

  /** A constructor declaration holds no `{`, so no struct match. */
  lemma ConstructorDeclarationNoStruct(spaces: string, w: string, nl: string)
    requires IsNewLine(nl) && IsPlainWord(w) && AllSpaces(spaces)
    ensures Scan(StructDeclaration, ConstructorText(spaces, w), 0, nl) == []
  {
    ConstructorShape(spaces, w);
    NoOpenerNoHit(StructDeclaration, ConstructorText(spaces, w), nl);
  }

  /** The text of a struct declaration: `struct`, a space, a name, a gap and `{`. */
  function StructText(w: string, gap: string): string {
    "struct " + w + gap + "{"
  }

  /** The match of a struct declaration: it spans the text, its word is the name and
      the gap lies between the word and the `{`. */
  function StructHit(w: string, gap: string): Hit {
    Hit(0, 7, 7 + |w|, 7 + |w| + |gap|, 8 + |w| + |gap|)
  }

  /** What may stand between a struct's name and its brace in these examples. */
  predicate IsGap(gap: string, nl: string) {
    gap == "" || gap == " " || gap == "\t" || gap == nl
  }

  /** A gap is generated by `([ ]|NL|\t)*` wherever it stands in a text. */
  lemma GapTokens(text: string, i: nat, gap: string, nl: string)
    requires IsNewLine(nl) && IsGap(gap, nl)
    requires i + |gap| <= |text| && text[i..i + |gap|] == gap
    ensures WsTokens(text, i, i + |gap|, nl)
  {
    if gap != [] && gap != nl {
      assert text[i] == gap[0];
      assert WsTokens(text, i + 1, i + 1, nl);
    } else if gap == nl {
      assert NewLineAt(text, i, nl);
      assert WsTokens(text, i + |nl|, i + |nl|, nl);
    }
  }

  /** A struct declaration, character by character. */
  lemma StructShape(w: string, gap: string, nl: string)
    requires IsNewLine(nl) && IsPlainWord(w) && IsGap(gap, nl)
    ensures var text := StructText(w, gap);
            var we := 7 + |w|;
            var open := we + |gap|;
            && |text| == open + 1 && text[0..6] == "struct" && text[6] == ' '
            && (forall k :: 7 <= k < we ==> !IsWhiteSpace(text[k]))
            && text[we..open] == gap && text[open] == '{'
            && (gap != [] ==> IsWhiteSpace(text[we]))
            && (forall k :: 0 <= k < |text| && text[k] == '{' ==> k == open)
            && '(' !in text
  {
    var text := StructText(w, gap);
    var we := 7 + |w|;
    assert forall k :: 7 <= k < we ==> text[k] == w[k - 7];
    assert forall k :: we <= k < we + |gap| ==> text[k] == gap[k - we];
    assert gap == "" || gap == " " || gap == "\t" || gap == "\n" || gap == "\r\n";
  }

  /** The whole struct declaration is a decomposition the struct pattern accepts. */
  lemma StructDeclarationCandidate(w: string, gap: string, nl: string)
    requires IsNewLine(nl) && IsPlainWord(w) && IsGap(gap, nl)
    ensures IsHit(StructDeclaration, StructText(w, gap), StructHit(w, gap), nl)
  {
    var text := StructText(w, gap);
    StructShape(w, gap, nl);
    GapTokens(text, 7 + |w|, gap, nl);
  }

  /** The struct pattern matches a struct declaration once, from its first to its
      last character, the word being the declared name. */
  lemma StructDeclarationHit(w: string, gap: string, nl: string)
    requires IsNewLine(nl) && IsPlainWord(w) && IsGap(gap, nl)
    ensures Scan(StructDeclaration, StructText(w, gap), 0, nl) == [StructHit(w, gap)]
  {
    StructShape(w, gap, nl);
    StructDeclarationCandidate(w, gap, nl);
    SoleMatch(StructDeclaration, StructText(w, gap), StructHit(w, gap), nl);
  }

  /** `struct`, a space, then a field free of spaces that ends in `{` after a name that
      starts with a non-white-space character: the struct name is that name with
      every `{` removed. */
  lemma StructNameOf(value: string, name: string)
    requires value == "struct" + [' '] + name + "{"
    requires name != [] && !IsWhiteSpace(name[0]) && ' ' !in name
    ensures ' ' in TrimEnd(TrimStart(value)) && StructName(value) == RemoveChar(name, '{')
  {
    var field := name + "{";
    assert value == "struct" + [' '] + field;
    assert ' ' !in field by {
      assert forall k :: 0 <= k < |name| ==> field[k] == name[k];
    }
    assert field[0] == name[0] && field[|field| - 1] == '{';
    StructField(value, field);
    StructNameOfField(value, field);
    RemoveCharAppend(name, "{", '{');
    assert RemoveChar("{", '{') == [];
    assert RemoveChar(name, '{') + [] == RemoveChar(name, '{');
  }

  /** The second space-separated field of `struct` + space + a field free of spaces is
      that field. */
  lemma StructField(value: string, field: string)
    requires value == "struct" + [' '] + field
    requires field != [] && ' ' !in field && !IsWhiteSpace(field[|field| - 1])
    ensures ' ' in TrimEnd(TrimStart(value)) && Split(TrimEnd(TrimStart(value)), ' ')[1] == field
  {
    assert value[0] == 's' && value[|value| - 1] == field[|field| - 1];
    Untrimmed(value);
    SplitTwo("struct", field, ' ');
  }

  /** The struct name is the second field, trimmed, with every `{` removed; a field
      that starts and ends with a non-white-space character needs no trimming. */
  lemma StructNameOfField(value: string, field: string)
    requires ' ' in TrimEnd(TrimStart(value)) && Split(TrimEnd(TrimStart(value)), ' ')[1] == field
    requires field != [] && !IsWhiteSpace(field[0]) && !IsWhiteSpace(field[|field| - 1])
    ensures StructName(value) == RemoveChar(field, '{')
  {
  }

  /** With a space before the brace the struct name is the declared name. */
  lemma StructNameSpace(w: string)
    requires IsPlainWord(w)
    ensures var text := StructText(w, " ");
            ' ' in TrimEnd(TrimStart(text)) && StructName(text) == w
  {
    var text := StructText(w, " ");
    Untrimmed(text);
    assert text == "struct" + [' '] + w + [' '] + "{";
    SplitThree("struct", w, "{", ' ');
    RemoveCharAbsent(w, '{');
  }

  /** After two or more spaces the struct name is the empty field between the first
      two of them. */
  lemma StructNameMoreSpaces(spaces: string, w: string)
    requires IsPlainWord(w) && |spaces| >= 2 && AllSpaces(spaces)
    ensures var text := "struct" + spaces + w + " {";
            ' ' in TrimEnd(TrimStart(text)) && StructName(text) == ""
  {
    var text := "struct" + spaces + w + " {";
    assert text[0] == 's' && text[|text| - 1] == '{';
    Untrimmed(text);
    assert text[6] == ' ';
    var rest := spaces[2..] + w + " {";
    assert text == "struct" + [' '] + ([] + [' '] + rest);
    SplitAround("struct", [] + [' '] + rest, ' ');
    SplitAround([], rest, ' ');
    assert Split(text, ' ')[1] == [];
    assert Trim([]) == [];
    assert RemoveChar([], '{') == [];
  }

  /** With nothing, a tab or a newline before the brace, the struct name is the
      declared name followed by that gap. */
  lemma StructNameGap(w: string, gap: string, nl: string)
    requires IsNewLine(nl) && IsPlainWord(w) && IsGap(gap, nl) && gap != " "
    ensures var text := StructText(w, gap);
            ' ' in TrimEnd(TrimStart(text)) && StructName(text) == w + gap
  {
    var name := w + gap;
    assert ' ' !in name && '{' !in name && name[0] == w[0] by {
      assert gap == "" || gap == "\t" || gap == "\n" || gap == "\r\n";
      assert forall k :: 0 <= k < |w| ==> name[k] == w[k];
      assert forall k :: |w| <= k < |name| ==> name[k] == gap[k - |w|];
    }
    assert StructText(w, gap) == "struct" + [' '] + name + "{";
    StructNameOf(StructText(w, gap), name);
    RemoveCharAbsent(name, '{');
  }

  /** `struct`, one space, a plain name, then `{` straight after the name or after one
      space, tab or newline. The extractor finds that one struct; its name is the
      declared one when nothing or a space comes before the brace, and the declared
      name followed by the tab or newline otherwise (the trim comes before the brace
      is removed). */
  lemma StructDeclarationName(w: string, gap: string, nl: string)
    requires IsNewLine(nl) && IsPlainWord(w) && IsGap(gap, nl)
    ensures ExtractText(StructText(w, gap), nl) == [if gap == " " then w else w + gap]
  {
    StructDeclarationMatches(w, gap, nl);
    ExtractSoleStruct(StructText(w, gap), StructHit(w, gap), nl);
    StructDeclarationStructName(w, gap, nl);
  }

  /** A struct declaration is matched once, as a whole, and only as a struct. */
  lemma StructDeclarationMatches(w: string, gap: string, nl: string)
    requires IsNewLine(nl) && IsPlainWord(w) && IsGap(gap, nl)
    ensures SoleStructMatch(StructText(w, gap), StructHit(w, gap), nl)
  {
    StructDeclarationNoConstructor(w, gap, nl);
    StructDeclarationHit(w, gap, nl);
  }

  /** The struct name of a struct declaration: the declared name, followed by the gap
      unless the gap is a space. */
  lemma StructDeclarationStructName(w: string, gap: string, nl: string)
    requires IsNewLine(nl) && IsPlainWord(w) && IsGap(gap, nl)
    ensures var text := StructText(w, gap);
            ' ' in TrimEnd(TrimStart(text)) && StructName(text) == if gap == " " then w else w + gap
  {
    if gap == " " {
      StructNameSpace(w);
    } else {
      StructNameGap(w, gap, nl);
    }
  }

  /** A struct declaration holds no `(`, so no constructor match. */
  lemma StructDeclarationNoConstructor(w: string, gap: string, nl: string)
    requires IsNewLine(nl) && IsPlainWord(w) && IsGap(gap, nl)
    ensures Scan(DefaultConstructor, StructText(w, gap), 0, nl) == []
  {
    StructShape(w, gap, nl);
    NoOpenerNoHit(DefaultConstructor, StructText(w, gap), nl);
  }

  /** Both kinds of declaration count, each from its own file, in listing order: a
      file declaring `public A()` and a file declaring `struct B {` give `[A, B]`. */
  lemma BothKindsContribute(files: map<string, string>, ctorFile: string, structFile: string,
                            a: string, b: string, nl: string)
    requires IsNewLine(nl) && IsPlainWord(a) && IsPlainWord(b)
    requires EndsWith(ctorFile, ".cs") && EndsWith(structFile, ".cs")
    requires ctorFile in files && files[ctorFile] == ConstructorText(" ", a)
    requires structFile in files && files[structFile] == StructText(b, " ")
    ensures TypeNames(files, [ctorFile, structFile], nl) == [a, b]
  {
    assert ExtractText(files[ctorFile], nl) == [a] by {
      ConstructorDeclarationName(" ", a, nl);
    }
    assert ExtractText(files[structFile], nl) == [b] by {
      StructDeclarationName(b, " ", nl);
    }
    ExtractionPair(files, ctorFile, structFile, nl);
  }
}
