/** The two regular expressions the extractor runs over a source file, written as
    hand-made matchers:

      default constructor   public[ ]+\S+([ ]|NL|\t)*\([ ]*\)
      struct declaration    struct[ ]+\S+([ ]|NL|\t)*{

    where NL is the platform newline. `IsHit` reads each pattern as it is written;
    `MatchAt` is the backtracking search .NET performs from one position, and `Scan`
    is `Regex.Matches`: leftmost matches, each search resuming where the last match ended. */
module Patterns {
  import opened Strings
  import opened TextFiles

  datatype Option<T> = None | Some(value: T)

  datatype Pattern = DefaultConstructor | StructDeclaration

  /** The literal a match starts with. */
  function Keyword(pat: Pattern): (kw: string)
    ensures |kw| == 6
  {
    match pat
    case DefaultConstructor => "public"
    case StructDeclaration => "struct"
  }

  /** The character that follows the (ws)* part: `(` or `{`. */
  function Opener(pat: Pattern): (c: char)
    ensures !IsWhiteSpace(c)
  {
    match pat
    case DefaultConstructor => '('
    case StructDeclaration => '{'
  }

  /** Where the parts of one match lie in the text: the keyword at `start`, the spaces
      up to `wordStart`, the `\S+` part up to `wordEnd`, the (ws)* part up to `open`,
      the opening character at `open`, and the match ending just before `end`. */
  datatype Hit = Hit(start: nat, wordStart: nat, wordEnd: nat, open: nat, end: nat)

  /** The newline `nl` stands in `text` at position `i`. */
  predicate NewLineAt(text: string, i: nat, nl: string) {
    i + |nl| <= |text| && text[i..i + |nl|] == nl
  }

  /** `text[i..j]` is generated by `([ ]|NL|\t)*`. */
  predicate WsTokens(text: string, i: nat, j: nat, nl: string)
    decreases j - i
  {
    && i <= j <= |text|
    && (|| i == j
        || ((text[i] == ' ' || text[i] == '\t') && WsTokens(text, i + 1, j, nl))
        || (0 < |nl| && i + |nl| <= j && NewLineAt(text, i, nl) && WsTokens(text, i + |nl|, j, nl)))
  }

  /** What follows the opening character: `[ ]*\)` for a constructor, nothing for a struct. */
  predicate IsTail(pat: Pattern, text: string, open: nat, end: nat) {
    match pat
    case DefaultConstructor =>
      && open + 1 < end <= |text|
      && (forall k :: open + 1 <= k < end - 1 ==> text[k] == ' ')
      && text[end - 1] == ')'
    case StructDeclaration => end == open + 1
  }

  /** `h` marks out a match of `pat` in `text`, as the regular expression reads. */
  predicate IsHit(pat: Pattern, text: string, h: Hit, nl: string) {
    && h.start + 6 < h.wordStart < h.wordEnd <= h.open < h.end <= |text|
    && text[h.start..h.start + 6] == Keyword(pat)
    && (forall k :: h.start + 6 <= k < h.wordStart ==> text[k] == ' ')
    && (forall k :: h.wordStart <= k < h.wordEnd ==> !IsWhiteSpace(text[k]))
    && WsTokens(text, h.wordEnd, h.open, nl)
    && text[h.open] == Opener(pat)
    && IsTail(pat, text, h.open, h.end)
  }

  /** The text of a match, `Match.Value`. */
  function Value(text: string, h: Hit): string
    requires h.start <= h.end <= |text|
  {
    text[h.start..h.end]
  }

  /** The length of the (ws)* alternative that starts at `i`, or 0 if none does. */
  function TokenAt(text: string, i: nat, nl: string): (t: nat)
    ensures i + t <= |text| || t == 0
  {
    if i < |text| && (text[i] == ' ' || text[i] == '\t') then 1
    else if 0 < |nl| && NewLineAt(text, i, nl) then |nl|
    else 0
  }

  /** The end of the run of spaces that starts at `i`. */
  function SkipSpaces(text: string, i: nat): (j: nat)
    requires i <= |text|
    ensures i <= j <= |text|
    ensures forall k :: i <= k < j ==> text[k] == ' '
    ensures j == |text| || text[j] != ' '
    decreases |text| - i
  {
    if i < |text| && text[i] == ' ' then SkipSpaces(text, i + 1) else i
  }

  /** The end of the run of non-white-space characters that starts at `i`. */
  function SkipWord(text: string, i: nat): (j: nat)
    requires i <= |text|
    ensures i <= j <= |text|
    ensures forall k :: i <= k < j ==> !IsWhiteSpace(text[k])
    ensures j == |text| || IsWhiteSpace(text[j])
    decreases |text| - i
  {
    if i < |text| && !IsWhiteSpace(text[i]) then SkipWord(text, i + 1) else i
  }

  /** The greedy (ws)* part starting at `i`: as many alternatives as follow one another. */
  function SkipWs(text: string, i: nat, nl: string): (j: nat)
    requires i <= |text| && IsNewLine(nl)
    ensures i <= j <= |text|
    ensures TokenAt(text, j, nl) == 0
    decreases |text| - i
  {
    var t := TokenAt(text, i, nl);
    if t == 0 then i else SkipWs(text, i + t, nl)
  }

  /** What `SkipWs` passes over is generated by `([ ]|NL|\t)*`. */
  lemma {:induction false} SkipWsTokens(text: string, i: nat, nl: string)
    requires i <= |text| && IsNewLine(nl)
    ensures WsTokens(text, i, SkipWs(text, i, nl), nl)
    decreases |text| - i
  {
    var t := TokenAt(text, i, nl);
    if t != 0 {
      SkipWsTokens(text, i + t, nl);
      assert SkipWs(text, i, nl) == SkipWs(text, i + t, nl);
    }
  }

  /** Where the match ends, if the tail matches behind the opening character at `open`. */
  function TailEnd(pat: Pattern, text: string, open: nat): (e: Option<nat>)
    requires open < |text|
    ensures e.Some? ==> IsTail(pat, text, open, e.value)
  {
    match pat
    case StructDeclaration => Some(open + 1)
    case DefaultConstructor =>
      var c := SkipSpaces(text, open + 1);
      if c < |text| && text[c] == ')' then Some(c + 1) else None
  }

  /** One step of the backtracking: the `\S+` part ends at `len`, and the greedy
      (ws)* part, the opening character and the tail must follow it. */
  function Attempt(pat: Pattern, text: string, start: nat, wordStart: nat, len: nat, nl: string): (r: Option<Hit>)
    requires IsNewLine(nl)
    ensures r.Some? ==> r.value.start == start && r.value.wordStart == wordStart && r.value.wordEnd == len
  {
    if len > |text| then None
    else
      var open := SkipWs(text, len, nl);
      if open < |text| && text[open] == Opener(pat) then
        match TailEnd(pat, text, open)
        case Some(e) => Some(Hit(start, wordStart, len, open, e))
        case None => None
      else None
  }

  /** The attempts for every length of the `\S+` part that starts at `wordStart`. */
  function Attempts(pat: Pattern, text: string, start: nat, wordStart: nat, nl: string): (attempt: nat -> Option<Hit>)
    requires IsNewLine(nl)
    ensures forall l :: attempt(l) == Attempt(pat, text, start, wordStart, l, nl)
  {
    (l: nat) => Attempt(pat, text, start, wordStart, l, nl)
  }

  /** A successful attempt is a match, given that the keyword, the spaces and the
      `\S+` part it was started with are in place. */
  lemma AttemptHit(pat: Pattern, text: string, start: nat, wordStart: nat, len: nat, nl: string)
    requires IsNewLine(nl) && start + 6 < wordStart < len <= |text|
    requires text[start..start + 6] == Keyword(pat)
    requires forall k :: start + 6 <= k < wordStart ==> text[k] == ' '
    requires forall k :: wordStart <= k < len ==> !IsWhiteSpace(text[k])
    ensures Attempt(pat, text, start, wordStart, len, nl).Some? ==> IsHit(pat, text, Attempt(pat, text, start, wordStart, len, nl).value, nl)
  {
    SkipWsTokens(text, len, nl);
  }

  /** The backtracking over the length of `\S+`: the part ends at `len` or, failing
      that, one character earlier, down to one character after `wordStart`; the first
      length whose attempt succeeds wins. */
  function Backtrack(attempt: nat -> Option<Hit>, wordStart: nat, len: nat): Option<Hit>
    decreases len
  {
    if len <= wordStart then None
    else if attempt(len).Some? then attempt(len)
    else Backtrack(attempt, wordStart, len - 1)
  }

  /** The backtracking picks the longest `\S+` part whose attempt succeeds: it returns
      that attempt, every longer one fails, and it returns nothing only when every
      attempt fails. */
  lemma {:induction false} BacktrackLongest(attempt: nat -> Option<Hit>, wordStart: nat, len: nat)
    requires forall l :: attempt(l).Some? ==> attempt(l).value.wordEnd == l
    ensures var r := Backtrack(attempt, wordStart, len);
            && (r.None? ==> forall l :: wordStart < l <= len ==> attempt(l).None?)
            && (r.Some? ==> wordStart < r.value.wordEnd <= len && attempt(r.value.wordEnd) == r)
            && (r.Some? ==> forall l :: r.value.wordEnd < l <= len ==> attempt(l).None?)
    decreases len
  {
    if len > wordStart && attempt(len).None? {
      BacktrackLongest(attempt, wordStart, len - 1);
    }
  }

  /** The match .NET finds when it tries `pat` at position `i` alone. */
  function MatchAt(pat: Pattern, text: string, i: nat, nl: string): (r: Option<Hit>)
    requires IsNewLine(nl)
    ensures r.Some? ==> IsHit(pat, text, r.value, nl) && r.value.start == i
  {
    if i + 6 <= |text| && text[i..i + 6] == Keyword(pat) then
      var p := SkipSpaces(text, i + 6);
      if p == i + 6 then None
      else
        var w := SkipWord(text, p);
        BacktrackHit(pat, text, i, p, w, nl);
        Backtrack(Attempts(pat, text, i, p, nl), p, w)
    else None
  }

  /** What the backtracking finds is a match, given that the keyword, the spaces and the
      `\S+` part it was started with are in place. */
  lemma BacktrackHit(pat: Pattern, text: string, start: nat, wordStart: nat, len: nat, nl: string)
    requires IsNewLine(nl) && start + 6 < wordStart <= len <= |text|
    requires text[start..start + 6] == Keyword(pat)
    requires forall k :: start + 6 <= k < wordStart ==> text[k] == ' '
    requires forall k :: wordStart <= k < len ==> !IsWhiteSpace(text[k])
    ensures var r := Backtrack(Attempts(pat, text, start, wordStart, nl), wordStart, len);
            r.Some? ==> IsHit(pat, text, r.value, nl) && r.value.start == start
  {
    var attempt := Attempts(pat, text, start, wordStart, nl);
    BacktrackLongest(attempt, wordStart, len);
    var r := Backtrack(attempt, wordStart, len);
    if r.Some? {
      AttemptHit(pat, text, start, wordStart, r.value.wordEnd, nl);
    }
  }

  /** A (ws)* part ending where no alternative starts is exactly the greedy one. */
  lemma {:induction false} SkipWsUnique(text: string, i: nat, j: nat, nl: string)
    requires IsNewLine(nl) && i <= j <= |text|
    requires WsTokens(text, i, j, nl) && TokenAt(text, j, nl) == 0
    ensures SkipWs(text, i, nl) == j
    decreases j - i
  {
    if i < j {
      WsTokensFirst(text, i, j, nl);
      var t := TokenAt(text, i, nl);
      SkipWsUnique(text, i + t, j, nl);
      assert SkipWs(text, i, nl) == SkipWs(text, i + t, nl);
    }
  }

  /** A non-empty (ws)* part starts with the alternative `TokenAt` sees, and the rest
      of it is a (ws)* part again. */
  lemma WsTokensFirst(text: string, i: nat, j: nat, nl: string)
    requires IsNewLine(nl) && i < j && WsTokens(text, i, j, nl)
    ensures 0 < TokenAt(text, i, nl) && i + TokenAt(text, i, nl) <= j
    ensures WsTokens(text, i + TokenAt(text, i, nl), j, nl)
  {
    NewLineBreaks(text, i, nl);
  }

  /** A newline starts with a line break. */
  lemma NewLineBreaks(text: string, i: nat, nl: string)
    requires IsNewLine(nl)
    ensures NewLineAt(text, i, nl) ==> i < |text| && IsLineBreak(text[i])
  {
    if NewLineAt(text, i, nl) {
      assert text[i] == text[i..i + |nl|][0];
    }
  }

  /** A position holding a non-white-space character (or the end) starts no (ws)* alternative. */
  lemma NoTokenAtWord(text: string, j: nat, nl: string)
    requires IsNewLine(nl) && j <= |text|
    requires j == |text| || !IsWhiteSpace(text[j])
    ensures TokenAt(text, j, nl) == 0
  {
  }

  /** A match is fixed by where it starts and by the length of its `\S+` part. */
  lemma HitDeterminedByWord(pat: Pattern, text: string, h1: Hit, h2: Hit, nl: string)
    requires IsNewLine(nl)
    requires IsHit(pat, text, h1, nl) && IsHit(pat, text, h2, nl)
    requires h1.start == h2.start && h1.wordEnd == h2.wordEnd
    ensures h1 == h2
  {
    SpacesUnique(text, h1.start + 6, h1.wordStart, h2.wordStart);
    AttemptAtWordEnd(pat, text, h1, nl);
    AttemptAtWordEnd(pat, text, h2, nl);
  }

  /** Two runs of spaces from `i`, each followed by a non-space, end at the same place. */
  lemma SpacesUnique(text: string, i: nat, j1: nat, j2: nat)
    requires i <= j1 < |text| && i <= j2 < |text|
    requires forall k :: i <= k < j1 ==> text[k] == ' '
    requires forall k :: i <= k < j2 ==> text[k] == ' '
    requires text[j1] != ' ' && text[j2] != ' '
    ensures j1 == j2
  {
  }

  /** Trying the length of `h`'s own `\S+` part gives back `h`. */
  lemma AttemptAtWordEnd(pat: Pattern, text: string, h: Hit, nl: string)
    requires IsNewLine(nl) && IsHit(pat, text, h, nl)
    ensures Attempt(pat, text, h.start, h.wordStart, h.wordEnd, nl) == Some(h)
  {
    NoTokenAtWord(text, h.open, nl);
    SkipWsUnique(text, h.wordEnd, h.open, nl);
    if pat == DefaultConstructor {
      SpacesUnique(text, h.open + 1, h.end - 1, SkipSpaces(text, h.open + 1));
    }
  }

  /** The backtracking, started at any length at least that of `h`'s `\S+` part,
      finds a match whose `\S+` part is at least as long. */
  lemma BacktrackFinds(pat: Pattern, text: string, h: Hit, len: nat, nl: string)
    requires IsNewLine(nl) && IsHit(pat, text, h, nl)
    requires h.wordEnd <= len <= |text|
    ensures var r := Backtrack(Attempts(pat, text, h.start, h.wordStart, nl), h.wordStart, len);
            r.Some? && r.value.wordEnd >= h.wordEnd
  {
    var attempt := Attempts(pat, text, h.start, h.wordStart, nl);
    AttemptAtWordEnd(pat, text, h, nl);
    assert attempt(h.wordEnd).Some?;
    BacktrackLongest(attempt, h.wordStart, len);
  }

  /** `MatchAt` is complete and greedy: whenever some match of `pat` starts at a
      position, `MatchAt` finds one there, and no match has a longer `\S+` part. With
      `HitDeterminedByWord` this makes it the match the regular expression engine picks. */
  lemma MatchAtFinds(pat: Pattern, text: string, h: Hit, nl: string)
    requires IsNewLine(nl) && IsHit(pat, text, h, nl)
    ensures MatchAt(pat, text, h.start, nl).Some?
    ensures MatchAt(pat, text, h.start, nl).value.wordEnd >= h.wordEnd
  {
    var p := SkipSpaces(text, h.start + 6);
    SpacesUnique(text, h.start + 6, h.wordStart, p);
    var q := SkipWord(text, p);
    BacktrackFinds(pat, text, h, q, nl);
  }

  /** `Regex.Matches(text)` from position `from`: the leftmost match, then the search
      goes on where it ended. */
  function Scan(pat: Pattern, text: string, from: nat, nl: string): (hits: seq<Hit>)
    requires IsNewLine(nl) && from <= |text|
    ensures forall k :: 0 <= k < |hits| ==> IsHit(pat, text, hits[k], nl) && from <= hits[k].start
    ensures forall k :: 0 <= k < |hits| ==> MatchAt(pat, text, hits[k].start, nl) == Some(hits[k])
    ensures forall k :: 0 <= k < |hits| - 1 ==> hits[k].end <= hits[k + 1].start
    decreases |text| - from
  {
    if from == |text| then []
    else
      match MatchAt(pat, text, from, nl)
      case None => Scan(pat, text, from + 1, nl)
      case Some(h) =>
        var rest := Scan(pat, text, h.end, nl);
        PrependHitValid(pat, text, from, h, rest, nl);
        PrependHitFound(pat, text, h, rest, nl);
        PrependHitOrdered(h, rest);
        [h] + rest
  }

  /** A match found at `from`, put in front of the matches found from where it ends,
      keeps the properties `Scan` promises: each is a match at or after `from`, ... */
  lemma PrependHitValid(pat: Pattern, text: string, from: nat, h: Hit, rest: seq<Hit>, nl: string)
    requires IsHit(pat, text, h, nl) && from <= h.start
    requires forall k :: 0 <= k < |rest| ==> IsHit(pat, text, rest[k], nl) && h.end <= rest[k].start
    ensures forall k :: 0 <= k < |[h] + rest| ==> IsHit(pat, text, ([h] + rest)[k], nl) && from <= ([h] + rest)[k].start
  {
    var hits := [h] + rest;
    forall k | 0 <= k < |hits|
      ensures IsHit(pat, text, hits[k], nl) && from <= hits[k].start
    {
      if k > 0 {
        assert hits[k] == rest[k - 1];
      }
    }
  }

  /** ... each is the match `MatchAt` finds where it starts, ... */
  lemma PrependHitFound(pat: Pattern, text: string, h: Hit, rest: seq<Hit>, nl: string)
    requires IsNewLine(nl)
    requires MatchAt(pat, text, h.start, nl) == Some(h)
    requires forall k :: 0 <= k < |rest| ==> MatchAt(pat, text, rest[k].start, nl) == Some(rest[k])
    ensures forall k :: 0 <= k < |[h] + rest| ==> MatchAt(pat, text, ([h] + rest)[k].start, nl) == Some(([h] + rest)[k])
  {
    var hits := [h] + rest;
    forall k | 0 <= k < |hits|
      ensures MatchAt(pat, text, hits[k].start, nl) == Some(hits[k])
    {
      if k > 0 {
        assert hits[k] == rest[k - 1];
      }
    }
  }

  /** ... and none overlaps the next. */
  lemma PrependHitOrdered(h: Hit, rest: seq<Hit>)
    requires forall k :: 0 <= k < |rest| ==> h.end <= rest[k].start
    requires forall k :: 0 <= k < |rest| - 1 ==> rest[k].end <= rest[k + 1].start
    ensures forall k :: 0 <= k < |[h] + rest| - 1 ==> ([h] + rest)[k].end <= ([h] + rest)[k + 1].start
  {
    var hits := [h] + rest;
    forall k | 0 <= k < |hits| - 1
      ensures hits[k].end <= hits[k + 1].start
    {
      assert hits[k + 1] == rest[k];
      if k > 0 {
        assert hits[k] == rest[k - 1];
      }
    }
  }

  /** Some hit of `hits` spans position `pos`. */
  predicate Covers(hits: seq<Hit>, pos: nat) {
    exists k :: 0 <= k < |hits| && hits[k].start <= pos < hits[k].end
  }

  /** The step `Scan` takes from every position below `n`, with the matcher left
      abstract: `find(i)` is the match found at `i` and `scan(i)` the matches found from
      `i` on. */
  ghost predicate ScanSteps(find: nat -> Option<Hit>, scan: nat -> seq<Hit>, n: nat) {
    forall i: nat :: i < n ==>
      (find(i).None? ==> scan(i) == scan(i + 1)) &&
      (find(i).Some? ==> find(i).value.start == i < find(i).value.end <= n &&
                         scan(i) == [find(i).value] + scan(find(i).value.end))
  }

  /** A search that steps like `Scan` covers every position where the matcher succeeds. */
  lemma {:induction false} StepsCover(find: nat -> Option<Hit>, scan: nat -> seq<Hit>, n: nat, from: nat, pos: nat)
    requires ScanSteps(find, scan, n) && from <= pos < n && find(pos).Some?
    ensures Covers(scan(from), pos)
    decreases n - from
  {
    var m := find(from);
    if m.None? {
      assert from != pos;
      StepsCover(find, scan, n, from + 1, pos);
    } else if pos < m.value.end {
      CoversFirst(m.value, scan(m.value.end), pos);
    } else {
      StepsCover(find, scan, n, m.value.end, pos);
      CoversRest(m.value, scan(m.value.end), pos);
    }
  }

  /** Nothing is missed: every match of `pat` that starts at or after `from` starts
      inside one of the matches `Scan` returns. */
  lemma ScanMissesNothing(pat: Pattern, text: string, from: nat, h: Hit, nl: string)
    requires IsNewLine(nl) && from <= |text|
    requires IsHit(pat, text, h, nl) && from <= h.start
    ensures Covers(Scan(pat, text, from, nl), h.start)
  {
    MatchAtFinds(pat, text, h, nl);
    ScanCovers(pat, text, from, h.start, nl);
  }

  /** Every position at or after `from` where `MatchAt` succeeds lies within one of the
      matches `Scan` returns. */
  lemma ScanCovers(pat: Pattern, text: string, from: nat, pos: nat, nl: string)
    requires IsNewLine(nl) && from <= pos < |text| && MatchAt(pat, text, pos, nl).Some?
    ensures Covers(Scan(pat, text, from, nl), pos)
  {
    var find := (i: nat) => MatchAt(pat, text, i, nl);
    var scan := (i: nat) => if i <= |text| then Scan(pat, text, i, nl) else [];
    forall i: nat | i < |text|
      ensures find(i).None? ==> scan(i) == scan(i + 1)
      ensures find(i).Some? ==> find(i).value.start == i < find(i).value.end <= |text| &&
                                scan(i) == [find(i).value] + scan(find(i).value.end)
    {
      ScanAt(pat, text, i, nl);
    }
    StepsCover(find, scan, |text|, from, pos);
  }

  /** One step of `Scan` from a position inside the text: past it when no match starts
      there, behind the match otherwise. */
  lemma ScanAt(pat: Pattern, text: string, from: nat, nl: string)
    requires IsNewLine(nl) && from < |text|
    ensures MatchAt(pat, text, from, nl).None? ==> Scan(pat, text, from, nl) == Scan(pat, text, from + 1, nl)
    ensures MatchAt(pat, text, from, nl).Some? ==>
              var m := MatchAt(pat, text, from, nl).value;
              m.start == from < m.end <= |text| && Scan(pat, text, from, nl) == [m] + Scan(pat, text, m.end, nl)
  {
  }

  lemma CoversFirst(m: Hit, rest: seq<Hit>, pos: nat)
    requires m.start <= pos < m.end
    ensures Covers([m] + rest, pos)
  {
    assert ([m] + rest)[0] == m;
  }

  lemma CoversRest(m: Hit, rest: seq<Hit>, pos: nat)
    requires Covers(rest, pos)
    ensures Covers([m] + rest, pos)
  {
    var k :| 0 <= k < |rest| && rest[k].start <= pos < rest[k].end;
    assert ([m] + rest)[k + 1] == rest[k];
  }
}
