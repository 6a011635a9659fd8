/**
 The masker of the unsafe-code inventory: it blanks comments, strings and character
 literals of Rust source text so that a pattern found in the result is real code, at the
 same position and on the same line as in the original.
 */
module SourceMasker {
  import opened Common
  import opened Lexemes

  // ---------------------------------------------------------------- tokens

  datatype Token = Token(end: nat, masked: bool)

  /** The longest character literal that is masked, quotes included. */
  const MAX_CHAR_LITERAL: nat := 8

  predicate IsCharLiteral(text: string, i: nat)
    requires i < |text|
  {
    text[i] == '\'' && i + 1 < |text| && text[i + 1] != '_' && QuotedEnd(text, i + 1, '\'') - i <= MAX_CHAR_LITERAL
  }

  /** What starts at `i`: something to mask, or a single character to keep. */
  function Next(text: string, i: nat): (t: Token)
    requires i < |text|
    ensures i < t.end <= |text|
    ensures !t.masked ==> t.end == i + 1
  {
    assert StartsWith(text, "//", i) ==> text[i..i + 2][0] == '/';
    if RawStringEnd(text, i).Some? then Token(RawStringEnd(text, i).value, true)
    else if StartsWith(text, "//", i) then Token(LineEnd(text, i), true)
    else if StartsWith(text, "/*", i) then Token(BlockCommentEnd(text, i + 2, 1), true)
    else if text[i] == '"' then Token(QuotedEnd(text, i + 1, '"'), true)
    else if StartsWith(text, "b\"", i) || StartsWith(text, "c\"", i) then Token(QuotedEnd(text, i + 2, '"'), true)
    else if IsCharLiteral(text, i) then Token(QuotedEnd(text, i + 1, '\''), true)
    else Token(i + 1, false)
  }

  ghost predicate OpensRawString(text: string, i: nat)
  {
    exists p, n :: OpensRaw(text, i, p, n)
  }

  ghost predicate OpensString(text: string, i: nat)
    requires i < |text|
  {
    text[i] == '"' || StartsWith(text, "b\"", i) || StartsWith(text, "c\"", i)
  }

  /** A quote whose partner, the next quote that is not escaped, or the end of the text is near. */
  ghost predicate OpensChar(text: string, i: nat)
    requires i < |text|
  {
    text[i] == '\'' && i + 1 < |text| && text[i + 1] != '_'
    && exists e :: ClosesNear(text, i, e)
  }

  ghost predicate ClosesNear(text: string, i: nat, e: nat)
  {
    EndsQuoted(text, i + 1, '\'', e) && e <= i + 8
  }

  /**
   What a token is, by what opens at `i`: a raw string up to its marker, a line comment up to
   the newline, a nested comment, a string or a character literal up to the first quote that
   is not escaped. Where nothing opens, one character is kept.
   */
  ghost predicate IsToken(text: string, i: nat, t: Token)
    requires i < |text|
  {
    && (OpensRawString(text, i) ==>
          t.masked && forall p, n :: OpensRaw(text, i, p, n) ==> EndsRaw(text, i + p + n + 1, n, t.end))
    && (StartsWith(text, "//", i) ==> t.masked && EndsLine(text, i, t.end))
    && (StartsWith(text, "/*", i) ==> t.masked && EndsComment(text, i, t.end))
    && (!OpensRawString(text, i) && OpensString(text, i) ==>
          t.masked && EndsQuoted(text, if text[i] == '"' then i + 1 else i + 2, '"', t.end))
    && (OpensChar(text, i) ==> t.masked && EndsQuoted(text, i + 1, '\'', t.end))
    && (t.masked <==>
          || OpensRawString(text, i) || StartsWith(text, "//", i) || StartsWith(text, "/*", i)
          || OpensString(text, i) || OpensChar(text, i))
    && (!t.masked ==> t.end == i + 1)
  }

  function Blank(c: char): char
  {
    if c == '\n' then '\n' else ' '
  }

  function Blanked(s: string): (r: string)
    ensures |r| == |s| && forall i :: 0 <= i < |s| ==> r[i] == Blank(s[i])
  {
    seq(|s|, i requires 0 <= i < |s| => Blank(s[i]))
  }

  // ---------------------------------------------------------------- masking with any tokenisation

  /** Tokens are nonempty and stay inside a text of length `n`; a kept token is one character. */
  ghost predicate WellFormed(n: nat, next: nat -> Token)
  {
    && (forall i :: 0 <= i < n ==> i < next(i).end <= n)
    && (forall i :: 0 <= i < n && !next(i).masked ==> next(i).end == i + 1)
  }

  /** The masked text from position `i` on, where a token starts. */
  function MaskFrom(text: string, next: nat -> Token, i: nat): (r: string)
    requires WellFormed(|text|, next) && i <= |text|
    ensures |r| == |text| - i
    decreases |text| - i
  {
    if i == |text| then ""
    else (if next(i).masked then Blanked(text[i..next(i).end]) else [text[i]]) + MaskFrom(text, next, next(i).end)
  }

  /** The start of the token that `p` belongs to, when tokens are read from `i` on. */
  ghost function Owner(n: nat, next: nat -> Token, i: nat, p: nat): (o: nat)
    requires WellFormed(n, next) && i <= p < n
    ensures i <= o <= p && p < next(o).end
    decreases p - i
  {
    if p < next(i).end then i else Owner(n, next, next(i).end, p)
  }

  lemma {:induction false} MaskAt(text: string, next: nat -> Token, i: nat, p: nat)
    requires WellFormed(|text|, next) && i <= p < |text|
    ensures MaskFrom(text, next, i)[p - i] == if next(Owner(|text|, next, i, p)).masked then Blank(text[p]) else text[p]
    decreases p - i
  {
    var e := next(i).end;
    var piece := if next(i).masked then Blanked(text[i..e]) else [text[i]];
    var rest := MaskFrom(text, next, e);
    assert MaskFrom(text, next, i) == piece + rest;
    if p < e {
      assert (piece + rest)[p - i] == piece[p - i];
    } else {
      assert (piece + rest)[p - i] == rest[p - e];
      MaskAt(text, next, e, p);
    }
  }

  /** The next position either has the same owner or owns itself. */
  lemma {:induction false} NextOwner(n: nat, next: nat -> Token, i: nat, p: nat)
    requires WellFormed(n, next) && i <= p && p + 1 < n
    ensures var o := Owner(n, next, i, p);
            Owner(n, next, i, p + 1) == if p + 1 < next(o).end then o else p + 1
    decreases p - i
  {
    if p >= next(i).end {
      NextOwner(n, next, next(i).end, p);
    }
  }

  /** Position `p` is kept: the token that owns it is not masked. */
  ghost predicate KeptAt(text: string, next: nat -> Token, p: nat)
    requires WellFormed(|text|, next) && p < |text|
  {
    !next(Owner(|text|, next, 0, p)).masked
  }

  lemma KeptOwnsItself(text: string, next: nat -> Token, p: nat)
    requires WellFormed(|text|, next) && p < |text| && KeptAt(text, next, p)
    ensures Owner(|text|, next, 0, p) == p && !next(p).masked
  {
  }

  /** `out` is `text` with the kept characters kept and the others blanked. */
  ghost predicate Masks(text: string, next: nat -> Token, out: string)
    requires WellFormed(|text|, next)
  {
    |out| == |text| && forall p :: 0 <= p < |text| ==>
        out[p] == if KeptAt(text, next, p) then text[p] else Blank(text[p])
  }

  lemma MaskFromMasks(text: string, next: nat -> Token)
    requires WellFormed(|text|, next)
    ensures Masks(text, next, MaskFrom(text, next, 0))
  {
    var out := MaskFrom(text, next, 0);
    forall p | 0 <= p < |text| ensures out[p] == if KeptAt(text, next, p) then text[p] else Blank(text[p]) {
      MaskAt(text, next, 0, p);
    }
  }

  // ---------------------------------------------------------------- what the scanner's tokens guarantee

  /** Every quote and every comment opener that starts a token is masked. */
  ghost predicate MasksOpeners(text: string, next: nat -> Token)
  {
    && (forall i :: 0 <= i < |text| && text[i] == '"' ==> next(i).masked)
    && (forall i :: 0 <= i < |text| - 1 && StartsComment(text, i) ==> next(i).masked)
  }

  predicate StartsComment(text: string, i: nat)
    requires i + 1 < |text|
  {
    text[i] == '/' && (text[i + 1] == '/' || text[i + 1] == '*')
  }

  /** A masked token never ends in a backslash that could hide what follows, unless a newline follows. */
  ghost predicate EndsVisibly(text: string, next: nat -> Token)
  {
    forall i :: 0 <= i < |text| && next(i).masked ==> EndIsVisible(text, next(i).end)
  }

  predicate EndIsVisible(text: string, e: nat)
  {
    0 < e < |text| ==> text[e - 1] != '\\' || text[e] == '\n'
  }

  /** A single quote that is kept closes far away, or an underscore or nothing follows; underscores are kept. */
  ghost predicate KeepsLifetimes(text: string, next: nat -> Token)
  {
    forall i :: 0 <= i < |text| ==> KeepsLifetime(text, next(i), i)
  }

  ghost predicate KeepsLifetime(text: string, t: Token, i: nat)
    requires i < |text|
  {
    && (text[i] == '\'' && !t.masked ==> !IsCharLiteral(text, i))
    && (text[i] == '_' ==> !t.masked)
  }

  ghost predicate IsLexer(text: string, next: nat -> Token)
  {
    && WellFormed(|text|, next) && MasksOpeners(text, next)
    && EndsVisibly(text, next) && KeepsLifetimes(text, next)
  }

  // ---------------------------------------------------------------- nothing masked is left to open

  lemma NoQuoteIsLeft(text: string, next: nat -> Token, out: string, p: nat)
    requires IsLexer(text, next) && Masks(text, next, out) && p < |text|
    ensures out[p] != '"'
  {
    if KeptAt(text, next, p) {
      KeptOwnsItself(text, next, p);
    }
  }

  lemma NoCommentIsLeft(text: string, next: nat -> Token, out: string, p: nat)
    requires IsLexer(text, next) && Masks(text, next, out) && p + 1 < |text|
    ensures !StartsComment(out, p)
  {
    if KeptAt(text, next, p) && KeptAt(text, next, p + 1) {
      KeptOwnsItself(text, next, p);
      assert !StartsComment(text, p);
    }
  }

  /** What follows a masked backslash is blank in the result. */
  lemma BlankAfterBackslash(text: string, next: nat -> Token, out: string, q: nat)
    requires IsLexer(text, next) && Masks(text, next, out)
    requires q + 1 < |text| && text[q] == '\\' && !KeptAt(text, next, q)
    ensures out[q + 1] == ' ' || out[q + 1] == '\n'
  {
    var o := Owner(|text|, next, 0, q);
    NextOwner(|text|, next, 0, q);
    assert EndIsVisible(text, next(o).end);
  }

  /** Masking never brings a closing quote nearer. */
  lemma {:induction false} MaskingDelaysQuote(text: string, next: nat -> Token, out: string, q: nat)
    requires IsLexer(text, next) && Masks(text, next, out)
    ensures QuotedEnd(text, q, '\'') <= QuotedEnd(out, q, '\'')
    decreases if q < |text| then |text| - q else 0
  {
    if q < |text| {
      if KeptAt(text, next, q) {
        MaskingDelaysQuote(text, next, out, if text[q] == '\\' then q + 2 else q + 1);
      } else if text[q] == '\\' {
        if q + 1 < |text| {
          BlankAfterBackslash(text, next, out, q);
          MaskingDelaysQuote(text, next, out, q + 2);
        }
      } else {
        MaskingDelaysQuote(text, next, out, q + 1);
      }
    }
  }

  lemma NoCharLiteralIsLeft(text: string, next: nat -> Token, out: string, p: nat)
    requires IsLexer(text, next) && Masks(text, next, out) && p < |text|
    ensures !IsCharLiteral(out, p)
  {
    if KeptAt(text, next, p) && text[p] == '\'' && p + 1 < |text| {
      KeptQuoteStaysALifetime(text, next, out, p);
    } else {
      assert text[p] == '\'' && p + 1 < |text| ==> out[p] == Blank(text[p]);
    }
  }

  lemma KeptQuoteStaysALifetime(text: string, next: nat -> Token, out: string, p: nat)
    requires IsLexer(text, next) && Masks(text, next, out)
    requires p + 1 < |text| && text[p] == '\'' && KeptAt(text, next, p)
    ensures !IsCharLiteral(out, p)
  {
    KeptQuoteIsALifetime(text, next, p);
    if text[p + 1] == '_' {
      KeptOwnsItself(text, next, p);
      UnderscoreStays(text, next, out, p);
    } else {
      MaskingDelaysQuote(text, next, out, p + 1);
    }
    StaysALifetime(text, out, p);
  }

  lemma KeptQuoteIsALifetime(text: string, next: nat -> Token, p: nat)
    requires IsLexer(text, next) && p + 1 < |text| && text[p] == '\'' && KeptAt(text, next, p)
    ensures text[p + 1] != '_' ==> QuotedEnd(text, p + 1, '\'') - p > MAX_CHAR_LITERAL
  {
    KeptOwnsItself(text, next, p);
    assert KeepsLifetime(text, next(p), p);
  }

  lemma StaysALifetime(text: string, out: string, p: nat)
    requires p + 1 < |text| == |out|
    requires text[p + 1] == '_' ==> out[p + 1] == '_'
    requires text[p + 1] != '_' ==>
              MAX_CHAR_LITERAL < QuotedEnd(text, p + 1, '\'') - p <= QuotedEnd(out, p + 1, '\'') - p
    ensures !IsCharLiteral(out, p)
  {
  }

  /** An underscore behind a kept character is kept too. */
  lemma UnderscoreStays(text: string, next: nat -> Token, out: string, p: nat)
    requires IsLexer(text, next) && Masks(text, next, out)
    requires p + 1 < |text| && Owner(|text|, next, 0, p) == p && !next(p).masked
    ensures text[p + 1] == '_' ==> out[p + 1] == '_'
  {
    NextOwner(|text|, next, 0, p);
    assert KeepsLifetime(text, next(p + 1), p + 1);
  }

  // ---------------------------------------------------------------- the scanner's tokens are such a tokenisation

  lemma {:induction false} QuotedEndsInQuote(text: string, c: nat, quote: char)
    ensures QuotedEnd(text, c, quote) < |text| ==>
              c < QuotedEnd(text, c, quote) && text[QuotedEnd(text, c, quote) - 1] == quote
    decreases if c < |text| then |text| - c else 0
  {
    if c < |text| {
      if text[c] == '\\' {
        QuotedEndsInQuote(text, c + 2, quote);
      } else if text[c] != quote {
        QuotedEndsInQuote(text, c + 1, quote);
      }
    }
  }

  lemma {:induction false} BlockEndsInSlash(text: string, c: nat, depth: nat)
    requires c <= |text| && depth > 0
    ensures var e := BlockCommentEnd(text, c, depth);
            e < |text| ==> c < e && text[e - 1] == '/'
    decreases |text| - c
  {
    if c < |text| {
      PairAt(text, c, '/', '*');
      PairAt(text, c, '*', '/');
      if Opens(text, c) {
        BlockEndsInSlash(text, c + 2, depth + 1);
      } else if Closes(text, c) {
        if depth > 1 {
          BlockEndsInSlash(text, c + 2, depth - 1);
        }
      } else {
        BlockEndsInSlash(text, c + 1, depth);
      }
    }
  }

  lemma RawEndsInMarker(text: string, i: nat)
    ensures var r := RawStringEnd(text, i);
            r.Some? && r.value < |text| ==> text[r.value - 1] == '"' || text[r.value - 1] == '#'
  {
    var r := RawStringEnd(text, i);
    RawStringMeans(text, i);
    if r.Some? && r.value < |text| {
      var p, n :| OpensRaw(text, i, p, n);
      assert EndsRaw(text, i + p + n + 1, n, r.value);
    }
  }

  lemma TokenEndIsVisible(text: string, o: nat)
    requires o < |text| && Next(text, o).masked
    ensures EndIsVisible(text, Next(text, o).end)
  {
    if RawStringEnd(text, o).Some? {
      RawEndsInMarker(text, o);
    } else if StartsWith(text, "//", o) {
    } else if StartsWith(text, "/*", o) {
      BlockEndsInSlash(text, o + 2, 1);
    } else if text[o] == '"' {
      QuotedEndsInQuote(text, o + 1, '"');
    } else if StartsWith(text, "b\"", o) || StartsWith(text, "c\"", o) {
      QuotedEndsInQuote(text, o + 2, '"');
    } else {
      QuotedEndsInQuote(text, o + 1, '\'');
    }
  }

  lemma CommentIsMasked(text: string, i: nat)
    requires i + 1 < |text| && StartsComment(text, i)
    ensures Next(text, i).masked
  {
    assert text[i..i + 2] == [text[i], text[i + 1]];
  }

  lemma UnderscoreIsKept(text: string, p: nat)
    requires p < |text| && text[p] == '_'
    ensures !Next(text, p).masked
  {
    assert text[p..p + 1] == "_";
    assert p + 1 < |text| ==> text[p..p + 2][0] == '_';
  }

  /** The scanner as a function of the position. */
  function Tokens(text: string): nat -> Token
  {
    (i: nat) => if i < |text| then Next(text, i) else Token(i + 1, false)
  }

  lemma ScannerIsWellFormed(text: string)
    ensures WellFormed(|text|, Tokens(text))
  {
  }

  lemma ScannerMasksOpeners(text: string)
    ensures MasksOpeners(text, Tokens(text))
  {
    forall i | 0 <= i < |text| - 1 && StartsComment(text, i) ensures Tokens(text)(i).masked {
      CommentIsMasked(text, i);
    }
  }

  lemma ScannerEndsVisibly(text: string)
    ensures EndsVisibly(text, Tokens(text))
  {
    forall i | 0 <= i < |text| && Tokens(text)(i).masked ensures EndIsVisible(text, Tokens(text)(i).end) {
      TokenEndIsVisible(text, i);
    }
  }

  lemma ScannerKeepsLifetimes(text: string)
    ensures KeepsLifetimes(text, Tokens(text))
  {
    forall i | 0 <= i < |text| ensures KeepsLifetime(text, Tokens(text)(i), i) {
      if text[i] == '_' {
        UnderscoreIsKept(text, i);
      }
    }
  }

  lemma ScannerIsLexer(text: string)
    ensures IsLexer(text, Tokens(text))
  {
    ScannerIsWellFormed(text);
    ScannerMasksOpeners(text);
    ScannerEndsVisibly(text);
    ScannerKeepsLifetimes(text);
  }

  // ---------------------------------------------------------------- theorems

  /** The text with comments, strings and character literals masked. */
  function Strip(text: string): (r: string)
    ensures |r| == |text|
  {
    ScannerIsWellFormed(text);
    MaskFrom(text, Tokens(text), 0)
  }

  /** What the scanner's result is made of. */
  lemma StripMasks(text: string)
    ensures IsLexer(text, Tokens(text)) && Masks(text, Tokens(text), Strip(text))
  {
    ScannerIsLexer(text);
    MaskFromMasks(text, Tokens(text));
  }

  /** Newlines stay exactly where they are, and every other character is unchanged or a space. */
  lemma PositionsAreKept(text: string, p: nat)
    requires p < |text|
    ensures Strip(text)[p] == '\n' <==> text[p] == '\n'
    ensures Strip(text)[p] == text[p] || Strip(text)[p] == ' '
  {
    StripMasks(text);
  }

  /** The result holds no double quote and no comment opener: no masked text is left to open. */
  lemma NothingIsLeftToOpen(text: string, p: nat)
    requires p < |text|
    ensures Strip(text)[p] != '"'
    ensures p + 1 < |text| ==> !StartsComment(Strip(text), p)
  {
    StripMasks(text);
    NoQuoteIsLeft(text, Tokens(text), Strip(text), p);
    if p + 1 < |text| {
      NoCommentIsLeft(text, Tokens(text), Strip(text), p);
    }
  }

  lemma NoRawString(out: string, p: nat)
    requires forall c :: 0 <= c < |out| ==> out[c] != '"'
    ensures RawStringEnd(out, p).None?
  {
  }

  /** In a text without quotes, comment openers and character literals there is nothing to mask. */
  lemma NothingStarts(out: string, p: nat)
    requires p < |out|
    requires forall c :: 0 <= c < |out| ==> out[c] != '"'
    requires p + 1 < |out| ==> !StartsComment(out, p)
    requires !IsCharLiteral(out, p)
    ensures Next(out, p) == Token(p + 1, false)
  {
    NoRawString(out, p);
    if p + 1 < |out| {
      assert out[p..p + 2] == [out[p], out[p + 1]];
    }
  }

  lemma {:induction false} MaskOfKept(out: string, next: nat -> Token, i: nat)
    requires WellFormed(|out|, next) && i <= |out| && forall p :: 0 <= p < |out| ==> !next(p).masked
    ensures MaskFrom(out, next, i) == out[i..]
    decreases |out| - i
  {
    if i < |out| {
      MaskOfKept(out, next, i + 1);
      assert out[i..] == [out[i]] + out[i + 1..];
    }
  }

  /** Masking is idempotent: in the result there is nothing left to mask. */
  lemma StripIsIdempotent(text: string)
    ensures Strip(Strip(text)) == Strip(text)
  {
    var out := Strip(text);
    ScannerIsWellFormed(out);
    forall p | 0 <= p < |out| ensures !Tokens(out)(p).masked {
      NothingStartsInResult(text, p);
    }
    MaskOfKept(out, Tokens(out), 0);
  }

  lemma NothingStartsInResult(text: string, p: nat)
    requires p < |text|
    ensures Next(Strip(text), p) == Token(p + 1, false)
  {
    var out := Strip(text);
    forall c | 0 <= c < |out| ensures out[c] != '"' {
      NothingIsLeftToOpen(text, c);
    }
    NothingIsLeftToOpen(text, p);
    StripMasks(text);
    NoCharLiteralIsLeft(text, Tokens(text), out, p);
    NothingStarts(out, p);
  }

  // ---------------------------------------------------------------- line numbers

  function Newlines(text: string): nat
  {
    if text == "" then 0 else Newlines(text[..|text| - 1]) + if text[|text| - 1] == '\n' then 1 else 0
  }

  ghost function NewlinePlaces(text: string): set<nat>
  {
    set i: nat | i < |text| && text[i] == '\n'
  }

  lemma {:induction false} NewlinesAreCounted(text: string)
    ensures Newlines(text) == |NewlinePlaces(text)|
  {
    if text != "" {
      var n := |text| - 1;
      NewlinesAreCounted(text[..n]);
      assert NewlinePlaces(text) == NewlinePlaces(text[..n]) + if text[n] == '\n' then {n} else {};
    }
  }

  /** The offsets at which lines start. */
  function LineStarts(text: string): (starts: seq<nat>)
    ensures |starts| == 1 + Newlines(text)
  {
    if text == "" then [0]
    else
      var n := |text| - 1;
      LineStarts(text[..n]) + if text[n] == '\n' then [n + 1] else []
  }

  ghost predicate Increasing(s: seq<nat>, bound: nat)
  {
    && (forall i :: 0 <= i < |s| ==> s[i] <= bound)
    && (forall i, j :: 0 <= i < j < |s| ==> s[i] < s[j])
  }

  lemma {:induction false} LineStartsIncrease(text: string)
    ensures Increasing(LineStarts(text), |text|)
  {
    if text != "" {
      var n := |text| - 1;
      LineStartsIncrease(text[..n]);
      var t := LineStarts(text[..n]);
      assert LineStarts(text) == t + if text[n] == '\n' then [n + 1] else [];
    }
  }

  /** The line starts of a prefix are the first line starts of the text, and they are those up to its end. */
  lemma {:induction false} LineStartsOfPrefix(text: string, offset: nat)
    requires offset <= |text|
    ensures var s, k := LineStarts(text), 1 + Newlines(text[..offset]);
            && k <= |s|
            && (forall i :: 0 <= i < k ==> s[i] <= offset)
            && (forall i :: k <= i < |s| ==> s[i] > offset)
  {
    LineStartsIncrease(text);
    if offset == |text| {
      assert text[..offset] == text;
    } else {
      var n := |text| - 1;
      LineStartsOfPrefix(text[..n], offset);
      assert text[..n][..offset] == text[..offset];
    }
  }

  lemma {:induction false} NewlinesAgree(a: string, b: string)
    requires |a| == |b| && forall i :: 0 <= i < |a| ==> (a[i] == '\n' <==> b[i] == '\n')
    ensures Newlines(a) == Newlines(b)
  {
    if a != "" {
      NewlinesAgree(a[..|a| - 1], b[..|b| - 1]);
    }
  }

  /** Bisection to the right: how many starts are at most `offset`. */
  method LineFor(starts: seq<nat>, offset: nat) returns (line: nat)
    requires forall i, j :: 0 <= i < j < |starts| ==> starts[i] < starts[j]
    ensures line <= |starts|
    ensures forall i :: 0 <= i < line ==> starts[i] <= offset
    ensures forall i :: line <= i < |starts| ==> offset < starts[i]
    ensures line > 0 ==> starts[line - 1] <= offset
    ensures line < |starts| ==> offset < starts[line]
  {
    var lo, hi := 0, |starts|;
    while lo < hi
      invariant 0 <= lo <= hi <= |starts|
      invariant forall i :: 0 <= i < lo ==> starts[i] <= offset
      invariant forall i :: hi <= i < |starts| ==> offset < starts[i]
    {
      var mid := (lo + hi) / 2;
      if offset < starts[mid] {
        hi := mid;
      } else {
        lo := mid + 1;
      }
    }
    return lo;
  }

  /** The line reported for an offset in the masked text is that offset's line in the original. */
  method ReportedLine(text: string, offset: nat) returns (line: nat)
    requires offset <= |text|
    ensures line == 1 + |NewlinePlaces(text[..offset])|
  {
    NewlinesAreCounted(text[..offset]);
    var stripped := StripCommentsAndStrings(text);
    var starts := LineStarts(stripped);
    LineStartsIncrease(stripped);
    LineStartsOfPrefix(stripped, offset);
    line := LineFor(starts, offset);
    forall i | 0 <= i < offset ensures stripped[..offset][i] == '\n' <==> text[..offset][i] == '\n' {
      PositionsAreKept(text, i);
    }
    NewlinesAgree(stripped[..offset], text[..offset]);
  }

  // ---------------------------------------------------------------- what the tokens are

  lemma QuotedEndIsUnique(text: string, c: nat, quote: char, e: nat, f: nat)
    requires EndsQuoted(text, c, quote, e) && EndsQuoted(text, c, quote, f)
    ensures e == f
  {
  }

  lemma CharMeans(text: string, i: nat)
    requires i < |text|
    ensures OpensChar(text, i) <==> IsCharLiteral(text, i)
  {
    var end := QuotedEnd(text, i + 1, '\'');
    QuotedEndMeans(text, i + 1, '\'');
    if OpensChar(text, i) {
      var e :| ClosesNear(text, i, e);
      QuotedEndIsUnique(text, i + 1, '\'', e, end);
    }
    assert IsCharLiteral(text, i) ==> ClosesNear(text, i, end);
  }

  /** Different things open with different characters. */
  lemma OpenersDiffer(text: string, i: nat)
    requires i < |text|
    ensures StartsWith(text, "//", i) ==> text[i] == '/' && i + 1 < |text| && text[i + 1] == '/'
    ensures StartsWith(text, "/*", i) ==> text[i] == '/' && i + 1 < |text| && text[i + 1] == '*'
    ensures StartsWith(text, "b\"", i) ==> text[i] == 'b'
    ensures StartsWith(text, "c\"", i) ==> text[i] == 'c'
    ensures OpensRawString(text, i) ==> text[i] == 'r' || text[i] == 'b'
  {
    PairAt(text, i, '/', '/');
    PairAt(text, i, '/', '*');
    PairAt(text, i, 'b', '"');
    PairAt(text, i, 'c', '"');
    if OpensRawString(text, i) {
      var p, n :| OpensRaw(text, i, p, n);
      PairAt(text, i, 'b', 'r');
      assert text[i..i + 1] == [text[i]];
    }
  }

  lemma RawEndIsUnique(text: string, from: nat, n: nat, e: nat, f: nat)
    requires EndsRaw(text, from, n, e) && EndsRaw(text, from, n, f)
    ensures e == f
  {
  }

  /** The scanner's tokens are what the grammar of each kind says, and no other token fits. */
  lemma TokenIsUnique(text: string, i: nat, t: Token)
    requires i < |text|
    ensures IsToken(text, i, t) <==> t == Next(text, i)
  {
    TokenMeans(text, i);
    if IsToken(text, i, t) {
      OpenersDiffer(text, i);
      var end := Next(text, i).end;
      if OpensRawString(text, i) {
        var p, n :| OpensRaw(text, i, p, n);
        RawEndIsUnique(text, i + p + n + 1, n, t.end, end);
      } else if StartsWith(text, "//", i) {
      } else if StartsWith(text, "/*", i) {
        BlockCommentMeans(text, i, t.end);
        BlockCommentMeans(text, i, end);
      } else if OpensString(text, i) {
        QuotedEndIsUnique(text, if text[i] == '"' then i + 1 else i + 2, '"', t.end, end);
      } else if OpensChar(text, i) {
        QuotedEndIsUnique(text, i + 1, '\'', t.end, end);
      }
    }
  }

  lemma TokenMeans(text: string, i: nat)
    requires i < |text|
    ensures IsToken(text, i, Next(text, i))
  {
    var t := Next(text, i);
    OpenersDiffer(text, i);
    RawStringMeans(text, i);
    CharMeans(text, i);
    if OpensRawString(text, i) {
    } else if StartsWith(text, "//", i) {
      LineEndMeans(text, i);
    } else if StartsWith(text, "/*", i) {
      BlockCommentMeans(text, i, t.end);
    } else if text[i] == '"' {
      QuotedEndMeans(text, i + 1, '"');
    } else if OpensString(text, i) {
      QuotedEndMeans(text, i + 2, '"');
    } else {
      QuotedEndMeans(text, i + 1, '\'');
    }
  }

  // ---------------------------------------------------------------- the scanner

  /** One turn of the scanner's loop: the token that starts at the cursor. */
  method ScanToken(text: string, cursor: nat) returns (t: Token)
    requires cursor < |text|
    ensures IsToken(text, cursor, t)
    ensures t == Next(text, cursor)
  {
    TokenMeans(text, cursor);
    var raw := ScanRawString(text, cursor);
    if raw.Some? {
      return Token(raw.value, true);
    }
    if StartsWith(text, "//", cursor) {
      var end := FindMarker(text, "\n", cursor);
      return Token(if end.Some? then end.value else |text|, true);
    }
    if StartsWith(text, "/*", cursor) {
      var end := ScanBlockComment(text, cursor);
      return Token(end, true);
    }
    if text[cursor] == '"' {
      var end := ScanQuoted(text, cursor, '"');
      return Token(end, true);
    }
    if StartsWith(text, "b\"", cursor) || StartsWith(text, "c\"", cursor) {
      var end := ScanQuoted(text, cursor + 1, '"');
      return Token(end, true);
    }
    if text[cursor] == '\'' && cursor + 1 < |text| && text[cursor + 1] != '_' {
      var end := ScanQuoted(text, cursor, '\'');
      if end - cursor <= MAX_CHAR_LITERAL {
        return Token(end, true);
      }
    }
    return Token(cursor + 1, false);
  }

  method StripCommentsAndStrings(text: string) returns (stripped: string)
    ensures stripped == Strip(text)
  {
    stripped := "";
    var cursor := 0;
    ghost var next := Tokens(text);
    ScannerIsWellFormed(text);
    while cursor < |text|
      invariant cursor <= |text|
      invariant stripped + MaskFrom(text, next, cursor) == MaskFrom(text, next, 0)
    {
      var t := ScanToken(text, cursor);
      assert t == next(cursor);
      var piece := if t.masked then Blanked(text[cursor..t.end]) else [text[cursor]];
      ConcatAssociative(stripped, piece, MaskFrom(text, next, t.end));
      stripped := stripped + piece;
      cursor := t.end;
    }
  }
}
