/**
 When the masker is right about character literals: which single quotes open
 one in Rust, which of them the scanner takes for one, and the texts on which
 both give the same mask. What a literal is follows the section "Character
 literals" of the Rust Reference.
 */
module LiteralMasking {
  import opened Common
  import opened Lexemes
  import opened SourceMasker

  // ---------------------------------------------------------------- character literals of the language

  predicate IsHex(c: char)
  {
    '0' <= c <= '9' || 'a' <= c <= 'f' || 'A' <= c <= 'F'
  }

  lemma HexDigitsAre(c: char)
    ensures IsHex(c) <==> c in {'0', '1', '2', '3', '4', '5', '6', '7', '8', '9', 'a', 'b', 'c', 'd', 'e', 'f',
                                'A', 'B', 'C', 'D', 'E', 'F'}
  {
  }

  function HexDigits(s: string): nat
  {
    if s == "" then 0 else HexDigits(s[1..]) + if IsHex(s[0]) then 1 else 0
  }

  /** One to six hexadecimal digits, each with any number of underscores behind it. */
  predicate IsCodePoint(s: string)
  {
    && s != "" && IsHex(s[0]) && HexDigits(s) <= 6
    && forall i :: 0 <= i < |s| ==> IsHex(s[i]) || s[i] == '_'
  }

  /** One escape: a letter or a quote, two hexadecimal digits, or a code point in braces. */
  predicate IsEscape(s: string)
  {
    && |s| >= 2 && s[0] == '\\'
    && (|| (|s| == 2 && s[1] in {'n', 'r', 't', '\\', '0', '\'', '"'})
        || (|s| == 4 && s[1] == 'x' && IsHex(s[2]) && IsHex(s[3]))
        || (|s| > 4 && s[1] == 'u' && s[2] == '{' && s[|s| - 1] == '}' && IsCodePoint(s[3..|s| - 1])))
  }

  /** One character that stands for itself. */
  predicate IsPlain(s: string)
  {
    |s| == 1 && s[0] !in {'\'', '\\', '\n', '\r', '\t'}
  }

  /** One character or one escape between two quotes. */
  predicate IsLiteral(text: string, i: nat, e: nat)
  {
    && i + 3 <= e <= |text| && text[i] == '\'' && text[e - 1] == '\''
    && (IsPlain(text[i + 1..e - 1]) || IsEscape(text[i + 1..e - 1]))
  }

  ghost predicate OpensLiteral(text: string, i: nat)
  {
    exists e :: IsLiteral(text, i, e)
  }

  /** No quote ends a literal but the first one that is not escaped. */
  lemma LiteralEnds(text: string, i: nat, e: nat)
    requires IsLiteral(text, i, e)
    ensures QuotedEnd(text, i + 1, '\'') == e
  {
    var s := text[i + 1..e - 1];
    assert forall k :: 0 <= k < |s| ==> s[k] == text[i + 1 + k];
    if IsPlain(s) {
      assert text[i + 1] == s[0];
      PlainQuoted(text, i + 1, e - 1, '\'');
    } else {
      assert text[i + 1] == s[0] == '\\';
      EscapeHasNoQuote(s);
      forall j | i + 3 <= j < e - 1 ensures text[j] != '\'' && text[j] != '\\' {
        assert text[j] == s[j - i - 1];
      }
      PlainQuoted(text, i + 3, e - 1, '\'');
    }
  }

  lemma EscapeHasNoQuote(s: string)
    requires IsEscape(s)
    ensures forall k :: 2 <= k < |s| ==> s[k] != '\'' && s[k] != '\\' && s[k] != '"' && s[k] != '/' && s[k] != 'r'
  {
    if |s| > 4 {
      var digits := s[3..|s| - 1];
      forall k | 3 <= k < |s| - 1 ensures s[k] != '\'' && s[k] != '\\' && s[k] != '"' && s[k] != '/' && s[k] != 'r' {
        assert s[k] == digits[k - 3];
      }
    }
  }

  lemma {:induction false} PlainQuoted(text: string, c: nat, k: nat, quote: char)
    requires c <= k < |text| && text[k] == quote && quote != '\\'
    requires forall j :: c <= j < k ==> text[j] != quote && text[j] != '\\'
    ensures QuotedEnd(text, c, quote) == k + 1
    decreases k - c
  {
    if c < k {
      PlainQuoted(text, c + 1, k, quote);
    }
  }

  /**
   Which quotes the scanner masks: those with a near partner and no underscore behind them. Of
   the literals it misses the underscore and those longer than eight characters, which are
   escapes with more than two characters in their braces.
   */
  lemma QuoteIsTakenForChar(text: string, i: nat)
    requires i < |text| && text[i] == '\''
    ensures Next(text, i).masked <==> OpensChar(text, i)
    ensures forall e: nat :: IsLiteral(text, i, e) ==>
              (Next(text, i).masked <==> text[i + 1] != '_' && e <= i + 8)
    ensures forall e: nat :: IsLiteral(text, i, e) && e > i + 8 ==> StartsWith(text, "\\u{", i + 1)
  {
    OpenersDiffer(text, i);
    TokenMeans(text, i);
    CharMeans(text, i);
    forall e: nat | IsLiteral(text, i, e)
      ensures QuotedEnd(text, i + 1, '\'') == e && (e > i + 8 ==> StartsWith(text, "\\u{", i + 1))
    {
      LiteralEnds(text, i, e);
      if e > i + 8 {
        var s := text[i + 1..e - 1];
        assert text[i + 1..i + 4] == s[..3] == "\\u{";
      }
    }
  }

  // ---------------------------------------------------------------- the mask of the language

  /** What starts at `i` in the language: a quote that opens no literal is kept; the rest is what the scanner reads. */
  function LanguageToken(text: string, i: nat): (t: Token)
    requires i < |text|
    ensures i < t.end <= |text|
    ensures !t.masked ==> t.end == i + 1
  {
    if text[i] != '\'' then Next(text, i)
    else
      var e := QuotedEnd(text, i + 1, '\'');
      if IsLiteral(text, i, e) then Token(e, true) else Token(i + 1, false)
  }

  /** A quote is masked exactly if it opens a literal, and then the literal is. */
  lemma LanguageTokenMeans(text: string, i: nat)
    requires i < |text| && text[i] == '\''
    ensures LanguageToken(text, i).masked <==> OpensLiteral(text, i)
    ensures forall e :: IsLiteral(text, i, e) ==> LanguageToken(text, i) == Token(e, true)
  {
    forall e | IsLiteral(text, i, e) ensures LanguageToken(text, i) == Token(e, true) {
      LiteralEnds(text, i, e);
    }
  }

  function LanguageTokens(text: string): nat -> Token
  {
    (i: nat) => if i < |text| then LanguageToken(text, i) else Token(i + 1, false)
  }

  function LanguageMask(text: string): (r: string)
    ensures |r| == |text|
  {
    MaskFrom(text, LanguageTokens(text), 0)
  }

  /** Reading tokens from `i` on, one starts at `p`. */
  ghost predicate StartsAt(n: nat, next: nat -> Token, i: nat, p: nat)
    requires WellFormed(n, next)
  {
    i <= p < n && Owner(n, next, i, p) == p
  }

  /** The two tokenisations mask different characters wherever they differ. */
  ghost predicate DifferVisibly(text: string, a: nat -> Token, b: nat -> Token)
  {
    forall p: nat {:trigger a(p)} {:trigger b(p)} ::
      p < |text| && a(p) != b(p) ==> a(p).masked != b(p).masked && Blank(text[p]) != text[p]
  }

  ghost predicate AgreeFrom(text: string, a: nat -> Token, b: nat -> Token, i: nat)
    requires WellFormed(|text|, b)
  {
    forall p {:trigger StartsAt(|text|, b, i, p)} :: StartsAt(|text|, b, i, p) ==> a(p) == b(p)
  }

  /** Two masks are equal if and only if the tokens are the same wherever the second tokenisation starts one. */
  lemma {:induction false} MasksAgreeExactly(text: string, a: nat -> Token, b: nat -> Token, i: nat)
    requires WellFormed(|text|, a) && WellFormed(|text|, b) && DifferVisibly(text, a, b) && i <= |text|
    ensures MaskFrom(text, a, i) == MaskFrom(text, b, i) <==> AgreeFrom(text, a, b, i)
    decreases |text| - i
  {
    if i < |text| {
      assert StartsAt(|text|, b, i, i);
      if a(i) == b(i) {
        var e := b(i).end;
        MasksAgreeExactly(text, a, b, e);
        SameFirstToken(text, a, b, i);
        AgreeStep(text, a, b, i);
      } else {
        FirstDiffers(text, a, b, i);
      }
    }
  }

  lemma SameFirstToken(text: string, a: nat -> Token, b: nat -> Token, i: nat)
    requires WellFormed(|text|, a) && WellFormed(|text|, b) && i < |text| && a(i) == b(i)
    ensures MaskFrom(text, a, i) == MaskFrom(text, b, i) <==>
              MaskFrom(text, a, b(i).end) == MaskFrom(text, b, b(i).end)
  {
    var e := b(i).end;
    var piece := if b(i).masked then Blanked(text[i..e]) else [text[i]];
    assert MaskFrom(text, a, i) == piece + MaskFrom(text, a, e);
    assert MaskFrom(text, b, i) == piece + MaskFrom(text, b, e);
    assert MaskFrom(text, a, i)[|piece|..] == MaskFrom(text, a, e);
    assert MaskFrom(text, b, i)[|piece|..] == MaskFrom(text, b, e);
  }

  lemma AgreeStep(text: string, a: nat -> Token, b: nat -> Token, i: nat)
    requires WellFormed(|text|, b) && i < |text| && a(i) == b(i)
    ensures AgreeFrom(text, a, b, i) <==> AgreeFrom(text, a, b, b(i).end)
  {
    var e := b(i).end;
    forall p ensures StartsAt(|text|, b, i, p) <==> p == i || StartsAt(|text|, b, e, p) {
    }
  }

  lemma FirstDiffers(text: string, a: nat -> Token, b: nat -> Token, i: nat)
    requires WellFormed(|text|, a) && WellFormed(|text|, b) && DifferVisibly(text, a, b) && i < |text| && a(i) != b(i)
    ensures MaskFrom(text, a, i) != MaskFrom(text, b, i)
  {
    MaskAt(text, a, i, i);
    MaskAt(text, b, i, i);
  }

  /** In the language a token starts at `p`, and it is a single quote. */
  ghost predicate QuoteStarts(text: string, p: nat)
  {
    p < |text| && text[p] == '\'' && StartsAt(|text|, LanguageTokens(text), 0, p)
  }

  /** The scanner's guard takes the quote for a literal exactly if it opens one. */
  ghost predicate GuardIsRight(text: string, p: nat)
    requires p < |text|
  {
    OpensChar(text, p) <==> OpensLiteral(text, p)
  }

  lemma TokensDiffer(text: string, p: nat)
    requires p < |text|
    ensures Next(text, p) == LanguageToken(text, p) <==> text[p] != '\'' || GuardIsRight(text, p)
    ensures Next(text, p) != LanguageToken(text, p) ==>
              text[p] == '\'' && Next(text, p).masked != LanguageToken(text, p).masked
  {
    if text[p] == '\'' {
      QuoteIsTakenForChar(text, p);
      LanguageTokenMeans(text, p);
      OpenersDiffer(text, p);
      RawStringMeans(text, p);
      CharMeans(text, p);
    }
  }

  /**
   The masker is right, exactly: its result is the text with the comments, strings and character
   literals of the language masked if and only if its guard is right about every quote that
   starts a token of the language.
   */
  lemma MaskIsRightExactly(text: string)
    ensures Strip(text) == LanguageMask(text) <==> forall p :: QuoteStarts(text, p) ==> GuardIsRight(text, p)
  {
    var a, b := Tokens(text), LanguageTokens(text);
    ScannerIsWellFormed(text);
    LanguageIsWellFormed(text);
    TokensDifferVisibly(text, a, b);
    MasksAgreeExactly(text, a, b, 0);
    GuardsAgree(text, a, b);
  }

  lemma LanguageIsWellFormed(text: string)
    ensures WellFormed(|text|, LanguageTokens(text))
  {
  }

  lemma TokensDifferVisibly(text: string, a: nat -> Token, b: nat -> Token)
    requires a == Tokens(text) && b == LanguageTokens(text)
    ensures DifferVisibly(text, a, b)
    ensures forall p: nat :: p < |text| ==> (a(p) == b(p) <==> text[p] != '\'' || GuardIsRight(text, p))
  {
    forall p: nat | p < |text|
      ensures a(p) == b(p) <==> text[p] != '\'' || GuardIsRight(text, p)
      ensures a(p) != b(p) ==> a(p).masked != b(p).masked && Blank(text[p]) != text[p]
    {
      TokensDiffer(text, p);
    }
  }

  lemma GuardsAgree(text: string, a: nat -> Token, b: nat -> Token)
    requires b == LanguageTokens(text) && WellFormed(|text|, b)
    requires forall p: nat :: p < |text| ==> (a(p) == b(p) <==> text[p] != '\'' || GuardIsRight(text, p))
    ensures AgreeFrom(text, a, b, 0) <==> forall p :: QuoteStarts(text, p) ==> GuardIsRight(text, p)
  {
    forall p: nat ensures QuoteStarts(text, p) <==>
        p < |text| && text[p] == '\'' && StartsAt(|text|, b, 0, p) {
    }
  }

  // ---------------------------------------------------------------- reading from one place to another

  /** Reading tokens from `i` on, one gets to `j`. */
  ghost predicate Reaches(n: nat, next: nat -> Token, i: nat, j: nat)
    requires WellFormed(n, next)
    decreases if i < n then n - i else 0
  {
    i == j || (i < n && next(i).end <= j && Reaches(n, next, next(i).end, j))
  }

  lemma {:induction false} OwnerFromThere(n: nat, next: nat -> Token, i: nat, j: nat, p: nat)
    requires WellFormed(n, next) && Reaches(n, next, i, j) && j <= p < n
    ensures i <= j && Owner(n, next, i, p) == Owner(n, next, j, p)
    decreases if i < n then n - i else 0
  {
    if i != j {
      OwnerFromThere(n, next, next(i).end, j, p);
    }
  }

  lemma {:induction false} ReachesOn(n: nat, next: nat -> Token, i: nat, j: nat, k: nat)
    requires WellFormed(n, next) && Reaches(n, next, i, j) && Reaches(n, next, j, k) && j <= k
    ensures Reaches(n, next, i, k)
    decreases if i < n then n - i else 0
  {
    if i != j {
      ReachesOn(n, next, next(i).end, j, k);
    }
  }

  ghost predicate KeptRun(next: nat -> Token, i: nat, j: nat)
  {
    forall p: nat :: i <= p < j ==> !next(p).masked
  }

  /** Kept characters are read one by one. */
  lemma {:induction false} ReachesKept(n: nat, next: nat -> Token, i: nat, j: nat)
    requires WellFormed(n, next) && i <= j <= n && KeptRun(next, i, j)
    ensures Reaches(n, next, i, j)
    decreases j - i
  {
    if i < j {
      assert next(i).end == i + 1;
      ReachesKept(n, next, i + 1, j);
    }
  }

  lemma ReachesNext(n: nat, next: nat -> Token, i: nat, j: nat)
    requires WellFormed(n, next) && Reaches(n, next, i, j) && i <= j < n
    ensures Reaches(n, next, i, next(j).end)
  {
    assert Reaches(n, next, next(j).end, next(j).end);
    ReachesOn(n, next, i, j, next(j).end);
  }

  lemma MaskedThere(text: string, next: nat -> Token, s: nat, p: nat)
    requires WellFormed(|text|, next) && Reaches(|text|, next, 0, s) && s <= p < |text| && p < next(s).end
    ensures MaskFrom(text, next, 0)[p] == if next(s).masked then Blank(text[p]) else text[p]
  {
    OwnerFromThere(|text|, next, 0, s, p);
    MaskAt(text, next, 0, p);
  }

  /** Between `i` and `j` everything is blank. */
  ghost predicate BlankBetween(text: string, out: string, i: nat, j: nat)
  {
    j <= |text| == |out| && forall p :: i <= p < j ==> out[p] == Blank(text[p])
  }

  /** Between `i` and `j` everything is as it was. */
  ghost predicate SameBetween(text: string, out: string, i: nat, j: nat)
  {
    j <= |text| == |out| && forall p :: i <= p < j ==> out[p] == text[p]
  }

  lemma SpanIsMasked(text: string, next: nat -> Token, s: nat, i: nat, j: nat)
    requires WellFormed(|text|, next) && Reaches(|text|, next, 0, s) && s < |text| && next(s).masked
    requires s <= i && j <= next(s).end
    ensures BlankBetween(text, MaskFrom(text, next, 0), i, j)
  {
    forall p | i <= p < j ensures MaskFrom(text, next, 0)[p] == Blank(text[p]) {
      MaskedThere(text, next, s, p);
    }
  }

  lemma RunIsKept(text: string, next: nat -> Token, i: nat, j: nat)
    requires WellFormed(|text|, next) && Reaches(|text|, next, 0, i) && j <= |text| && KeptRun(next, i, j)
    ensures SameBetween(text, MaskFrom(text, next, 0), i, j)
  {
    forall p | i <= p < j ensures MaskFrom(text, next, 0)[p] == text[p] {
      ReachesKept(|text|, next, i, p);
      ReachesOn(|text|, next, 0, i, p);
      MaskedThere(text, next, p, p);
    }
  }

  // ---------------------------------------------------------------- code that is masked by mistake

  /**
   The scanner `a` joins the quote at `i` with the one at `n` and reads a string from the double
   quote behind it; the language `b` reads a literal at `n` and keeps the code behind it.
   */
  ghost predicate GoAstray(text: string, a: nat -> Token, b: nat -> Token, i: nat, n: nat, m: nat)
  {
    && WellFormed(|text|, a) && WellFormed(|text|, b) && i <= n && n + 3 + m < |text|
    && KeptRun(a, 0, i) && a(i) == Token(n + 1, true) && a(n + 1) == Token(n + 4 + m, true)
    && Reaches(|text|, b, 0, n) && b(n) == Token(n + 3, true)
  }

  lemma AstrayIsMasked(text: string, a: nat -> Token, b: nat -> Token, i: nat, n: nat, m: nat)
    requires GoAstray(text, a, b, i, n, m)
    ensures BlankBetween(text, MaskFrom(text, a, 0), n + 3, n + 3 + m)
    ensures Reaches(|text|, b, 0, n + 3)
    ensures KeptRun(b, n + 3, n + 3 + m) ==> SameBetween(text, MaskFrom(text, b, 0), n + 3, n + 3 + m)
  {
    ReachesKept(|text|, a, 0, i);
    ReachesNext(|text|, a, 0, i);
    SpanIsMasked(text, a, n + 1, n + 3, n + 3 + m);
    ReachesNext(|text|, b, 0, n);
    if KeptRun(b, n + 3, n + 3 + m) {
      RunIsKept(text, b, n + 3, n + 3 + m);
    }
  }

  /** Nothing in the code can open a comment, a string or a literal, nor make a string behind it a raw one. */
  predicate IsPlainCode(code: string)
  {
    && (forall c :: c in code ==> c !in {'"', '\\', '\'', '/'})
    && (code != "" ==> code[|code| - 1] !in {'r', 'b', 'c', '#'})
  }

  /** The scanner masks the code at `c`, though the language reads on there, and keeps the code if it is plain. */
  ghost predicate HidesCode(text: string, c: nat, code: string)
  {
    && StartsWith(text, code, c) && BlankBetween(text, Strip(text), c, c + |code|)
    && Reaches(|text|, LanguageTokens(text), 0, c)
    && (IsPlainCode(code) ==> SameBetween(text, LanguageMask(text), c, c + |code|))
  }

  /** A literal of a double quote, some code, and a double quote. */
  function QuotedQuote(code: string, rest: string): string
  {
    "'\"'" + (code + ("\"" + rest))
  }

  ghost predicate QuotedQuoteAt(text: string, n: nat, code: string)
  {
    && n + 3 + |code| < |text| && text[n] == '\'' && text[n + 1] == '"' && text[n + 2] == '\''
    && text[n + 3 + |code|] == '"' && StartsWith(text, code, n + 3)
  }

  lemma QuotedQuoteIsThere(front: string, code: string, rest: string)
    ensures QuotedQuoteAt(front + QuotedQuote(code, rest), |front|, code)
  {
    var text, n := front + QuotedQuote(code, rest), |front|;
    assert text[n] == '\'' && text[n + 1] == '"' && text[n + 2] == '\'' && text[n + 3 + |code|] == '"';
    assert text[n + 3..n + 3 + |code|] == code;
  }

  lemma CodeAt(text: string, c: nat, code: string, j: nat)
    requires StartsWith(text, code, c) && c <= j < c + |code|
    ensures text[j] == code[j - c] && text[j] in code
  {
    assert text[c..c + |code|][j - c] == text[j];
  }

  /** The double quote of the literal opens a string for a scanner that starts there. */
  lemma QuoteOpensString(text: string, n: nat, code: string)
    requires QuotedQuoteAt(text, n, code) && forall c :: c in code ==> c != '"' && c != '\\'
    ensures Tokens(text)(n + 1) == Token(n + 4 + |code|, true)
  {
    forall j | n + 3 <= j < n + 3 + |code| ensures text[j] != '"' && text[j] != '\\' {
      CodeAt(text, n + 3, code, j);
    }
    PlainQuoted(text, n + 2, n + 3 + |code|, '"');
    OpenersDiffer(text, n + 1);
    RawStringMeans(text, n + 1);
  }

  lemma LiteralIsRead(text: string, n: nat)
    requires n + 3 <= |text| && text[n] == '\'' && text[n + 1] == '"' && text[n + 2] == '\''
    ensures LanguageTokens(text)(n) == Token(n + 3, true)
  {
    assert text[n + 1..n + 2] == "\"";
    assert IsLiteral(text, n, n + 3);
    LanguageTokenMeans(text, n);
  }

  /** Plain code in front of a double quote is kept by the language. */
  lemma CodeIsKept(text: string, n: nat, code: string)
    requires QuotedQuoteAt(text, n, code) && IsPlainCode(code)
    ensures KeptRun(LanguageTokens(text), n + 3, n + 3 + |code|)
  {
    forall p: nat | n + 3 <= p < n + 3 + |code| ensures !LanguageTokens(text)(p).masked {
      CharacterIsKept(text, n + 3, code, p);
    }
  }

  lemma CharacterIsKept(text: string, c: nat, code: string, p: nat)
    requires IsPlainCode(code) && StartsWith(text, code, c) && c + |code| < |text| && text[c + |code|] == '"'
    requires c <= p < c + |code|
    ensures LanguageToken(text, p) == Token(p + 1, false)
  {
    var last := c + |code| - 1;
    forall j | c <= j <= last ensures text[j] == code[j - c] && text[j] !in {'"', '\\', '\'', '/'} {
      CodeAt(text, c, code, j);
    }
    OpenersDiffer(text, p);
    PairAt(text, p, 'b', '"');
    PairAt(text, p, 'c', '"');
    NoRawInCode(text, p, last);
  }

  lemma NoRawInCode(text: string, p: nat, last: nat)
    requires p <= last && last + 1 < |text| && text[last] !in {'r', 'b', 'c', '#'} && text[last + 1] == '"'
    requires forall j :: p <= j <= last ==> text[j] != '"'
    ensures RawStringEnd(text, p).None?
  {
    RawStringMeans(text, p);
    if OpensRawString(text, p) {
      var k, n :| OpensRaw(text, p, k, n);
      RawOpenerMeans(text, p, k, n, last);
    }
  }

  /** Between its prefix and its double quote a raw string has nothing but hashes. */
  lemma RawOpenerMeans(text: string, p: nat, k: nat, n: nat, j: nat)
    requires OpensRaw(text, p, k, n) && p <= j
    ensures p + k + n <= j || text[j] in {'r', 'b', '#'}
    ensures text[p + k + n] == '"'
  {
    PairAt(text, p, 'b', 'r');
    if k == 1 {
      assert text[p..p + 1][0] == text[p];
    }
  }

  /** Neither a quote nor a slash nor a prefix of a string. */
  predicate IsOrdinary(text: string, p: nat)
  {
    p + 1 < |text| && text[p] !in {'"', '\'', '/', 'r'} && text[p + 1] !in {'"', 'r'}
  }

  /** The scanner and the language keep such a character. */
  lemma KeptByBoth(text: string, p: nat)
    requires IsOrdinary(text, p)
    ensures Next(text, p) == Token(p + 1, false) == LanguageToken(text, p)
  {
    OpenersDiffer(text, p);
    PairAt(text, p, 'b', '"');
    PairAt(text, p, 'c', '"');
    RawStringMeans(text, p);
    RawPrefixMeans(text, p);
  }

  lemma RawPrefixMeans(text: string, p: nat)
    ensures OpensRawString(text, p) ==>
              p + 1 < |text| && (text[p] == 'r' || (text[p] == 'b' && text[p + 1] == 'r'))
  {
    if OpensRawString(text, p) {
      var k, n :| OpensRaw(text, p, k, n);
      PairAt(text, p, 'b', 'r');
      assert text[p..p + 1] == [text[p]];
    }
  }

  lemma OrdinaryIsKept(text: string, i: nat, j: nat)
    requires j < |text| && forall p :: i <= p < j ==> IsOrdinary(text, p)
    ensures KeptRun(LanguageTokens(text), i, j)
  {
    forall p: nat | i <= p < j ensures !LanguageTokens(text)(p).masked {
      assert IsOrdinary(text, p);
      KeptByBoth(text, p);
    }
  }

  /** A quote whose partner at `n` is near is joined with it. */
  lemma QuotesAreJoined(text: string, i: nat, n: nat)
    requires i < n < |text| && n < i + 8 && text[i] == '\'' && text[n] == '\'' && text[i + 1] != '_'
    requires forall j :: i < j < n ==> text[j] != '\'' && text[j] != '\\'
    ensures Tokens(text)(i) == Token(n + 1, true)
  {
    PlainQuoted(text, i + 1, n, '\'');
    OpenersDiffer(text, i);
    RawStringMeans(text, i);
  }

  /** The scanner joins the quotes at `i` and `n`, the language gets to `n`: it goes astray. */
  lemma HiddenAt(text: string, i: nat, n: nat, code: string)
    requires QuotedQuoteAt(text, n, code) && forall c :: c in code ==> c != '"' && c != '\\'
    requires i < n && KeptRun(Tokens(text), 0, i) && Tokens(text)(i) == Token(n + 1, true)
    requires WellFormed(|text|, LanguageTokens(text)) && Reaches(|text|, LanguageTokens(text), 0, n)
    ensures HidesCode(text, n + 3, code)
  {
    ScannerGoesAstray(text, i, n, code);
    AstrayIsMasked(text, Tokens(text), LanguageTokens(text), i, n, |code|);
    if IsPlainCode(code) {
      CodeIsKept(text, n, code);
    }
  }

  lemma ScannerGoesAstray(text: string, i: nat, n: nat, code: string)
    requires QuotedQuoteAt(text, n, code) && forall c :: c in code ==> c != '"' && c != '\\'
    requires i < n && KeptRun(Tokens(text), 0, i) && Tokens(text)(i) == Token(n + 1, true)
    requires WellFormed(|text|, LanguageTokens(text)) && Reaches(|text|, LanguageTokens(text), 0, n)
    ensures GoAstray(text, Tokens(text), LanguageTokens(text), i, n, |code|)
  {
    ScannerIsWellFormed(text);
    QuoteOpensString(text, n, code);
    LiteralIsRead(text, n);
  }

  /**
   A lifetime whose next quote opens a literal is joined with it; the literal's double quote then
   opens a string, and the code behind it is blanked up to the next one.
   */
  lemma LifetimeHidesCode(code: string, rest: string)
    requires forall c :: c in code ==> c != '"' && c != '\\'
    ensures HidesCode("'a>(" + QuotedQuote(code, rest), 7, code)
  {
    var text := "'a>(" + QuotedQuote(code, rest);
    QuotedQuoteIsThere("'a>(", code, rest);
    assert text[0] == '\'' && text[1] == 'a' && text[2] == '>' && text[3] == '(';
    LifetimeIsKept(text);
    QuotesAreJoined(text, 0, 4);
    HiddenAt(text, 0, 4, code);
  }

  lemma LifetimeIsKept(text: string)
    requires |text| > 5 && text[0] == '\'' && text[1] == 'a' && text[2] == '>' && text[3] == '(' && text[4] == '\''
    ensures WellFormed(|text|, LanguageTokens(text)) && Reaches(|text|, LanguageTokens(text), 0, 4)
  {
    LanguageIsWellFormed(text);
    LifetimeQuoteIsKept(text);
    OrdinaryIsKept(text, 1, 4);
    ReachesKept(|text|, LanguageTokens(text), 0, 4);
  }

  lemma LifetimeQuoteIsKept(text: string)
    requires |text| > 5 && text[0] == '\'' && text[1] == 'a' && text[2] == '>' && text[3] == '(' && text[4] == '\''
    ensures LanguageTokens(text)(0) == Token(1, false)
  {
    PlainQuoted(text, 1, 4, '\'');
    assert text[1..4][0] == 'a';
  }

  /** A literal that the scanner does not take for one: the underscore, or one that is too long. */
  predicate IsMissed(literal: string)
  {
    IsLiteral(literal, 0, |literal|) && (literal[1] == '_' || |literal| > 8)
  }

  /**
   A literal that is missed hides code too: its closing quote is joined with the next one,
   whose double quote then opens a string.
   */
  lemma MissedLiteralHidesCode(literal: string, code: string, rest: string)
    requires IsMissed(literal) && forall c :: c in code ==> c != '"' && c != '\\'
    ensures HidesCode(literal + " => " + QuotedQuote(code, rest), |literal| + 7, code)
  {
    var text, n := literal + " => " + QuotedQuote(code, rest), |literal|;
    QuotedQuoteIsThere(literal + " => ", code, rest);
    ArrowIsThere(literal, QuotedQuote(code, rest));
    MissedHidesCode(text, n, code);
  }

  /** An arrow at `n`, behind what stands in front and before a quote. */
  ghost predicate ArrowAt(text: string, n: nat)
  {
    && n + 4 < |text| && text[n] == ' ' && text[n + 1] == '=' && text[n + 2] == '>' && text[n + 3] == ' '
    && text[n + 4] == '\''
  }

  lemma ArrowIsThere(literal: string, behind: string)
    requires behind != "" && behind[0] == '\''
    ensures var text, n := literal + " => " + behind, |literal|;
            text[..n] == literal && ArrowAt(text, n)
  {
    var text := literal + " => " + behind;
    assert text[..|literal|] == literal;
  }

  lemma MissedHidesCode(text: string, n: nat, code: string)
    requires n < |text| && IsMissed(text[..n]) && ArrowAt(text, n) && QuotedQuoteAt(text, n + 4, code)
    requires forall c :: c in code ==> c != '"' && c != '\\'
    ensures HidesCode(text, n + 7, code)
  {
    ClosingQuoteIsThere(text, n);
    MissedIsKept(text, n);
    MissedIsRead(text, n);
    ArrowHidesCode(text, n, code);
  }

  lemma ArrowHidesCode(text: string, n: nat, code: string)
    requires 0 < n && ArrowAt(text, n) && text[n - 1] == '\'' && QuotedQuoteAt(text, n + 4, code)
    requires forall c :: c in code ==> c != '"' && c != '\\'
    requires KeptRun(Tokens(text), 0, n - 1)
    requires WellFormed(|text|, LanguageTokens(text)) && Reaches(|text|, LanguageTokens(text), 0, n + 4)
    ensures HidesCode(text, n + 7, code)
  {
    ArrowIsJoined(text, n);
    HiddenAt(text, n - 1, n + 4, code);
  }

  lemma ClosingQuoteIsThere(text: string, n: nat)
    requires n < |text| && IsMissed(text[..n])
    ensures n >= 3 && text[n - 1] == '\''
  {
  }

  lemma ArrowIsJoined(text: string, n: nat)
    requires 0 < n && ArrowAt(text, n) && text[n - 1] == '\''
    ensures Tokens(text)(n - 1) == Token(n + 5, true)
  {
    QuotesAreJoined(text, n - 1, n + 4);
  }

  lemma MissedInText(text: string, n: nat)
    requires n < |text| && IsMissed(text[..n])
    ensures IsLiteral(text, 0, n) && (text[1] == '_' || n > 8)
  {
    assert text[1..n - 1] == text[..n][1..n - 1];
  }

  lemma MissedIsKept(text: string, n: nat)
    requires n < |text| && IsMissed(text[..n])
    ensures KeptRun(Tokens(text), 0, n - 1)
  {
    MissedInText(text, n);
    QuoteIsTakenForChar(text, 0);
    forall p: nat | p < n - 1 ensures !Tokens(text)(p).masked {
      if p > 0 {
        InsideIsKept(text, n, p);
      }
    }
  }

  lemma InsideIsKept(text: string, n: nat, p: nat)
    requires IsLiteral(text, 0, n) && (text[1] == '_' || n > 8) && 1 <= p < n - 1
    ensures Next(text, p) == Token(p + 1, false)
  {
    var s := text[1..n - 1];
    assert forall k :: 0 <= k < |s| ==> s[k] == text[k + 1];
    assert text[1] == s[0];
    if IsEscape(s) {
      EscapeHasNoQuote(s);
      assert text[2] == s[1] == 'u';
    }
    KeptByBoth(text, p);
  }

  lemma MissedIsRead(text: string, n: nat)
    requires n < |text| && IsMissed(text[..n]) && ArrowAt(text, n)
    ensures WellFormed(|text|, LanguageTokens(text)) && Reaches(|text|, LanguageTokens(text), 0, n + 4)
  {
    MissedIsLiteral(text, n);
    ArrowIsRead(text, n);
  }

  lemma MissedIsLiteral(text: string, n: nat)
    requires n < |text| && IsMissed(text[..n])
    ensures n > 0 && LanguageTokens(text)(0) == Token(n, true)
  {
    MissedInText(text, n);
    LanguageTokenMeans(text, 0);
  }

  lemma ArrowIsRead(text: string, n: nat)
    requires ArrowAt(text, n) && n > 0 && LanguageTokens(text)(0) == Token(n, true)
    ensures WellFormed(|text|, LanguageTokens(text)) && Reaches(|text|, LanguageTokens(text), 0, n + 4)
  {
    LanguageIsWellFormed(text);
    OrdinaryIsKept(text, n, n + 4);
    LiteralThenKept(|text|, LanguageTokens(text), n, n + 4);
  }

  lemma LiteralThenKept(n: nat, next: nat -> Token, i: nat, j: nat)
    requires WellFormed(n, next) && 0 < i <= j <= n && next(0).end == i && KeptRun(next, i, j)
    ensures Reaches(n, next, 0, j)
  {
    ReachesKept(n, next, i, j);
  }

  /** The underscore is a literal of the language that is missed. */
  lemma UnderscoreHidesCode(code: string, rest: string)
    requires forall c :: c in code ==> c != '"' && c != '\\'
    ensures HidesCode("'_' => " + QuotedQuote(code, rest), 10, code)
  {
    assert "'_'"[1..2] == "_";
    assert IsMissed("'_'");
    MissedLiteralHidesCode("'_'", code, rest);
    assert "'_'" + " => " == "'_' => ";
  }
}
