/**
 Where comments, strings and character literals of Rust source text end: the
 scanner's loops, the functions they compute, and what those mean in terms of
 the grammar of nested comments, of raw string markers and of escapes.
 */
module Lexemes {
  import opened Common

  // ---------------------------------------------------------------- where things end

  predicate StartsWith(text: string, p: string, i: nat)
  {
    i + |p| <= |text| && text[i..i + |p|] == p
  }

  /** The first position at or after `c` that holds no '#'. */
  function SkipHashes(text: string, c: nat): (e: nat)
    requires c <= |text|
    ensures c <= e <= |text|
    decreases |text| - c
  {
    if c < |text| && text[c] == '#' then SkipHashes(text, c + 1) else c
  }

  /** The first occurrence of `marker` at or after `from`. */
  function FindFrom(text: string, marker: string, from: nat): (r: Option<nat>)
    ensures r.Some? ==> from <= r.value && StartsWith(text, marker, r.value)
    decreases if from <= |text| then |text| - from + 1 else 0
  {
    if from + |marker| > |text| then None
    else if text[from..from + |marker|] == marker then Some(from)
    else FindFrom(text, marker, from + 1)
  }

  /** The end of a raw string with `hashes` hashes: a quote and as many hashes. */
  function RawMarker(hashes: nat): (m: string)
    ensures |m| == hashes + 1 && m[0] == '"' && forall j :: 1 <= j <= hashes ==> m[j] == '#'
  {
    ['"'] + seq(hashes, _ => '#')
  }

  function RawPrefix(text: string, i: nat): nat
  {
    if StartsWith(text, "br", i) then 2 else if StartsWith(text, "r", i) then 1 else 0
  }

  /** The end of the raw string that starts at `i` with a prefix of length `p`, if a quote follows the hashes. */
  function RawAfterPrefix(text: string, i: nat, p: nat): (r: Option<nat>)
    requires i + p <= |text|
    ensures r.Some? ==> i + p < r.value <= |text|
  {
    var c := SkipHashes(text, i + p);
    if c >= |text| || text[c] != '"' then None
    else
      var marker := RawMarker(c - i - p);
      match FindFrom(text, marker, c + 1)
      case None => Some(|text|)
      case Some(e) => Some(e + |marker|)
  }

  /** The end of the raw string that starts at `i`, if one does. */
  function RawStringEnd(text: string, i: nat): (r: Option<nat>)
    ensures r.Some? ==> i < r.value <= |text|
  {
    var p := RawPrefix(text, i);
    if p == 0 then None else RawAfterPrefix(text, i, p)
  }

  /** The position behind the closing quote, scanning from `c`; a backslash hides the next character. */
  function QuotedEnd(text: string, c: nat, quote: char): (e: nat)
    ensures e <= |text|
    ensures c < |text| ==> c < e
    decreases if c < |text| then |text| - c else 0
  {
    if c >= |text| then |text|
    else if text[c] == '\\' then QuotedEnd(text, c + 2, quote)
    else if text[c] == quote then c + 1
    else QuotedEnd(text, c + 1, quote)
  }

  /** The position behind the comment, scanning from `c` at nesting `depth`. */
  function BlockCommentEnd(text: string, c: nat, depth: nat): (e: nat)
    requires c <= |text|
    ensures c <= e <= |text|
    decreases |text| - c
  {
    if c >= |text| || depth == 0 then c
    else if StartsWith(text, "/*", c) then BlockCommentEnd(text, c + 2, depth + 1)
    else if StartsWith(text, "*/", c) then BlockCommentEnd(text, c + 2, depth - 1)
    else BlockCommentEnd(text, c + 1, depth)
  }

  function LineEnd(text: string, c: nat): (e: nat)
    requires c <= |text|
    ensures c <= e <= |text|
    ensures e < |text| ==> text[e] == '\n'
  {
    match FindFrom(text, "\n", c)
    case None => |text|
    case Some(e) => assert text[e..e + 1][0] == text[e]; e
  }

  // ---------------------------------------------------------------- searching

  /** The first occurrence: nothing at or after `from` comes before it. */
  lemma {:induction false} FindFromIsFirst(text: string, marker: string, from: nat, k: nat)
    requires from <= k && (FindFrom(text, marker, from).Some? ==> k < FindFrom(text, marker, from).value)
    ensures !StartsWith(text, marker, k)
    decreases if from <= |text| then |text| - from + 1 else 0
  {
    if from + |marker| <= |text| && from < k {
      FindFromIsFirst(text, marker, from + 1, k);
    }
  }

  /** `e` is the first newline at or after `c`, or the end of the text if there is none. */
  ghost predicate EndsLine(text: string, c: nat, e: nat)
  {
    && c <= e <= |text| && (e < |text| ==> text[e] == '\n')
    && forall k :: c <= k < e ==> text[k] != '\n'
  }

  lemma LineEndMeans(text: string, c: nat)
    requires c <= |text|
    ensures EndsLine(text, c, LineEnd(text, c))
  {
    forall k | c <= k < LineEnd(text, c) ensures text[k] != '\n' {
      FindFromIsFirst(text, "\n", c, k);
      assert text[k..k + 1] == [text[k]];
    }
  }

  // ---------------------------------------------------------------- raw strings

  /** A prefix of length `p`, `n` hashes and a quote. */
  ghost predicate OpensRaw(text: string, i: nat, p: nat, n: nat)
  {
    && ((p == 1 && StartsWith(text, "r", i)) || (p == 2 && StartsWith(text, "br", i)))
    && HashesBefore(text, i + p, n) && i + p + n < |text| && text[i + p + n] == '"'
  }

  predicate HashesBefore(text: string, c: nat, n: nat)
  {
    c + n <= |text| && forall j :: c <= j < c + n ==> text[j] == '#'
  }

  /** A quote and `n` hashes. */
  ghost predicate ClosesRaw(text: string, k: nat, n: nat)
  {
    k < |text| && text[k] == '"' && HashesBefore(text, k + 1, n)
  }

  /** The end of the first such marker from `from` on, or the end of the text if there is none. */
  ghost predicate EndsRaw(text: string, from: nat, n: nat, e: nat)
  {
    || (from + n + 1 <= e && ClosesRaw(text, e - n - 1, n) && forall k :: from <= k < e - n - 1 ==>
        !ClosesRaw(text, k, n))
    || (e == |text| && forall k: nat :: from <= k ==> !ClosesRaw(text, k, n))
  }

  lemma MarkerMeans(text: string, k: nat, n: nat)
    ensures StartsWith(text, RawMarker(n), k) <==> ClosesRaw(text, k, n)
  {
    var m := RawMarker(n);
    if k + n + 1 <= |text| {
      var s := text[k..k + n + 1];
      assert s[0] == text[k] && forall j :: 1 <= j <= n ==> s[j] == text[k + j];
      if ClosesRaw(text, k, n) {
        assert forall j :: 0 <= j < |m| ==> s[j] == m[j];
      }
      if s == m {
        forall j | k + 1 <= j < k + 1 + n ensures text[j] == '#' {
          assert s[j - k] == '#';
        }
      }
    }
  }

  lemma {:induction false} SkipHashesMeans(text: string, c: nat, n: nat)
    requires HashesBefore(text, c, n) && c + n < |text| && text[c + n] != '#'
    ensures SkipHashes(text, c) == c + n
    decreases n
  {
    if n > 0 {
      SkipHashesMeans(text, c + 1, n - 1);
    }
  }

  lemma {:induction false} SkippedAreHashes(text: string, c: nat)
    requires c <= |text|
    ensures HashesBefore(text, c, SkipHashes(text, c) - c)
    decreases |text| - c
  {
    if c < |text| && text[c] == '#' {
      SkippedAreHashes(text, c + 1);
    }
  }

  lemma FoundEndsRaw(text: string, from: nat, n: nat)
    ensures var r := FindFrom(text, RawMarker(n), from);
            from <= |text| ==> EndsRaw(text, from, n, if r.Some? then r.value + n + 1 else |text|)
  {
    var r := FindFrom(text, RawMarker(n), from);
    forall k | from <= k && (r.Some? ==> k < r.value) ensures !ClosesRaw(text, k, n) {
      FindFromIsFirst(text, RawMarker(n), from, k);
      MarkerMeans(text, k, n);
    }
    if r.Some? {
      MarkerMeans(text, r.value, n);
    }
  }

  /** A raw string starts exactly at a prefix with hashes and a quote, and ends at its first marker. */
  lemma RawStringMeans(text: string, i: nat)
    ensures RawStringEnd(text, i).Some? <==> exists p, n :: OpensRaw(text, i, p, n)
    ensures forall p, n :: OpensRaw(text, i, p, n) ==>
              RawStringEnd(text, i).Some? && EndsRaw(text, i + p + n + 1, n, RawStringEnd(text, i).value)
  {
    forall p: nat, n: nat | OpensRaw(text, i, p, n)
      ensures RawStringEnd(text, i).Some? && EndsRaw(text, i + p + n + 1, n, RawStringEnd(text, i).value)
    {
      OpenedRawEnds(text, i, p, n);
    }
    if RawStringEnd(text, i).Some? {
      EndedRawOpens(text, i);
    }
  }

  lemma OpenedRawEnds(text: string, i: nat, p: nat, n: nat)
    requires OpensRaw(text, i, p, n)
    ensures RawStringEnd(text, i).Some? && EndsRaw(text, i + p + n + 1, n, RawStringEnd(text, i).value)
  {
    OnePrefix(text, i);
    SkipHashesMeans(text, i + p, n);
    AfterPrefixEnds(text, i, p, n, i + p + n);
  }

  lemma AfterPrefixEnds(text: string, i: nat, p: nat, n: nat, c: nat)
    requires i + p <= |text| && SkipHashes(text, i + p) == c == i + p + n && c < |text| && text[c] == '"'
    ensures RawAfterPrefix(text, i, p).Some? && EndsRaw(text, c + 1, n, RawAfterPrefix(text, i, p).value)
  {
    FoundEndsRaw(text, c + 1, n);
  }

  lemma EndedRawOpens(text: string, i: nat)
    requires RawStringEnd(text, i).Some?
    ensures exists p, n :: OpensRaw(text, i, p, n)
  {
    var p := RawPrefix(text, i);
    SkippedAreHashes(text, i + p);
    assert OpensRaw(text, i, p, SkipHashes(text, i + p) - i - p);
  }

  lemma OnePrefix(text: string, i: nat)
    ensures !(StartsWith(text, "br", i) && StartsWith(text, "r", i))
  {
    if StartsWith(text, "br", i) {
      assert text[i] == text[i..i + 2][0] == 'b';
      assert text[i..i + 1][0] == 'b';
    }
  }

  // ---------------------------------------------------------------- quoted text

  /** How many backslashes stand directly before `k`, counted back to `c`. */
  function Backslashes(text: string, c: nat, k: nat): nat
    requires c <= k <= |text|
  {
    if k == c || text[k - 1] != '\\' then 0 else 1 + Backslashes(text, c, k - 1)
  }

  /** A quote behind an even number of backslashes. */
  ghost predicate ClosesQuote(text: string, c: nat, quote: char, k: nat)
  {
    c <= k < |text| && text[k] == quote && Backslashes(text, c, k) % 2 == 0
  }

  /** The end of the first such quote from `c` on, or the end of the text if there is none. */
  ghost predicate EndsQuoted(text: string, c: nat, quote: char, e: nat)
  {
    || (c < e && ClosesQuote(text, c, quote, e - 1) && forall k :: c <= k < e - 1 ==> !ClosesQuote(text, c, quote, k))
    || (e == |text| && forall k: nat :: !ClosesQuote(text, c, quote, k))
  }

  lemma {:induction false} SkipPair(text: string, c: nat, k: nat)
    requires c + 2 <= k <= |text| && text[c] == '\\'
    ensures Backslashes(text, c, k) % 2 == Backslashes(text, c + 2, k) % 2
    decreases k
  {
    if k == c + 2 {
      assert Backslashes(text, c, c + 1) == 1;
    } else if text[k - 1] == '\\' {
      SkipPair(text, c, k - 1);
    }
  }

  lemma {:induction false} SkipOne(text: string, c: nat, k: nat)
    requires c < k <= |text| && text[c] != '\\'
    ensures Backslashes(text, c, k) == Backslashes(text, c + 1, k)
    decreases k
  {
    if k > c + 1 && text[k - 1] == '\\' {
      SkipOne(text, c, k - 1);
    }
  }

  /** Skipping what a backslash hides finds the first quote that is not escaped. */
  lemma {:induction false} QuotedEndMeans(text: string, c: nat, quote: char)
    requires quote != '\\'
    ensures EndsQuoted(text, c, quote, QuotedEnd(text, c, quote))
    decreases if c < |text| then |text| - c else 0
  {
    if c < |text| {
      if text[c] == '\\' {
        QuotedEndMeans(text, c + 2, quote);
        forall k: nat ensures ClosesQuote(text, c, quote, k) <==> ClosesQuote(text, c + 2, quote, k) {
          if c + 2 <= k < |text| {
            SkipPair(text, c, k);
          } else if k == c + 1 < |text| {
            assert Backslashes(text, c, c + 1) == 1;
          }
        }
      } else if text[c] != quote {
        QuotedEndMeans(text, c + 1, quote);
        forall k: nat ensures ClosesQuote(text, c, quote, k) <==> ClosesQuote(text, c + 1, quote, k) {
          if c + 1 <= k < |text| {
            SkipOne(text, c, k);
          }
        }
      }
    }
  }

  // ---------------------------------------------------------------- nested comments

  /** What stands between the opener and the closer of a comment: characters and comments. */
  datatype Body = Empty | Letter(c: char, rest: Body) | Nested(inner: Body, rest: Body)

  function Render(b: Body): string
  {
    match b
    case Empty => ""
    case Letter(c, rest) => [c] + Render(rest)
    case Nested(inner, rest) => "/*" + (Render(inner) + ("*/" + Render(rest)))
  }

  /** The first character of a body and the closer behind it. */
  function First(b: Body): char
  {
    match b
    case Empty => '*'
    case Letter(c, _) => c
    case Nested(_, _) => '/'
  }

  /** No two characters that stand for themselves, or one and the closer, form an opener or a closer. */
  predicate Clean(b: Body)
  {
    match b
    case Empty => true
    case Letter(c, rest) => !(c == '/' && First(rest) == '*') && !(c == '*' && First(rest) == '/') && Clean(rest)
    case Nested(inner, rest) => Clean(inner) && Clean(rest)
  }

  function CommentText(b: Body): string
  {
    "/*" + (Render(b) + "*/")
  }

  ghost predicate IsCommentAt(text: string, i: nat, e: nat)
  {
    exists b :: Clean(b) && CommentIs(text, i, e, b)
  }

  ghost predicate CommentIs(text: string, i: nat, e: nat, b: Body)
  {
    StartsWith(text, CommentText(b), i) && e == i + |CommentText(b)|
  }

  /** The end of the comment that starts at `i`, or the end of the text if it is not closed. */
  ghost predicate EndsComment(text: string, i: nat, e: nat)
  {
    IsCommentAt(text, i, e) || (e == |text| && forall k: nat :: !IsCommentAt(text, i, k))
  }

  predicate Opens(text: string, c: nat)
  {
    c + 1 < |text| && text[c] == '/' && text[c + 1] == '*'
  }

  predicate Closes(text: string, c: nat)
  {
    c + 1 < |text| && text[c] == '*' && text[c + 1] == '/'
  }

  /** A body and its closer, read by recursive descent: the body and the position behind the closer. */
  ghost function Parse(text: string, c: nat): (r: Option<(Body, nat)>)
    ensures r.Some? ==> c + 2 <= r.value.1 <= |text|
    decreases if c < |text| then |text| - c else 0
  {
    if c >= |text| then None
    else if Closes(text, c) then Some((Empty, c + 2))
    else if Opens(text, c) then
      match Parse(text, c + 2)
      case None => None
      case Some((inner, e)) =>
        match Parse(text, e)
        case None => None
        case Some((rest, f)) => Some((Nested(inner, rest), f))
    else
      match Parse(text, c + 1)
      case None => None
      case Some((rest, f)) => Some((Letter(text[c], rest), f))
  }

  /** The loop with its depth counter does what recursive descent does: one level up behind each closer. */
  lemma {:induction false} LoopRefinesParser(text: string, c: nat, depth: nat)
    requires c <= |text| && depth > 0
    ensures BlockCommentEnd(text, c, depth) ==
            match Parse(text, c)
            case None => |text|
            case Some((_, e)) => BlockCommentEnd(text, e, depth - 1)
    decreases |text| - c
  {
    if c < |text| {
      PairAt(text, c, '/', '*');
      PairAt(text, c, '*', '/');
      if Closes(text, c) {
      } else if Opens(text, c) {
        LoopRefinesParser(text, c + 2, depth + 1);
        if Parse(text, c + 2).Some? {
          LoopRefinesParser(text, Parse(text, c + 2).value.1, depth);
        }
      } else {
        LoopRefinesParser(text, c + 1, depth);
      }
    }
  }

  lemma PairAt(text: string, c: nat, x: char, y: char)
    ensures StartsWith(text, [x, y], c) <==> c + 1 < |text| && text[c] == x && text[c + 1] == y
  {
    if c + 2 <= |text| {
      assert text[c..c + 2] == [text[c], text[c + 1]];
    }
  }

  /** The body and its closer stand at `c`, character by character. */
  ghost predicate BodyAt(text: string, c: nat, b: Body)
    decreases b
  {
    match b
    case Empty => Closes(text, c)
    case Letter(x, rest) => c < |text| && text[c] == x && BodyAt(text, c + 1, rest)
    case Nested(inner, rest) => Opens(text, c) && BodyAt(text, c + 2, inner) && BodyAt(text, c + 2 + Size(inner), rest)
  }

  /** The length of a body with its closer. */
  ghost function Size(b: Body): nat
  {
    match b
    case Empty => 2
    case Letter(_, rest) => 1 + Size(rest)
    case Nested(inner, rest) => 2 + Size(inner) + Size(rest)
  }

  /** A clean body and its closer stand between `c` and `e`. */
  ghost predicate Reads(text: string, c: nat, b: Body, e: nat)
  {
    Clean(b) && BodyAt(text, c, b) && e == c + Size(b)
  }

  /** What the parser reads is a clean body and its closer. */
  lemma {:induction false} ParserIsSound(text: string, c: nat)
    ensures Parse(text, c).Some? ==> Reads(text, c, Parse(text, c).value.0, Parse(text, c).value.1)
    decreases if c < |text| then |text| - c else 0
  {
    if c < |text| && !Closes(text, c) && Parse(text, c).Some? {
      if Opens(text, c) {
        var (inner, e) := Parse(text, c + 2).value;
        ParserIsSound(text, c + 2);
        ParserIsSound(text, e);
      } else {
        var (rest, f) := Parse(text, c + 1).value;
        ParserIsSound(text, c + 1);
        ReadsLetter(text, c, rest, f);
      }
    }
  }

  lemma ReadsLetter(text: string, c: nat, rest: Body, f: nat)
    requires c < |text| && !Closes(text, c) && !Opens(text, c) && Reads(text, c + 1, rest, f)
    ensures Reads(text, c, Letter(text[c], rest), f)
  {
    FirstIsThere(text, c + 1, rest);
  }

  lemma FirstIsThere(text: string, c: nat, b: Body)
    requires BodyAt(text, c, b)
    ensures c < |text| && text[c] == First(b)
  {
  }

  /** The parser reads `b` at `c`. */
  ghost predicate Parses(text: string, c: nat, b: Body)
  {
    Parse(text, c) == Some((b, c + Size(b)))
  }

  /** And every clean body with its closer is read. */
  lemma {:induction false} ParserIsComplete(text: string, c: nat, b: Body)
    requires Clean(b) && BodyAt(text, c, b)
    ensures Parses(text, c, b)
    decreases b
  {
    match b
    case Empty =>
    case Letter(x, rest) =>
      ParserIsComplete(text, c + 1, rest);
      ParsesLetter(text, c, x, rest);
    case Nested(inner, rest) =>
      ParserIsComplete(text, c + 2, inner);
      ParserIsComplete(text, c + 2 + Size(inner), rest);
      ParsesNested(text, c, inner, rest);
  }

  lemma ParsesLetter(text: string, c: nat, x: char, rest: Body)
    requires Clean(Letter(x, rest)) && BodyAt(text, c, Letter(x, rest)) && Parses(text, c + 1, rest)
    ensures Parses(text, c, Letter(x, rest))
  {
    FirstIsThere(text, c + 1, rest);
  }

  lemma ParsesNested(text: string, c: nat, inner: Body, rest: Body)
    requires Opens(text, c) && Parses(text, c + 2, inner) && Parses(text, c + 2 + Size(inner), rest)
    ensures Parses(text, c, Nested(inner, rest))
  {
  }

  lemma StartsWithConcat(text: string, a: string, b: string, c: nat)
    ensures StartsWith(text, a + b, c) <==> StartsWith(text, a, c) && StartsWith(text, b, c + |a|)
  {
    if c + |a| + |b| <= |text| {
      var s := text[c..c + |a| + |b|];
      assert s[..|a|] == text[c..c + |a|] && s[|a|..] == text[c + |a|..c + |a| + |b|];
      assert s == s[..|a|] + s[|a|..];
    }
  }

  /** Character by character is the same as the rendered text. */
  lemma {:induction false} BodyIsText(text: string, c: nat, b: Body)
    ensures Size(b) == |Render(b)| + 2
    ensures BodyAt(text, c, b) <==> StartsWith(text, Render(b) + "*/", c)
    decreases b
  {
    match b
    case Empty =>
      assert Render(b) + "*/" == "*/";
      PairAt(text, c, '*', '/');
    case Letter(x, rest) =>
      BodyIsText(text, c + 1, rest);
      LetterText(text, c, x, rest);
    case Nested(inner, rest) =>
      BodyIsText(text, c + 2, inner);
      BodyIsText(text, c + 2 + Size(inner), rest);
      NestedText(text, c, inner, rest);
      PairAt(text, c, '/', '*');
  }

  lemma NestedText(text: string, c: nat, inner: Body, rest: Body)
    ensures StartsWith(text, Render(Nested(inner, rest)) + "*/", c) <==>
            && StartsWith(text, "/*", c) && StartsWith(text, Render(inner) + "*/", c + 2)
            && StartsWith(text, Render(rest) + "*/", c + 2 + |Render(inner)| + 2)
  {
    var a, b := Render(inner) + "*/", Render(rest) + "*/";
    assert Render(Nested(inner, rest)) + "*/" == "/*" + (a + b);
    StartsWithConcat(text, "/*", a + b, c);
    StartsWithConcat(text, a, b, c + 2);
  }

  lemma LetterText(text: string, c: nat, x: char, rest: Body)
    ensures StartsWith(text, Render(Letter(x, rest)) + "*/", c) <==>
            c < |text| && text[c] == x && StartsWith(text, Render(rest) + "*/", c + 1)
  {
    assert Render(Letter(x, rest)) + "*/" == [x] + (Render(rest) + "*/");
    StartsWithConcat(text, [x], Render(rest) + "*/", c);
    if c < |text| {
      assert text[c..c + 1] == [text[c]];
    }
  }

  lemma CommentIsParsed(text: string, i: nat, b: Body)
    requires StartsWith(text, "/*", i)
    ensures StartsWith(text, CommentText(b), i) <==> BodyAt(text, i + 2, b)
    ensures |CommentText(b)| == 2 + Size(b)
  {
    StartsWithConcat(text, "/*", Render(b) + "*/", i);
    BodyIsText(text, i + 2, b);
  }

  /**
   The scanner finds the end of a block comment exactly: that of the one nested comment that starts
   here, if it is closed.
   */
  lemma BlockCommentMeans(text: string, i: nat, e: nat)
    requires StartsWith(text, "/*", i)
    ensures e == BlockCommentEnd(text, i + 2, 1) <==> EndsComment(text, i, e)
  {
    LoopRefinesParser(text, i + 2, 1);
    forall k: nat ensures IsCommentAt(text, i, k) <==> Parse(text, i + 2).Some? && k == Parse(text, i + 2).value.1 {
      ParserFindsTheComment(text, i, k);
    }
    if Parse(text, i + 2).Some? {
      assert IsCommentAt(text, i, Parse(text, i + 2).value.1);
    }
  }

  /** There is one comment at most that starts here, and the parser reads it. */
  lemma ParserFindsTheComment(text: string, i: nat, e: nat)
    requires StartsWith(text, "/*", i)
    ensures IsCommentAt(text, i, e) <==> Parse(text, i + 2).Some? && e == Parse(text, i + 2).value.1
  {
    if IsCommentAt(text, i, e) {
      var b :| Clean(b) && CommentIs(text, i, e, b);
      CommentIsParsed(text, i, b);
      ParserIsComplete(text, i + 2, b);
    }
    if Parse(text, i + 2).Some? && e == Parse(text, i + 2).value.1 {
      var b := Parse(text, i + 2).value.0;
      ParserIsSound(text, i + 2);
      CommentIsParsed(text, i, b);
      assert CommentIs(text, i, e, b);
    }
  }

  // ---------------------------------------------------------------- the scanner's loops

  method FindMarker(text: string, marker: string, from: nat) returns (r: Option<nat>)
    ensures r == FindFrom(text, marker, from)
  {
    var at := from;
    while at + |marker| <= |text|
      invariant FindFrom(text, marker, at) == FindFrom(text, marker, from)
      decreases |text| - at
    {
      if text[at..at + |marker|] == marker {
        return Some(at);
      }
      at := at + 1;
    }
    return None;
  }

  method ScanRawString(text: string, start: nat) returns (r: Option<nat>)
    requires start < |text|
    ensures r == RawStringEnd(text, start)
    ensures r.Some? <==> exists p, n :: OpensRaw(text, start, p, n)
    ensures forall p, n :: OpensRaw(text, start, p, n) ==> r.Some? && EndsRaw(text, start + p + n + 1, n, r.value)
  {
    OnePrefix(text, start);
    RawStringMeans(text, start);
    if StartsWith(text, "br", start) {
      r := ScanAfterPrefix(text, start, 2);
      if r.Some? { return; }
    }
    if StartsWith(text, "r", start) {
      r := ScanAfterPrefix(text, start, 1);
      if r.Some? { return; }
    }
    return None;
  }

  method ScanHashes(text: string, start: nat) returns (cursor: nat)
    requires start <= |text|
    ensures cursor == SkipHashes(text, start)
  {
    cursor := start;
    while cursor < |text| && text[cursor] == '#'
      invariant start <= cursor <= |text|
      invariant SkipHashes(text, cursor) == SkipHashes(text, start)
    {
      cursor := cursor + 1;
    }
  }

  /** The body of the loop over the two prefixes. */
  method ScanAfterPrefix(text: string, start: nat, prefix: nat) returns (r: Option<nat>)
    requires start + prefix <= |text|
    ensures r == RawAfterPrefix(text, start, prefix)
  {
    var cursor := ScanHashes(text, start + prefix);
    if cursor >= |text| || text[cursor] != '"' {
      return None;
    }
    var marker := RawMarker(cursor - start - prefix);
    var end := FindMarker(text, marker, cursor + 1);
    if end.None? {
      return Some(|text|);
    }
    return Some(end.value + |marker|);
  }

  method ScanQuoted(text: string, start: nat, quote: char) returns (end: nat)
    ensures end == QuotedEnd(text, start + 1, quote)
    ensures quote != '\\' ==> EndsQuoted(text, start + 1, quote, end)
  {
    if quote != '\\' {
      QuotedEndMeans(text, start + 1, quote);
    }
    var cursor := start + 1;
    while cursor < |text|
      invariant QuotedEnd(text, cursor, quote) == QuotedEnd(text, start + 1, quote)
      decreases |text| - cursor
    {
      var c := text[cursor];
      if c == '\\' {
        cursor := cursor + 2;
        continue;
      }
      cursor := cursor + 1;
      if c == quote {
        return cursor;
      }
    }
    return |text|;
  }

  /** The end of the one nested comment that starts here, or of the text if that comment is not closed. */
  method ScanBlockComment(text: string, start: nat) returns (end: nat)
    requires start + 2 <= |text|
    ensures end == BlockCommentEnd(text, start + 2, 1)
    ensures StartsWith(text, "/*", start) ==> EndsComment(text, start, end)
  {
    end := ScanBody(text, start + 2);
    if StartsWith(text, "/*", start) {
      BlockCommentMeans(text, start, end);
    }
  }

  method ScanBody(text: string, start: nat) returns (cursor: nat)
    requires start <= |text|
    ensures cursor == BlockCommentEnd(text, start, 1)
  {
    var depth: nat := 1;
    cursor := start;
    while cursor < |text| && depth > 0
      invariant cursor <= |text|
      invariant BlockCommentEnd(text, cursor, depth) == BlockCommentEnd(text, start, 1)
      decreases |text| - cursor
    {
      if StartsWith(text, "/*", cursor) {
        depth := depth + 1;
        cursor := cursor + 2;
        continue;
      }
      if StartsWith(text, "*/", cursor) {
        depth := depth - 1;
        cursor := cursor + 2;
        continue;
      }
      cursor := cursor + 1;
    }
  }
}
