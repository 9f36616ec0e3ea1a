/** The Rust tokenizer of the readiness gate (scripts/check-distribution-readiness.py). */
module RustTokens {
  import opened Common

  // ----------------------------------------------------------- characters

  /** Python's `str.isspace` on one character. */
  predicate IsSpace(c: char) {
    var k := c as int;
    || 0x09 <= k <= 0x0D || 0x1C <= k <= 0x20 || k == 0x85 || k == 0xA0 || k == 0x1680
    || 0x2000 <= k <= 0x200A || k == 0x2028 || k == 0x2029 || k == 0x202F || k == 0x205F || k == 0x3000
  }

  predicate IsIdentStart(c: char) {
    'A' <= c <= 'Z' || 'a' <= c <= 'z' || c == '_'
  }

  predicate IsIdentPart(c: char) {
    IsIdentStart(c) || '0' <= c <= '9'
  }

  // ------------------------------------------------------- text searching

  predicate StartsAt(s: string, i: nat, p: string) {
    i + |p| <= |s| && s[i..i + |p|] == p
  }

  /** Python's `s.find(p, from)`. */
  function Find(s: string, p: string, from: nat): (r: Option<nat>)
    ensures r.Some? ==> from <= r.value && StartsAt(s, r.value, p)
    ensures r.Some? ==> forall j :: from <= j < r.value ==> !StartsAt(s, j, p)
    ensures r.None? ==> forall j: nat :: from <= j ==> !StartsAt(s, j, p)
    decreases |s| - from
  {
    if from + |p| > |s| then None
    else if s[from..from + |p|] == p then Some(from)
    else if from == |s| then None
    else Find(s, p, from + 1)
  }

  lemma FindIs(s: string, p: string, from: nat, at: nat)
    requires from <= at && StartsAt(s, at, p)
    requires forall j :: from <= j < at ==> !StartsAt(s, j, p)
    ensures Find(s, p, from) == Some(at)
  {
  }

  lemma StartsAtLocal(x: string, u: string, v: string, i: nat, p: string)
    requires i + |p| <= |x|
    ensures StartsAt(x + u, i, p) == StartsAt(x + v, i, p) == StartsAt(x, i, p)
  {
    assert (x + u)[i..i + |p|] == x[i..i + |p|] == (x + v)[i..i + |p|];
  }

  lemma FindLocal(x: string, u: string, v: string, p: string, from: nat, at: nat)
    requires Find(x + u, p, from) == Some(at) && at + |p| <= |x|
    ensures Find(x + v, p, from) == Some(at)
  {
    StartsAtLocal(x, u, v, at, p);
    forall j | from <= j < at ensures !StartsAt(x + v, j, p) {
      StartsAtLocal(x, u, v, j, p);
    }
    FindIs(x + v, p, from, at);
  }

  // ------------------------------------------------------------ one lexeme

  /** The reference for nested block comments, one character at a time: the first
      position, scanning from `i`, at which the nesting depth returns to zero. */
  function CommentEnd(t: string, i: nat, depth: nat): (r: Option<nat>)
    ensures r.Some? ==> i <= r.value && (depth > 0 ==> i + 2 <= r.value <= |t|)
    decreases |t| - i
  {
    if depth == 0 then Some(i)
    else if i + 2 > |t| then None
    else if StartsAt(t, i, "/*") then CommentEnd(t, i + 2, depth + 1)
    else if StartsAt(t, i, "*/") then CommentEnd(t, i + 2, depth - 1)
    else CommentEnd(t, i + 1, depth)
  }

  /** End of a quoted literal: an unescaped closing quote, a backslash escaping one character. */
  function QuotedEnd(t: string, i: nat, quote: char): (r: Option<nat>)
    ensures r.Some? ==> i < r.value <= |t|
    decreases |t| - i
  {
    if i >= |t| then None
    else if t[i] == '\\' then (if i + 1 < |t| then QuotedEnd(t, i + 2, quote) else None)
    else if t[i] == quote then Some(i + 1)
    else QuotedEnd(t, i + 1, quote)
  }

  function HashCount(t: string, i: nat): (n: nat)
    ensures i <= |t| ==> i + n <= |t|
    ensures forall j :: i <= j < i + n && j < |t| ==> t[j] == '#'
    ensures i + n < |t| ==> t[i + n] != '#'
    decreases |t| - i
  {
    if i < |t| && t[i] == '#' then 1 + HashCount(t, i + 1) else 0
  }

  /** The raw-literal opener at the start of `t`: `br`, `rb` or `r`, hashes, a quote. */
  function RawPrefix(t: string): nat {
    if StartsAt(t, 0, "br") || StartsAt(t, 0, "rb") then 2 else if StartsAt(t, 0, "r") then 1 else 0
  }

  /** Hash count and length of the raw-literal opener, if there is one. */
  function RawOpen(t: string): (r: Option<(nat, nat)>)
    ensures r.Some? ==> 0 < r.value.1 <= |t|
  {
    var p := RawPrefix(t);
    var n := HashCount(t, p);
    if p > 0 && p + n < |t| && t[p + n] == '"' then Some((n, p + n + 1)) else None
  }

  function RawDelimiter(hashes: nat): string {
    ['"'] + Repeat('#', hashes)
  }

  function CharAt(t: string, i: nat): Option<char> {
    if i < |t| then Some(t[i]) else None
  }

  function QuoteIndex(t: string): nat {
    if CharAt(t, 0) == Some('b') then 1 else 0
  }

  predicate OpensQuoted(t: string) {
    var q := QuoteIndex(t);
    || CharAt(t, q) == Some('"')
    || (CharAt(t, q) == Some('\'') && (CharAt(t, q + 1) == Some('\\') || CharAt(t, q + 2) == Some('\'')))
  }

  function IdentLength(t: string): (n: nat)
    ensures n <= |t|
    ensures forall j :: 0 <= j < n ==> IsIdentPart(t[j])
    ensures n < |t| ==> !IsIdentPart(t[n])
  {
    if t == [] || !IsIdentPart(t[0]) then 0 else 1 + IdentLength(t[1..])
  }

  datatype Piece = TokenOf(length: nat) | BlankOf(length: nat) | Broken

  function TokenUpTo(end: Option<nat>): Piece {
    match end case Some(n) => TokenOf(n) case None => Broken
  }

  /** What stands at the start of a non-empty text. */
  function Next(t: string): (r: Piece)
    requires t != []
    ensures !r.Broken? ==> 0 < r.length <= |t|
  {
    if IsSpace(t[0]) then BlankOf(1)
    else if StartsAt(t, 0, "//") then
      (match Find(t, "\n", 2) case Some(newline) => BlankOf(newline + 1) case None => BlankOf(|t|))
    else if StartsAt(t, 0, "/*") then
      (match CommentEnd(t, 2, 1) case Some(end) => BlankOf(end) case None => Broken)
    else if RawOpen(t).Some? then
      (var (hashes, open) := RawOpen(t).value;
       match Find(t, RawDelimiter(hashes), open)
       case Some(end) => TokenOf(end + hashes + 1)
       case None => Broken)
    else if OpensQuoted(t) then TokenUpTo(QuotedEnd(t, QuoteIndex(t) + 1, t[QuoteIndex(t)]))
    else if IsIdentStart(t[0]) then
      assert IsIdentPart(t[0]);
      TokenOf(IdentLength(t))
    else TokenOf(1)
  }

  // ---------------------------------------------------------- whole sources

  datatype Lexeme = Token(text: string) | Blank(text: string)

  /** The partition of a source into tokens and blanks, if every lexeme is closed. */
  function Lex(s: string): (r: Option<seq<Lexeme>>) {
    if s == [] then Some([])
    else match Next(s)
      case Broken => None
      case TokenOf(n) => (match Lex(s[n..]) case Some(rest) => Some([Token(s[..n])] + rest) case None => None)
      case BlankOf(n) => (match Lex(s[n..]) case Some(rest) => Some([Blank(s[..n])] + rest) case None => None)
  }

  function TokenTexts(lexemes: seq<Lexeme>): seq<string> {
    if lexemes == [] then []
    else (if lexemes[0].Token? then [lexemes[0].text] else []) + TokenTexts(lexemes[1..])
  }

  function Tokens(s: string): Option<seq<string>> {
    match Lex(s) case Some(lexemes) => Some(TokenTexts(lexemes)) case None => None
  }

  function Source(lexemes: seq<Lexeme>): string {
    if lexemes == [] then "" else lexemes[0].text + Source(lexemes[1..])
  }

  /** The lexemes partition the source: in order, none empty, no character lost. */
  lemma {:induction false} LexPartitions(s: string)
    ensures Lex(s).Some? ==> Source(Lex(s).value) == s
    ensures Lex(s).Some? ==> forall x :: x in Lex(s).value ==> x.text != []
  {
    if s != [] && Lex(s).Some? {
      var n := Next(s).length;
      LexPartitions(s[n..]);
      assert Lex(s).value[1..] == Lex(s[n..]).value;
      assert s == s[..n] + s[n..];
    }
  }

  // ------------------------------------------------- what a lexeme is, in the text itself

  /** The structure of a block comment's inside: nothing more, a character that starts no marker,
      or a whole comment, and then the rest. */
  datatype Body = Closed | Plain(rest: Body) | Nested(inner: Body, rest: Body)

  /** Where a comment with this structure ends, if the text from `i` on has it. */
  function ClosesAt(t: string, i: nat, body: Body): Option<nat>
    decreases body
  {
    match body
    case Closed => if StartsAt(t, i, "*/") then Some(i + 2) else None
    case Plain(rest) =>
      if i < |t| && !StartsAt(t, i, "*/") && !StartsAt(t, i, "/*") then ClosesAt(t, i + 1, rest) else None
    case Nested(inner, rest) =>
      if StartsAt(t, i, "/*") then
        (match ClosesAt(t, i + 2, inner) case Some(k) => ClosesAt(t, k, rest) case None => None)
      else None
  }

  /** A properly nested text takes the depth down by one. */
  lemma {:induction false} BodyTakesOne(t: string, i: nat, body: Body, depth: nat)
    requires ClosesAt(t, i, body).Some?
    ensures CommentEnd(t, i, depth + 1) == CommentEnd(t, ClosesAt(t, i, body).value, depth)
    decreases body
  {
    match body
    case Closed =>
      assert !StartsAt(t, i, "/*");
    case Plain(rest) =>
      BodyTakesOne(t, i + 1, rest, depth);
      ClosedIsLater(t, i + 1, rest);
    case Nested(inner, rest) =>
      BodyTakesOne(t, i + 2, inner, depth + 1);
      BodyTakesOne(t, ClosesAt(t, i + 2, inner).value, rest, depth);
  }

  lemma {:induction false} ClosedIsLater(t: string, i: nat, body: Body)
    requires ClosesAt(t, i, body).Some?
    ensures i + 2 <= ClosesAt(t, i, body).value <= |t|
    decreases body
  {
    match body
    case Closed =>
    case Plain(rest) => ClosedIsLater(t, i + 1, rest);
    case Nested(inner, rest) =>
      ClosedIsLater(t, i + 2, inner);
      ClosedIsLater(t, ClosesAt(t, i + 2, inner).value, rest);
  }

  /** Whatever takes the depth to zero starts with a properly nested text. */
  lemma {:induction false} SomeBody(t: string, i: nat, depth: nat) returns (body: Body)
    requires CommentEnd(t, i, depth + 1).Some?
    ensures ClosesAt(t, i, body).Some?
    decreases |t| - i
  {
    if StartsAt(t, i, "/*") {
      var inner := SomeBody(t, i + 2, depth + 1);
      BodyTakesOne(t, i + 2, inner, depth + 1);
      ClosedIsLater(t, i + 2, inner);
      var rest := SomeBody(t, ClosesAt(t, i + 2, inner).value, depth);
      body := Nested(inner, rest);
    } else if StartsAt(t, i, "*/") {
      body := Closed;
    } else {
      var rest := SomeBody(t, i + 1, depth);
      body := Plain(rest);
    }
  }

  /** A text that opens a block comment has one that ends at `n`. */
  ghost predicate IsNested(t: string, n: nat) {
    exists body :: ClosesAt(t, 2, body) == Some(n)
  }

  ghost predicate NeverNested(t: string) {
    forall body :: ClosesAt(t, 2, body) == None
  }

  /** A block comment ends where its properly nested inside does, and only if it has one. */
  lemma CommentIsNested(t: string, n: nat)
    ensures CommentEnd(t, 2, 1) == Some(n) <==> IsNested(t, n)
    ensures CommentEnd(t, 2, 1).None? <==> NeverNested(t)
  {
    if CommentEnd(t, 2, 1).Some? {
      var body := SomeBody(t, 2, 0);
    }
    forall body | ClosesAt(t, 2, body).Some?
      ensures CommentEnd(t, 2, 1) == ClosesAt(t, 2, body)
    {
      BodyTakesOne(t, 2, body, 0);
    }
  }

  /** Where the run of backslashes begins that ends just before `at`, not before `from`. */
  function RunStart(t: string, from: nat, at: nat): (start: nat)
    requires from <= at <= |t|
    ensures from <= start <= at
    ensures forall j :: start <= j < at ==> t[j] == '\\'
    ensures start > from ==> t[start - 1] != '\\'
  {
    if at > from && t[at - 1] == '\\' then RunStart(t, from, at - 1) else at
  }

  /** A quote that an even number of backslashes stands before. */
  predicate Unescaped(t: string, from: nat, quote: char, k: int) {
    from <= k < |t| && t[k] == quote && (k - RunStart(t, from, k)) % 2 == 0
  }

  /** Moving the start past a character that is no backslash, or past an escaped character, leaves
      the later quotes escaped or not as they were. */
  lemma SkipPlainFrom(t: string, i: nat, quote: char, k: nat)
    requires i < k < |t| && t[i] != '\\'
    ensures Unescaped(t, i, quote, k) <==> Unescaped(t, i + 1, quote, k)
  {
  }

  lemma SkipEscapeFrom(t: string, i: nat, quote: char, k: nat)
    requires i + 1 < k < |t| && t[i] == '\\'
    ensures Unescaped(t, i, quote, k) <==> Unescaped(t, i + 2, quote, k)
  {
    var s, s' := RunStart(t, i, k), RunStart(t, i + 2, k);
    if s' == i + 2 {
      assert s == if t[i + 1] == '\\' then i else i + 2;
    }
  }

  ghost predicate NoneUnescaped(t: string, from: nat, quote: char) {
    forall k :: !Unescaped(t, from, quote, k)
  }

  /** The first such quote stands just before `n`. */
  predicate FirstUnescaped(t: string, from: nat, quote: char, n: nat) {
    from < n && Unescaped(t, from, quote, n - 1) && forall k :: from <= k < n - 1 ==> !Unescaped(t, from, quote, k)
  }

  /** One step of the scan that is not at a closing quote changes no later quote. */
  lemma StepKeepsQuotes(t: string, i: nat, quote: char) returns (j: nat)
    requires i < |t| && quote != '\\' && t[i] != quote
    ensures i < j && (j <= |t| || j == |t| + 1)
    ensures QuotedEnd(t, i, quote) == if j <= |t| then QuotedEnd(t, j, quote) else None
    ensures forall k :: i <= k < j ==> !Unescaped(t, i, quote, k)
    ensures j > |t| ==> forall k :: !Unescaped(t, i, quote, k)
    ensures forall k :: j <= k ==> (Unescaped(t, i, quote, k) <==> Unescaped(t, j, quote, k))
  {
    if t[i] == '\\' {
      j := i + 2;
      forall k | j <= k < |t|
        ensures Unescaped(t, i, quote, k) <==> Unescaped(t, j, quote, k)
      {
        SkipEscapeFrom(t, i, quote, k);
      }
      assert !Unescaped(t, i, quote, i + 1);
    } else {
      j := i + 1;
      forall k | j <= k < |t|
        ensures Unescaped(t, i, quote, k) <==> Unescaped(t, j, quote, k)
      {
        SkipPlainFrom(t, i, quote, k);
      }
    }
  }

  /** A literal ends at the first quote that an even number of backslashes stands before. */
  lemma {:induction false} QuotedEndIff(t: string, i: nat, quote: char, n: nat)
    requires quote != '\\'
    ensures QuotedEnd(t, i, quote) == Some(n) <==> FirstUnescaped(t, i, quote, n)
    decreases |t| - i
  {
    hide RunStart;
    if i < |t| && t[i] == quote {
      assert Unescaped(t, i, quote, i);
    } else if i < |t| {
      hide Unescaped;
      var j := StepKeepsQuotes(t, i, quote);
      if j <= |t| {
        QuotedEndIff(t, j, quote, n);
        hide QuotedEnd;
      }
    }
  }

  /** And it does not end exactly when there is none. */
  lemma {:induction false} QuotedNeverEnds(t: string, i: nat, quote: char)
    requires quote != '\\'
    ensures QuotedEnd(t, i, quote).None? <==> NoneUnescaped(t, i, quote)
    decreases |t| - i
  {
    if QuotedEnd(t, i, quote).Some? {
      var n := QuotedEnd(t, i, quote).value;
      QuotedEndIff(t, i, quote, n);
      assert Unescaped(t, i, quote, n - 1);
    } else if k :| Unescaped(t, i, quote, k) {
      var first := FirstOne(t, i, quote, k);
      QuotedEndIff(t, i, quote, first);
    }
  }

  lemma QuotedEndTells(t: string, i: nat, quote: char)
    ensures quote != '\\' ==> match QuotedEnd(t, i, quote)
                                case Some(n) => FirstUnescaped(t, i, quote, n)
                                case None => NoneUnescaped(t, i, quote)
  {
    hide *;
    if quote != '\\' {
      QuotedNeverEnds(t, i, quote);
      match QuotedEnd(t, i, quote)
      case Some(n) => QuotedEndIff(t, i, quote, n);
      case None =>
    }
  }

  lemma {:induction false} FirstOne(t: string, i: nat, quote: char, k: int) returns (n: nat)
    requires Unescaped(t, i, quote, k)
    ensures FirstUnescaped(t, i, quote, n)
    decreases k
  {
    if earlier :| i <= earlier < k && Unescaped(t, i, quote, earlier) {
      n := FirstOne(t, i, quote, earlier);
    } else {
      n := k + 1;
    }
  }

  /** A raw literal opens: a prefix, hashes and a quote. */
  predicate OpensRaw(t: string, prefix: string, hashes: nat) {
    prefix in {"r", "br", "rb"} && StartsAt(t, 0, prefix + Repeat('#', hashes) + "\"")
  }

  /** What ends it stands at `at`: a quote and as many hashes. */
  predicate EndsRaw(t: string, hashes: nat, at: nat) {
    StartsAt(t, at, "\"" + Repeat('#', hashes))
  }

  predicate OpensLineComment(t: string) {
    |t| >= 2 && t[0] == '/' && t[1] == '/'
  }

  predicate OpensBlockComment(t: string) {
    |t| >= 2 && t[0] == '/' && t[1] == '*'
  }

  /** A quoted literal opens with its quote at `q`: a string, or a character that is escaped or
      stands between two quotes; `b` may stand before it. */
  predicate OpensLiteral(t: string, q: nat) {
    && q < |t| && (q == 0 || (q == 1 && t[0] == 'b'))
    && (|| t[q] == '"'
        || (t[q] == '\'' && ((q + 1 < |t| && t[q + 1] == '\\') || (q + 2 < |t| && t[q + 2] == '\''))))
  }

  /** What stands at the start of a text, said of its characters. */
  ghost predicate LexemeTells(t: string, piece: Piece)
    requires t != ""
  {
    if IsSpace(t[0]) then piece == BlankOf(1)
    else if OpensLineComment(t) then
      && piece.BlankOf? && 2 <= piece.length <= |t|
      && (forall j :: 2 <= j < piece.length - 1 ==> t[j] != '\n')
      && (piece.length < |t| ==> t[piece.length - 1] == '\n' && piece.length > 2)
    else if OpensBlockComment(t) then
      match piece
      case BlankOf(n) => IsNested(t, n)
      case Broken => NeverNested(t)
      case TokenOf(_) => false
    else if exists prefix, hashes :: OpensRaw(t, prefix, hashes) then
      forall prefix, hashes :: OpensRaw(t, prefix, hashes) ==> RawTells(t, |prefix| + hashes + 1, hashes, piece)
    else if exists q :: OpensLiteral(t, q) then
      forall q :: OpensLiteral(t, q) ==> LiteralTells(t, q, piece)
    else if IsIdentStart(t[0]) then
      && piece.TokenOf? && 0 < piece.length <= |t| && (forall j :: 0 <= j < piece.length ==> IsIdentPart(t[j]))
      && (piece.length < |t| ==> !IsIdentPart(t[piece.length]))
    else piece == TokenOf(1)
  }

  /** A raw literal whose inside begins at `open` ends at the first quote with its hashes. */
  ghost predicate RawTells(t: string, open: nat, hashes: nat, piece: Piece) {
    match piece
    case TokenOf(n) =>
      && n >= open + hashes + 1 && EndsRaw(t, hashes, n - hashes - 1)
      && forall k :: open <= k < n - hashes - 1 ==> !EndsRaw(t, hashes, k)
    case Broken => forall k :: open <= k ==> !EndsRaw(t, hashes, k)
    case BlankOf(_) => false
  }

  /** A quoted literal ends at the first quote like its own that an even number of backslashes
      stands before. */
  ghost predicate LiteralTells(t: string, q: nat, piece: Piece)
    requires q < |t|
  {
    match piece
    case TokenOf(n) => FirstUnescaped(t, q + 1, t[q], n)
    case Broken => NoneUnescaped(t, q + 1, t[q])
    case BlankOf(_) => false
  }

  lemma RawOpenIff(t: string, prefix: string, hashes: nat)
    ensures OpensRaw(t, prefix, hashes) ==> RawOpen(t) == Some((hashes, |prefix| + hashes + 1))
  {
    if OpensRaw(t, prefix, hashes) {
      var opener := prefix + Repeat('#', hashes) + "\"";
      assert t[..|opener|] == opener;
      assert forall j :: 0 <= j < |opener| ==> t[j] == opener[j];
      assert |opener| == |prefix| + hashes + 1 && opener[|opener| - 1] == '"';
      PrefixIs(t, prefix, opener);
      HashesAre(t, |prefix|, hashes);
    }
  }

  lemma PrefixIs(t: string, prefix: string, opener: string)
    requires prefix in {"r", "br", "rb"} && |opener| > |prefix| && |opener| <= |t| && t[..|opener|] == opener
    requires opener[..|prefix|] == prefix && (opener[|prefix|] == '#' || opener[|prefix|] == '"')
    ensures RawPrefix(t) == |prefix|
  {
    assert t[..|prefix|] == prefix && t[|prefix|] == opener[|prefix|];
    assert |t| >= 2 && t[..2] == [t[0], t[1]] && t[..1] == [t[0]];
  }

  lemma {:induction false} HashesAre(t: string, i: nat, hashes: nat)
    requires i + hashes < |t| && (forall j :: i <= j < i + hashes ==> t[j] == '#') && t[i + hashes] != '#'
    ensures HashCount(t, i) == hashes
    decreases hashes
  {
    if hashes > 0 {
      HashesAre(t, i + 1, hashes - 1);
    }
  }

  /** And an opener that the lexer finds is one. */
  lemma RawOpenOpens(t: string) returns (prefix: string)
    requires RawOpen(t).Some?
    ensures OpensRaw(t, prefix, RawOpen(t).value.0) && RawOpen(t).value.1 == |prefix| + RawOpen(t).value.0 + 1
  {
    var (hashes, open) := RawOpen(t).value;
    prefix := t[..RawPrefix(t)];
    assert prefix in {"r", "br", "rb"};
    var opener := prefix + Repeat('#', hashes) + "\"";
    assert |opener| == open;
    assert forall j :: 0 <= j < open ==> t[j] == opener[j];
    assert t[0..open] == opener;
  }

  lemma OpensQuotedIff(t: string, q: nat)
    ensures OpensLiteral(t, q) ==> OpensQuoted(t) && q == QuoteIndex(t)
    ensures OpensQuoted(t) ==> OpensLiteral(t, QuoteIndex(t))
  {
  }

  lemma SameDelimiter(hashes: nat)
    ensures RawDelimiter(hashes) == "\"" + Repeat('#', hashes)
  {
  }

  lemma CommentsOpen(t: string)
    ensures StartsAt(t, 0, "//") <==> OpensLineComment(t)
    ensures StartsAt(t, 0, "/*") <==> OpensBlockComment(t)
  {
    if |t| >= 2 {
      assert t[..2] == [t[0], t[1]];
    }
  }

  lemma LineCommentTells(t: string)
    requires t != "" && !IsSpace(t[0]) && OpensLineComment(t)
    ensures LexemeTells(t, Next(t))
  {
    hide CommentEnd, RawOpen, QuotedEnd, IdentLength;
    CommentsOpen(t);
    var newline := Find(t, "\n", 2);
    forall j | 2 <= j < (if newline.Some? then newline.value else |t|)
      ensures t[j] != '\n'
    {
      assert t[j..j + 1] == [t[j]];
      assert !StartsAt(t, j, "\n");
    }
    if newline.Some? {
      assert t[newline.value..newline.value + 1] == "\n";
    }
  }

  lemma BlockCommentTells(t: string)
    requires t != "" && !IsSpace(t[0]) && OpensBlockComment(t)
    ensures LexemeTells(t, Next(t))
  {
    hide Find, RawOpen, QuotedEnd, IdentLength, IsNested, NeverNested;
    CommentsOpen(t);
    if CommentEnd(t, 2, 1).Some? {
      CommentIsNested(t, CommentEnd(t, 2, 1).value);
    } else {
      CommentIsNested(t, 0);
    }
  }

  lemma RawLiteralTells(t: string)
    requires t != "" && !IsSpace(t[0]) && !OpensLineComment(t) && !OpensBlockComment(t) && RawOpen(t).Some?
    ensures LexemeTells(t, Next(t))
  {
    hide CommentEnd, QuotedEnd, IdentLength, ClosesAt, OpensRaw;
    CommentsOpen(t);
    var (hashes, open) := RawOpen(t).value;
    var opener := RawOpenOpens(t);
    SameDelimiter(hashes);
    hide RawOpen;
    forall prefix, h | OpensRaw(t, prefix, h)
      ensures RawTells(t, |prefix| + h + 1, h, Next(t))
    {
      RawOpenIff(t, prefix, h);
      hide StartsAt;
    }
  }

  lemma QuotedTells(t: string)
    requires t != "" && !IsSpace(t[0]) && !OpensLineComment(t) && !OpensBlockComment(t)
    requires RawOpen(t).None? && OpensQuoted(t)
    ensures LexemeTells(t, Next(t))
  {
    hide CommentEnd, Find, IdentLength, ClosesAt, OpensRaw, Unescaped, FirstUnescaped;
    CommentsOpen(t);
    NoRawOpens(t);
    hide RawOpen;
    var q := QuoteIndex(t);
    OpensQuotedIff(t, q);
    forall q' | OpensLiteral(t, q')
      ensures q' == q
    {
      OpensQuotedIff(t, q');
    }
    QuotedNeverEnds(t, q + 1, t[q]);
    if QuotedEnd(t, q + 1, t[q]).Some? {
      QuotedEndIff(t, q + 1, t[q], QuotedEnd(t, q + 1, t[q]).value);
    }
  }

  lemma NoRawOpens(t: string)
    requires RawOpen(t).None?
    ensures forall prefix, hashes :: !OpensRaw(t, prefix, hashes)
  {
    forall prefix, hashes: nat
      ensures !OpensRaw(t, prefix, hashes)
    {
      RawOpenIff(t, prefix, hashes);
    }
  }

  lemma OtherTells(t: string)
    requires t != "" && !IsSpace(t[0]) && !OpensLineComment(t) && !OpensBlockComment(t)
    requires RawOpen(t).None? && !OpensQuoted(t)
    ensures LexemeTells(t, Next(t))
  {
    hide CommentEnd, Find, ClosesAt, OpensRaw, QuotedEnd;
    CommentsOpen(t);
    NoRawOpens(t);
    hide RawOpen;
    forall q
      ensures !OpensLiteral(t, q)
    {
      OpensQuotedIff(t, q);
    }
  }

  /** The lexer reads what stands there. */
  lemma NextTells(t: string)
    requires t != ""
    ensures LexemeTells(t, Next(t))
  {
    if IsSpace(t[0]) {
    } else if OpensLineComment(t) {
      LineCommentTells(t);
    } else if OpensBlockComment(t) {
      BlockCommentTells(t);
    } else if RawOpen(t).Some? {
      RawLiteralTells(t);
    } else if OpensQuoted(t) {
      QuotedTells(t);
    } else {
      OtherTells(t);
    }
  }

  /** Only one lexeme can stand there. */
  lemma LexemeIsOne(t: string, p: Piece, p': Piece)
    requires t != "" && LexemeTells(t, p) && LexemeTells(t, p')
    ensures p == p'
  {
    hide StartsAt, Unescaped, OpensLiteral, OpensRaw, ClosesAt, EndsRaw;
    if IsSpace(t[0]) {
    } else if OpensLineComment(t) {
    } else if OpensBlockComment(t) {
      hide LexemeTells;
      BlockCommentIsOne(t, p, p');
    } else if exists prefix, hashes :: OpensRaw(t, prefix, hashes) {
      var prefix, hashes :| OpensRaw(t, prefix, hashes);
      assert RawTells(t, |prefix| + hashes + 1, hashes, p) && RawTells(t, |prefix| + hashes + 1, hashes, p');
    } else if exists q: nat :: OpensLiteral(t, q) {
      var q: nat :| OpensLiteral(t, q);
      assert q < |t| by { LiteralFits(t, q); }
      assert LiteralTells(t, q, p) && LiteralTells(t, q, p');
    }
  }

  lemma LiteralFits(t: string, q: nat)
    requires OpensLiteral(t, q)
    ensures q < |t|
  {
  }

  lemma BlockCommentIsOne(t: string, p: Piece, p': Piece)
    requires t != "" && !IsSpace(t[0]) && !OpensLineComment(t) && OpensBlockComment(t)
    requires LexemeTells(t, p) && LexemeTells(t, p')
    ensures p == p'
  {
    hide LexemeTells;
    BlockCommentIs(t, p);
    BlockCommentIs(t, p');
  }

  lemma BlockCommentIs(t: string, p: Piece)
    requires t != "" && !IsSpace(t[0]) && !OpensLineComment(t) && OpensBlockComment(t) && LexemeTells(t, p)
    ensures p == match CommentEnd(t, 2, 1) case Some(n) => BlankOf(n) case None => Broken
  {
    hide CommentEnd, IsNested, NeverNested;
    match p
    case BlankOf(n) =>
      CommentIsNested(t, n);
    case Broken => CommentIsNested(t, 0);
    case TokenOf(_) =>
  }

  /** The lexemes of a text, one after the other, each what stands there. */
  ghost predicate LexemesTell(s: string, lexemes: seq<Lexeme>) {
    if lexemes == [] then s == ""
    else
      var text := lexemes[0].text;
      && s != "" && |text| <= |s| && s[..|text|] == text
      && LexemeTells(s, if lexemes[0].Token? then TokenOf(|text|) else BlankOf(|text|))
      && LexemesTell(s[|text|..], lexemes[1..])
  }

  /** A text is cut into lexemes exactly in this way, and not at all exactly when there is none. */
  lemma {:induction false} LexIff(s: string, lexemes: seq<Lexeme>)
    ensures Lex(s) == Some(lexemes) <==> LexemesTell(s, lexemes)
  {
    hide Next, LexemeTells;
    if s != "" {
      NextTells(s);
      if Lex(s) == Some(lexemes) {
        var n := Next(s).length;
        LexIff(s[n..], lexemes[1..]);
        assert lexemes[1..] == Lex(s[n..]).value;
      }
      if LexemesTell(s, lexemes) {
        var text := lexemes[0].text;
        LexemeIsOne(s, Next(s), if lexemes[0].Token? then TokenOf(|text|) else BlankOf(|text|));
        LexIff(s[|text|..], lexemes[1..]);
        assert [lexemes[0]] + lexemes[1..] == lexemes;
      }
    }
  }

  /** The tokens of a text are those of its lexemes; there are none if it has no lexemes. */
  lemma TokensTellIff(s: string, tokens: seq<string>)
    ensures Tokens(s) == Some(tokens)
            <==> exists lexemes :: LexemesTell(s, lexemes) && TokenTexts(lexemes) == tokens
    ensures Tokens(s).None? <==> forall lexemes :: !LexemesTell(s, lexemes)
  {
    hide Lex, LexemesTell, TokenTexts;
    if Lex(s).Some? {
      LexIff(s, Lex(s).value);
    }
    forall lexemes | LexemesTell(s, lexemes)
      ensures Lex(s) == Some(lexemes)
    {
      LexIff(s, lexemes);
    }
  }

  /** The texts of the tokens, in order, are those of the lexemes that are tokens. */
  lemma {:induction false} TokenTextsTell(lexemes: seq<Lexeme>, i: nat)
    requires i < |lexemes|
    ensures |TokenTexts(lexemes)| == |TokenTexts(lexemes[..i])| + |TokenTexts(lexemes[i..])|
    ensures |TokenTexts(lexemes[..i + 1])| == |TokenTexts(lexemes[..i])| + if lexemes[i].Token? then 1 else 0
    ensures lexemes[i].Token? ==> TokenTexts(lexemes)[|TokenTexts(lexemes[..i])|] == lexemes[i].text
  {
    var front, back := lexemes[..i], lexemes[i..];
    assert lexemes == front + back && lexemes[..i + 1] == front + [lexemes[i]];
    TokenTextsAppend(front, back);
    TokenTextsAppend(front, [lexemes[i]]);
    assert [lexemes[i]][1..] == [] && back[0] == lexemes[i];
    assert TokenTexts(back) == (if lexemes[i].Token? then [lexemes[i].text] else []) + TokenTexts(back[1..]);
  }

  // ------------------------------------------------------------ the program

  /** Jumping from marker to marker, as the program does, is the character scan. */
  lemma {:induction false} ScanToMarker(t: string, i: nat, j: nat, depth: nat)
    requires i <= j <= |t| && depth > 0
    requires forall k :: i <= k < j ==> !StartsAt(t, k, "/*") && !StartsAt(t, k, "*/")
    ensures CommentEnd(t, i, depth) == CommentEnd(t, j, depth)
    decreases j - i
  {
    if i < j && i + 2 <= |t| {
      ScanToMarker(t, i + 1, j, depth);
    }
  }

  lemma {:induction false} ScanToEnd(t: string, i: nat, depth: nat)
    requires i <= |t| && depth > 0
    requires forall k: nat :: i <= k ==> !StartsAt(t, k, "*/")
    ensures CommentEnd(t, i, depth).None?
    decreases |t| - i
  {
    if i + 2 <= |t| {
      if StartsAt(t, i, "/*") {
        ScanToEnd(t, i + 2, depth + 1);
      } else {
        assert !StartsAt(t, i, "*/");
        ScanToEnd(t, i + 1, depth);
      }
    }
  }

  lemma JumpIsScan(t: string, i: nat, depth: nat)
    requires i <= |t| && depth > 0
    ensures Find(t, "*/", i).None? ==> CommentEnd(t, i, depth).None?
    ensures Find(t, "*/", i).Some? ==>
              (var closing := Find(t, "*/", i).value;
               var opening := Find(t, "/*", i);
               CommentEnd(t, i, depth) ==
                 if opening.Some? && opening.value < closing then CommentEnd(t, opening.value + 2, depth + 1)
                 else CommentEnd(t, closing + 2, depth - 1))
  {
    var closing := Find(t, "*/", i);
    var opening := Find(t, "/*", i);
    if closing.None? {
      ScanToEnd(t, i, depth);
    } else if opening.Some? && opening.value < closing.value {
      ScanToMarker(t, i, opening.value, depth);
    } else {
      assert !StartsAt(t, closing.value, "/*");
      ScanToMarker(t, i, closing.value, depth);
    }
  }

  method BlockComment(t: string) returns (end: Option<nat>)
    requires StartsAt(t, 0, "/*")
    ensures end == CommentEnd(t, 2, 1)
  {
    hide CommentEnd;
    var depth := 1;
    var cursor := 2;
    while depth > 0
      invariant cursor <= |t|
      invariant CommentEnd(t, cursor, depth) == CommentEnd(t, 2, 1)
      decreases |t| - cursor, depth
    {
      var opening := Find(t, "/*", cursor);
      var closing := Find(t, "*/", cursor);
      JumpIsScan(t, cursor, depth);
      if closing.None? {
        return None;
      }
      if opening.Some? && opening.value < closing.value {
        depth := depth + 1;
        cursor := opening.value + 2;
      } else {
        depth := depth - 1;
        cursor := closing.value + 2;
      }
    }
    CommentEndsAtZero(t, cursor);
    return Some(cursor);
  }

  lemma CommentEndsAtZero(t: string, i: nat)
    ensures CommentEnd(t, i, 0) == Some(i)
  {
  }

  method Quoted(t: string, quoteIndex: nat) returns (end: Option<nat>)
    requires quoteIndex < |t|
    ensures end == QuotedEnd(t, quoteIndex + 1, t[quoteIndex])
    ensures t[quoteIndex] != '\\' ==>
              if end.Some? then FirstUnescaped(t, quoteIndex + 1, t[quoteIndex], end.value)
              else NoneUnescaped(t, quoteIndex + 1, t[quoteIndex])
  {
    hide FirstUnescaped, NoneUnescaped;
    var quote := t[quoteIndex];
    QuotedEndTells(t, quoteIndex + 1, quote);
    var cursor := quoteIndex + 1;
    var escaped := false;
    while cursor < |t|
      invariant quoteIndex < cursor <= |t|
      invariant QuotedEnd(t, quoteIndex + 1, quote)
             == if !escaped then QuotedEnd(t, cursor, quote)
                else if cursor < |t| then QuotedEnd(t, cursor + 1, quote) else None
    {
      var character := t[cursor];
      cursor := cursor + 1;
      if escaped {
        escaped := false;
      } else if character == '\\' {
        escaped := true;
      } else if character == quote {
        return Some(cursor);
      }
    }
    return None;
  }

  /** The tokenizer's loop; `None` is its gate failure on an unterminated lexeme. */
  method RustTokens(source: string) returns (r: Option<seq<string>>)
    ensures r == Tokens(source)
    ensures r.Some? ==> exists lexemes :: LexemesTell(source, lexemes) && TokenTexts(lexemes) == r.value
    ensures r.None? ==> forall lexemes :: !LexemesTell(source, lexemes)
  {
    hide *;
    r := TokenLoop(source);
    TokensTellIff(source, if r.Some? then r.value else []);
  }

  /** The loop itself. */
  method TokenLoop(source: string) returns (r: Option<seq<string>>)
    ensures r == Tokens(source)
  {
    hide Next, Lex;
    var tokens: seq<string> := [];
    var index := 0;
    PrependNothing(source);
    assert source[index..] == source;
    while index < |source|
      invariant index <= |source|
      invariant Tokens(source) == Prepend(tokens, Tokens(source[index..]))
    {
      var t := source[index..];
      var piece := LexemeAt(t);
      PrependStep(tokens, t);
      if piece.Broken? {
        return None;
      }
      if piece.TokenOf? {
        tokens := tokens + [t[..piece.length]];
      }
      assert t[piece.length..] == source[index + piece.length..];
      index := index + piece.length;
    }
    assert source[index..] == "";
    TokensOfNothing(tokens);
    return Some(tokens);
  }

  lemma PrependNothing(t: string)
    ensures Prepend([], Tokens(t)) == Tokens(t)
  {
    if Tokens(t).Some? {
      assert [] + Tokens(t).value == Tokens(t).value;
    }
  }

  lemma TokensOfNothing(tokens: seq<string>)
    ensures Prepend(tokens, Tokens("")) == Some(tokens)
  {
    assert tokens + [] == tokens;
  }

  /** The branches of the loop, in the order they are tried. */
  method LexemeAt(t: string) returns (piece: Piece)
    requires t != []
    ensures piece == Next(t)
  {
    if IsSpace(t[0]) {
      return BlankOf(1);
    }
    if StartsAt(t, 0, "//") {
      var newline := Find(t, "\n", 2);
      return if newline.None? then BlankOf(|t|) else BlankOf(newline.value + 1);
    }
    if StartsAt(t, 0, "/*") {
      var end := BlockComment(t);
      return if end.None? then Broken else BlankOf(end.value);
    }
    var length := TokenLength(t);
    return TokenUpTo(length);
  }

  /** The literal, identifier and single-character branches of the loop. */
  method TokenLength(t: string) returns (length: Option<nat>)
    requires t != [] && !IsSpace(t[0]) && !StartsAt(t, 0, "//") && !StartsAt(t, 0, "/*")
    ensures TokenUpTo(length) == Next(t)
  {
    var raw := RawOpen(t);
    if raw.Some? {
      var (hashes, open) := raw.value;
      var end := Find(t, RawDelimiter(hashes), open);
      return if end.None? then None else Some(end.value + hashes + 1);
    }
    var quoteIndex := QuoteIndex(t);
    if OpensQuoted(t) {
      length := Quoted(t, quoteIndex);
      return;
    }
    if IsIdentStart(t[0]) {
      return Some(IdentLength(t));
    }
    return Some(1);
  }

  function Prepend(tokens: seq<string>, rest: Option<seq<string>>): Option<seq<string>> {
    match rest case Some(more) => Some(tokens + more) case None => None
  }

  lemma PrependStep(tokens: seq<string>, t: string)
    requires t != []
    ensures Next(t).Broken? ==> Tokens(t).None?
    ensures Next(t).BlankOf? ==> Prepend(tokens, Tokens(t)) == Prepend(tokens, Tokens(t[Next(t).length..]))
    ensures Next(t).TokenOf? ==> Prepend(tokens, Tokens(t))
                                 == Prepend(tokens + [t[..Next(t).length]], Tokens(t[Next(t).length..]))
  {
    hide Next;
    if !Next(t).Broken? && Lex(t).Some? {
      var n := Next(t).length;
      var rest := Lex(t[n..]).value;
      assert Lex(t).value[1..] == rest;
      if Next(t).TokenOf? {
        assert TokenTexts(Lex(t).value) == [t[..n]] + TokenTexts(rest);
        assert tokens + ([t[..n]] + TokenTexts(rest)) == tokens + [t[..n]] + TokenTexts(rest);
      } else {
        assert TokenTexts(Lex(t).value) == TokenTexts(rest);
      }
    }
  }

  // ------------------------------------------- whitespace and comments are inert

  /** A run of whitespace and comments in front of `c`: only at the end of the text may a line
      comment lack its newline. */
  predicate IsTrivia(w: string, c: string) {
    w == "" || (Next(w).BlankOf? && (StartsAt(w, 0, "//") && c != "" ==> w[Next(w).length - 1] == '\n')
                && IsTrivia(w[Next(w).length..], c))
  }

  /** `lexemes` are what the lexer reads off `a`, exactly, when `u` follows. */
  predicate Reads(a: string, lexemes: seq<Lexeme>, u: string) {
    if lexemes == [] then a == ""
    else
      a != "" &&
      (var next := Next(a + u);
       && !next.Broken? && next.length <= |a|
       && lexemes[0] == (if next.TokenOf? then Token(a[..next.length]) else Blank(a[..next.length]))
       && Reads(a[next.length..], lexemes[1..], u))
  }

  lemma {:induction false} ReadsLex(a: string, lexemes: seq<Lexeme>, u: string)
    requires Reads(a, lexemes, u)
    ensures Lex(a + u) == match Lex(u) case Some(rest) => Some(lexemes + rest) case None => None
  {
    hide Next;
    if lexemes == [] {
      assert a + u == u;
      assert Lex(u).Some? ==> lexemes + Lex(u).value == Lex(u).value;
    } else {
      var n := Next(a + u).length;
      assert (a + u)[n..] == a[n..] + u && (a + u)[..n] == a[..n];
      ReadsLex(a[n..], lexemes[1..], u);
      assert Lex(u).Some? ==> lexemes + Lex(u).value == [lexemes[0]] + (lexemes[1..] + Lex(u).value);
    }
  }

  lemma {:induction false} TokenTextsAppend(a: seq<Lexeme>, b: seq<Lexeme>)
    ensures TokenTexts(a + b) == TokenTexts(a) + TokenTexts(b)
  {
    if a == [] {
      assert a + b == b;
    } else {
      assert (a + b)[1..] == a[1..] + b;
      TokenTextsAppend(a[1..], b);
    }
  }

  lemma {:induction false} CommentEndLocal(x: string, u: string, v: string, i: nat, depth: nat)
    requires CommentEnd(x + u, i, depth).Some? && CommentEnd(x + u, i, depth).value <= |x|
    ensures CommentEnd(x + v, i, depth) == CommentEnd(x + u, i, depth)
    decreases |x + u| - i
  {
    if depth > 0 {
      StartsAtLocal(x, u, v, i, "/*");
      StartsAtLocal(x, u, v, i, "*/");
      if StartsAt(x, i, "/*") {
        CommentEndLocal(x, u, v, i + 2, depth + 1);
      } else if StartsAt(x, i, "*/") {
        CommentEndLocal(x, u, v, i + 2, depth - 1);
      } else {
        CommentEndLocal(x, u, v, i + 1, depth);
      }
    }
  }

  lemma {:induction false} QuotedEndLocal(x: string, u: string, v: string, i: nat, quote: char)
    requires QuotedEnd(x + u, i, quote).Some? && QuotedEnd(x + u, i, quote).value <= |x|
    ensures QuotedEnd(x + v, i, quote) == QuotedEnd(x + u, i, quote)
    decreases |x + u| - i
  {
    if (x + u)[i] == '\\' {
      QuotedEndLocal(x, u, v, i + 2, quote);
    } else if (x + u)[i] != quote {
      QuotedEndLocal(x, u, v, i + 1, quote);
    }
  }

  /** White space or a comment. */
  predicate Inert(v: string) {
    v != "" && (IsSpace(v[0]) || StartsAt(v, 0, "//") || StartsAt(v, 0, "/*"))
  }

  /** What makes a slash in front of it a comment. */
  predicate Glues(v: string) {
    CharAt(v, 0) == Some('/') || CharAt(v, 0) == Some('*')
  }

  /** What at most a slash or a quote in front of it can join. */
  predicate Neutral(v: string) {
    v != "" && (IsSpace(v[0]) || Glues(v))
  }

  /** The blank glues onto the token before it: `/` becomes a comment, or a lone `'`
      becomes a character literal around a one-character blank. */
  predicate Clash(token: string, w: string, c: string) {
    || (token == "/" && StartsAt(w, 0, "/"))
    || (token == "'" && |w| == 1 && StartsAt(c, 0, "'"))
    || token == "''" || token == "b''"
  }

  lemma {:induction false} HashCountLocal(p: string, u: string, v: string, i: nat)
    requires i + HashCount(p + u, i) < |p|
    ensures HashCount(p + v, i) == HashCount(p + u, i)
    decreases |p| - i
  {
    if (p + u)[i] == '#' {
      HashCountLocal(p, u, v, i + 1);
    }
  }

  lemma RawOpenLocal(p: string, u: string, v: string)
    requires RawOpen(p + u).Some? && RawOpen(p + u).value.1 <= |p|
    ensures RawOpen(p + v) == RawOpen(p + u)
  {
    StartsAtLocal(p, u, v, 0, "r");
    StartsAtLocal(p, u, v, 0, "br");
    StartsAtLocal(p, u, v, 0, "rb");
    HashCountLocal(p, u, v, RawPrefix(p + u));
  }

  /** A neutral text cannot complete a raw-literal opener begun before it. */
  lemma RawOpenNeedsNoNeutral(p: string, v: string)
    requires p != "" && Neutral(v) && RawOpen(p + v).Some?
    ensures RawOpen(p + v).value.1 <= |p|
  {
    var t := p + v;
    var k := RawPrefix(t);
    var n := HashCount(t, k);
    assert t[|p|] == v[0];
    assert t[..1] == [t[0]];
  }

  lemma {:induction false} IdentLengthLocal(p: string, u: string, v: string)
    requires IdentLength(p + u) <= |p|
    requires v == "" || !IsIdentPart(v[0])
    ensures IdentLength(p + v) == IdentLength(p + u)
  {
    if p == "" {
      assert p + v == v;
    } else if IsIdentPart(p[0]) {
      assert (p + u)[1..] == p[1..] + u && (p + v)[1..] == p[1..] + v;
      IdentLengthLocal(p[1..], u, v);
    }
  }

  /** When `v` may replace `u` after `p` without changing the lexeme at the start of `p`. */
  predicate Apart(p: string, u: string, v: string) {
    && (p == "/" ==> !Glues(v))
    && (p == "'" || p == "b'" ==> CharAt(v, 1) != Some('\''))
    && (p == "''" || p == "b''" ==> !OpensQuoted(p + u))
  }

  lemma OpensQuotedStable(p: string, u: string, v: string)
    requires p != "" && Neutral(v) && Apart(p, u, v)
    requires OpensQuoted(p + u) ==> (QuotedEnd(p + u, QuoteIndex(p + u) + 1, (p + u)[QuoteIndex(p + u)]).Some?
               && QuotedEnd(p + u, QuoteIndex(p + u) + 1, (p + u)[QuoteIndex(p + u)]).value <= |p|)
    ensures OpensQuoted(p + v) == OpensQuoted(p + u)
  {
  }

  /** The lexeme at the start of `p` does not depend on what follows `p`. */
  lemma NextStable(p: string, u: string, v: string)
    requires p != "" && Neutral(v) && Apart(p, u, v)
    requires !Next(p + u).Broken? && Next(p + u).length <= |p|
    requires Next(p + u).BlankOf? ==> Next(p + u).length < |p|
    ensures Next(p + v) == Next(p + u)
  {
    var t := p + u;
    var t' := p + v;
    assert t[0] == t'[0] == p[0];
    if !IsSpace(p[0]) {
      MarkersStable(p, u, v);
      if StartsAt(t, 0, "//") {
        FindLocal(p, u, v, "\n", 2, Find(t, "\n", 2).value);
      } else if StartsAt(t, 0, "/*") {
        CommentEndLocal(p, u, v, 2, 1);
      } else {
        TokenStable(p, u, v);
      }
    }
  }

  lemma MarkersStable(p: string, u: string, v: string)
    requires p != "" && Neutral(v) && Apart(p, u, v)
    requires StartsAt(p + u, 0, "//") || StartsAt(p + u, 0, "/*") ==> |p| >= 2
    ensures StartsAt(p + v, 0, "//") == StartsAt(p + u, 0, "//")
    ensures StartsAt(p + v, 0, "/*") == StartsAt(p + u, 0, "/*")
  {
    if |p| >= 2 {
      StartsAtLocal(p, u, v, 0, "//");
      StartsAtLocal(p, u, v, 0, "/*");
    } else {
      assert |p + v| >= 2 ==> (p + v)[..2] == [p[0], v[0]];
    }
  }

  lemma TokenStable(p: string, u: string, v: string)
    requires p != "" && Neutral(v) && Apart(p, u, v)
    requires !IsSpace(p[0])
    requires !StartsAt(p + u, 0, "//") && !StartsAt(p + u, 0, "/*")
    requires !StartsAt(p + v, 0, "//") && !StartsAt(p + v, 0, "/*")
    requires Next(p + u).TokenOf? && Next(p + u).length <= |p|
    ensures Next(p + v) == Next(p + u)
  {
    var t := p + u;
    var t' := p + v;
    assert t[0] == t'[0] == p[0];
    if RawOpen(t').Some? {
      RawOpenNeedsNoNeutral(p, v);
      RawOpenLocal(p, v, u);
    }
    if RawOpen(t).Some? {
      var (hashes, open) := RawOpen(t).value;
      RawOpenLocal(p, u, v);
      FindLocal(p, u, v, RawDelimiter(hashes), open, Find(t, RawDelimiter(hashes), open).value);
    } else {
      OpensQuotedStable(p, u, v);
      if OpensQuoted(t) {
        QuotedEndLocal(p, u, v, QuoteIndex(t) + 1, t[QuoteIndex(t)]);
      } else if IsIdentStart(p[0]) {
        IdentLengthLocal(p, u, v);
      }
    }
  }

  lemma {:induction false} ReadsLast(a: string, lexemes: seq<Lexeme>, u: string)
    requires Reads(a, lexemes, u) && lexemes != [] && lexemes[|lexemes| - 1].Token?
    ensures var last := lexemes[|lexemes| - 1].text;
            |last| <= |a| && a[|a| - |last|..] == last && last != "" && Next(last + u) == TokenOf(|last|)
  {
    hide Next;
    if |lexemes| == 1 {
      assert a[|a|..] == "";
    } else {
      ReadsLast(a[Next(a + u).length..], lexemes[1..], u);
    }
  }

  /** A clashing blank does change the lexeme read at the token. */
  lemma ClashBreaks(token: string, w: string, c: string)
    requires w != "" && IsTrivia(w, c) && Clash(token, w, c)
    ensures Next(token + (w + c)) != TokenOf(|token|)
  {
    hide Find, CommentEnd, QuotedEnd, IdentLength;
    var t := token + (w + c);
    if token == "/" {
      assert t[..2] == "//";
    } else if token == "'" {
      assert t[..3] == ['\'', w[0], '\''];
    } else {
      assert t[|token|] == w[0];
    }
  }

  lemma BlankStart(w: string)
    requires w != "" && Next(w).BlankOf?
    ensures Inert(w)
    ensures IsSpace(w[0]) ==> Next(w) == BlankOf(1)
  {
  }

  lemma InertStart(w: string)
    requires Inert(w)
    ensures !IsSpace(w[0]) ==> |w| >= 2 && w[0] == '/' && (w[1] == '/' || w[1] == '*')
  {
    if !IsSpace(w[0]) {
      assert w[..2] == [w[0], w[1]];
    }
  }

  lemma TriviaStart(w: string, c: string)
    requires w != "" && IsTrivia(w, c)
    ensures Inert(w)
    ensures IsSpace(w[0]) ==> IsTrivia(w[1..], c)
  {
    hide Next;
    BlankStart(w);
  }

  lemma SecondOfTrivia(w: string, c: string)
    requires |w| >= 2 && IsTrivia(w, c)
    ensures w[1] != '\''
  {
    hide Next, IsTrivia;
    TriviaStart(w, c);
    InertStart(w);
    if IsSpace(w[0]) {
      TriviaStart(w[1..], c);
      InertStart(w[1..]);
    }
  }

  lemma TriviaIsInert(w: string, c: string)
    requires w != "" && IsTrivia(w, c)
    ensures Inert(w + c) && Neutral(w + c)
    ensures CharAt(w + c, 1) == Some('\'') ==> |w| == 1 && StartsAt(c, 0, "'")
    ensures Glues(w + c) ==> StartsAt(w, 0, "/")
  {
    hide *;
    TriviaStart(w, c);
    InertGrows(w, c);
    InertFirst(w + c);
    SecondChar(w, c);
    if |w| >= 2 {
      SecondOfTrivia(w, c);
    }
  }

  lemma InertFirst(v: string)
    requires Inert(v)
    ensures Neutral(v) && (Glues(v) ==> CharAt(v, 0) == Some('/'))
  {
    if !IsSpace(v[0]) {
      InertStart(v);
    }
  }

  lemma InertGrows(w: string, c: string)
    requires Inert(w)
    ensures Inert(w + c)
  {
    if |w| >= 2 {
      assert (w + c)[..2] == w[..2];
    }
  }

  lemma SecondChar(w: string, c: string)
    requires w != ""
    ensures CharAt(w + c, 1) == (if |w| >= 2 then Some(w[1]) else CharAt(c, 0))
    ensures CharAt(c, 0) == Some('\'') ==> StartsAt(c, 0, "'")
    ensures CharAt(w + c, 0) == Some('/') ==> StartsAt(w, 0, "/")
  {
  }

  lemma NonClashIsApart(a: string, lexemes: seq<Lexeme>, u: string, w: string, c: string)
    requires Reads(a, lexemes, u) && w != "" && IsTrivia(w, c)
    requires lexemes != [] && lexemes[|lexemes| - 1].Token?
    requires !Clash(lexemes[|lexemes| - 1].text, w, c)
    ensures Apart(a, u, w + c)
  {
    hide IsTrivia, Next;
    TriviaIsInert(w, c);
    ReadsLast(a, lexemes, u);
    if a == "'" || a == "b'" || a == "''" || a == "b''" {
      ShortQuotes(a, lexemes, u);
    }
  }

  /** The ways a quote or two, with or without `b`, are read off the source. */
  lemma ShortQuotes(a: string, lexemes: seq<Lexeme>, u: string)
    requires a == "'" || a == "b'" || a == "''" || a == "b''"
    requires Reads(a, lexemes, u) && lexemes != []
    ensures a == "'" || a == "b'" ==> lexemes[|lexemes| - 1] == Token("'")
    ensures (a == "''" || a == "b''") && OpensQuoted(a + u) ==> lexemes[|lexemes| - 1] == Token(a)
  {
    hide Next;
    NextOfShortQuotes(a, u);
    if a == "b'" {
      NextOfShortQuotes("'", u);
      assert a[1..] == "'";
    }
  }

  lemma NextOfShortQuotes(a: string, u: string)
    requires a == "'" || a == "b'" || a == "''" || a == "b''"
    requires !Next(a + u).Broken? && Next(a + u).length <= |a|
    ensures a == "'" || a == "b'" ==> Next(a + u) == TokenOf(1)
    ensures (a == "''" || a == "b''") && OpensQuoted(a + u) ==> Next(a + u) == TokenOf(|a|)
  {
  }

  /** Before a blank that does not clash, every lexeme of `a` is read as it was. */
  lemma {:induction false} ReadsStable(a: string, lexemes: seq<Lexeme>, u: string, w: string, c: string)
    requires Reads(a, lexemes, u) && w != "" && IsTrivia(w, c)
    requires lexemes != [] && lexemes[|lexemes| - 1].Token?
    requires !Clash(lexemes[|lexemes| - 1].text, w, c)
    ensures Reads(a, lexemes, w + c)
  {
    hide Next, IsTrivia;
    TriviaIsInert(w, c);
    var n := Next(a + u).length;
    ReadsLast(a, lexemes, u);
    NonClashIsApart(a, lexemes, u, w, c);
    assert a[n..] == "" ==> n == |a|;
    assert |lexemes| == 1 <==> n == |a|;
    NextStable(a, u, w + c);
    if |lexemes| > 1 {
      ReadsStable(a[n..], lexemes[1..], u, w, c);
    }
  }

  lemma TriviaLocal(w: string, c: string)
    requires w != "" && IsTrivia(w, c)
    ensures Next(w + c) == Next(w)
  {
    assert w + "" == w;
    BlankStart(w);
    if !IsSpace(w[0]) {
      hide Find, CommentEnd;
      InertStart(w);
      assert (w + c)[..2] == w[..2];
      if c == "" {
        assert w + c == w;
      } else if StartsAt(w, 0, "//") {
        LineCommentLocal(w, c);
      } else {
        CommentEndLocal(w, "", c, 2, 1);
      }
    }
  }

  lemma LineCommentLocal(w: string, c: string)
    requires StartsAt(w, 0, "//") && Next(w).BlankOf? && w[Next(w).length - 1] == '\n'
    ensures Find(w, "\n", 2).Some? && Find(w + c, "\n", 2) == Find(w, "\n", 2)
  {
    hide CommentEnd, RawOpen, QuotedEnd, IdentLength;
    assert w[..2] == "//" && !IsSpace(w[0]);
    LastNewlineIsFound(w);
    assert w + "" == w;
    FindLocal(w, "", c, "\n", 2, Find(w, "\n", 2).value);
  }

  lemma LastNewlineIsFound(w: string)
    requires |w| >= 2 && w[1] == '/'
    ensures w[|w| - 1] == '\n' ==> Find(w, "\n", 2).Some?
  {
    if w[|w| - 1] == '\n' {
      assert w[|w| - 1..] == "\n";
      assert StartsAt(w, |w| - 1, "\n");
    }
  }

  lemma {:induction false} TriviaHasNoTokens(w: string, c: string)
    requires IsTrivia(w, c)
    ensures Tokens(w + c) == Tokens(c)
  {
    hide Next;
    if w == "" {
      assert w + c == c;
    } else {
      TriviaLocal(w, c);
      var n := Next(w).length;
      assert (w + c)[n..] == w[n..] + c;
      PrependStep([], w + c);
      PrependNothing(w + c);
      PrependNothing((w + c)[n..]);
      TriviaHasNoTokens(w[n..], c);
    }
  }

  lemma ReadsTokens(a: string, lexemes: seq<Lexeme>, u: string)
    requires Reads(a, lexemes, u)
    ensures Tokens(a + u) == Prepend(TokenTexts(lexemes), Tokens(u))
  {
    hide Next, Reads;
    ReadsLex(a, lexemes, u);
    if Lex(u).Some? {
      TokenTextsAppend(lexemes, Lex(u).value);
    }
  }

  /** Let `a` be read as `lexemes`, ending in a token, before `w + c`. Put a non-empty
      blank `w'` in place of the blank `w`. Then `a` is still read as `lexemes` exactly
      when `w'` does not clash with the token before it; and then no token changes. */
  lemma BlanksAreInert(a: string, lexemes: seq<Lexeme>, w: string, w': string, c: string)
    requires Reads(a, lexemes, w + c) && IsTrivia(w, c) && IsTrivia(w', c) && w' != ""
    requires lexemes != [] && lexemes[|lexemes| - 1].Token?
    ensures Reads(a, lexemes, w' + c) <==> !Clash(lexemes[|lexemes| - 1].text, w', c)
    ensures Reads(a, lexemes, w' + c) ==> Tokens(a + (w' + c)) == Tokens(a + (w + c))
  {
    hide Next, Reads, Lex, IsTrivia;
    if Clash(lexemes[|lexemes| - 1].text, w', c) {
      ClashBreaks(lexemes[|lexemes| - 1].text, w', c);
      if Reads(a, lexemes, w' + c) {
        ReadsLast(a, lexemes, w' + c);
      }
    } else {
      ReadsStable(a, lexemes, w + c, w', c);
      ReadsTokens(a, lexemes, w + c);
      ReadsTokens(a, lexemes, w' + c);
      TriviaHasNoTokens(w, c);
      TriviaHasNoTokens(w', c);
    }
  }

  // ------------------------------------------- what a clash does to the token list

  /** The first lexeme is read differently, and as tokens of different lengths. */
  predicate ReadsOther(t: string, t': string) {
    t != "" && t' != "" && Next(t).TokenOf? && (Next(t').Broken?
                                                || (Next(t').TokenOf? && Next(t').length != Next(t).length))
  }

  /** Then the token lists differ. */
  lemma OtherTokens(t: string, t': string)
    requires ReadsOther(t, t') && Tokens(t).Some?
    ensures Tokens(t') != Tokens(t)
  {
    hide Next, Lex;
    FirstIsPeeled(t);
    FirstIsPeeled(t');
    if Tokens(t').Some? {
      assert Tokens(t).value[0] == t[..Next(t).length] && Tokens(t').value[0] == t'[..Next(t').length];
    }
  }

  /** The tokens of a text are its first lexeme, if that is a token, and the tokens after it. */
  lemma FirstIsPeeled(t: string)
    requires t != ""
    ensures Next(t).Broken? ==> Tokens(t).None?
    ensures Next(t).BlankOf? ==> Tokens(t) == Tokens(t[Next(t).length..])
    ensures Next(t).TokenOf? ==> Tokens(t) == Prepend([t[..Next(t).length]], Tokens(t[Next(t).length..]))
  {
    hide Next, Tokens;
    PrependNothing(t);
    PrependStep([], t);
    if Next(t).BlankOf? {
      PrependNothing(t[Next(t).length..]);
    } else if Next(t).TokenOf? {
      assert [] + [t[..Next(t).length]] == [t[..Next(t).length]];
    }
  }

  /** A lexeme read alike on both sides carries a difference behind it to the front. */
  lemma PeeledAlike(t: string, t': string, n: nat)
    requires t != "" && t' != "" && Next(t) == Next(t') && !Next(t).Broken? && n == Next(t).length
    requires t[..n] == t'[..n]
    requires Tokens(t).Some? && (Tokens(t[n..]).Some? ==> Tokens(t'[n..]) != Tokens(t[n..]))
    ensures Tokens(t') != Tokens(t)
  {
    hide Next, Tokens;
    FirstIsPeeled(t);
    FirstIsPeeled(t');
    if Next(t).TokenOf? {
      PrependTells([t[..n]], Tokens(t[n..]), Tokens(t'[n..]));
    }
  }

  lemma PrependTells(first: seq<string>, more: Option<seq<string>>, other: Option<seq<string>>)
    ensures Prepend(first, more) == Prepend(first, other) ==> more == other
  {
    if more.Some? && other.Some? {
      var n := |first|;
      assert (first + more.value)[n..] == more.value && (first + other.value)[n..] == other.value;
    }
  }

  /** A lexeme that what follows can change is a token, and gets another length or is broken; or
      it is a slash that becomes a comment. */
  lemma OtherFirst(a: string, u: string, v: string)
    requires a != "" && !Next(a + u).Broken? && Next(a + u).length <= |a|
    requires Next(a + u).BlankOf? ==> Next(a + u).length < |a|
    requires Next(a + v) != Next(a + u)
    ensures ReadsOther(a + u, a + v) || (a == "/" && Glues(v))
  {
    hide IdentLength, RawOpen, QuotedEnd, OpensQuoted;
    var t, t' := a + u, a + v;
    assert t[0] == t'[0] == a[0];
    if !IsSpace(a[0]) {
      if |a| >= 2 {
        StartsAtLocal(a, u, v, 0, "//");
        StartsAtLocal(a, u, v, 0, "/*");
      } else {
        assert |t'| >= 2 ==> t'[..2] == [a[0], v[0]];
        assert |t| >= 2 ==> t[..2] == [a[0], u[0]];
      }
      if StartsAt(t, 0, "//") {
        FindLocal(a, u, v, "\n", 2, Find(t, "\n", 2).value);
      } else if StartsAt(t, 0, "/*") {
        CommentEndLocal(a, u, v, 2, 1);
      }
    }
  }

  /** If some lexeme of `a` is read differently, the list of tokens is another, unless that is a
      slash that becomes a comment. */
  lemma {:induction false} TokensTell(a: string, lexemes: seq<Lexeme>, u: string, v: string)
    requires Reads(a, lexemes, u) && !Reads(a, lexemes, v) && Tokens(a + u).Some?
    requires lexemes != [] && lexemes[|lexemes| - 1].Token?
    requires !(lexemes[|lexemes| - 1].text == "/" && Glues(v))
    ensures Tokens(a + v) != Tokens(a + u)
  {
    hide Next, Tokens;
    var n := Next(a + u).length;
    ReadsLast(a, lexemes, u);
    assert a[n..] == "" ==> n == |a|;
    assert |lexemes| == 1 <==> n == |a|;
    if Next(a + v) != Next(a + u) {
      OtherFirst(a, u, v);
      OtherTokens(a + u, a + v);
    } else {
      assert (a + u)[n..] == a[n..] + u && (a + v)[n..] == a[n..] + v;
      assert (a + u)[..n] == a[..n] == (a + v)[..n];
      if Tokens(a[n..] + u).Some? {
        TokensTell(a[n..], lexemes[1..], u, v);
      }
      PeeledAlike(a + u, a + v, n);
    }
  }

  /** What stands after the first newline. */
  function AfterLine(t: string): string {
    match Find(t, "\n", 0) case Some(newline) => t[newline + 1..] case None => ""
  }

  lemma FindShift(t: string, from: nat)
    ensures Find("/" + t, "\n", from + 1)
            == match Find(t, "\n", from) case Some(at) => Some(at + 1) case None => None
    decreases |t| - from
  {
    var s := "/" + t;
    if from < |t| {
      assert s[from + 1..from + 2] == t[from..from + 1];
      FindShift(t, from + 1);
    }
  }

  lemma FindAfter(t: string, from: nat)
    requires from <= |t| && forall j :: 0 <= j < from ==> t[j] != '\n'
    ensures Find(t, "\n", from) == Find(t, "\n", 0)
  {
    forall j | 0 <= j < from ensures !StartsAt(t, j, "\n") {
      StartsAtCharacter(t, j, '\n');
    }
    if Find(t, "\n", from).Some? {
      FindIs(t, "\n", 0, Find(t, "\n", from).value);
    }
  }

  /** A slash in front of a comment makes it a comment to the end of the line. */
  lemma SlashTakesTheLine(v: string)
    requires v != "" && v[0] == '/'
    ensures Tokens("/" + v) == Tokens(AfterLine(v))
  {
    hide Tokens, CommentEnd;
    var t := "/" + v;
    assert t[..2] == "//" && !IsSpace(t[0]);
    FindShift(v, 1);
    FindAfter(v, 1);
    FirstIsPeeled(t);
    match Find(v, "\n", 0)
    case Some(newline) =>
      assert t[newline + 2..] == v[newline + 1..];
    case None =>
      assert t[|t|..] == "";
  }

  /** All before the slash is read as it was. */
  lemma {:induction false} ReadsUpToSlash(a: string, lexemes: seq<Lexeme>, u: string, v: string)
    requires Reads(a, lexemes, u) && Glues(v)
    requires lexemes != [] && lexemes[|lexemes| - 1] == Token("/")
    ensures Tokens(a + v) == Prepend(TokenTexts(lexemes[..|lexemes| - 1]), Tokens("/" + v))
  {
    hide Next, Tokens;
    var n := Next(a + u).length;
    ReadsLast(a, lexemes, u);
    assert a[n..] == "" ==> n == |a|;
    assert |lexemes| == 1 <==> n == |a|;
    if |lexemes| == 1 {
      assert a == "/";
      PrependNothing(a + v);
    } else {
      KeptBeforeSlash(a, lexemes, u, v);
      assert (a + v)[n..] == a[n..] + v && (a + v)[..n] == a[..n];
      FirstIsPeeled(a + v);
      ReadsUpToSlash(a[n..], lexemes[1..], u, v);
      assert lexemes[1..][..|lexemes| - 2] == lexemes[..|lexemes| - 1][1..];
      PrependMore(lexemes[0], lexemes[..|lexemes| - 1][1..], Tokens("/" + v));
      assert [lexemes[0]] + lexemes[..|lexemes| - 1][1..] == lexemes[..|lexemes| - 1];
    }
  }

  lemma NothingFollows(a: string, lexemes: seq<Lexeme>, u: string)
    requires Reads(a, lexemes, u)
    ensures a == "" <==> lexemes == []
  {
    hide Next;
  }

  /** In front of a slash nothing depends on what follows the slash. */
  lemma KeptBeforeSlash(a: string, lexemes: seq<Lexeme>, u: string, v: string)
    requires Reads(a, lexemes, u) && Glues(v)
    requires |lexemes| > 1 && lexemes[|lexemes| - 1] == Token("/")
    ensures Next(a + v) == Next(a + u)
  {
    hide Next;
    ReadsLast(a, lexemes, u);
    assert a[|a| - 1..] == "/" && a[|a| - 1] == '/';
    assert a[Next(a + u).length..] != "" by { NothingFollows(a[Next(a + u).length..], lexemes[1..], u); }
    NextStable(a, u, v);
  }

  lemma PrependMore(first: Lexeme, lexemes: seq<Lexeme>, rest: Option<seq<string>>)
    ensures Prepend(TokenTexts([first] + lexemes), rest)
            == (if first.Token? then Prepend([first.text], Prepend(TokenTexts(lexemes), rest))
                else Prepend(TokenTexts(lexemes), rest))
  {
    assert ([first] + lexemes)[1..] == lexemes;
    assert TokenTexts([first] + lexemes)
        == (if first.Token? then [first.text] else []) + TokenTexts(lexemes);
    assert [] + TokenTexts(lexemes) == TokenTexts(lexemes);
    if rest.Some? && first.Token? {
      assert [first.text] + TokenTexts(lexemes) + rest.value == [first.text] + (TokenTexts(lexemes) + rest.value);
    }
  }

  /** When a slash becomes a comment, the token list stays the same exactly when that comment
      leaves a slash and then the old tokens again. */
  lemma SlashClashIff(a: string, lexemes: seq<Lexeme>, u: string, v: string)
    requires Reads(a, lexemes, u) && Glues(v)
    requires lexemes != [] && lexemes[|lexemes| - 1] == Token("/")
    ensures Tokens(a + v) == Tokens(a + u) <==> Tokens("/" + v) == Prepend(["/"], Tokens(u))
  {
    hide *;
    ReadsUpToSlash(a, lexemes, u, v);
    ReadsTokens(a, lexemes, u);
    var front := lexemes[..|lexemes| - 1];
    assert lexemes == front + [Token("/")];
    TokenTextsAppend(front, [Token("/")]);
    PrependTwice(TokenTexts(front), "/", Tokens(u));
    PrependTells(TokenTexts(front), Tokens("/" + v), Prepend(["/"], Tokens(u)));
  }

  /** Put any text in place of one that has the same tokens, behind a token: all tokens stay the
      same exactly when every lexeme in front is read as it was, or a slash there becomes a
      comment that leaves a slash and the old tokens again. */
  lemma TokensKeptIff(a: string, lexemes: seq<Lexeme>, u: string, v: string)
    requires Reads(a, lexemes, u) && lexemes != [] && lexemes[|lexemes| - 1].Token?
    requires Tokens(v) == Tokens(u) && Tokens(a + u).Some?
    ensures Tokens(a + v) == Tokens(a + u)
            <==> Reads(a, lexemes, v)
                 || (lexemes[|lexemes| - 1].text == "/" && Glues(v) && Tokens("/" + v) == Prepend(["/"], Tokens(u)))
  {
    hide Next, Reads, Tokens, Glues;
    if Reads(a, lexemes, v) {
      ReadsTokens(a, lexemes, u);
      ReadsTokens(a, lexemes, v);
    } else if lexemes[|lexemes| - 1].text == "/" && Glues(v) {
      SlashClashIff(a, lexemes, u, v);
    } else {
      TokensTell(a, lexemes, u, v);
    }
  }

  /** Removing a blank behind a token altogether: the tokens stay the same exactly when every
      lexeme in front is read the same with what followed the blank directly behind, so that no
      two tokens merge; or the slash in front and what follows make such a comment. */
  lemma RemovalKeepsTokensIff(a: string, lexemes: seq<Lexeme>, w: string, c: string)
    requires Reads(a, lexemes, w + c) && IsTrivia(w, c)
    requires lexemes != [] && lexemes[|lexemes| - 1].Token? && Tokens(a + (w + c)).Some?
    ensures Tokens(a + c) == Tokens(a + (w + c))
            <==> Reads(a, lexemes, c)
                 || (lexemes[|lexemes| - 1].text == "/" && Glues(c) && Tokens("/" + c) == Prepend(["/"], Tokens(c)))
  {
    hide *;
    TriviaHasNoTokens(w, c);
    TokensKeptIff(a, lexemes, w + c, c);
  }

  /** What stands behind a name neither continues it nor makes it the prefix of a literal. */
  predicate EndsName(a: string, v: string) {
    (v == "" || !IsIdentPart(v[0])) && RawOpen(a + v).None? && !OpensQuoted(a + v)
  }

  predicate IsName(a: string) {
    a != "" && IsIdentStart(a[0]) && IdentLength(a) == |a|
  }

  lemma NameIsReadIff(a: string, v: string)
    requires IsName(a)
    ensures Reads(a, [Token(a)], v) <==> EndsName(a, v)
  {
    NextOfName(a, v);
    hide Next;
    if Reads(a, [Token(a)], v) {
      assert a[..Next(a + v).length] == a;
    }
    if Next(a + v) == TokenOf(|a|) {
      assert a[..|a|] == a && a[|a|..] == "";
      assert Reads("", [], v);
    }
  }

  lemma NextOfName(a: string, v: string)
    requires IsName(a)
    ensures Next(a + v) == TokenOf(|a|) <==> EndsName(a, v)
  {
    hide Find, CommentEnd, QuotedEnd;
    var t := a + v;
    NameStarts(a, v);
    if RawOpen(t).Some? {
      RawOpenLeavesName(a, v);
    } else if OpensQuoted(t) {
      assert QuoteIndex(t) >= |a|;
    } else {
      LongestName(a, v);
    }
  }

  /** A name starts neither with white space nor with a comment. */
  lemma NameStarts(a: string, v: string)
    requires IsName(a)
    ensures (a + v)[0] == a[0] && !IsSpace(a[0]) && IsIdentStart(a[0])
    ensures !StartsAt(a + v, 0, "//") && !StartsAt(a + v, 0, "/*")
  {
    var t := a + v;
    assert |t| >= 2 ==> t[..2] == [t[0], t[1]];
  }

  lemma RawOpenLeavesName(a: string, v: string)
    requires IsName(a) && RawOpen(a + v).Some?
    ensures RawOpen(a + v).value.1 > |a|
  {
    var t := a + v;
    var (n, open) := RawOpen(t).value;
    assert t[open - 1] == '"' && !IsIdentPart(t[open - 1]);
  }

  lemma {:induction false} LongestName(a: string, v: string)
    requires IdentLength(a) == |a|
    ensures IdentLength(a + v) == |a| + IdentLength(v)
  {
    if a == "" {
      assert a + v == v;
    } else {
      assert (a + v)[1..] == a[1..] + v;
      LongestName(a[1..], v);
    }
  }

  /** Removing the blank behind a name is harmless exactly when the name still ends there. */
  lemma NameMergesIff(a: string, w: string, c: string)
    requires IsName(a) && EndsName(a, w + c) && IsTrivia(w, c) && Tokens(c).Some?
    ensures Tokens(a + c) == Tokens(a + (w + c)) <==> EndsName(a, c)
  {
    NameIsReadIff(a, w + c);
    NameIsReadIff(a, c);
    hide *;
    ReadsTokens(a, [Token(a)], w + c);
    TriviaHasNoTokens(w, c);
    RemovalKeepsTokensIff(a, [Token(a)], w, c);
    NoSlash(a);
  }

  lemma NoSlash(a: string)
    requires IsName(a)
    ensures a != "/"
  {
  }

  lemma PrependTwice(first: seq<string>, token: string, rest: Option<seq<string>>)
    ensures Prepend(first + TokenTexts([Token(token)]), rest) == Prepend(first, Prepend([token], rest))
  {
    assert TokenTexts([Token(token)]) == [token] + TokenTexts([]) == [token];
    if rest.Some? {
      assert first + [token] + rest.value == first + ([token] + rest.value);
    }
  }

  /** A line comment behind a slash always loses it. */
  lemma LineCommentClashes(w: string, c: string)
    requires IsTrivia(w, c) && StartsAt(w, 0, "//") && Tokens(c).Some?
    ensures Tokens(AfterLine(w + c)) != Prepend(["/"], Tokens(c))
  {
    hide Tokens, IsTrivia, Next, AfterLine;
    LineCommentEnds(w, c);
    assert |["/"] + Tokens(c).value| == 1 + |Tokens(c).value|;
  }

  lemma LineCommentEnds(w: string, c: string)
    requires IsTrivia(w, c) && StartsAt(w, 0, "//")
    ensures Tokens(AfterLine(w + c)) == Tokens(c)
  {
    hide Next, IsTrivia, Find, Tokens;
    assert w[..2] == "//" && (w + c)[0] == (w + c)[1] == '/';
    TriviaHead(w, c);
    FindAfter(w + c, 2);
    if Find(w, "\n", 2).None? {
      LineCommentEndsText(w, c);
    } else {
      FindLocal(w, "", c, "\n", 2, Find(w, "\n", 2).value) by { assert w + "" == w; }
      NextOfLineComment(w);
      assert (w + c)[Next(w).length..] == w[Next(w).length..] + c;
      TriviaHasNoTokens(w[Next(w).length..], c);
    }
  }

  /** A line comment without its newline is the end of the text. */
  lemma LineCommentEndsText(w: string, c: string)
    requires IsTrivia(w, c) && StartsAt(w, 0, "//") && Find(w, "\n", 2).None?
    ensures c == "" && AfterLine(w + c) == ""
  {
    hide Find, CommentEnd, RawOpen, QuotedEnd, IdentLength;
    assert w[..2] == "//" && !IsSpace(w[0]);
    assert Next(w) == BlankOf(|w|);
    if c != "" {
      LastNewlineIsFound(w);
    }
    assert w + c == w;
    FindAfter(w, 2);
  }

  lemma TriviaHead(w: string, c: string)
    requires w != "" && IsTrivia(w, c)
    ensures Next(w).BlankOf? && IsTrivia(w[Next(w).length..], c)
    ensures StartsAt(w, 0, "//") && c != "" ==> w[Next(w).length - 1] == '\n'
  {
    hide Next;
  }

  lemma NextOfLineComment(w: string)
    requires StartsAt(w, 0, "//") && Find(w, "\n", 2).Some?
    ensures Next(w) == BlankOf(Find(w, "\n", 2).value + 1)
  {
    assert w[..2] == "//";
  }

  /** When the token list stays the same: no clash, or a block comment behind a slash after
      whose first line the slash and the old tokens stand again. */
  predicate Harmless(token: string, w: string, c: string) {
    || !Clash(token, w, c)
    || (token == "/" && StartsAt(w, 0, "/*") && Tokens(AfterLine(w + c)) == Prepend(["/"], Tokens(c)))
  }

  /** Put a non-empty blank in place of a blank behind a token: the token list stays the same
      exactly when the new blank is harmless. */
  lemma BlanksKeepTokensIff(a: string, lexemes: seq<Lexeme>, w: string, w': string, c: string)
    requires Reads(a, lexemes, w + c) && IsTrivia(w, c) && IsTrivia(w', c) && w' != ""
    requires lexemes != [] && lexemes[|lexemes| - 1].Token?
    requires Tokens(a + (w + c)).Some?
    ensures Tokens(a + (w' + c)) == Tokens(a + (w + c)) <==> Harmless(lexemes[|lexemes| - 1].text, w', c)
    ensures IsSpace(w'[0]) ==> (Harmless(lexemes[|lexemes| - 1].text, w', c)
                                <==> !Clash(lexemes[|lexemes| - 1].text, w', c))
  {
    hide Next, Reads, Tokens, IsTrivia, AfterLine, Glues;
    var last := lexemes[|lexemes| - 1].text;
    BlanksAreInert(a, lexemes, w, w', c);
    TriviaHasNoTokens(w, c);
    TriviaHasNoTokens(w', c);
    TokensKeptIff(a, lexemes, w + c, w' + c);
    TriviaIsInert(w', c);
    ReadsTokens(a, lexemes, w + c);
    if last == "/" && StartsAt(w', 0, "/") {
      BehindSlash(w', c);
    }
  }

  /** A blank behind a slash that is no line comment starts a block comment; and what the slash
      then makes a comment ends with the line. */
  lemma BehindSlash(w: string, c: string)
    requires IsTrivia(w, c) && StartsAt(w, 0, "/") && Tokens(c).Some?
    ensures Glues(w + c) && Tokens("/" + (w + c)) == Tokens(AfterLine(w + c))
    ensures !StartsAt(w, 0, "/*") ==> Tokens(AfterLine(w + c)) != Prepend(["/"], Tokens(c))
  {
    hide Next, Tokens, AfterLine;
    StartsAtCharacter(w, 0, '/');
    SlashTakesTheLine(w + c);
    TriviaStart(w, c);
    InertStart(w);
    if w[1] == '/' {
      assert w[..2] == "//";
      LineCommentClashes(w, c);
    } else {
      assert w[..2] == "/*";
    }
  }

  lemma PeelToken(token: string, rest: string, more: seq<string>)
    requires token != "" && Next(token + rest) == TokenOf(|token|) && Tokens(rest) == Some(more)
    ensures Tokens(token + rest) == Some([token] + more)
  {
    hide Next, Lex;
    var t := token + rest;
    assert t[..|token|] == token && t[|token|..] == rest;
    PrependStep([], t);
    PrependNothing(t);
    assert [] + [token] == [token];
  }

  lemma PeelBlank(blank: string, rest: string)
    requires blank != "" && Next(blank + rest) == BlankOf(|blank|)
    ensures Tokens(blank + rest) == Tokens(rest)
  {
    hide Next, Lex;
    var t := blank + rest;
    assert t[..|blank|] == blank && t[|blank|..] == rest;
    PrependStep([], t);
    PrependNothing(t);
    PrependNothing(rest);
  }

  lemma LoneQuote(t: string)
    requires StartsAt(t, 0, "'") && !OpensQuoted(t)
    ensures Next(t) == TokenOf(1)
  {
    assert t[0] == t[..1][0] == '\'';
    assert |t| >= 2 ==> t[..2] == ['\'', t[1]];
  }

  lemma QuotedToken(t: string, n: nat)
    requires StartsAt(t, 0, "'") && OpensQuoted(t) && QuotedEnd(t, 1, '\'') == Some(n)
    ensures Next(t) == TokenOf(n)
  {
    assert t[0] == t[..1][0] == '\'';
    assert t[..2] == ['\'', t[1]];
  }

  lemma LoneX()
    ensures Tokens("x") == Some(["x"])
  {
    assert "x" + "" == "x";
    assert Next("x") == TokenOf(1);
    PeelToken("x", "", []);
    assert ["x"] + [] == ["x"];
  }

  /** The clashes do change token lists: here each time by a blank at a token boundary. */
  lemma SlashClash()
    ensures Tokens("/ x") == Some(["/", "x"]) && Tokens("//**/x") == Some([])
  {
    LoneX();
    SlashNext();
    hide Next;
    assert " " + "x" == " x" && "/" + " x" == "/ x" && "//**/x" + "" == "//**/x";
    PeelBlank(" ", "x");
    PeelToken("/", " x", ["x"]);
    assert ["/"] + ["x"] == ["/", "x"];
    PeelBlank("//**/x", "");
  }

  /** A block comment behind a slash that changes no token: its second line brings them again. */
  lemma HarmlessSlashClash()
    ensures Tokens("/ \nx") == Some(["/", "x"]) && Tokens("//*\n/ // */\nx") == Some(["/", "x"])
  {
    hide Next, Tokens, AfterLine;
    LoneX();
    SlashAndBlank("\nx");
    assert "/ " + "\nx" == "/ \nx";
    SpaceNext("\nx");
    assert "\n" + "x" == "\nx";
    PeelBlank("\n", "x");
    assert Prepend(["/"], Some(["x"])) == Some(["/", "x"]) by {
      assert ["/"] + ["x"] == ["/", "x"];
    }
    SlashTakesTheLine("/*\n/ // */\nx");
    AfterFirstLine("/*", "/ // */\nx");
    assert "/*" + ['\n'] + "/ // */\nx" == "/*\n/ // */\nx" && "/" + "/*\n/ // */\nx" == "//*\n/ // */\nx";
    SlashAndBlank("// */\nx");
    assert "/ " + "// */\nx" == "/ // */\nx";
    SlashTakesTheLine("/ */\nx");
    AfterFirstLine("/ */", "x");
    assert "/ */" + ['\n'] + "x" == "/ */\nx" && "/" + "/ */\nx" == "// */\nx";
  }

  lemma SlashAndBlank(t: string)
    ensures Tokens("/ " + t) == Prepend(["/"], Tokens(t))
  {
    hide Tokens;
    var s := "/ " + t;
    assert s[..2] == "/ " && s[..1] == "/" && s[1..] == " " + t && (" " + t)[1..] == t;
    FirstIsPeeled(s);
    FirstIsPeeled(" " + t);
  }

  lemma SpaceNext(t: string)
    requires t != "" && IsSpace(t[0])
    ensures Next(t) == BlankOf(1)
  {
  }

  lemma AfterFirstLine(line: string, rest: string)
    requires '\n' !in line
    ensures AfterLine(line + ['\n'] + rest) == rest
  {
    var t := line + ['\n'] + rest;
    assert t[|line|] == '\n' && t[|line|..|line| + 1] == "\n";
    FindAfter(t, |line|);
    FindIs(t, "\n", |line|, |line|);
    assert t[|line| + 1..] == rest;
  }

  lemma StartsAtCharacter(t: string, j: nat, c: char)
    ensures StartsAt(t, j, [c]) ==> j < |t| && t[j] == c
  {
    if StartsAt(t, j, [c]) {
      assert t[j..j + 1][0] == t[j];
    }
  }

  lemma SlashNext()
    ensures Next(" x") == BlankOf(1) && Next("/ x") == TokenOf(1) && Next("//**/x") == BlankOf(6)
  {
    assert "/ x"[..2] == "/ ";
    var t := "//**/x";
    forall j: nat | 2 <= j ensures !StartsAt(t, j, "\n") {
      StartsAtCharacter(t, j, '\n');
    }
    assert t[..2] == "//";
  }

  lemma QuoteClash()
    ensures Tokens("''x") == Some(["'", "'", "x"]) && Tokens("' 'x") == Some(["' '", "x"])
  {
    hide Next;
    LoneX();
    LoneQuote("''x");
    LoneQuote("'x");
    QuotedToken("' 'x", 3);
    assert "'" + "'x" == "''x" && "'" + "x" == "'x" && "' '" + "x" == "' 'x";
    PeelToken("'", "x", ["x"]);
    PeelToken("'", "'x", ["'"] + ["x"]);
    PeelToken("' '", "x", ["x"]);
    assert ["'"] + (["'"] + ["x"]) == ["'", "'", "x"] && ["' '"] + ["x"] == ["' '", "x"];
  }

  lemma EmptyCharacterClash()
    ensures Tokens("\'\'\'") == Some(["''", "'"]) && Tokens("'' '") == Some(["'", "' '"])
  {
    hide Next;
    QuotedToken("\'\'\'", 2);
    LoneQuote("'");
    LoneQuote("'' '");
    QuotedToken("' '", 3);
    assert "'" + "" == "'" && "''" + "'" == "\'\'\'" && "' '" + "" == "' '" && "'" + "' '" == "'' '";
    PeelToken("'", "", []);
    PeelToken("''", "'", ["'"] + []);
    PeelToken("' '", "", []);
    PeelToken("'", "' '", ["' '"] + []);
    assert ["''"] + (["'"] + []) == ["''", "'"] && ["'"] + (["' '"] + []) == ["'", "' '"];
  }
}
