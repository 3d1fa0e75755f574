/** Tokens of the SQL subset: how text is cut into them, by specification and by the
    lexer with its one-token lookahead. */
module SqlLexer {
  import opened Bytes
  import opened Numbers
  import opened Decimals

  const VAL_MAX: nat := 256

  const QUOTE: byte := 39
  const EQUALS: byte := 61

  datatype Token =
    | Eof | Ident(text: Text) | IntLit(value: int) | StrLit(text: Text) | Null
    | LParen | RParen | Comma | Semicolon | Star
    | Eq | Neq | Lt | Lte | Gt | Gte
    | Bad

  // ----------------------------------------------------- character classes

  predicate IsSpace(c: byte) { 9 <= c <= 13 || c == 32 || c == 160 }

  predicate IsUpper(c: byte) { 65 <= c <= 90 || (192 <= c <= 222 && c != 215) }

  predicate IsAlpha(c: byte) { IsUpper(c) || 97 <= c <= 122 || (223 <= c <= 255 && c != 247) }

  predicate IsStart(c: byte) { IsAlpha(c) || c == 95 }

  predicate IsWord(c: byte) { IsStart(c) || IsDigit(c) }

  function Lower(c: byte): byte { if IsUpper(c) then c + 32 else c }

  predicate SameWord(a: Text, b: Text) { |a| == |b| && forall i | 0 <= i < |a| :: Lower(a[i]) == Lower(b[i]) }

  function Ascii(s: string): (r: Text)
    ensures |r| == |s|
  {
    seq(|s|, i requires 0 <= i < |s| => if s[i] < 256 as char then s[i] as int else 0)
  }

  // ------------------------------------------------------------- skipping

  function DropLine(s: Text): (r: Text)
    ensures |r| <= |s|
  {
    if s == [] || s[0] == NEWLINE then s else DropLine(s[1..])
  }

  predicate IsComment(s: Text) { |s| >= 2 && s[0] == MINUS && s[1] == MINUS }

  function Skip(s: Text): (r: Text)
    ensures |r| <= |s|
    decreases |s|
  {
    if s != [] && IsSpace(s[0]) then Skip(s[1..])
    else if IsComment(s) then Skip(DropLine(s[1..]))
    else s
  }

  function WordLen(s: Text): (n: nat)
    ensures n <= |s|
  {
    if s != [] && IsWord(s[0]) then 1 + WordLen(s[1..]) else 0
  }

  function DigitLen(s: Text): (n: nat)
    ensures n <= |s|
    ensures forall i | 0 <= i < n :: IsDigit(s[i])
  {
    if s != [] && IsDigit(s[0]) then 1 + DigitLen(s[1..]) else 0
  }

  function QuoteLen(s: Text): (n: nat)
    ensures n <= |s|
  {
    if s != [] && s[0] != QUOTE then 1 + QuoteLen(s[1..]) else 0
  }

  // --------------------------------------------------------------- reading

  function Clip(s: Text): (r: Text)
    ensures |r| < VAL_MAX
  {
    if |s| < VAL_MAX then s else s[..VAL_MAX - 1]
  }

  predicate StartsInt(s: Text) {
    s != [] && (IsDigit(s[0]) || (s[0] == MINUS && |s| > 1 && IsDigit(s[1])))
  }

  /** How long the integer literal at the start of `s` is. */
  function IntLen(s: Text): (n: nat)
    requires StartsInt(s)
    ensures 0 < n <= |s|
  {
    if s[0] == MINUS then 1 + DigitLen(s[1..]) else DigitLen(s)
  }

  /** The value of an integer literal, with 64-bit wrap-around. */
  function IntValue(s: Text): int
    requires IsIntText(s)
  {
    if s[0] == MINUS then Wrap64(-(Dec(s[1..]) as int)) else Wrap64(Dec(s))
  }

  predicate IsIntText(s: Text) { s != [] && if s[0] == MINUS then AllDigits(s[1..]) else AllDigits(s) }

  /** Tokens of fixed spelling, longest first. */
  function Operator(s: Text): (r: (Token, nat))
    requires s != []
    ensures 0 < r.1 <= |s|
  {
    var eq := |s| > 1 && s[1] == EQUALS;
    if s[0] == 33 && eq then (Neq, 2)
    else if s[0] == 60 && eq then (Lte, 2)
    else if s[0] == 62 && eq then (Gte, 2)
    else
      (match s[0]
       case 40 => LParen case 41 => RParen case 44 => Comma case 59 => Semicolon
       case 42 => Star case 61 => Eq case 60 => Lt case 62 => Gt
       case _ => Bad, 1)
  }

  /** The token at the start of `s`, which does not start with space, and its length. */
  function ReadToken(s: Text): (r: (Token, nat))
    ensures r.1 <= |s| && (r.0.Eof? <==> s == []) && (s != [] ==> r.1 > 0)
  {
    if s == [] then (Eof, 0)
    else if s[0] == QUOTE then
      var n := QuoteLen(s[1..]);
      (StrLit(Clip(s[1..1 + n])), if 1 + n < |s| then 2 + n else 1 + n)
    else if StartsInt(s) then
      var n := IntLen(s);
      IntTextOk(s);
      (IntLit(IntValue(Clip(s[..n]))), n)
    else if IsStart(s[0]) then
      var n := WordLen(s);
      assert n > 0;
      var text := Clip(s[..n]);
      (if SameWord(text, Ascii("NULL")) then Null else Ident(text), n)
    else Operator(s)
  }

  lemma IntTextOk(s: Text)
    requires StartsInt(s)
    ensures IsIntText(Clip(s[..IntLen(s)]))
  {
    var t := Clip(s[..IntLen(s)]);
    if s[0] == MINUS {
      assert forall i | 0 <= i < |t| - 1 :: t[1..][i] == s[1..][i];
    }
  }

  /** All tokens of a text, without the end mark. */
  function Tokens(s: Text): seq<Token>
    decreases |s|
  {
    var t := Skip(s);
    var (tok, n) := ReadToken(t);
    if tok.Eof? then [] else [tok] + Tokens(t[n..])
  }

  // ------------------------------------------------- texts that render tokens

  /** White space and finished comments. */
  predicate IsGap(g: Text)
    decreases |g|
  {
    g == [] || (IsSpace(g[0]) && IsGap(g[1..]))
    || (IsComment(g) && DropLine(g[1..]) != [] && IsGap(DropLine(g[1..])))
  }

  /** After the last token a comment may also run to the end. */
  predicate IsEnd(g: Text)
    decreases |g|
  {
    g == [] || (IsSpace(g[0]) && IsEnd(g[1..])) || (IsComment(g) && IsEnd(DropLine(g[1..])))
  }

  /** What a place in a statement asks for: a keyword in any case, or a token. */
  datatype Want = Kw(word: Text) | Tok(tok: Token)

  predicate Meets(t: Token, w: Want) {
    match w
    case Kw(word) => t.Ident? && SameWord(t.text, word)
    case Tok(tok) => t == tok
  }

  predicate IsName(s: Text) {
    s != [] && |s| < VAL_MAX && IsStart(s[0]) && (forall i | 0 <= i < |s| :: IsWord(s[i])) && !SameWord(s, Ascii("NULL"))
  }

  /** What a string literal can hold: no quote, and like every C string no zero. */
  predicate NoQuote(s: Text) { forall i | 0 <= i < |s| :: s[i] != QUOTE && s[i] != 0 }

  predicate IsIntSpelling(s: Text) {
    && s != [] && |s| < VAL_MAX && if s[0] == MINUS then |s| > 1 && AllDigits(s[1..]) else AllDigits(s)
  }

  function Spelling(t: Token): Text {
    match t
    case LParen => [40] case RParen => [41] case Comma => [44] case Semicolon => [59] case Star => [42]
    case Eq => [61] case Lt => [60] case Gt => [62]
    case Neq => [33, 61] case Lte => [60, 61] case Gte => [62, 61]
    case _ => []
  }

  /** `word` is a way to write what `w` asks for. */
  predicate Spells(word: Text, w: Want) {
    match w
    case Kw(k) => IsName(word) && SameWord(word, k)
    case Tok(Ident(name)) => word == name && IsName(name)
    case Tok(IntLit(v)) => IsIntSpelling(word) && IntValue(word) == v
    case Tok(StrLit(t)) => |t| < VAL_MAX && NoQuote(t) && word == [QUOTE] + t + [QUOTE]
    case Tok(Null) => |word| == 4 && SameWord(word, Ascii("NULL")) && forall i | 0 <= i < 4 :: IsStart(word[i])
    case Tok(t) => Spelling(t) != [] && word == Spelling(t)
  }

  /** `rest` does not make the word before it longer. */
  predicate Ends(w: Want, rest: Text) {
    rest == [] ||
    match w
    case Kw(_) => !IsWord(rest[0])
    case Tok(Ident(_)) => !IsWord(rest[0])
    case Tok(Null) => !IsWord(rest[0])
    case Tok(IntLit(_)) => !IsDigit(rest[0])
    case Tok(Lt) => rest[0] != EQUALS
    case Tok(Gt) => rest[0] != EQUALS
    case _ => true
  }

  datatype Piece = Piece(gap: Text, word: Text, want: Want)

  function Render(ps: seq<Piece>, end: Text): Text {
    if ps == [] then end else ps[0].gap + (ps[0].word + Render(ps[1..], end))
  }

  predicate RenderOk(ps: seq<Piece>, end: Text) {
    if ps == [] then IsEnd(end) && 0 !in end
    else IsGap(ps[0].gap) && 0 !in ps[0].gap && Spells(ps[0].word, ps[0].want) && Ends(ps[0].want, Render(ps[1..], end)) && RenderOk(ps[1..], end)
  }

  // -------------------------------------------------------------- lexing them

  lemma {:induction false} DropLineIn(g: Text, rest: Text)
    requires DropLine(g) != []
    ensures DropLine(g + rest) == DropLine(g) + rest
    decreases |g|
  {
    if g != [] && g[0] != NEWLINE {
      assert (g + rest)[1..] == g[1..] + rest;
      DropLineIn(g[1..], rest);
    } 
  }

  predicate Solid(s: Text) { s == [] || (!IsSpace(s[0]) && !IsComment(s)) }

  lemma {:induction false} SkipGap(g: Text, rest: Text)
    requires IsGap(g) && Solid(rest)
    ensures Skip(g + rest) == rest
    decreases |g|
  {
    if g == [] {
      assert g + rest == rest;
    } else if IsSpace(g[0]) && IsGap(g[1..]) {
      assert (g + rest)[1..] == g[1..] + rest;
      SkipGap(g[1..], rest);
    } else {
      assert (g + rest)[1..] == g[1..] + rest;
      DropLineIn(g[1..], rest);
      SkipGap(DropLine(g[1..]), rest);
      assert IsComment(g + rest);
      NoSpaceMinus(g + rest);
    }
  }

  lemma NoSpaceMinus(s: Text)
    requires s != [] && s[0] == MINUS
    ensures !IsSpace(s[0])
  {
  }

  lemma {:induction false} SkipEnd(g: Text)
    requires IsEnd(g)
    ensures Skip(g) == []
    decreases |g|
  {
    if g != [] {
      if IsSpace(g[0]) && IsEnd(g[1..]) {
        SkipEnd(g[1..]);
      } else {
        SkipEnd(DropLine(g[1..]));
      }
    }
  }

  lemma {:induction false} WordLenOf(word: Text, rest: Text)
    requires (forall i | 0 <= i < |word| :: IsWord(word[i])) && (rest == [] || !IsWord(rest[0]))
    ensures WordLen(word + rest) == |word|
    decreases |word|
  {
    if word == [] {
      assert word + rest == rest;
    } else {
      assert (word + rest)[1..] == word[1..] + rest;
      WordLenOf(word[1..], rest);
    }
  }

  lemma {:induction false} DigitLenOf(word: Text, rest: Text)
    requires AllDigits(word) && (rest == [] || !IsDigit(rest[0]))
    ensures DigitLen(word + rest) == |word|
    decreases |word|
  {
    if word == [] {
      assert word + rest == rest;
    } else {
      assert (word + rest)[1..] == word[1..] + rest;
      DigitLenOf(word[1..], rest);
    }
  }

  lemma {:induction false} QuoteLenOf(t: Text, rest: Text)
    requires NoQuote(t) && rest != [] && rest[0] == QUOTE
    ensures QuoteLen(t + rest) == |t|
    decreases |t|
  {
    if t == [] {
      assert t + rest == rest;
    } else {
      assert (t + rest)[1..] == t[1..] + rest;
      QuoteLenOf(t[1..], rest);
    }
  }

  lemma ReadWord(word: Text, rest: Text)
    requires word != [] && |word| < VAL_MAX && IsStart(word[0]) && (forall i | 0 <= i < |word| :: IsWord(word[i])) && (rest == [] || !IsWord(rest[0]))
    ensures ReadToken(word + rest) == (if SameWord(word, Ascii("NULL")) then Null else Ident(word), |word|)
  {
    hide SameWord, Ascii, WordLen;
    WordLenOf(word, rest);
    assert (word + rest)[..|word|] == word;
  }

  lemma ReadInt(word: Text, rest: Text)
    requires IsIntSpelling(word) && (rest == [] || !IsDigit(rest[0]))
    ensures ReadToken(word + rest) == (IntLit(IntValue(word)), |word|)
  {
    hide SameWord, Ascii, DigitLen, IntValue;
    var s := word + rest;
    if word[0] == MINUS {
      assert s[1..] == word[1..] + rest;
      DigitLenOf(word[1..], rest);
      assert s[1] == word[1..][0];
    } else {
      DigitLenOf(word, rest);
    }
    assert StartsInt(s);
    assert s[..|word|] == word;
  }

  lemma ReadString(t: Text, rest: Text)
    requires |t| < VAL_MAX && NoQuote(t)
    ensures ReadToken([QUOTE] + t + [QUOTE] + rest) == (StrLit(t), |t| + 2)
  {
    hide SameWord, Ascii, QuoteLen;
    var s := [QUOTE] + t + [QUOTE] + rest;
    assert s[1..] == t + ([QUOTE] + rest);
    QuoteLenOf(t, [QUOTE] + rest);
    assert s[1..1 + |t|] == t;
  }

  lemma ReadOperator(t: Token, rest: Text)
    requires Spelling(t) != [] && Ends(Tok(t), rest)
    ensures ReadToken(Spelling(t) + rest) == (t, |Spelling(t)|)
  {
    hide SameWord, Ascii;
    var s := Spelling(t) + rest;
    assert rest != [] && |Spelling(t)| == 1 ==> s[1] == rest[0];
  }

  /** One spelled word is read as one token that meets the want. */
  lemma ReadPiece(word: Text, w: Want, rest: Text)
    requires Spells(word, w) && Ends(w, rest)
    ensures word != [] && Solid(word + rest)
    ensures var r := ReadToken(word + rest); Meets(r.0, w) && r.1 == |word|
  {
    SpelledSolid(word, w, rest);
    hide ReadToken, Solid, SameWord, Ascii, IntValue;
    match w {
      case Kw(_) => ReadWord(word, rest);
      case Tok(t) =>
        match t {
          case Ident(_) => ReadWord(word, rest);
          case IntLit(_) => ReadInt(word, rest);
          case StrLit(text) =>
            ReadString(text, rest);
          case Null => ReadWord(word, rest);
          case _ => ReadOperator(t, rest);
        }
    }
  }

  lemma SpelledSolid(word: Text, w: Want, rest: Text)
    requires Spells(word, w)
    ensures word != [] && Solid(word + rest)
  {
    hide SameWord, Ascii, IntValue;
    var s := word + rest;
    if w.Tok? && w.tok.IntLit? && word[0] == MINUS {
      assert IsDigit(word[1..][0]) && s[1] == word[1];
    }
  }

  /** Every rendering is cut into the tokens it renders. */
  lemma {:induction false} TokensOfRendering(ps: seq<Piece>, end: Text)
    requires RenderOk(ps, end)
    ensures var ts := Tokens(Render(ps, end)); |ts| == |ps| && forall i | 0 <= i < |ps| :: Meets(ts[i], ps[i].want)
    decreases |ps|
  {
    hide Skip, ReadToken, IsGap, Spells, Ends, IsEnd, Meets;
    if ps == [] {
      SkipEnd(end);
      ReadEmpty();
    } else {
      var Piece(gap, word, want) := ps[0];
      var rest := Render(ps[1..], end);
      ReadPiece(word, want, rest);
      SkipGap(gap, word + rest);
      TokensOfRendering(ps[1..], end);
      assert (word + rest)[|word|..] == rest;
      var s := Render(ps, end);
      TokensStep(s, word + rest, |word|);
      forall i | 0 <= i < |ps|
        ensures Meets(Tokens(s)[i], ps[i].want)
      {
        if i > 0 {
          assert ps[i] == ps[1..][i - 1];
        }
      }
    }
  }

  lemma SpelledNoZero(word: Text, w: Want)
    requires Spells(word, w)
    ensures 0 !in word
  {
    hide SameWord, Ascii, IntValue;
    if w.Tok? && w.tok.IntLit? {
      assert forall i | 0 < i < |word| :: word[i] == word[1..][i - 1];
    }
  }

  /** A rendering is a C string. */
  lemma {:induction false} RenderNoZero(ps: seq<Piece>, end: Text)
    requires RenderOk(ps, end)
    ensures 0 !in Render(ps, end)
    decreases |ps|
  {
    hide IsGap, IsEnd, Spells, Ends;
    if ps != [] {
      SpelledNoZero(ps[0].word, ps[0].want);
      RenderNoZero(ps[1..], end);
    }
  }

  lemma ReadEmpty()
    ensures ReadToken([]).0 == Eof
  {
  }

  lemma TokensStep(s: Text, t: Text, n: nat)
    requires Skip(s) == t && t != [] && ReadToken(t).1 == n
    ensures n <= |t| && Tokens(s) == [ReadToken(t).0] + Tokens(t[n..])
  {
    hide ReadToken, Skip;
  }
}
