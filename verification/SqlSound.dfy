/** The converse of reading what was written: every text is cut into words that stand for its
    tokens, and every text that is accepted has the tokens of the statement it is read as. */
module SqlSound {
  import opened Basics
  import opened Bytes
  import opened Numbers
  import opened SqlLexer
  import opened RowCodec
  import opened SqlGrammar

  // ----------------------------------------------------------------- words

  predicate IsWordText(w: Text) { w != [] && IsStart(w[0]) && forall i | 0 <= i < |w| :: IsWord(w[i]) }

  predicate NoQuotes(t: Text) { QUOTE !in t }

  /** `t` is what stands between the quotes of `w`; the last quote may be missing at the end of
      a text. */
  predicate Quoted(w: Text, t: Text) { NoQuotes(t) && (w == [QUOTE] + t + [QUOTE] || w == [QUOTE] + t) }

  predicate IsIntWord(w: Text) { w != [] && if w[0] == MINUS then |w| > 1 && AllDigits(w[1..]) else AllDigits(w) }

  /** No token starts with this character. */
  predicate NoStart(c: byte) {
    !IsSpace(c) && !IsStart(c) && !IsDigit(c) && c != QUOTE && c !in {40, 41, 44, 59, 42, 61, 60, 62}
  }

  /** The word `w` stands for the token `t`: names, numbers and strings are cut at 255
      characters. */
  ghost predicate StandsFor(w: Text, t: Token) {
    match t
    case Ident(x) => IsWordText(w) && x == Clip(w) && !SameWord(x, Ascii("NULL"))
    case Null => IsWordText(w) && SameWord(Clip(w), Ascii("NULL"))
    case StrLit(x) => exists b :: Quoted(w, b) && x == Clip(b)
    case IntLit(v) => IsIntWord(w) && IsIntText(Clip(w)) && v == IntValue(Clip(w))
    case Bad => |w| == 1 && NoStart(w[0])
    case Eof => false
    case _ => w == Spelling(t)
  }

  lemma {:induction false} WordRun(s: Text)
    ensures forall i | 0 <= i < WordLen(s) :: IsWord(s[i])
    ensures WordLen(s) < |s| ==> !IsWord(s[WordLen(s)])
    decreases |s|
  {
    if s != [] && IsWord(s[0]) {
      WordRun(s[1..]);
    }
  }

  lemma {:induction false} QuoteRun(s: Text)
    ensures NoQuotes(s[..QuoteLen(s)])
    ensures QuoteLen(s) < |s| ==> s[QuoteLen(s)] == QUOTE
    decreases |s|
  {
    if s != [] && s[0] != QUOTE {
      QuoteRun(s[1..]);
      assert s[..QuoteLen(s)] == [s[0]] + s[1..][..QuoteLen(s[1..])];
    }
  }

  lemma {:induction false} DigitRunLen(s: Text)
    ensures AllDigits(s[..DigitLen(s)])
    ensures s != [] && IsDigit(s[0]) ==> DigitLen(s) > 0
    decreases |s|
  {
    if s != [] && IsDigit(s[0]) {
      DigitRunLen(s[1..]);
    }
  }

  lemma WordToken(s: Text)
    requires s != [] && s[0] != QUOTE && !StartsInt(s) && IsStart(s[0])
    ensures StandsFor(s[..ReadToken(s).1], ReadToken(s).0)
  {
    WordRun(s);
    hide SameWord, Clip;
  }

  lemma StringToken(s: Text)
    requires s != [] && s[0] == QUOTE
    ensures StandsFor(s[..ReadToken(s).1], ReadToken(s).0)
  {
    var n := QuoteLen(s[1..]);
    var b := s[1..1 + n];
    QuoteRun(s[1..]);
    assert s[1..][..n] == b;
    hide Clip;
    if 1 + n < |s| {
      assert s[..2 + n] == [QUOTE] + b + [QUOTE];
      assert Quoted(s[..2 + n], b);
    } else {
      assert s[..1 + n] == [QUOTE] + b;
      assert Quoted(s[..1 + n], b);
    }
  }

  lemma IntToken(s: Text)
    requires s != [] && s[0] != QUOTE && StartsInt(s)
    ensures StandsFor(s[..ReadToken(s).1], ReadToken(s).0)
  {
    IntTextOk(s);
    var n := IntLen(s);
    var w := s[..n];
    if s[0] == MINUS {
      DigitRunLen(s[1..]);
      assert w[1..] == s[1..][..DigitLen(s[1..])];
    } else {
      DigitRunLen(s);
    }
    hide Clip, IntValue, DigitLen;
  }

  lemma OtherToken(s: Text)
    requires s != [] && s[0] != QUOTE && !StartsInt(s) && !IsStart(s[0]) && !IsSpace(s[0])
    ensures StandsFor(s[..ReadToken(s).1], ReadToken(s).0)
  {
  }

  /** The word is as long as it can be. */
  predicate Longest(w: Text, t: Token, rest: Text) {
    rest == [] ||
    match t
    case Ident(_) => !IsWord(rest[0])
    case Null => !IsWord(rest[0])
    case IntLit(_) => !IsDigit(rest[0])
    case StrLit(_) => |w| > 1 && w[|w| - 1] == QUOTE
    case Lt => rest[0] != EQUALS
    case Gt => rest[0] != EQUALS
    case _ => true
  }

  lemma {:induction false} DigitStops(s: Text)
    ensures DigitLen(s) < |s| ==> !IsDigit(s[DigitLen(s)])
    decreases |s|
  {
    if s != [] && IsDigit(s[0]) {
      DigitStops(s[1..]);
    }
  }

  lemma TokenLongest(s: Text)
    requires s != []
    ensures Longest(s[..ReadToken(s).1], ReadToken(s).0, s[ReadToken(s).1..])
  {
    hide Clip, SameWord, IntValue, IsStart, IsWord;
    if s[0] == QUOTE {
      QuoteRun(s[1..]);
    } else if StartsInt(s) {
      DigitStops(s);
      DigitStops(s[1..]);
    } else {
      WordRun(s);
    }
  }

  // ------------------------------------------------------------- whole texts

  /** `s` starts with a gap of `i` characters and then the word for `ts[0]`, up to `j`, as long
      as it can be; and so on for the rest. */
  ghost predicate StartsWith(s: Text, t: Token, i: nat, j: nat) {
    i < j <= |s| && IsGap(s[..i]) && StandsFor(s[i..j], t) && Longest(s[i..j], t, s[j..])
  }

  /** The whole text is gaps and the words of these tokens, in order. */
  ghost predicate CutInto(s: Text, ts: seq<Token>)
    decreases |ts|
  {
    if ts == [] then IsEnd(s)
    else exists i: nat, j: nat :: StartsWith(s, ts[0], i, j) && CutInto(s[j..], ts[1..])
  }

  lemma {:induction false} LineSuffix(s: Text)
    ensures var d := DropLine(s); |d| <= |s| && s[|s| - |d|..] == d && forall i | 0 <= i < |s| - |d| :: s[i] != NEWLINE
    ensures DropLine(s) != [] ==> DropLine(s)[0] == NEWLINE
    decreases |s|
  {
    if s != [] && s[0] != NEWLINE {
      LineSuffix(s[1..]);
    }
  }

  lemma {:induction false} DropPrefix(a: Text, b: Text)
    requires b != [] && b[0] == NEWLINE && forall i | 0 <= i < |a| :: a[i] != NEWLINE
    ensures DropLine(a + b) == b
    decreases |a|
  {
    if a == [] {
      assert a + b == b;
    } else {
      assert (a + b)[1..] == a[1..] + b;
      DropPrefix(a[1..], b);
    }
  }

  /** What is skipped is a gap; when nothing is left, it is an end. */
  lemma {:induction false} SkipIs(s: Text)
    ensures var t := Skip(s);
      && t == s[|s| - |t|..]
      && (t == [] ==> IsEnd(s)) && (t != [] ==> IsGap(s[..|s| - |t|]) && !IsSpace(t[0]) && !IsComment(t))
    decreases |s|
  {
    var t := Skip(s);
    var k := |s| - |t|;
    if s != [] && IsSpace(s[0]) {
      SkipIs(s[1..]);
      if t != [] {
        assert s[..k][1..] == s[1..][..k - 1];
      }
    } else if IsComment(s) {
      var d := DropLine(s[1..]);
      LineSuffix(s[1..]);
      SkipIs(d);
      if t != [] {
        CommentGap(s, k);
      }
    } else {
      assert s[..0] == [];
    }
  }

  lemma CommentGap(s: Text, k: nat)
    requires IsComment(s) && k <= |s| && Skip(s) == s[k..] && Skip(s) != []
    requires var d := DropLine(s[1..]); d != [] && |d| >= |s| - k && IsGap(d[..|d| - (|s| - k)])
    requires !IsSpace(s[k])
    ensures IsGap(s[..k])
  {
    hide Skip, IsGap;
    var d := DropLine(s[1..]);
    LineSuffix(s[1..]);
    hide DropLine;
    var m := |s| - |d|;
    var g := d[..|d| - (|s| - k)];
    NewlineIn(s, m, d, k);
    CommentThen(s[..m], g);
    assert s[..k] == s[..m] + g;
  }

  lemma NewlineIn(s: Text, m: nat, d: Text, k: nat)
    requires IsComment(s) && d != [] && m + |d| == |s| && m >= 1 && s[1..][m - 1..] == d && d[0] == NEWLINE
    requires k < |s| && |d| >= |s| - k && !IsSpace(s[k])
    ensures d == s[m..] && 2 <= m < k && d[..|d| - (|s| - k)] != [] && d[..|d| - (|s| - k)][0] == NEWLINE
  {
    assert s[1..][m - 1..] == s[m..];
    assert s[m] == NEWLINE;
  }

  /** A comment and the gap that begins with the end of its line. */
  lemma CommentThen(c: Text, g: Text)
    requires IsComment(c) && (forall i | 1 <= i < |c| :: c[i] != NEWLINE) && g != [] && g[0] == NEWLINE && IsGap(g)
    ensures IsGap(c + g)
  {
    var s := c + g;
    assert s[1..] == c[1..] + g;
    DropPrefix(c[1..], g);
    hide DropLine;
    assert IsComment(s);
  }

  lemma TokenStands(s: Text)
    requires s != [] && !IsSpace(s[0])
    ensures StandsFor(s[..ReadToken(s).1], ReadToken(s).0)
  {
    hide ReadToken, StandsFor;
    if s[0] == QUOTE {
      StringToken(s);
    } else if StartsInt(s) {
      IntToken(s);
    } else if IsStart(s[0]) {
      WordToken(s);
    } else {
      OtherToken(s);
    }
  }

  lemma CutCons(s: Text, t: Token, ts: seq<Token>, i: nat, j: nat)
    requires StartsWith(s, t, i, j) && CutInto(s[j..], ts)
    ensures CutInto(s, [t] + ts)
  {
    hide StartsWith;
    assert ([t] + ts)[0] == t && ([t] + ts)[1..] == ts;
  }

  /** Every text is gaps and the words of its tokens. */
  lemma {:induction false} TokensCut(s: Text)
    ensures CutInto(s, Tokens(s))
    decreases |s|
  {
    hide StandsFor, Longest, IsGap, IsEnd, Skip, ReadToken;
    SkipIs(s);
    var t := Skip(s);
    var (tok, n) := ReadToken(t);
    if t != [] {
      TokenStands(t);
      TokenLongest(t);
      var i, j := |s| - |t|, |s| - |t| + n;
      assert s[i..j] == t[..n] && s[j..] == t[n..];
      TokensCut(t[n..]);
      assert StartsWith(s, tok, i, j);
      assert Tokens(s) == [tok] + Tokens(t[n..]);
      CutCons(s, tok, Tokens(t[n..]), i, j);
    } else {
      assert Tokens(s) == [];
    }
  }

  // ------------------------------------------------------ what was accepted

  /** A token as the parser keeps it: names are cut at 63 characters, strings at 255. */
  function Kept(t: Token): Token {
    match t
    case Ident(n) => Ident(ClipName(n))
    case StrLit(x) => StrLit(Clip(x))
    case _ => t
  }

  /** `ts` is what `ws` asks for, and then `rest`. A keyword is looked at before it is cut. */
  ghost predicate Took(ts: seq<Token>, rest: seq<Token>, ws: seq<Want>) {
    && |ts| == |ws| + |rest| && rest == ts[|ws|..]
    && forall i | 0 <= i < |ws| :: Meets(if ws[i].Kw? then ts[i] else Kept(ts[i]), ws[i])
  }

  lemma TookBoth(ts: seq<Token>, mid: seq<Token>, rest: seq<Token>, a: seq<Want>, b: seq<Want>)
    requires Took(ts, mid, a) && Took(mid, rest, b)
    ensures Took(ts, rest, a + b)
  {
    hide Meets, Kept;
    var ws := a + b;
    assert ts[|ws|..] == ts[|a|..][|b|..];
    forall i | 0 <= i < |ws|
      ensures Meets(if ws[i].Kw? then ts[i] else Kept(ts[i]), ws[i])
    {
      if i >= |a| {
        assert mid[i - |a|] == ts[i] && b[i - |a|] == ws[i];
      }
    }
  }

  lemma TookOne(ts: seq<Token>, w: Want)
    requires ts != [] && Meets(if w.Kw? then ts[0] else Kept(ts[0]), w)
    ensures Took(ts, ts[1..], [w])
  {
    hide Meets, Kept;
  }

  lemma TookNone(ts: seq<Token>)
    ensures Took(ts, ts, [])
  {
  }

  lemma NameTook(ts: seq<Token>)
    requires Name(ts).Good?
    ensures Took(ts, Name(ts).rest, [Tok(Ident(Name(ts).value))])
  {
    TookOne(ts, Tok(Ident(Name(ts).value)));
  }

  lemma ValueTook(ts: seq<Token>)
    requires Value(ts).Good?
    ensures Took(ts, Value(ts).rest, ValWants(Value(ts).value))
  {
    TookOne(ts, Tok(ValToken(Value(ts).value)));
  }

  lemma OperationTook(ts: seq<Token>)
    requires Operation(ts).Good?
    ensures Took(ts, Operation(ts).rest, [Tok(OpToken(Operation(ts).value))])
  {
    TookOne(ts, Tok(OpToken(Operation(ts).value)));
  }

  lemma KeywordTook(ts: seq<Token>, word: string)
    requires IsKw(Head(ts), word)
    ensures ts != [] && Took(ts, Tail(ts), [K(word)])
  {
    hide SameWord, Ascii;
    TookOne(ts, K(word));
  }

  lemma ExpectTook(ts: seq<Token>, t: Token)
    requires Head(ts) == t && !t.Eof? && !t.Ident? && !t.StrLit?
    ensures ts != [] && Took(ts, Tail(ts), [Tok(t)])
  {
    TookOne(ts, Tok(t));
  }

  // ----------------------------------------------------------------- lists

  lemma {:induction false} TypeFromNamed(name: Text, i: nat)
    requires !TypeFrom(name, i).Unknown?
    ensures name == Ascii(TypeName(TypeFrom(name, i)))
    decreases |AllTypes| - i
  {
    hide Ascii, TypeName;
    if Ascii(TypeName(AllTypes[i])) != name {
      TypeFromNamed(name, i + 1);
    }
  }

  lemma ColumnTook(ts: seq<Token>)
    requires SqlGrammar.Column(ts).Good?
    ensures Took(ts, SqlGrammar.Column(ts).rest, ColWants(SqlGrammar.Column(ts).value)) && !SqlGrammar.Column(ts).value.ty.Unknown?
  {
    hide Took, TypeFrom, Ascii, TypeName;
    var n := Name(ts);
    var t := Name(n.rest);
    NameTook(ts);
    NameTook(n.rest);
    TypeFromNamed(t.value, 0);
    TookBoth(ts, n.rest, t.rest, [Tok(Ident(n.value))], [Tok(Ident(t.value))]);
    assert ColWants(SqlGrammar.Column(ts).value) == [Tok(Ident(n.value))] + [Tok(Ident(t.value))];
  }

  lemma ConditionTook(ts: seq<Token>)
    requires Condition(ts).Good?
    ensures Took(ts, Condition(ts).rest, CondWants(Condition(ts).value))
  {
    hide Took, Name, Operation, Value;
    var n := Name(ts);
    var o := Operation(n.rest);
    var v := Value(o.rest);
    NameTook(ts);
    OperationTook(n.rest);
    ValueTook(o.rest);
    TookBoth(n.rest, o.rest, v.rest, [Tok(OpToken(o.value))], ValWants(v.value));
    TookBoth(ts, n.rest, v.rest, [Tok(Ident(n.value))], [Tok(OpToken(o.value))] + ValWants(v.value));
    assert CondWants(Condition(ts).value) == [Tok(Ident(n.value))] + ([Tok(OpToken(o.value))] + ValWants(v.value));
  }

  /** What a list of columns was read from. */
  lemma {:induction false} ColumnsTook(ts: seq<Token>, acc: seq<ColDef>)
    requires Columns(ts, acc).Good?
    ensures var c := Columns(ts, acc); |acc| < |c.value| <= MAX_COLS && acc <= c.value && Took(ts, c.rest, ColsWants(c.value[|acc|..]))
    decreases |ts|
  {
    hide Took, SqlGrammar.Column, ColWants;
    var c := SqlGrammar.Column(ts);
    ColumnTook(ts);
    if Head(c.rest).Comma? {
      ExpectTook(c.rest, Comma);
      var more := acc + [c.value];
      ColumnsTook(Tail(c.rest), more);
      var all := Columns(Tail(c.rest), more);
      TookBoth(ts, c.rest, Tail(c.rest), ColWants(c.value), [Tok(Comma)]);
      TookBoth(ts, Tail(c.rest), all.rest, ColWants(c.value) + [Tok(Comma)], ColsWants(all.value[|more|..]));
      assert all.value[|acc|..][1..] == all.value[|more|..] && all.value[|acc|..][0] == c.value;
    } else {
      assert (acc + [c.value])[|acc|..] == [c.value];
    }
  }

  lemma {:induction false} ValuesTook(ts: seq<Token>, acc: seq<Val>)
    requires Values(ts, acc).Good?
    ensures var c := Values(ts, acc); |acc| < |c.value| <= MAX_VALS && acc <= c.value && Took(ts, c.rest, ValsWants(c.value[|acc|..]))
    decreases |ts|
  {
    hide Took, Value, ValWants;
    var v := Value(ts);
    ValueTook(ts);
    if Head(v.rest).Comma? {
      ExpectTook(v.rest, Comma);
      var more := acc + [v.value];
      ValuesTook(Tail(v.rest), more);
      var all := Values(Tail(v.rest), more);
      TookBoth(ts, v.rest, Tail(v.rest), ValWants(v.value), [Tok(Comma)]);
      TookBoth(ts, Tail(v.rest), all.rest, ValWants(v.value) + [Tok(Comma)], ValsWants(all.value[|more|..]));
      assert all.value[|acc|..][1..] == all.value[|more|..] && all.value[|acc|..][0] == v.value;
    } else {
      assert (acc + [v.value])[|acc|..] == [v.value];
    }
  }

  lemma {:induction false} ConditionsTook(ts: seq<Token>, acc: seq<Cond>)
    requires Conditions(ts, acc).Good?
    ensures var c := Conditions(ts, acc); |acc| < |c.value| <= MAX_CONDS && acc <= c.value && Took(ts, c.rest, CondsWants(c.value[|acc|..]))
    decreases |ts|
  {
    hide Took, Condition, CondWants, IsKw;
    var c := Condition(ts);
    ConditionTook(ts);
    if IsKw(Head(c.rest), "AND") {
      KeywordTook(c.rest, "AND");
      var more := acc + [c.value];
      ConditionsTook(Tail(c.rest), more);
      var all := Conditions(Tail(c.rest), more);
      TookBoth(ts, c.rest, Tail(c.rest), CondWants(c.value), [K("AND")]);
      TookBoth(ts, Tail(c.rest), all.rest, CondWants(c.value) + [K("AND")], CondsWants(all.value[|more|..]));
      assert all.value[|acc|..][1..] == all.value[|more|..] && all.value[|acc|..][0] == c.value;
    } else {
      assert (acc + [c.value])[|acc|..] == [c.value];
    }
  }

  /** A keyword is read from its letters, each large or small. */
  lemma KeywordLetters(text: Text, word: Text)
    requires SameWord(text, word) && forall i | 0 <= i < |word| :: 65 <= word[i] <= 90
    ensures |text| == |word| && forall i | 0 <= i < |word| :: text[i] == word[i] || text[i] == word[i] + 32
  {
  }

  /** Names keep their first 63 characters, strings and numbers their first 255. */
  lemma Clips(s: Text)
    ensures ClipName(s) == s[..Min(|s|, 63)] && Clip(s) == s[..Min(|s|, 255)]
  {
  }

  // ------------------------------------------------------------ statements

  function Semi(semi: bool): seq<Want> { if semi then [Tok(Semicolon)] else [] }

  lemma SemiTook(ts: seq<Token>)
    ensures Took(ts, SkipSemicolon(ts), Semi(Head(ts).Semicolon?))
  {
    hide Took;
    if Head(ts).Semicolon? {
      ExpectTook(ts, Semicolon);
    } else {
      TookNone(ts);
    }
  }

  lemma StorageTook(ts: seq<Token>)
    ensures var (btree, rest) := Storage(ts); var named := IsKw(Head(ts), "HEAP");
      Took(ts, rest, StorageWants(btree, named))
  {
    hide Took, IsKw;
    if IsKw(Head(ts), "HEAP") {
      KeywordTook(ts, "HEAP");
    } else if IsKw(Head(ts), "BTREE") {
      KeywordTook(ts, "BTREE");
    } else {
      TookNone(ts);
    }
  }

  /** `s` was read from `ts`, and `rest` is left. */
  ghost predicate ReadFrom(ts: seq<Token>, rest: seq<Token>, s: Stmt) {
    Listed(s) && InLimits(s) && exists named, semi :: Took(ts, rest, WantsOf(s, named, semi))
  }

  predicate InLimits(s: Stmt) {
    match s
    case CreateTable(_, cols, _) => |cols| <= 32 && forall i | 0 <= i < |cols| :: !cols[i].ty.Unknown?
    case Insert(_, vals) => |vals| <= 32
    case Select(_, conds) => |conds| <= 16
    case _ => true
  }

  lemma Took4(ts: seq<Token>, a: seq<Token>, b: seq<Token>, c: seq<Token>, d: seq<Token>, w: seq<Want>, x: seq<Want>, y: seq<Want>, z: seq<Want>)
    requires Took(ts, a, w) && Took(a, b, x) && Took(b, c, y) && Took(c, d, z)
    ensures Took(ts, d, w + x + y + z)
  {
    hide Took;
    TookBoth(ts, a, b, w, x);
    TookBoth(ts, b, c, w + x, y);
    TookBoth(ts, c, d, w + x + y, z);
  }

  lemma ShowTook(ts: seq<Token>)
    requires IsKw(Head(ts), "SHOW") && ReadShow(Tail(ts)).Good?
    ensures ReadFrom(ts, ReadShow(Tail(ts)).rest, ReadShow(Tail(ts)).value)
  {
    hide Took, IsKw;
    var t := Tail(ts);
    var word := if IsKw(Head(t), "META") then "META" else "ALLOC";
    KeywordTook(ts, "SHOW");
    KeywordTook(t, word);
    SemiTook(Tail(t));
    var semi := Head(Tail(t)).Semicolon?;
    TookNone(ts);
    TookBoth(ts, t, Tail(t), [K("SHOW")], [K(word)]);
    TookBoth(ts, Tail(t), SkipSemicolon(Tail(t)), [K("SHOW")] + [K(word)], Semi(semi));
    assert WantsOf(ReadShow(t).value, false, semi) == [K("SHOW")] + [K(word)] + Semi(semi);
  }

  lemma SelectTook(ts: seq<Token>)
    requires IsKw(Head(ts), "SELECT") && ReadSelect(Tail(ts)).Good?
    ensures ReadFrom(ts, ReadSelect(Tail(ts)).rest, ReadSelect(Tail(ts)).value)
  {
    hide Took, IsKw, Conditions, CondsWants;
    var t1 := Tail(ts);
    var t2 := Tail(t1);
    var t3 := Tail(t2);
    var n := Name(t3);
    KeywordTook(ts, "SELECT");
    ExpectTook(t1, Star);
    KeywordTook(t2, "FROM");
    NameTook(t3);
    Took4(ts, t1, t2, t3, n.rest, [K("SELECT")], [Tok(Star)], [K("FROM")], [Tok(Ident(n.value))]);
    var front := [K("SELECT")] + [Tok(Star)] + [K("FROM")] + [Tok(Ident(n.value))];
    var s := ReadSelect(t1).value;
    if IsKw(Head(n.rest), "WHERE") {
      var t4 := Tail(n.rest);
      var c := Conditions(t4, []);
      KeywordTook(n.rest, "WHERE");
      ConditionsTook(t4, []);
      assert c.value[0..] == c.value;
      SemiTook(c.rest);
      var semi := Head(c.rest).Semicolon?;
      Took4(ts, n.rest, t4, c.rest, SkipSemicolon(c.rest), front, [K("WHERE")], CondsWants(c.value), Semi(semi));
      assert WantsOf(s, false, semi) == front + [K("WHERE")] + CondsWants(c.value) + Semi(semi);
    } else {
      SemiTook(n.rest);
      var semi := Head(n.rest).Semicolon?;
      TookBoth(ts, n.rest, SkipSemicolon(n.rest), front, Semi(semi));
      assert WantsOf(s, false, semi) == front + Semi(semi);
    }
  }

  lemma InsertTook(ts: seq<Token>)
    requires IsKw(Head(ts), "INSERT") && ReadInsert(Tail(ts)).Good?
    ensures ReadFrom(ts, ReadInsert(Tail(ts)).rest, ReadInsert(Tail(ts)).value)
  {
    hide Took, IsKw, Values, ValsWants;
    var t1 := Tail(ts);
    var t2 := Tail(t1);
    var n := Name(t2);
    var t3 := Tail(n.rest);
    var t4 := Tail(t3);
    var v := Values(t4, []);
    var t5 := Tail(v.rest);
    KeywordTook(ts, "INSERT");
    KeywordTook(t1, "INTO");
    NameTook(t2);
    KeywordTook(n.rest, "VALUES");
    Took4(ts, t1, t2, n.rest, t3, [K("INSERT")], [K("INTO")], [Tok(Ident(n.value))], [K("VALUES")]);
    var front := [K("INSERT")] + [K("INTO")] + [Tok(Ident(n.value))] + [K("VALUES")];
    ExpectTook(t3, LParen);
    ValuesTook(t4, []);
    assert v.value[0..] == v.value;
    ExpectTook(v.rest, RParen);
    Took4(ts, t3, t4, v.rest, t5, front, [Tok(LParen)], ValsWants(v.value), [Tok(RParen)]);
    SemiTook(t5);
    var semi := Head(t5).Semicolon?;
    TookBoth(ts, t5, SkipSemicolon(t5), front + [Tok(LParen)] + ValsWants(v.value) + [Tok(RParen)], Semi(semi));
    assert WantsOf(ReadInsert(t1).value, false, semi) == front + [Tok(LParen)] + ValsWants(v.value) + [Tok(RParen)] + Semi(semi);
  }

  lemma CreateTook(ts: seq<Token>)
    requires IsKw(Head(ts), "CREATE") && ReadCreate(Tail(ts)).Good?
    ensures ReadFrom(ts, ReadCreate(Tail(ts)).rest, ReadCreate(Tail(ts)).value)
  {
    hide Took, IsKw, Columns, ColsWants;
    var t1 := Tail(ts);
    var t2 := Tail(t1);
    var n := Name(t2);
    var t3 := Tail(n.rest);
    var c := Columns(t3, []);
    var t4 := Tail(c.rest);
    KeywordTook(ts, "CREATE");
    KeywordTook(t1, "TABLE");
    NameTook(t2);
    ExpectTook(n.rest, LParen);
    Took4(ts, t1, t2, n.rest, t3, [K("CREATE")], [K("TABLE")], [Tok(Ident(n.value))], [Tok(LParen)]);
    var front := [K("CREATE")] + [K("TABLE")] + [Tok(Ident(n.value))] + [Tok(LParen)];
    ColumnsTook(t3, []);
    ColumnsKnown(t3, []);
    assert c.value[0..] == c.value;
    ExpectTook(c.rest, RParen);
    StorageTook(t4);
    var (btree, rest) := Storage(t4);
    var named := IsKw(Head(t4), "HEAP");
    Took4(ts, t3, c.rest, t4, rest, front, ColsWants(c.value), [Tok(RParen)], StorageWants(btree, named));
    SemiTook(rest);
    var semi := Head(rest).Semicolon?;
    TookBoth(ts, rest, SkipSemicolon(rest), front + ColsWants(c.value) + [Tok(RParen)] + StorageWants(btree, named), Semi(semi));
    assert WantsOf(ReadCreate(t1).value, named, semi)
        == front + ColsWants(c.value) + [Tok(RParen)] + StorageWants(btree, named) + Semi(semi);
  }

  lemma {:induction false} ColumnsKnown(ts: seq<Token>, acc: seq<ColDef>)
    requires Columns(ts, acc).Good? && forall i | 0 <= i < |acc| :: !acc[i].ty.Unknown?
    ensures var cs := Columns(ts, acc).value; forall i | 0 <= i < |cs| :: !cs[i].ty.Unknown?
    decreases |ts|
  {
    hide SqlGrammar.Column;
    ColumnTook(ts);
    var c := SqlGrammar.Column(ts);
    if Head(c.rest).Comma? {
      ColumnsKnown(Tail(c.rest), acc + [c.value]);
    }
  }

  /** A statement is read only from its own tokens, names and strings cut to their limits. */
  lemma ReadSound(ts: seq<Token>)
    requires ReadStmt(ts).Good?
    ensures ReadFrom(ts, ReadStmt(ts).rest, ReadStmt(ts).value)
  {
    hide ReadFrom, IsKw, ReadCreate, ReadInsert, ReadSelect, ReadShow;
    if IsKw(Head(ts), "CREATE") {
      CreateTook(ts);
    } else if IsKw(Head(ts), "INSERT") {
      InsertTook(ts);
    } else if IsKw(Head(ts), "SELECT") {
      SelectTook(ts);
    } else {
      ShowTook(ts);
    }
  }

  /** A text that is accepted is gaps and the words of the tokens of the statement, and
      nothing else. */
  lemma ParseSound(text: Text)
    requires ParseSql(text).Ok?
    ensures ReadFrom(Tokens(text), [], ParseSql(text).value) && CutInto(text, Tokens(text))
  {
    hide ReadFrom, ReadStmt, Tokens, CutInto;
    ReadSound(Tokens(text));
    TokensCut(text);
  }
}
