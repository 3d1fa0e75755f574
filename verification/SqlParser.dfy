/** The lexer with its lookahead and the recursive-descent parser, as they run. */
module SqlParser {
  import opened Basics
  import opened Bytes
  import opened Numbers
  import opened Decimals
  import opened SqlLexer
  import opened SqlGrammar
  import opened RowCodec

  class Lexer {
    const src: Text
    var pos: nat
    var peeked: bool
    var ahead: Token

    constructor (sql: Text)
      ensures Valid() && src == sql && Stream() == Tokens(sql)
    {
      src, pos, peeked, ahead := sql, 0, false, Eof;
      new;
      assert src[0..] == src;
    }

    function Left(): Text
      requires pos <= |src|
      reads this`pos
    {
      src[pos..]
    }

    ghost predicate Valid()
      reads this
    {
      pos <= |src| && (peeked && ahead.Eof? ==> Tokens(Left()) == [])
    }

    /** The tokens still to be delivered, a looked-at one included. */
    ghost function Stream(): seq<Token>
      requires Valid()
      reads this
    {
      if peeked then if ahead.Eof? then [] else [ahead] + Tokens(Left()) else Tokens(Left())
    }

    method SkipSpaces()
      requires pos <= |src|
      modifies this`pos
      ensures old(pos) <= pos <= |src| && Skip(Left()) == Skip(old(Left()))
      ensures pos < |src| ==> !IsSpace(src[pos])
    {
      hide Skip;
      while pos < |src| && IsSpace(src[pos])
        invariant old(pos) <= pos <= |src| && Skip(Left()) == Skip(old(Left()))
      {
        SkipSpace(Left());
        assert Left()[1..] == src[pos + 1..];
        pos := pos + 1;
      }
    }

    method SkipLine()
      requires pos <= |src|
      modifies this`pos
      ensures old(pos) <= pos <= |src| && Left() == DropLine(old(Left()))
    {
      while pos < |src| && src[pos] != NEWLINE
        invariant old(pos) <= pos <= |src| && DropLine(Left()) == DropLine(old(Left()))
      {
        assert Left()[1..] == src[pos + 1..];
        pos := pos + 1;
      }
    }

    /** Passes over white space and comments. */
    method SkipWs()
      requires pos <= |src|
      modifies this`pos
      ensures pos <= |src| && Left() == Skip(old(Left()))
    {
      hide Skip, DropLine;
      while true
        invariant pos <= |src| && Skip(Left()) == Skip(old(Left()))
        decreases |src| - pos
      {
        SkipSpaces();
        if pos + 1 < |src| && src[pos] == MINUS && src[pos + 1] == MINUS {
          SkipComment(Left());
          assert Left()[1..] == src[pos + 1..];
          pos := pos + 1;
          SkipLine();
        } else {
          SkipNothing(Left());
          return;
        }
      }
    }

    method ScanWord() returns (n: nat)
      requires pos <= |src|
      modifies this`pos
      ensures pos == old(pos) + n <= |src| && n == WordLen(old(Left()))
    {
      n := 0;
      while pos < |src| && IsWord(src[pos])
        invariant pos == old(pos) + n <= |src| && n + WordLen(Left()) == WordLen(old(Left()))
      {
        assert Left()[1..] == src[pos + 1..];
        pos, n := pos + 1, n + 1;
      }
    }

    method ScanDigits() returns (n: nat)
      requires pos <= |src|
      modifies this`pos
      ensures pos == old(pos) + n <= |src| && n == DigitLen(old(Left()))
    {
      n := 0;
      while pos < |src| && IsDigit(src[pos])
        invariant pos == old(pos) + n <= |src| && n + DigitLen(Left()) == DigitLen(old(Left()))
      {
        assert Left()[1..] == src[pos + 1..];
        pos, n := pos + 1, n + 1;
      }
    }

    method ScanQuoted() returns (n: nat)
      requires pos <= |src|
      modifies this`pos
      ensures pos == old(pos) + n <= |src| && n == QuoteLen(old(Left()))
    {
      n := 0;
      while pos < |src| && src[pos] != QUOTE
        invariant pos == old(pos) + n <= |src| && n + QuoteLen(Left()) == QuoteLen(old(Left()))
      {
        assert Left()[1..] == src[pos + 1..];
        pos, n := pos + 1, n + 1;
      }
    }

    method ReadQuoted() returns (tok: Token)
      requires pos < |src| && src[pos] == QUOTE
      modifies this`pos
      ensures pos <= |src| && var r := ReadToken(old(Left())); tok == r.0 && pos == old(pos) + r.1
    {
      hide QuoteLen;
      ghost var s, at := Left(), pos;
      assert s[1..] == src[pos + 1..];
      pos := pos + 1;
      var start := pos;
      var n := ScanQuoted();
      assert s[1..1 + n] == src[start..pos];
      tok := StrLit(Clip(src[start..pos]));
      if pos < |src| && src[pos] == QUOTE {
        pos := pos + 1;
      }
      QuoteStops(s[1..]);
    }

    method ReadNumber() returns (tok: Token)
      requires pos < |src| && StartsInt(Left()) && src[pos] != QUOTE
      modifies this`pos
      ensures pos <= |src| && var r := ReadToken(old(Left())); tok == r.0 && pos == old(pos) + r.1
    {
      hide DigitLen, IntValue;
      ghost var s := Left();
      IntTextOk(s);
      var start := pos;
      if src[pos] == MINUS {
        assert s[1..] == src[pos + 1..];
        pos := pos + 1;
      }
      var _ := ScanDigits();
      var text := Clip(src[start..pos]);
      assert s[..pos - start] == src[start..pos];
      var v := IntOf(text);
      tok := IntLit(v);
    }

    /** Reads the next token from the text. */
    method Read() returns (tok: Token)
      requires pos <= |src|
      modifies this`pos
      ensures pos <= |src| && old(Tokens(Left())) == if tok.Eof? then [] else [tok] + Tokens(Left())
      ensures tok.Eof? ==> Tokens(Left()) == []
    {
      hide Skip, ReadToken, Tokens;
      ghost var before := Left();
      SkipWs();
      ghost var s, at := Left(), pos;
      tok := ReadSolid();
      ReadStep(before, s);
      if tok.Eof? {
        assert Left() == [];
        ReadStep([], []);
      } else {
        assert Left() == s[pos - at..];
      }
    }

    /** Reads a token where one starts. */
    method ReadSolid() returns (tok: Token)
      requires pos <= |src|
      modifies this`pos
      ensures pos <= |src| && var r := ReadToken(old(Left())); tok == r.0 && pos == old(pos) + r.1
    {
      hide WordLen, SameWord, Ascii;
      ghost var s := Left();
      if pos == |src| {
        return Eof;
      }
      if src[pos] == QUOTE {
        tok := ReadQuoted();
      } else if IsDigit(src[pos]) || (src[pos] == MINUS && pos + 1 < |src| && IsDigit(src[pos + 1])) {
        tok := ReadNumber();
      } else if IsStart(src[pos]) {
        var start := pos;
        var n := ScanWord();
        assert s[..n] == src[start..pos];
        var text := Clip(src[start..pos]);
        tok := if SameWord(text, Ascii("NULL")) then Null else Ident(text);
      } else {
        var (t, n) := Operator(src[pos..]);
        tok := t;
        pos := pos + n;
      }
    }

    /** Looks at the next token; the stream stays as it is. */
    method Peek() returns (tok: Token)
      requires Valid()
      modifies this
      ensures Valid() && Stream() == old(Stream()) && tok == Head(Stream()) && (tok.Eof? <==> Stream() == [])
    {
      if !peeked {
        ahead := Read();
        peeked := true;
      }
      tok := ahead;
    }

    /** Takes the next token off the stream. */
    method Next() returns (tok: Token)
      requires Valid()
      modifies this
      ensures Valid() && tok == Head(old(Stream())) && Stream() == Tail(old(Stream()))
    {
      if peeked {
        peeked := false;
        tok := ahead;
      } else {
        tok := Read();
      }
    }
  }

  lemma SkipSpace(s: Text)
    requires s != [] && IsSpace(s[0])
    ensures Skip(s) == Skip(s[1..])
  {
  }

  lemma SkipComment(s: Text)
    requires IsComment(s)
    ensures Skip(s) == Skip(DropLine(s[1..]))
  {
    NoSpaceMinus(s);
  }

  lemma SkipNothing(s: Text)
    requires Solid(s)
    ensures Skip(s) == s
  {
  }

  lemma QuoteStops(s: Text)
    ensures QuoteLen(s) < |s| ==> s[QuoteLen(s)] == QUOTE
  {
  }

  /** Unfolds one token. */
  lemma ReadStep(s: Text, t: Text)
    requires t == [] || t == Skip(s)
    requires t == [] ==> Skip(s) == []
    ensures var (tok, n) := ReadToken(t);
      n <= |t| && (tok.Eof? <==> t == []) && Tokens(s) == if tok.Eof? then [] else [tok] + Tokens(t[n..])
  {
    hide ReadToken, Skip;
  }

  /** The value of a literal, digit by digit, with 64-bit wrap-around. */
  method IntOf(text: Text) returns (v: int)
    requires IsIntText(text)
    ensures v == IntValue(text)
  {
    hide Wrap64, Dec;
    var neg := text[0] == MINUS;
    var p := if neg then 1 else 0;
    ghost var d := if neg then text[1..] else text;
    v := 0;
    WrapId(0);
    NoDigits();
    while p < |text|
      invariant (if neg then 1 else 0) <= p <= |text|
      invariant var k := p - if neg then 1 else 0; AllDigits(d[..k]) && v == Wrap64(Dec(d[..k]))
    {
      ghost var k := p - if neg then 1 else 0;
      DecPush(d[..k], d[k]);
      assert d[..k + 1] == d[..k] + [d[k]];
      WrapLinear(Dec(d[..k]), 10, d[k] - DIGIT_0);
      v := Wrap64(v * 10 + (text[p] - DIGIT_0));
      p := p + 1;
    }
    assert d[..|d|] == d;
    if neg {
      WrapLinear(Dec(d), -1, 0);
      v := Wrap64(-v);
    }
  }

  lemma NoDigits()
    ensures Dec([]) == 0
  {
  }

  // ----------------------------------------------------------------- parser

  method ParseName(lex: Lexer) returns (ok: bool, name: Text)
    requires lex.Valid()
    modifies lex
    ensures lex.Valid()
    ensures var p := Name(old(lex.Stream())); (ok <==> p.Good?) && (ok ==> name == p.value && lex.Stream() == p.rest)
  {
    hide Lexer.Stream, Lexer.Valid;
    var tok := lex.Next();
    ok := tok.Ident?;
    name := if ok then ClipName(tok.text) else [];
  }

  method ExpectKeyword(lex: Lexer, word: string) returns (ok: bool)
    requires lex.Valid()
    modifies lex
    ensures lex.Valid()
    ensures var p := Keyword(old(lex.Stream()), word); (ok <==> p.Good?) && (ok ==> lex.Stream() == p.rest)
  {
    hide Lexer.Stream, Lexer.Valid, SameWord, Ascii;
    var tok := lex.Next();
    ok := IsKw(tok, word);
  }

  method ExpectToken(lex: Lexer, t: Token) returns (ok: bool)
    requires lex.Valid()
    modifies lex
    ensures lex.Valid()
    ensures var p := Expect(old(lex.Stream()), t); (ok <==> p.Good?) && (ok ==> lex.Stream() == p.rest)
  {
    hide Lexer.Stream, Lexer.Valid;
    var tok := lex.Next();
    ok := tok == t;
  }

  method ParseValue(lex: Lexer) returns (ok: bool, val: Val)
    requires lex.Valid()
    modifies lex
    ensures lex.Valid()
    ensures var p := Value(old(lex.Stream())); (ok <==> p.Good?) && (ok ==> val == p.value && lex.Stream() == p.rest)
  {
    hide Lexer.Stream, Lexer.Valid;
    var tok := lex.Next();
    match tok {
      case IntLit(v) => return true, IntVal(v);
      case StrLit(s) => return true, StrVal(Clip(s));
      case Null => return true, NullVal;
      case _ => return false, NullVal;
    }
  }

  method ParseOp(lex: Lexer) returns (ok: bool, op: CondOp)
    requires lex.Valid()
    modifies lex
    ensures lex.Valid()
    ensures var p := Operation(old(lex.Stream())); (ok <==> p.Good?) && (ok ==> op == p.value && lex.Stream() == p.rest)
  {
    hide Lexer.Stream, Lexer.Valid;
    var tok := lex.Next();
    match tok {
      case Eq => return true, OpEq;
      case Neq => return true, OpNeq;
      case Lt => return true, OpLt;
      case Lte => return true, OpLte;
      case Gt => return true, OpGt;
      case Gte => return true, OpGte;
      case _ => return false, OpEq;
    }
  }

  method ConsumeSemicolon(lex: Lexer)
    requires lex.Valid()
    modifies lex
    ensures lex.Valid() && lex.Stream() == SkipSemicolon(old(lex.Stream()))
  {
    hide Lexer.Stream, Lexer.Valid;
    var tok := lex.Peek();
    if tok.Semicolon? {
      var _ := lex.Next();
    }
  }

  /** Looks a type up in the table of types. */
  method LookupType(name: Text) returns (ty: Type)
    ensures ty == TypeFrom(name, 0)
  {
    hide Ascii, TypeName;
    var i := 0;
    while i < |AllTypes|
      invariant i <= |AllTypes| && TypeFrom(name, 0) == TypeFrom(name, i)
    {
      if Ascii(TypeName(AllTypes[i])) == name {
        return AllTypes[i];
      }
      i := i + 1;
    }
    ty := Unknown;
  }

  method ParseColumn(lex: Lexer) returns (ok: bool, col: ColDef)
    requires lex.Valid()
    modifies lex
    ensures lex.Valid()
    ensures var p := SqlGrammar.Column(old(lex.Stream())); (ok <==> p.Good?) && (ok ==> col == p.value && lex.Stream() == p.rest)
  {
    hide Lexer.Stream, Lexer.Valid, TypeFrom, Name;
    col := ColDef([], Unknown);
    var name, tyName;
    ok, name := ParseName(lex);
    if !ok {
      return;
    }
    ok, tyName := ParseName(lex);
    if !ok {
      return;
    }
    var ty := LookupType(tyName);
    ok := !ty.Unknown?;
    col := ColDef(name, ty);
  }

  method ParseColumns(lex: Lexer) returns (ok: bool, cols: seq<ColDef>)
    requires lex.Valid()
    modifies lex
    ensures lex.Valid()
    ensures var p := Columns(old(lex.Stream()), []); (ok <==> p.Good?) && (ok ==> cols == p.value && lex.Stream() == p.rest)
  {
    hide Lexer.Stream, Lexer.Valid, SqlGrammar.Column;
    cols := [];
    while true
      invariant lex.Valid() && Columns(old(lex.Stream()), []) == Columns(lex.Stream(), cols)
      decreases |lex.Stream()|
    {
      if |cols| >= MAX_COLS {
        return false, cols;
      }
      var col;
      ok, col := ParseColumn(lex);
      if !ok {
        return;
      }
      var tok := lex.Peek();
      if !tok.Comma? {
        cols := cols + [col];
        return;
      }
      var _ := lex.Next();
      cols := cols + [col];
    }
  }

  method ParseValues(lex: Lexer) returns (ok: bool, vals: seq<Val>)
    requires lex.Valid()
    modifies lex
    ensures lex.Valid()
    ensures var p := Values(old(lex.Stream()), []); (ok <==> p.Good?) && (ok ==> vals == p.value && lex.Stream() == p.rest)
  {
    hide Lexer.Stream, Lexer.Valid;
    vals := [];
    while true
      invariant lex.Valid() && Values(old(lex.Stream()), []) == Values(lex.Stream(), vals)
      decreases |lex.Stream()|
    {
      if |vals| >= MAX_VALS {
        return false, vals;
      }
      var val;
      ok, val := ParseValue(lex);
      if !ok {
        return;
      }
      var tok := lex.Peek();
      if !tok.Comma? {
        vals := vals + [val];
        return;
      }
      var _ := lex.Next();
      vals := vals + [val];
    }
  }

  method ParseCondition(lex: Lexer) returns (ok: bool, cond: Cond)
    requires lex.Valid()
    modifies lex
    ensures lex.Valid()
    ensures var p := Condition(old(lex.Stream())); (ok <==> p.Good?) && (ok ==> cond == p.value && lex.Stream() == p.rest)
  {
    hide Lexer.Stream, Lexer.Valid, Name, Operation, Value;
    cond := Cond([], OpEq, NullVal);
    var col, op, val;
    ok, col := ParseName(lex);
    if !ok {
      return;
    }
    ok, op := ParseOp(lex);
    if !ok {
      return;
    }
    ok, val := ParseValue(lex);
    cond := Cond(col, op, val);
  }

  method ParseConditions(lex: Lexer) returns (ok: bool, conds: seq<Cond>)
    requires lex.Valid()
    modifies lex
    ensures lex.Valid()
    ensures var p := Conditions(old(lex.Stream()), []); (ok <==> p.Good?) && (ok ==> conds == p.value && lex.Stream() == p.rest)
  {
    hide Lexer.Stream, Lexer.Valid, Condition, SameWord, Ascii;
    conds := [];
    while true
      invariant lex.Valid() && Conditions(old(lex.Stream()), []) == Conditions(lex.Stream(), conds)
      decreases |lex.Stream()|
    {
      if |conds| >= MAX_CONDS {
        return false, conds;
      }
      var cond;
      ok, cond := ParseCondition(lex);
      if !ok {
        return;
      }
      var tok := lex.Peek();
      if !IsKw(tok, "AND") {
        conds := conds + [cond];
        return;
      }
      var _ := lex.Next();
      conds := conds + [cond];
    }
  }

  method ParseCreate(lex: Lexer) returns (ok: bool, stmt: Stmt)
    requires lex.Valid()
    modifies lex
    ensures lex.Valid()
    ensures var p := ReadCreate(old(lex.Stream())); (ok <==> p.Good?) && (ok ==> stmt == p.value && lex.Stream() == p.rest)
  {
    hide Lexer.Stream, Lexer.Valid, Columns, SameWord, Ascii, Name, Expect, Keyword, SkipSemicolon;
    stmt := ShowMeta;
    ok := ExpectKeyword(lex, "TABLE");
    if !ok {
      return;
    }
    var table, cols;
    ok, table := ParseName(lex);
    if !ok {
      return;
    }
    ok := ExpectToken(lex, LParen);
    if !ok {
      return;
    }
    ok, cols := ParseColumns(lex);
    if !ok {
      return;
    }
    ok := ExpectToken(lex, RParen);
    if !ok {
      return;
    }
    var btree := ParseStorage(lex);
    ConsumeSemicolon(lex);
    stmt := CreateTable(table, cols, btree);
  }

  method ParseStorage(lex: Lexer) returns (btree: bool)
    requires lex.Valid()
    modifies lex
    ensures lex.Valid() && (btree, lex.Stream()) == Storage(old(lex.Stream()))
  {
    hide Lexer.Stream, Lexer.Valid, SameWord, Ascii;
    btree := false;
    var tok := lex.Peek();
    if tok.Ident? {
      if IsKw(tok, "HEAP") {
        var _ := lex.Next();
      } else if IsKw(tok, "BTREE") {
        var _ := lex.Next();
        btree := true;
      }
    }
  }

  method ParseInsert(lex: Lexer) returns (ok: bool, stmt: Stmt)
    requires lex.Valid()
    modifies lex
    ensures lex.Valid()
    ensures var p := ReadInsert(old(lex.Stream())); (ok <==> p.Good?) && (ok ==> stmt == p.value && lex.Stream() == p.rest)
  {
    hide Lexer.Stream, Lexer.Valid, Values, SameWord, Ascii, Name, Expect, Keyword, SkipSemicolon;
    stmt := ShowMeta;
    ok := ExpectKeyword(lex, "INTO");
    if !ok {
      return;
    }
    var table, vals;
    ok, table := ParseName(lex);
    if !ok {
      return;
    }
    ok := ExpectKeyword(lex, "VALUES");
    if !ok {
      return;
    }
    ok := ExpectToken(lex, LParen);
    if !ok {
      return;
    }
    ok, vals := ParseValues(lex);
    if !ok {
      return;
    }
    ok := ExpectToken(lex, RParen);
    if !ok {
      return;
    }
    ConsumeSemicolon(lex);
    stmt := Insert(table, vals);
  }

  method ParseSelect(lex: Lexer) returns (ok: bool, stmt: Stmt)
    requires lex.Valid()
    modifies lex
    ensures lex.Valid()
    ensures var p := ReadSelect(old(lex.Stream())); (ok <==> p.Good?) && (ok ==> stmt == p.value && lex.Stream() == p.rest)
  {
    hide Lexer.Stream, Lexer.Valid, Conditions, SameWord, Ascii, Name, Expect, Keyword, SkipSemicolon;
    stmt := ShowMeta;
    ok := ExpectToken(lex, Star);
    if !ok {
      return;
    }
    ok := ExpectKeyword(lex, "FROM");
    if !ok {
      return;
    }
    var table, conds;
    ok, table := ParseName(lex);
    if !ok {
      return;
    }
    conds := [];
    var tok := lex.Peek();
    if IsKw(tok, "WHERE") {
      var _ := lex.Next();
      ok, conds := ParseConditions(lex);
      if !ok {
        return;
      }
    }
    ConsumeSemicolon(lex);
    stmt := Select(table, conds);
  }

  method ParseShow(lex: Lexer) returns (ok: bool, stmt: Stmt)
    requires lex.Valid()
    modifies lex
    ensures lex.Valid()
    ensures var p := ReadShow(old(lex.Stream())); (ok <==> p.Good?) && (ok ==> stmt == p.value && lex.Stream() == p.rest)
  {
    hide Lexer.Stream, Lexer.Valid, SameWord, Ascii;
    var tok := lex.Next();
    stmt := ShowMeta;
    if IsKw(tok, "META") {
      stmt := ShowMeta;
    } else if IsKw(tok, "ALLOC") {
      stmt := ShowAlloc;
    } else {
      return false, stmt;
    }
    ConsumeSemicolon(lex);
    ok := true;
  }

  /** Parses the statement in a buffer; on every text it gives what the grammar says. */
  method ParseStatement(buf: seq<byte>) returns (r: Result<Stmt>)
    ensures r == ParseSql(CString(buf))
  {
    hide Lexer.Stream, Lexer.Valid, SameWord, Ascii, Tokens, ReadCreate, ReadInsert, ReadSelect, ReadShow;
    var lex := new Lexer(CString(buf));
    var tok := lex.Next();
    var ok, stmt;
    if IsKw(tok, "CREATE") {
      ok, stmt := ParseCreate(lex);
    } else if IsKw(tok, "INSERT") {
      ok, stmt := ParseInsert(lex);
    } else if IsKw(tok, "SELECT") {
      ok, stmt := ParseSelect(lex);
    } else if IsKw(tok, "SHOW") {
      ok, stmt := ParseShow(lex);
    } else {
      ok, stmt := false, ShowMeta;
    }
    if !ok {
      return Err(EINVAL);
    }
    tok := lex.Peek();
    r := if tok.Eof? then Ok(stmt) else Err(EINVAL);
  }
}
