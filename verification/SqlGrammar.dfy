/** Statements of the SQL subset: how they are read from tokens, and that every way
    of writing one down reads as that one. */
module SqlGrammar {
  import opened Basics
  import opened Bytes
  import opened Numbers
  import opened SqlLexer
  import opened RowCodec
  import Decimals

  const NAME_MAX: nat := 64
  const MAX_COLS: nat := 32
  const MAX_VALS: nat := 32
  const MAX_CONDS: nat := 16

  datatype CondOp = OpEq | OpNeq | OpLt | OpLte | OpGt | OpGte

  datatype Cond = Cond(col: Text, op: CondOp, val: Val)

  datatype ColDef = ColDef(name: Text, ty: Type)

  datatype Stmt =
    | CreateTable(table: Text, cols: seq<ColDef>, btree: bool)
    | Insert(table: Text, vals: seq<Val>)
    | Select(table: Text, conds: seq<Cond>)
    | ShowMeta
    | ShowAlloc

  /** Something read and the tokens after it, or a syntax error. */
  datatype Parse<T> = Good(value: T, rest: seq<Token>) | Fail

  function Head(ts: seq<Token>): Token { if ts == [] then Eof else ts[0] }

  function Tail(ts: seq<Token>): (r: seq<Token>)
    ensures |r| <= |ts| && (ts != [] ==> |r| < |ts|)
  {
    if ts == [] then [] else ts[1..]
  }

  // ----------------------------------------------------------- small parts

  predicate IsKw(t: Token, word: string) { t.Ident? && SameWord(t.text, Ascii(word)) }

  function Keyword(ts: seq<Token>, word: string): Parse<()> {
    if IsKw(Head(ts), word) then Good((), Tail(ts)) else Fail
  }

  function Expect(ts: seq<Token>, t: Token): Parse<()> {
    if Head(ts) == t then Good((), Tail(ts)) else Fail
  }

  function ClipName(s: Text): (r: Text)
    ensures |r| < NAME_MAX
  {
    if |s| < NAME_MAX then s else s[..NAME_MAX - 1]
  }

  function Name(ts: seq<Token>): Parse<Text> {
    if Head(ts).Ident? then Good(ClipName(Head(ts).text), Tail(ts)) else Fail
  }

  function Value(ts: seq<Token>): Parse<Val> {
    match Head(ts)
    case IntLit(v) => Good(IntVal(v), Tail(ts))
    case StrLit(s) => Good(StrVal(Clip(s)), Tail(ts))
    case Null => Good(NullVal, Tail(ts))
    case _ => Fail
  }

  function Operation(ts: seq<Token>): Parse<CondOp> {
    match Head(ts)
    case Eq => Good(OpEq, Tail(ts)) case Neq => Good(OpNeq, Tail(ts))
    case Lt => Good(OpLt, Tail(ts)) case Lte => Good(OpLte, Tail(ts))
    case Gt => Good(OpGt, Tail(ts)) case Gte => Good(OpGte, Tail(ts))
    case _ => Fail
  }

  /** Type names, in lower case only. */
  function TypeName(ty: Type): string {
    match ty
    case Int8 => "int8" case Int16 => "int16" case Int32 => "int32" case Int64 => "int64"
    case Float => "float" case Decimal => "decimal" case Bool => "bool"
    case Varchar => "varchar" case Char => "char" case Unknown => ""
  }

  const AllTypes: seq<Type> := [Int8, Int16, Int32, Int64, Float, Decimal, Bool, Varchar, Char]

  /** The first type of that name, from the `i`-th on. */
  function TypeFrom(name: Text, i: nat): Type
    decreases |AllTypes| - i
  {
    if i >= |AllTypes| then Unknown
    else if Ascii(TypeName(AllTypes[i])) == name then AllTypes[i]
    else TypeFrom(name, i + 1)
  }

  function SkipSemicolon(ts: seq<Token>): (r: seq<Token>)
    ensures |r| <= |ts|
  {
    if Head(ts).Semicolon? then Tail(ts) else ts
  }

  // ------------------------------------------------------------ statements

  function Column(ts: seq<Token>): (r: Parse<ColDef>)
    ensures r.Good? ==> |r.rest| < |ts|
  {
    var n := Name(ts);
    if n.Fail? then Fail
    else
      var t := Name(n.rest);
      if t.Fail? || TypeFrom(t.value, 0).Unknown? then Fail else Good(ColDef(n.value, TypeFrom(t.value, 0)), t.rest)
  }

  function Columns(ts: seq<Token>, cols: seq<ColDef>): Parse<seq<ColDef>>
    decreases |ts|
  {
    if |cols| >= MAX_COLS then Fail
    else
      var c := Column(ts);
      if c.Fail? then Fail
      else if Head(c.rest).Comma? then Columns(Tail(c.rest), cols + [c.value])
      else Good(cols + [c.value], c.rest)
  }

  function Values(ts: seq<Token>, vals: seq<Val>): Parse<seq<Val>>
    decreases |ts|
  {
    if |vals| >= MAX_VALS then Fail
    else
      var v := Value(ts);
      if v.Fail? then Fail
      else if Head(v.rest).Comma? then Values(Tail(v.rest), vals + [v.value])
      else Good(vals + [v.value], v.rest)
  }

  function Condition(ts: seq<Token>): (r: Parse<Cond>)
    ensures r.Good? ==> |r.rest| < |ts|
  {
    var n := Name(ts);
    if n.Fail? then Fail
    else
      var o := Operation(n.rest);
      if o.Fail? then Fail
      else
        var v := Value(o.rest);
        if v.Fail? then Fail else Good(Cond(n.value, o.value, v.value), v.rest)
  }

  function Conditions(ts: seq<Token>, conds: seq<Cond>): Parse<seq<Cond>>
    decreases |ts|
  {
    if |conds| >= MAX_CONDS then Fail
    else
      var c := Condition(ts);
      if c.Fail? then Fail
      else if IsKw(Head(c.rest), "AND") then Conditions(Tail(c.rest), conds + [c.value])
      else Good(conds + [c.value], c.rest)
  }

  /** The storage clause, when there is one. */
  function Storage(ts: seq<Token>): (bool, seq<Token>) {
    if IsKw(Head(ts), "HEAP") then (false, Tail(ts))
    else if IsKw(Head(ts), "BTREE") then (true, Tail(ts))
    else (false, ts)
  }

  function ReadCreate(ts: seq<Token>): Parse<Stmt> {
    var k := Keyword(ts, "TABLE");
    if k.Fail? then Fail
    else
      var n := Name(k.rest);
      if n.Fail? then Fail
      else
        var l := Expect(n.rest, LParen);
        if l.Fail? then Fail else CreateBody(n.value, l.rest)
  }

  function CreateBody(table: Text, ts: seq<Token>): Parse<Stmt> {
    var c := Columns(ts, []);
    if c.Fail? then Fail
    else
      var r := Expect(c.rest, RParen);
      if r.Fail? then Fail
      else
        var (btree, rest) := Storage(r.rest);
        Good(CreateTable(table, c.value, btree), SkipSemicolon(rest))
  }

  function ReadInsert(ts: seq<Token>): Parse<Stmt> {
    var k := Keyword(ts, "INTO");
    if k.Fail? then Fail
    else
      var n := Name(k.rest);
      if n.Fail? then Fail
      else
        var w := Keyword(n.rest, "VALUES");
        if w.Fail? then Fail
        else
          var l := Expect(w.rest, LParen);
          if l.Fail? then Fail else InsertBody(n.value, l.rest)
  }

  function InsertBody(table: Text, ts: seq<Token>): Parse<Stmt> {
    var v := Values(ts, []);
    if v.Fail? then Fail
    else
      var r := Expect(v.rest, RParen);
      if r.Fail? then Fail else Good(Insert(table, v.value), SkipSemicolon(r.rest))
  }

  function ReadSelect(ts: seq<Token>): Parse<Stmt> {
    var s := Expect(ts, Star);
    if s.Fail? then Fail
    else
      var f := Keyword(s.rest, "FROM");
      if f.Fail? then Fail
      else
        var n := Name(f.rest);
        if n.Fail? then Fail else SelectBody(n.value, n.rest)
  }

  function SelectBody(table: Text, ts: seq<Token>): Parse<Stmt> {
    if IsKw(Head(ts), "WHERE") then
      var c := Conditions(Tail(ts), []);
      if c.Fail? then Fail else Good(Select(table, c.value), SkipSemicolon(c.rest))
    else Good(Select(table, []), SkipSemicolon(ts))
  }

  function ReadShow(ts: seq<Token>): Parse<Stmt> {
    if IsKw(Head(ts), "META") then Good(ShowMeta, SkipSemicolon(Tail(ts)))
    else if IsKw(Head(ts), "ALLOC") then Good(ShowAlloc, SkipSemicolon(Tail(ts)))
    else Fail
  }

  function ReadStmt(ts: seq<Token>): Parse<Stmt> {
    if IsKw(Head(ts), "CREATE") then ReadCreate(Tail(ts))
    else if IsKw(Head(ts), "INSERT") then ReadInsert(Tail(ts))
    else if IsKw(Head(ts), "SELECT") then ReadSelect(Tail(ts))
    else if IsKw(Head(ts), "SHOW") then ReadShow(Tail(ts))
    else Fail
  }

  /** A whole text: one statement and nothing after it. */
  function ParseSql(text: Text): Result<Stmt> {
    var p := ReadStmt(Tokens(text));
    if p.Good? && p.rest == [] then Ok(p.value) else Err(EINVAL)
  }

  // ---------------------------------------------------- writing statements

  function K(word: string): Want { Kw(Ascii(word)) }

  function ValToken(v: Val): Token {
    match v
    case IntVal(n) => IntLit(n)
    case StrVal(s) => StrLit(s)
    case NullVal => Null
  }

  function OpToken(op: CondOp): Token {
    match op
    case OpEq => Eq case OpNeq => Neq case OpLt => Lt case OpLte => Lte case OpGt => Gt case OpGte => Gte
  }

  function ColWants(c: ColDef): seq<Want> { [Tok(Ident(c.name)), Tok(Ident(Ascii(TypeName(c.ty))))] }

  function ValWants(v: Val): seq<Want> { [Tok(ValToken(v))] }

  function CondWants(c: Cond): seq<Want> { [Tok(Ident(c.col)), Tok(OpToken(c.op)), Tok(ValToken(c.val))] }

  /** Things one after the other, with a separator between them. */
  function ColsWants(cols: seq<ColDef>): seq<Want>
    requires cols != []
  {
    if |cols| == 1 then ColWants(cols[0]) else ColWants(cols[0]) + [Tok(Comma)] + ColsWants(cols[1..])
  }

  function ValsWants(vals: seq<Val>): seq<Want>
    requires vals != []
  {
    if |vals| == 1 then ValWants(vals[0]) else ValWants(vals[0]) + [Tok(Comma)] + ValsWants(vals[1..])
  }

  function CondsWants(conds: seq<Cond>): seq<Want>
    requires conds != []
  {
    if |conds| == 1 then CondWants(conds[0]) else CondWants(conds[0]) + [K("AND")] + CondsWants(conds[1..])
  }

  predicate NameOk(s: Text) { |s| < NAME_MAX && IsName(s) }

  predicate ValOk(v: Val) {
    match v
    case IntVal(n) => IsS64(n)
    case StrVal(s) => |s| < SqlLexer.VAL_MAX && NoQuote(s)
    case NullVal => true
  }

  predicate ColOk(c: ColDef) { NameOk(c.name) && !c.ty.Unknown? }

  predicate CondOk(c: Cond) { NameOk(c.col) && ValOk(c.val) }

  /** Statements within the declared limits. */
  predicate StmtOk(s: Stmt) {
    match s
    case CreateTable(t, cols, _) => NameOk(t) && 0 < |cols| <= MAX_COLS && forall i | 0 <= i < |cols| :: ColOk(cols[i])
    case Insert(t, vals) => NameOk(t) && 0 < |vals| <= MAX_VALS && forall i | 0 <= i < |vals| :: ValOk(vals[i])
    case Select(t, conds) => NameOk(t) && |conds| <= MAX_CONDS && forall i | 0 <= i < |conds| :: CondOk(conds[i])
    case _ => true
  }

  /** The tokens of a statement. The default storage may be named or not, and the
      semicolon may be there or not. */
  function Wants(s: Stmt, named: bool, semi: bool): seq<Want>
    requires StmtOk(s)
  {
    WantsOf(s, named, semi)
  }

  /** There is something in every list that needs it. */
  predicate Listed(s: Stmt) { (s.CreateTable? ==> s.cols != []) && (s.Insert? ==> s.vals != []) }

  function WantsOf(s: Stmt, named: bool, semi: bool): seq<Want>
    requires Listed(s)
  {
    (match s
     case CreateTable(t, cols, btree) =>
       [K("CREATE"), K("TABLE"), Tok(Ident(t)), Tok(LParen)] + ColsWants(cols) + [Tok(RParen)]
       + (if btree then [K("BTREE")] else if named then [K("HEAP")] else [])
     case Insert(t, vals) =>
       [K("INSERT"), K("INTO"), Tok(Ident(t)), K("VALUES"), Tok(LParen)] + ValsWants(vals) + [Tok(RParen)]
     case Select(t, conds) =>
       [K("SELECT"), Tok(Star), K("FROM"), Tok(Ident(t))] + (if conds == [] then [] else [K("WHERE")] + CondsWants(conds))
     case ShowMeta => [K("SHOW"), K("META")]
     case ShowAlloc => [K("SHOW"), K("ALLOC")])
    + if semi then [Tok(Semicolon)] else []
  }

  /** The tokens `ts` are what the list of wants asks for. */
  predicate Matches(ts: seq<Token>, ws: seq<Want>) {
    |ts| == |ws| && forall i | 0 <= i < |ws| :: Meets(ts[i], ws[i])
  }

  // ------------------------------------------------- reading what was written

  lemma At(ts: seq<Token>, k: nat)
    requires k < |ts|
    ensures Head(ts[k..]) == ts[k] && Tail(ts[k..]) == ts[k + 1..]
  {
  }

  lemma Ahead(ts: seq<Token>, rest: seq<Token>)
    requires ts != []
    ensures Head(ts + rest) == ts[0] && Tail(ts + rest) == ts[1..] + rest
  {
  }

  lemma MatchSplit(ts: seq<Token>, a: seq<Want>, b: seq<Want>)
    requires Matches(ts, a + b)
    ensures |ts| == |a| + |b| && ts == ts[..|a|] + ts[|a|..] && Matches(ts[..|a|], a) && Matches(ts[|a|..], b)
  {
    hide Meets;
    forall i | 0 <= i < |b|
      ensures Meets(ts[|a|..][i], b[i])
    {
      assert Meets(ts[|a| + i], (a + b)[|a| + i]);
    }
    forall i | 0 <= i < |a|
      ensures Meets(ts[..|a|][i], a[i])
    {
      assert Meets(ts[i], (a + b)[i]);
    }
  }

  lemma NamesDiffer(a: Type, b: Type)
    requires a != b && !a.Unknown? && !b.Unknown?
    ensures Ascii(TypeName(a)) != Ascii(TypeName(b))
  {
    var x, y := Ascii(TypeName(a)), Ascii(TypeName(b));
    assert |x| != |y| || x[0] != y[0] || x[3] != y[3];
  }

  lemma {:induction false} TypeFound(ty: Type, i: nat)
    requires exists j | i <= j < |AllTypes| :: AllTypes[j] == ty
    ensures TypeFrom(Ascii(TypeName(ty)), i) == ty
    decreases |AllTypes| - i
  {
    hide Ascii, TypeName;
    if AllTypes[i] != ty {
      NamesDiffer(AllTypes[i], ty);
      TypeFound(ty, i + 1);
    }
  }

  /** Exactly the nine lower-case names are types. */
  lemma {:induction false} TypeIffNamed(name: Text, i: nat)
    ensures !TypeFrom(name, i).Unknown? <==> exists j | i <= j < |AllTypes| :: name == Ascii(TypeName(AllTypes[j]))
    decreases |AllTypes| - i
  {
    hide Ascii, TypeName;
    if i < |AllTypes| {
      TypeIffNamed(name, i + 1);
      assert AllTypes[i] != Unknown;
    }
  }

  /** No name with an upper-case letter at its start is a type. */
  lemma UpperCaseUnknown(name: Text)
    requires name != [] && 65 <= name[0] <= 90
    ensures TypeFrom(name, 0).Unknown?
  {
    TypeIffNamed(name, 0);
    forall j | 0 <= j < |AllTypes|
      ensures name != Ascii(TypeName(AllTypes[j]))
    {
      LowerFirst(AllTypes[j]);
    }
  }

  lemma LowerFirst(ty: Type)
    requires !ty.Unknown?
    ensures |TypeName(ty)| > 0 && Ascii(TypeName(ty))[0] >= 97
  {
  }

  lemma TypeKnown(ty: Type)
    requires !ty.Unknown?
    ensures TypeFrom(Ascii(TypeName(ty)), 0) == ty && |TypeName(ty)| < NAME_MAX
  {
    var j := match ty case Int8 => 0 case Int16 => 1 case Int32 => 2 case Int64 => 3 case Float => 4 case Decimal => 5
      case Bool => 6 case Varchar => 7 case Char => 8;
    assert AllTypes[j] == ty;
    TypeFound(ty, 0);
  }

  lemma ColumnRead(ts: seq<Token>, c: ColDef, rest: seq<Token>)
    requires Matches(ts, ColWants(c)) && ColOk(c)
    ensures Column(ts + rest) == Good(c, rest)
  {
    hide TypeFrom, Ascii, TypeName, IsName;
    TypeKnown(c.ty);
    Ahead(ts, rest);
    Ahead(ts[1..], rest);
    assert Meets(ts[0], ColWants(c)[0]) && Meets(ts[1], ColWants(c)[1]);
    assert ts[1..][1..] + rest == rest;
  }

  lemma {:induction false} ColumnsRead(ts: seq<Token>, cols: seq<ColDef>, acc: seq<ColDef>, rest: seq<Token>)
    requires cols != [] && |acc| + |cols| <= MAX_COLS && Matches(ts, ColsWants(cols)) && !Head(rest).Comma?
    requires forall i | 0 <= i < |cols| :: ColOk(cols[i])
    ensures Columns(ts + rest, acc) == Good(acc + cols, rest)
    decreases |cols|
  {
    hide Column, ColOk, ColWants, Matches;
    if |cols| == 1 {
      ColumnRead(ts, cols[0], rest);
      assert acc + cols == acc + [cols[0]];
    } else {
      var a, b := ColWants(cols[0]), ColsWants(cols[1..]);
      assert ColsWants(cols) == a + ([Tok(Comma)] + b);
      MatchSplit(ts, a, [Tok(Comma)] + b);
      var t0, t1 := ts[..|a|], ts[|a|..];
      MatchSplit(t1, [Tok(Comma)], b);
      OneToken(t1[..1], Comma);
      ColumnRead(t0, cols[0], t1 + rest);
      assert ts + rest == t0 + (t1 + rest);
      Ahead(t1, rest);
      ColumnsRead(t1[1..], cols[1..], acc + [cols[0]], rest);
      assert acc + [cols[0]] + cols[1..] == acc + cols;
    }
  }

  lemma OneToken(ts: seq<Token>, t: Token)
    requires Matches(ts, [Tok(t)])
    ensures |ts| == 1 && ts[0] == t
  {
    assert Meets(ts[0], [Tok(t)][0]);
  }

  lemma OneKw(ts: seq<Token>, word: string)
    requires Matches(ts, [K(word)])
    ensures |ts| == 1 && IsKw(ts[0], word)
  {
    hide SameWord, Ascii;
    assert Meets(ts[0], [K(word)][0]);
  }

  lemma ValueRead(t: Token, v: Val, rest: seq<Token>)
    requires t == ValToken(v) && ValOk(v)
    ensures Value([t] + rest) == Good(v, rest)
  {
    Ahead([t], rest);
    assert [t][1..] + rest == rest;
  }

  lemma ValueMatch(ts: seq<Token>, v: Val, rest: seq<Token>)
    requires Matches(ts, ValWants(v)) && ValOk(v)
    ensures Value(ts + rest) == Good(v, rest)
  {
    hide ValOk, Value, ValToken;
    OneToken(ts, ValToken(v));
    assert ts == [ts[0]];
    ValueRead(ts[0], v, rest);
  }

  lemma {:induction false} ValuesRead(ts: seq<Token>, vals: seq<Val>, acc: seq<Val>, rest: seq<Token>)
    requires vals != [] && |acc| + |vals| <= MAX_VALS && Matches(ts, ValsWants(vals)) && !Head(rest).Comma?
    requires forall i | 0 <= i < |vals| :: ValOk(vals[i])
    ensures Values(ts + rest, acc) == Good(acc + vals, rest)
    decreases |vals|
  {
    hide Value, ValOk, ValWants, Matches;
    if |vals| == 1 {
      ValueMatch(ts, vals[0], rest);
      assert acc + vals == acc + [vals[0]];
    } else {
      var a, b := ValWants(vals[0]), ValsWants(vals[1..]);
      assert ValsWants(vals) == a + ([Tok(Comma)] + b);
      MatchSplit(ts, a, [Tok(Comma)] + b);
      var t0, t1 := ts[..|a|], ts[|a|..];
      MatchSplit(t1, [Tok(Comma)], b);
      OneToken(t1[..1], Comma);
      ValueMatch(t0, vals[0], t1 + rest);
      assert ts + rest == t0 + (t1 + rest);
      Ahead(t1, rest);
      ValuesRead(t1[1..], vals[1..], acc + [vals[0]], rest);
      assert acc + [vals[0]] + vals[1..] == acc + vals;
    }
  }

  lemma ConditionRead(ts: seq<Token>, c: Cond, rest: seq<Token>)
    requires Matches(ts, CondWants(c)) && CondOk(c)
    ensures Condition(ts + rest) == Good(c, rest)
  {
    hide IsName, ValOk, Value, ValToken;
    assert Meets(ts[0], CondWants(c)[0]) && Meets(ts[1], CondWants(c)[1]) && Meets(ts[2], CondWants(c)[2]);
    Ahead(ts, rest);
    Ahead(ts[1..], rest);
    ValueRead(ts[2], c.val, rest);
    assert ts[1..][1..] + rest == [ts[2]] + rest;
  }

  lemma {:induction false} ConditionsRead(ts: seq<Token>, conds: seq<Cond>, acc: seq<Cond>, rest: seq<Token>)
    requires conds != [] && |acc| + |conds| <= MAX_CONDS && Matches(ts, CondsWants(conds)) && !Head(rest).Ident?
    requires forall i | 0 <= i < |conds| :: CondOk(conds[i])
    ensures Conditions(ts + rest, acc) == Good(acc + conds, rest)
    decreases |conds|
  {
    hide Condition, CondOk, CondWants, Matches, SameWord, Ascii;
    if |conds| == 1 {
      ConditionRead(ts, conds[0], rest);
      assert acc + conds == acc + [conds[0]];
    } else {
      var a, b := CondWants(conds[0]), CondsWants(conds[1..]);
      assert CondsWants(conds) == a + ([K("AND")] + b);
      MatchSplit(ts, a, [K("AND")] + b);
      var t0, t1 := ts[..|a|], ts[|a|..];
      MatchSplit(t1, [K("AND")], b);
      OneKw(t1[..1], "AND");
      ConditionRead(t0, conds[0], t1 + rest);
      assert ts + rest == t0 + (t1 + rest);
      Ahead(t1, rest);
      ConditionsRead(t1[1..], conds[1..], acc + [conds[0]], rest);
      assert acc + [conds[0]] + conds[1..] == acc + conds;
    }
  }

  /** The first words of statements are different words. */
  lemma FirstWords(t: Token)
    ensures IsKw(t, "INSERT") ==> !IsKw(t, "CREATE")
    ensures IsKw(t, "SELECT") ==> !IsKw(t, "CREATE") && !IsKw(t, "INSERT")
    ensures IsKw(t, "SHOW") ==> !IsKw(t, "CREATE") && !IsKw(t, "INSERT") && !IsKw(t, "SELECT")
    ensures IsKw(t, "BTREE") ==> !IsKw(t, "HEAP")
    ensures IsKw(t, "ALLOC") ==> !IsKw(t, "META")
  {
    if IsKw(t, "INSERT") {
      assert Lower(t.text[0]) == Lower(Ascii("INSERT")[0]) != Lower(Ascii("CREATE")[0]);
    }
    if IsKw(t, "SELECT") {
      assert Lower(t.text[0]) == Lower(Ascii("SELECT")[0]);
      assert Lower(Ascii("SELECT")[0]) != Lower(Ascii("CREATE")[0]) && Lower(Ascii("SELECT")[0]) != Lower(Ascii("INSERT")[0]);
    }
  }

  /** What ends a statement: nothing, or a semicolon. */
  predicate IsTail(ts: seq<Token>) { ts == [] || ts == [Semicolon] }

  lemma TailRead(ts: seq<Token>)
    requires IsTail(ts)
    ensures SkipSemicolon(ts) == [] && !Head(ts).Ident? && !Head(ts).Comma?
  {
  }

  lemma TailMatch(ts: seq<Token>, semi: bool)
    requires Matches(ts, if semi then [Tok(Semicolon)] else [])
    ensures IsTail(ts)
  {
    if semi {
      OneToken(ts, Semicolon);
      assert ts == [ts[0]];
    }
  }

  /** Fixed words at the start of a statement. */
  lemma Front(ts: seq<Token>, a: seq<Want>, b: seq<Want>, i: nat)
    requires Matches(ts, a + b) && i < |a|
    ensures i < |ts| && Meets(ts[i], a[i]) && Head(ts[i..]) == ts[i] && Tail(ts[i..]) == ts[i + 1..]
  {
    hide Meets;
    assert Meets(ts[i], (a + b)[i]);
    At(ts, i);
  }

  function InsertFront(table: Text): seq<Want> { [K("INSERT"), K("INTO"), Tok(Ident(table)), K("VALUES"), Tok(LParen)] }

  lemma InsertFrontRead(table: Text, ts: seq<Token>, back: seq<Want>)
    requires NameOk(table) && Matches(ts, InsertFront(table) + back)
    ensures |ts| >= 5 && Matches(ts[5..], back) && ReadStmt(ts) == InsertBody(table, ts[5..])
  {
    hide SameWord, Ascii, IsName, InsertBody, ReadCreate, ReadSelect, ReadShow, Matches;
    var front := InsertFront(table);
    Front(ts, front, back, 0);
    Front(ts, front, back, 1);
    Front(ts, front, back, 2);
    Front(ts, front, back, 3);
    Front(ts, front, back, 4);
    MatchSplit(ts, front, back);
    assert ts[0..] == ts;
    FirstWords(ts[0]);
  }

  lemma InsertRead(s: Stmt, ts: seq<Token>, semi: bool)
    requires s.Insert? && StmtOk(s) && Matches(ts, Wants(s, false, semi))
    ensures ReadStmt(ts) == Good(s, [])
  {
    hide SameWord, Ascii, IsName, Values, ValsWants, ValOk, ReadStmt, SkipSemicolon, K, Matches, Expect;
    var end := if semi then [Tok(Semicolon)] else [];
    var back := ValsWants(s.vals) + ([Tok(RParen)] + end);
    assert Wants(s, false, semi) == InsertFront(s.table) + back;
    InsertFrontRead(s.table, ts, back);
    hide Wants, InsertFront;
    var t, n := ts[5..], |ValsWants(s.vals)|;
    MatchSplit(t, ValsWants(s.vals), [Tok(RParen)] + end);
    ListEnd(t[n..], end, semi);
    ValuesRead(t[..n], s.vals, [], t[n..]);
    assert [] + s.vals == s.vals;
  }

  lemma ListEnd(ts: seq<Token>, end: seq<Want>, semi: bool)
    requires Matches(ts, [Tok(RParen)] + end) && end == if semi then [Tok(Semicolon)] else []
    ensures Expect(ts, RParen) == Good((), ts[1..]) && IsTail(ts[1..]) && SkipSemicolon(ts[1..]) == []
    ensures !Head(ts).Comma?
  {
    MatchSplit(ts, [Tok(RParen)], end);
    OneToken(ts[..1], RParen);
    TailMatch(ts[1..], semi);
  }

  function SelectFront(table: Text): seq<Want> { [K("SELECT"), Tok(Star), K("FROM"), Tok(Ident(table))] }

  lemma SelectFrontRead(table: Text, ts: seq<Token>, back: seq<Want>)
    requires NameOk(table) && Matches(ts, SelectFront(table) + back)
    ensures |ts| >= 4 && Matches(ts[4..], back) && ReadStmt(ts) == SelectBody(table, ts[4..])
  {
    hide SameWord, Ascii, IsName, SelectBody, ReadCreate, ReadInsert, ReadShow, Matches;
    var front := SelectFront(table);
    Front(ts, front, back, 0);
    Front(ts, front, back, 1);
    Front(ts, front, back, 2);
    Front(ts, front, back, 3);
    MatchSplit(ts, front, back);
    assert ts[0..] == ts;
    FirstWords(ts[0]);
  }

  lemma SelectRead(s: Stmt, ts: seq<Token>, semi: bool)
    requires s.Select? && StmtOk(s) && Matches(ts, Wants(s, false, semi))
    ensures ReadStmt(ts) == Good(s, [])
  {
    hide SameWord, Ascii, IsName, Conditions, CondsWants, CondOk, ReadStmt, SkipSemicolon, K, Matches;
    var end := if semi then [Tok(Semicolon)] else [];
    var back := (if s.conds == [] then [] else [K("WHERE")] + CondsWants(s.conds)) + end;
    assert Wants(s, false, semi) == SelectFront(s.table) + back;
    SelectFrontRead(s.table, ts, back);
    hide Wants, SelectFront;
    if s.conds == [] {
      assert back == end;
      TailMatch(ts[4..], semi);
      TailRead(ts[4..]);
    } else {
      assert back == [K("WHERE")] + (CondsWants(s.conds) + end);
      WhereRead(s, ts[4..], end, semi);
    }
  }

  lemma WhereRead(s: Stmt, t: seq<Token>, end: seq<Want>, semi: bool)
    requires s.Select? && StmtOk(s) && s.conds != [] && end == if semi then [Tok(Semicolon)] else []
    requires Matches(t, [K("WHERE")] + (CondsWants(s.conds) + end))
    ensures SelectBody(s.table, t) == Good(s, [])
  {
    hide SameWord, Ascii, IsName, Conditions, CondsWants, CondOk, SkipSemicolon, K, Matches;
    MatchSplit(t, [K("WHERE")], CondsWants(s.conds) + end);
    OneKw(t[..1], "WHERE");
    At(t, 0);
    assert t[0..] == t;
    var n := |CondsWants(s.conds)|;
    MatchSplit(t[1..], CondsWants(s.conds), end);
    TailMatch(t[1..][n..], semi);
    TailRead(t[1..][n..]);
    ConditionsRead(t[1..][..n], s.conds, [], t[1..][n..]);
    assert [] + s.conds == s.conds;
  }

  function CreateFront(table: Text): seq<Want> { [K("CREATE"), K("TABLE"), Tok(Ident(table)), Tok(LParen)] }

  lemma CreateFrontRead(table: Text, ts: seq<Token>, back: seq<Want>)
    requires NameOk(table) && Matches(ts, CreateFront(table) + back)
    ensures |ts| >= 4 && Matches(ts[4..], back) && ReadStmt(ts) == CreateBody(table, ts[4..])
  {
    hide SameWord, Ascii, IsName, CreateBody, ReadInsert, ReadSelect, ReadShow, Matches;
    var front := CreateFront(table);
    Front(ts, front, back, 0);
    Front(ts, front, back, 1);
    Front(ts, front, back, 2);
    Front(ts, front, back, 3);
    MatchSplit(ts, front, back);
    assert ts[0..] == ts;
  }

  lemma CreateRead(s: Stmt, ts: seq<Token>, named: bool, semi: bool)
    requires s.CreateTable? && StmtOk(s) && Matches(ts, Wants(s, named, semi))
    ensures ReadStmt(ts) == Good(s, [])
  {
    hide StmtOk, Wants, CreateFront, ReadStmt, CreateBody, Matches, NameOk;
    CreateParts(s, named, semi);
    CreateFrontRead(s.table, ts, CreateBack(s.cols, s.btree, named, semi));
    CreateBodyRead(s.table, s.cols, s.btree, ts[4..], named, semi);
  }

  function CreateBack(cols: seq<ColDef>, btree: bool, named: bool, semi: bool): seq<Want>
    requires cols != []
  {
    ColsWants(cols) + ([Tok(RParen)] + (StorageWants(btree, named) + if semi then [Tok(Semicolon)] else []))
  }

  lemma CreateParts(s: Stmt, named: bool, semi: bool)
    requires s.CreateTable? && StmtOk(s)
    ensures NameOk(s.table) && 0 < |s.cols| <= MAX_COLS && forall i | 0 <= i < |s.cols| :: ColOk(s.cols[i])
    ensures Wants(s, named, semi) == CreateFront(s.table) + CreateBack(s.cols, s.btree, named, semi)
  {
    hide NameOk, ColOk, ColsWants, K;
  }

  lemma CreateBodyRead(table: Text, cols: seq<ColDef>, btree: bool, t: seq<Token>, named: bool, semi: bool)
    requires 0 < |cols| <= MAX_COLS && forall i | 0 <= i < |cols| :: ColOk(cols[i])
    requires Matches(t, CreateBack(cols, btree, named, semi))
    ensures CreateBody(table, t) == Good(CreateTable(table, cols, btree), [])
  {
    hide Columns, ColsWants, ColOk, SkipSemicolon, Storage, Matches, StorageWants;
    var end, n := StorageWants(btree, named) + (if semi then [Tok(Semicolon)] else []), |ColsWants(cols)|;
    MatchSplit(t, ColsWants(cols), [Tok(RParen)] + end);
    MatchSplit(t[n..], [Tok(RParen)], end);
    OneToken(t[n..][..1], RParen);
    At(t[n..], 0);
    assert t[n..][0..] == t[n..];
    ColumnsRead(t[..n], cols, [], t[n..]);
    StorageRead(t[n..][1..], btree, named, semi);
    assert [] + cols == cols;
  }

  function StorageWants(btree: bool, named: bool): seq<Want> {
    if btree then [K("BTREE")] else if named then [K("HEAP")] else []
  }

  lemma StorageRead(ts: seq<Token>, btree: bool, named: bool, semi: bool)
    requires Matches(ts, StorageWants(btree, named) + if semi then [Tok(Semicolon)] else [])
    ensures Storage(ts).0 == btree && SkipSemicolon(Storage(ts).1) == []
  {
    hide SameWord, Ascii;
    var a, b := StorageWants(btree, named), if semi then [Tok(Semicolon)] else [];
    MatchSplit(ts, a, b);
    TailMatch(ts[|a|..], semi);
    TailRead(ts[|a|..]);
    if a == [] {
      assert ts[0..] == ts;
    } else {
      OneKw(ts[..1], if btree then "BTREE" else "HEAP");
      FirstWords(ts[0]);
      At(ts, 0);
      assert ts[0..] == ts;
    }
  }

  lemma ShowRead(s: Stmt, ts: seq<Token>, semi: bool)
    requires (s.ShowMeta? || s.ShowAlloc?) && Matches(ts, Wants(s, false, semi))
    ensures ReadStmt(ts) == Good(s, [])
  {
    hide SameWord, Ascii, ReadSelect, ReadInsert, ReadCreate;
    var end := if semi then [Tok(Semicolon)] else [];
    var front := [K("SHOW"), K(if s.ShowMeta? then "META" else "ALLOC")];
    assert Wants(s, false, semi) == front + end;
    Front(ts, front, end, 0);
    Front(ts, front, end, 1);
    MatchSplit(ts, front, end);
    TailMatch(ts[2..], semi);
    TailRead(ts[2..]);
    FirstWords(ts[0]);
    FirstWords(ts[1]);
    assert ts[0..] == ts;
  }

  /** Tokens that say a statement are read as that statement. */
  lemma StmtRead(s: Stmt, ts: seq<Token>, named: bool, semi: bool)
    requires StmtOk(s) && Matches(ts, Wants(s, named, semi))
    ensures ReadStmt(ts) == Good(s, [])
  {
    hide ReadStmt, Matches, StmtOk;
    match s {
      case CreateTable(_, _, _) => CreateRead(s, ts, named, semi);
      case Insert(_, _) => InsertRead(s, ts, semi);
      case Select(_, _) => SelectRead(s, ts, semi);
      case ShowMeta => ShowRead(s, ts, semi);
      case ShowAlloc => ShowRead(s, ts, semi);
    }
  }

  /** The pieces of a text are what the statement asks for, in order. */
  predicate Writes(ps: seq<Piece>, s: Stmt, named: bool, semi: bool)
    requires StmtOk(s)
  {
    |ps| == |Wants(s, named, semi)| && forall i | 0 <= i < |ps| :: ps[i].want == Wants(s, named, semi)[i]
  }

  /** Round trip: however a statement is written, with any spacing, comments and case
      of keywords, it parses to itself, in a buffer with anything behind its terminator. */
  lemma ParseRoundTrip(s: Stmt, ps: seq<Piece>, end: Text, named: bool, semi: bool, junk: seq<byte>)
    requires StmtOk(s) && Writes(ps, s, named, semi) && RenderOk(ps, end)
    ensures ParseSql(Render(ps, end)) == Ok(s) && CString(Render(ps, end) + [0] + junk) == Render(ps, end)
  {
    hide StmtOk, Tokens, ReadStmt, Meets, RenderOk, Wants, CString;
    RenderNoZero(ps, end);
    CStringOf(Render(ps, end), junk);
    TokensOfRendering(ps, end);
    var ts := Tokens(Render(ps, end));
    assert Matches(ts, Wants(s, named, semi));
    StmtRead(s, ts, named, semi);
  }

  // ------------------------------------------------------ a plain rendering

  predicate WantOk(w: Want) {
    match w
    case Kw(k) => IsName(k)
    case Tok(Ident(n)) => IsName(n)
    case Tok(IntLit(v)) => IsS64(v)
    case Tok(StrLit(t)) => |t| < SqlLexer.VAL_MAX && NoQuote(t)
    case Tok(Null) => true
    case Tok(t) => Spelling(t) != []
  }

  predicate AllOk(ws: seq<Want>) { forall i | 0 <= i < |ws| :: WantOk(ws[i]) }

  function PlainWord(w: Want): Text {
    match w
    case Kw(k) => k
    case Tok(Ident(n)) => n
    case Tok(IntLit(v)) => Format(v)
    case Tok(StrLit(t)) => [QUOTE] + t + [QUOTE]
    case Tok(Null) => Ascii("NULL")
    case Tok(t) => Spelling(t)
  }

  /** One space before each word. */
  function Plain(ws: seq<Want>): (ps: seq<Piece>)
    ensures |ps| == |ws| && forall i | 0 <= i < |ws| :: ps[i].want == ws[i]
  {
    if ws == [] then [] else [Piece([32], PlainWord(ws[0]), ws[0])] + Plain(ws[1..])
  }

  lemma PlainSpells(w: Want)
    requires WantOk(w)
    ensures Spells(PlainWord(w), w)
  {
    match w {
      case Kw(_) =>
      case Tok(t) =>
        match t {
          case IntLit(v) => IntSpelling(v);
          case Null =>
          case _ =>
        }
    }
  }

  /** The plain text of an integer, the least one included, is a literal for it. */
  lemma IntSpelling(v: int)
    requires IsS64(v)
    ensures IsIntSpelling(Format(v)) && IntValue(Format(v)) == v
  {
    var n: nat := if v < 0 then -v else v;
    Pow10Bound();
    Decimals.DigitsLength(n, 19);
    hide Digits, Pow10;
    DecOfDigits(n);
    Decimals.WrapId(v);
    var d := Digits(n);
    assert IsDigit(d[0]);
    if v < 0 {
      assert Format(v)[1..] == d;
    }
  }

  lemma Pow10Bound()
    ensures 0x8000_0000_0000_0000 < Pow10(19)
  {
    assert Pow10(4) == 10000;
    Decimals.Pow10Sum(4, 4);
    Decimals.Pow10Sum(8, 8);
    Decimals.Pow10Sum(16, 3);
    assert Pow10(3) == 1000;
  }

  lemma {:induction false} PlainOk(ws: seq<Want>)
    requires AllOk(ws)
    ensures RenderOk(Plain(ws), [])
    decreases |ws|
  {
    hide WantOk, Spells, PlainWord;
    if ws != [] {
      PlainSpells(ws[0]);
      assert forall i | 0 <= i < |ws| - 1 :: ws[1..][i] == ws[i + 1];
      PlainOk(ws[1..]);
      var ps := Plain(ws);
      assert ps[1..] == Plain(ws[1..]) && ps[0].gap == [32];
      assert [32][1..] == [];
      if |ws| > 1 {
        assert Render(ps[1..], [])[0] == 32;
      }
      assert Ends(ws[0], Render(ps[1..], []));
    }
  }

  lemma {:induction false} ColsOk(cols: seq<ColDef>)
    requires cols != [] && forall i | 0 <= i < |cols| :: ColOk(cols[i])
    ensures AllOk(ColsWants(cols))
    decreases |cols|
  {
    hide IsName, Ascii, TypeName;
    TypeNamed(cols[0].ty);
    if |cols| > 1 {
      ColsOk(cols[1..]);
    }
  }

  lemma TypeNamed(ty: Type)
    requires !ty.Unknown?
    ensures IsName(Ascii(TypeName(ty)))
  {
    var s := Ascii(TypeName(ty));
    assert Lower(s[0]) != Lower(Ascii("NULL")[0]);
  }

  lemma {:induction false} ValsOk(vals: seq<Val>)
    requires vals != [] && forall i | 0 <= i < |vals| :: ValOk(vals[i])
    ensures AllOk(ValsWants(vals))
    decreases |vals|
  {
    if |vals| > 1 {
      ValsOk(vals[1..]);
    }
  }

  lemma {:induction false} CondsOk(conds: seq<Cond>)
    requires conds != [] && forall i | 0 <= i < |conds| :: CondOk(conds[i])
    ensures AllOk(CondsWants(conds))
    decreases |conds|
  {
    hide IsName, Ascii;
    WordsNamed();
    if |conds| > 1 {
      CondsOk(conds[1..]);
    }
  }

  lemma WordsNamed()
    ensures IsName(Ascii("CREATE")) && IsName(Ascii("TABLE")) && IsName(Ascii("BTREE")) && IsName(Ascii("HEAP"))
    ensures IsName(Ascii("INSERT")) && IsName(Ascii("INTO")) && IsName(Ascii("VALUES"))
    ensures IsName(Ascii("SELECT")) && IsName(Ascii("FROM")) && IsName(Ascii("WHERE")) && IsName(Ascii("AND"))
    ensures IsName(Ascii("SHOW")) && IsName(Ascii("META")) && IsName(Ascii("ALLOC"))
  {
    hide IsName, Ascii;
    WordNamed("CREATE");
    WordNamed("TABLE");
    WordNamed("BTREE");
    WordNamed("HEAP");
    WordNamed("INSERT");
    WordNamed("INTO");
    WordNamed("VALUES");
    WordNamed("SELECT");
    WordNamed("FROM");
    WordNamed("WHERE");
    WordNamed("AND");
    WordNamed("SHOW");
    WordNamed("META");
    WordNamed("ALLOC");
  }

  /** Upper-case words that do not start like NULL are names. */
  lemma WordNamed(w: string)
    requires 0 < |w| < 10 && w[0] != 'N' && forall i | 0 <= i < |w| :: 'A' <= w[i] <= 'Z'
    ensures IsName(Ascii(w))
  {
    var s := Ascii(w);
    assert forall i | 0 <= i < |w| :: s[i] == w[i] as int;
    assert Lower(s[0]) != Lower(Ascii("NULL")[0]);
  }

  lemma CreateWantsOk(s: Stmt, named: bool, semi: bool)
    requires StmtOk(s) && s.CreateTable?
    ensures AllOk(Wants(s, named, semi))
  {
    hide IsName, Ascii, ColOk, ColsWants;
    WordsNamed();
    ColsOk(s.cols);
  }

  lemma InsertWantsOk(s: Stmt, semi: bool)
    requires StmtOk(s) && s.Insert?
    ensures AllOk(Wants(s, false, semi))
  {
    hide IsName, Ascii, ValOk, ValsWants;
    WordsNamed();
    ValsOk(s.vals);
  }

  lemma SelectWantsOk(s: Stmt, semi: bool)
    requires StmtOk(s) && s.Select?
    ensures AllOk(Wants(s, false, semi))
  {
    hide IsName, Ascii, CondOk, CondsWants;
    WordsNamed();
    if s.conds != [] {
      CondsOk(s.conds);
    }
  }

  lemma ShowWantsOk(s: Stmt, semi: bool)
    requires s.ShowMeta? || s.ShowAlloc?
    ensures AllOk(Wants(s, false, semi))
  {
    hide IsName, Ascii;
    WordsNamed();
  }

  lemma WantsOk(s: Stmt, named: bool, semi: bool)
    requires StmtOk(s)
    ensures AllOk(Wants(s, named, semi))
  {
    hide StmtOk, AllOk;
    match s {
      case CreateTable(_, _, _) => CreateWantsOk(s, named, semi);
      case Insert(_, _) => InsertWantsOk(s, semi);
      case Select(_, _) => SelectWantsOk(s, semi);
      case _ => ShowWantsOk(s, semi);
    }
  }

  /** Every statement within the limits can be written down, and parses to itself. */
  lemma PrintParse(s: Stmt, named: bool, semi: bool)
    requires StmtOk(s)
    ensures ParseSql(Render(Plain(Wants(s, named, semi)), [])) == Ok(s)
  {
    hide StmtOk, Wants, AllOk, RenderOk, ParseSql;
    WantsOk(s, named, semi);
    PlainOk(Wants(s, named, semi));
    ParseRoundTrip(s, Plain(Wants(s, named, semi)), [], named, semi, []);
  }

  // ------------------------------------------------------ types by any name

  /** A column with its type as it is written. */
  type TextCol = (Text, Text)

  /** The tokens of columns with any type names. */
  function TextCols(cols: seq<TextCol>): seq<Want>
    requires cols != []
  {
    var c := [Tok(Ident(cols[0].0)), Tok(Ident(cols[0].1))];
    if |cols| == 1 then c else c + ([Tok(Comma)] + TextCols(cols[1..]))
  }

  predicate TextColsOk(cols: seq<TextCol>) { forall i | 0 <= i < |cols| :: NameOk(cols[i].0) && NameOk(cols[i].1) }

  /** Some type name is none of the nine. */
  predicate NamesUnknown(cols: seq<TextCol>) { exists i | 0 <= i < |cols| :: TypeFrom(cols[i].1, 0).Unknown? }

  lemma TextColumn(ts: seq<Token>, col: TextCol, more: seq<Want>)
    requires NameOk(col.0) && NameOk(col.1) && Matches(ts, [Tok(Ident(col.0)), Tok(Ident(col.1))] + more)
    ensures |ts| >= 2 && Matches(ts[2..], more)
    ensures Column(ts) == if TypeFrom(col.1, 0).Unknown? then Fail else Good(ColDef(col.0, TypeFrom(col.1, 0)), ts[2..])
  {
    hide TypeFrom, IsName, Matches;
    var c := [Tok(Ident(col.0)), Tok(Ident(col.1))];
    Front(ts, c, more, 0);
    Front(ts, c, more, 1);
    MatchSplit(ts, c, more);
    assert ts[0..] == ts;
  }

  /** Whatever comes behind it, a column list with an unknown type name is refused. */
  lemma {:induction false} UnknownColumns(ts: seq<Token>, cols: seq<TextCol>, acc: seq<ColDef>, back: seq<Want>)
    requires cols != [] && TextColsOk(cols) && NamesUnknown(cols) && Matches(ts, TextCols(cols) + back)
    ensures Columns(ts, acc).Fail?
    decreases |cols|
  {
    hide TypeFrom, NameOk, Column, Matches;
    var c := [Tok(Ident(cols[0].0)), Tok(Ident(cols[0].1))];
    if |cols| == 1 {
      TextColumn(ts, cols[0], back);
    } else {
      var rest := TextCols(cols[1..]);
      assert TextCols(cols) + back == c + ([Tok(Comma)] + (rest + back));
      TextColumn(ts, cols[0], [Tok(Comma)] + (rest + back));
      if !TypeFrom(cols[0].1, 0).Unknown? {
        NextComma(ts[2..], rest + back);
        StillUnknown(cols);
        UnknownColumns(ts[2..][1..], cols[1..], acc + [ColDef(cols[0].0, TypeFrom(cols[0].1, 0))], back);
      }
    }
  }

  lemma NextComma(ts: seq<Token>, more: seq<Want>)
    requires Matches(ts, [Tok(Comma)] + more)
    ensures |ts| >= 1 && Head(ts).Comma? && Tail(ts) == ts[1..] && Matches(ts[1..], more)
  {
    hide Matches;
    MatchSplit(ts, [Tok(Comma)], more);
    OneToken(ts[..1], Comma);
  }

  lemma StillUnknown(cols: seq<TextCol>)
    requires cols != [] && NamesUnknown(cols) && !TypeFrom(cols[0].1, 0).Unknown?
    ensures cols[1..] != [] && NamesUnknown(cols[1..])
  {
    hide TypeFrom;
    var i :| 0 <= i < |cols| && TypeFrom(cols[i].1, 0).Unknown?;
    assert cols[1..][i - 1] == cols[i];
  }

  /** A CREATE TABLE with these columns, however it goes on behind them. */
  function CreateWith(table: Text, cols: seq<TextCol>, back: seq<Want>): seq<Want>
    requires cols != []
  {
    CreateFront(table) + (TextCols(cols) + back)
  }

  /** However it is written, a table is refused when a type name is none of the nine. */
  lemma UnknownTypeRefused(table: Text, cols: seq<TextCol>, back: seq<Want>, ps: seq<Piece>, end: Text)
    requires NameOk(table) && cols != [] && TextColsOk(cols) && NamesUnknown(cols) && RenderOk(ps, end)
    requires |ps| == |CreateWith(table, cols, back)| && forall i | 0 <= i < |ps| :: ps[i].want == CreateWith(table, cols, back)[i]
    ensures ParseSql(Render(ps, end)) == Err(EINVAL)
  {
    hide Tokens, ReadStmt, RenderOk, NameOk, Columns, TypeFrom, CreateFront, Meets;
    TokensOfRendering(ps, end);
    var ts := Tokens(Render(ps, end));
    assert Matches(ts, CreateWith(table, cols, back));
    hide Matches;
    CreateFrontRead(table, ts, TextCols(cols) + back);
    UnknownColumns(ts[4..], cols, [], back);
  }

  /** In particular with a type name in upper case, as the grammar in the header file shows
      them all. */
  lemma UpperCaseRefused(table: Text, cols: seq<TextCol>, i: nat, back: seq<Want>, ps: seq<Piece>, end: Text)
    requires NameOk(table) && TextColsOk(cols) && i < |cols| && 65 <= cols[i].1[0] <= 90 && RenderOk(ps, end)
    requires |ps| == |CreateWith(table, cols, back)| && forall i | 0 <= i < |ps| :: ps[i].want == CreateWith(table, cols, back)[i]
    ensures ParseSql(Render(ps, end)) == Err(EINVAL)
  {
    assert cols[i].1 != [] by { assert NameOk(cols[i].1); }
    hide ParseSql, Render, RenderOk, CreateWith, TypeFrom, IsName;
    UpperCaseUnknown(cols[i].1);
    UnknownTypeRefused(table, cols, back, ps, end);
  }

  /** `CREATE TABLE t (a INT8)`. */
  lemma Int8Refused()
    ensures ParseSql(Render(Plain(CreateWith([116], [([97], Ascii("INT8"))], [Tok(RParen)])), [])) == Err(EINVAL)
  {
    hide NameOk, Ascii, ParseSql, Render, CreateWith, AllOk;
    InCapitals();
    OneColumnOk([116], [97], Ascii("INT8"));
    var ws := CreateWith([116], [([97], Ascii("INT8"))], [Tok(RParen)]);
    PlainOk(ws);
    UpperCaseRefused([116], [([97], Ascii("INT8"))], 0, [Tok(RParen)], Plain(ws), []);
  }

  lemma InCapitals()
    ensures NameOk([116]) && NameOk([97]) && NameOk(Ascii("INT8")) && |Ascii("INT8")| > 0 && Ascii("INT8")[0] == 73
  {
    assert Lower(Ascii("INT8")[0]) != Lower(Ascii("NULL")[0]);
  }

  lemma OneColumnOk(table: Text, col: Text, ty: Text)
    requires NameOk(table) && NameOk(col) && NameOk(ty)
    ensures AllOk(CreateWith(table, [(col, ty)], [Tok(RParen)]))
  {
    hide IsName, Ascii;
    WordsNamed();
    assert TextCols([(col, ty)]) == [Tok(Ident(col)), Tok(Ident(ty))];
  }
}
