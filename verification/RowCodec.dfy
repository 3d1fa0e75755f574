/** Rows: a value of each column's type, one after the other, in a byte buffer. */
module RowCodec {
  import opened Basics
  import opened Bytes
  import opened Numbers
  import opened Decimals
  import SqlLexer
  import HeapInsertSpec

  const U16_MAX: nat := 0xffff

  datatype Type = Int8 | Int16 | Int32 | Int64 | Float | Decimal | Bool | Varchar | Char | Unknown

  datatype Val = IntVal(v: int) | StrVal(s: Text) | NullVal

  /** The bytes of a fixed-width type; 0 for the others. */
  function FixedLen(ty: Type): nat {
    match ty
    case Int8 => 1 case Int16 => 2 case Int32 => 4 case Int64 => 8
    case Float => 4 case Decimal => 8 case Bool => 1
    case _ => 0
  }

  predicate IsInt(ty: Type) { ty.Int8? || ty.Int16? || ty.Int32? || ty.Int64? }

  // ----------------------------------------------------------- one value

  const TRUE_TEXT: Text := [116, 114, 117, 101]
  const FALSE_TEXT: Text := [102, 97, 108, 115, 101]

  function Encode(ty: Type, s: Text, room: nat): Result<seq<byte>>
    requires !ty.Unknown?
  {
    if room < FixedLen(ty) then Err(ENOSPC)
    else
      match ty
      case Float => if IsHex(s, 4) then Ok(HexBytes(s, 4)) else Err(EINVAL)
      case Decimal =>
        (match Split(s)
         case Err(e) => Err(e)
         case Ok(p) => if PartsOk(p) then Ok(SignedBytes(Wrap64(Scaled(p)), 8)) else Err(EINVAL))
      case Bool => Ok([if s == [DIGIT_0 + 1] || s == TRUE_TEXT then 1 else 0])
      case Varchar => if |s| > U16_MAX || |s| > room then Err(ENOSPC) else Ok(s)
      case Char => if |s| > U16_MAX || |s| > room then Err(ENOSPC) else Ok(s)
      case _ =>
        match ParseS64(s)
        case Err(e) => Err(e)
        case Ok(v) => if FitsSigned(v, FixedLen(ty)) then Ok(SignedBytes(v, FixedLen(ty))) else Err(ERANGE)
  }

  function Decode(ty: Type, b: seq<byte>): Result<Text>
    requires !ty.Unknown?
  {
    if FixedLen(ty) != 0 && |b| != FixedLen(ty) then Err(EINVAL)
    else
      match ty
      case Float => Ok(FormatHex(b))
      case Decimal => Ok(DecodeDecimal(Signed(b)))
      case Bool => Ok(if b[0] != 0 then TRUE_TEXT else FALSE_TEXT)
      case Varchar => Ok(b)
      case Char => Ok(b)
      case _ => Ok(Format(Signed(b)))
  }

  /** An accepted value has its type's width, and integers and strings come back. */
  lemma ValueRoundTrip(ty: Type, s: Text, room: nat)
    requires !ty.Unknown? && Encode(ty, s, room).Ok?
    ensures var b := Encode(ty, s, room).value;
      && |b| <= room && |b| <= U16_MAX && (FixedLen(ty) != 0 ==> |b| == FixedLen(ty))
      && Decode(ty, b).Ok?
      && ((ty.Varchar? || ty.Char?) ==> Decode(ty, b) == Ok(s))
      && (ty.Bool? ==> Decode(ty, b) == Ok(if s == [49] || s == TRUE_TEXT then TRUE_TEXT else FALSE_TEXT))
      && (ty.Float? ==> var t := Decode(ty, b).value; IsHex(s, 4) && IsHex(t, 4) && HexBytes(t, 4) == HexBytes(s, 4) == b)
      && (IsInt(ty) ==> ParseS64(s).Ok? && Signed(b) == ParseS64(s).value && Decode(ty, b) == Ok(Format(ParseS64(s).value)))
  {
    hide ParseS64, Format, Signed, SignedBytes, HexBytes, IsHex, Split, Scaled, FormatHex, DecodeDecimal, Wrap64, FitsSigned, PartsOk;
    if IsInt(ty) {
      SignedRoundTrip(ParseS64(s).value, FixedLen(ty));
    }
    if ty.Float? {
      HexRoundTrip(HexBytes(s, 4));
    }
  }

  /** The least and the largest integer of a type. */
  function Least(ty: Type): int
    requires IsInt(ty)
  {
    match ty case Int8 => -128 case Int16 => -32768 case Int32 => -0x8000_0000 case _ => -0x8000_0000_0000_0000
  }

  function Largest(ty: Type): int
    requires IsInt(ty)
  {
    match ty case Int8 => 127 case Int16 => 32767 case Int32 => 0x7fff_ffff case _ => 0x7fff_ffff_ffff_ffff
  }

  lemma IntRange(ty: Type, v: int)
    requires IsInt(ty)
    ensures FitsSigned(v, FixedLen(ty)) <==> Least(ty) <= v <= Largest(ty)
  {
    Widths();
  }

  /** Which texts a type takes, and what a refused one gets. */
  lemma ValueTaken(ty: Type, s: Text, room: nat)
    requires !ty.Unknown?
    ensures var r := Encode(ty, s, room);
      && (room < FixedLen(ty) ==> r == Err(ENOSPC))
      && (room >= FixedLen(ty) ==>
        && (IsInt(ty) ==> (r.Ok? <==> ParseS64(s).Ok? && Least(ty) <= ParseS64(s).value <= Largest(ty))
                          && (ParseS64(s).Ok? && r.Err? ==> r == Err(ERANGE)))
        && (ty.Float? ==> (r.Ok? <==> |s| == 8 && forall i | 0 <= i < 8 :: HexNibble(s[i]) >= 0) && (r.Err? ==> r == Err(EINVAL)))
        && (ty.Bool? ==> r.Ok?)
        && ((ty.Varchar? || ty.Char?) ==> (r.Ok? <==> |s| <= 65535 && |s| <= room) && (r.Err? ==> r == Err(ENOSPC))))
  {
    hide ParseS64, SignedBytes, HexBytes, Split, Scaled, Wrap64, FitsSigned, PartsOk, HexNibble;
    if IsInt(ty) && ParseS64(s).Ok? {
      IntRange(ty, ParseS64(s).value);
    }
    if ty.Float? {
      EightDigits(s);
    }
  }

  lemma EightDigits(s: Text)
    ensures IsHex(s, 4) <==> |s| == 8 && forall i | 0 <= i < 8 :: HexNibble(s[i]) >= 0
  {
    hide HexNibble;
    if IsHex(s, 4) {
      assert HexPair(s, 0) && HexPair(s, 1) && HexPair(s, 2) && HexPair(s, 3);
    }
  }

  /** An integer of the type's range goes in and comes out. */
  lemma IntColumn(ty: Type, v: int, room: nat)
    requires IsInt(ty) && Least(ty) <= v <= Largest(ty) && room >= FixedLen(ty)
    ensures var r := Encode(ty, Format(v), room); r.Ok? && Signed(r.value) == v && Decode(ty, r.value) == Ok(Format(v))
  {
    hide ParseS64, SignedBytes, Signed, Format, Encode, Decode;
    ParseOfFormat(v);
    ValueTaken(ty, Format(v), room);
    ValueRoundTrip(ty, Format(v), room);
  }

  /** What a decimal column stores comes back as a number. */
  lemma DecimalColumn(v: int, room: nat)
    requires IsS64(v) && v != S64_MIN && room >= 8
    ensures Encode(Decimal, DecodeDecimal(v), room) == Ok(SignedBytes(v, 8))
    ensures Signed(SignedBytes(v, 8)) == v
  {
    hide DecodeDecimal, Split, Scaled, Wrap64, SignedBytes, Signed;
    DecimalRoundTrip(v);
    WrapId(v);
    Widths();
    SignedRoundTrip(v, 8);
  }

  // ------------------------------------------------------------ one column

  /** The text handed to a type's encoder. */
  function ValText(v: Val): Text {
    match v
    case IntVal(n) => Format(n)
    case StrVal(s) => s[..Min(|s|, SqlLexer.VAL_MAX - 1)]
    case NullVal => []
  }

  /** A column in the row: variable-width values have their length in front. */
  function Column(ty: Type, v: Val, room: nat): Result<seq<byte>> {
    if ty.Unknown? then Err(EINVAL)
    else if FixedLen(ty) != 0 then
      if FixedLen(ty) > room then Err(ENOSPC) else Encode(ty, ValText(v), room)
    else if 2 > room then Err(ENOSPC)
    else
      match Encode(ty, ValText(v), room - 2)
      case Err(e) => Err(e)
      case Ok(b) => Ok(Le(|b|, 2) + b)
  }

  /** The value of a column whose bytes start at `off`: its text and where it ends. */
  function ReadColumn(ty: Type, buf: seq<byte>, off: nat): (r: Result<(Text, nat)>)
    requires off <= |buf|
    ensures r.Ok? ==> off <= r.value.1 <= |buf|
  {
    if ty.Unknown? then Err(EINVAL)
    else if FixedLen(ty) == 0 && off + 2 > |buf| then Err(EINVAL)
    else
      var at := if FixedLen(ty) == 0 then off + 2 else off;
      var len := if FixedLen(ty) == 0 then Nat(buf[off..off + 2]) else FixedLen(ty);
      if at + len > |buf| then Err(EINVAL)
      else
        match Decode(ty, buf[at..at + len])
        case Err(e) => Err(e)
        case Ok(t) => Ok((t, at + len))
  }

  /** `t` is what `v` reads as: the string itself, or the integer it stands for. */
  predicate Reads(ty: Type, v: Val, t: Text) {
    && ((ty.Varchar? || ty.Char?) ==> t == ValText(v))
    && (IsInt(ty) ==> ParseS64(ValText(v)).Ok? && t == Format(ParseS64(ValText(v)).value))
    && (ty.Bool? ==> t == if ValText(v) == [49] || ValText(v) == TRUE_TEXT then TRUE_TEXT else FALSE_TEXT)
    && (ty.Float? ==> IsHex(ValText(v), 4) && IsHex(t, 4) && HexBytes(t, 4) == HexBytes(ValText(v), 4))
  }

  /** A column is read back wherever it was written. */
  lemma ColumnRoundTrip(ty: Type, v: Val, room: nat, buf: seq<byte>, off: nat)
    requires Column(ty, v, room).Ok? && off + |Column(ty, v, room).value| <= |buf|
    requires buf[off..off + |Column(ty, v, room).value|] == Column(ty, v, room).value
    ensures |Column(ty, v, room).value| <= room
    ensures var r := ReadColumn(ty, buf, off); r.Ok? && r.value.1 == off + |Column(ty, v, room).value| && Reads(ty, v, r.value.0)
  {
    hide Encode, Decode, ParseS64, Format, Nat, ValText, IsHex, HexBytes;
    var c := Column(ty, v, room).value;
    if FixedLen(ty) != 0 {
      ValueRoundTrip(ty, ValText(v), room);
    } else {
      ValueRoundTrip(ty, ValText(v), room - 2);
      var b := Encode(ty, ValText(v), room - 2).value;
      Widths();
      NatOfLe(|b|, 2);
      Halves(buf, off, Le(|b|, 2), b);
    }
  }

  lemma Halves(buf: seq<byte>, off: nat, a: seq<byte>, b: seq<byte>)
    requires off + |a| + |b| <= |buf| && buf[off..off + |a + b|] == a + b
    ensures buf[off..off + |a|] == a && buf[off + |a|..off + |a| + |b|] == b
  {
    var s := buf[off..off + |a + b|];
    assert s[..|a|] == a && s[|a|..] == b;
  }

  // --------------------------------------------------------------- a row

  /** The first `n` columns of a row that may take `size` bytes. */
  function Encoded(schema: seq<Type>, vals: seq<Val>, n: nat, size: nat): (r: Result<seq<byte>>)
    requires n <= |schema| && n <= |vals|
  {
    if n == 0 then Ok([])
    else
      match Encoded(schema, vals, n - 1, size)
      case Err(e) => Err(e)
      case Ok(b) =>
        if |b| > size then Err(ENOSPC)
        else
          match Column(schema[n - 1], vals[n - 1], size - |b|)
          case Err(e) => Err(e)
          case Ok(c) => Ok(b + c)
  }

  function Decoded(schema: seq<Type>, n: nat, buf: seq<byte>): (r: Result<(seq<Text>, nat)>)
    requires n <= |schema|
    ensures r.Ok? ==> |r.value.0| == n && r.value.1 <= |buf|
  {
    if n == 0 then Ok(([], 0))
    else
      match Decoded(schema, n - 1, buf)
      case Err(e) => Err(e)
      case Ok(t) =>
        match ReadColumn(schema[n - 1], buf, t.1)
        case Err(e) => Err(e)
        case Ok(c) => Ok((t.0 + [c.0], c.1))
  }

  /** Room enough for any column. */
  const AMPLE: nat := 65537

  /** A column that there is room for is the column that there is ample room for. */
  lemma ColumnRoom(ty: Type, v: Val, room: nat)
    ensures var c, a := Column(ty, v, room), Column(ty, v, AMPLE);
      (c.Ok? <==> a.Ok? && |a.value| <= room) && (c.Ok? ==> c == a)
  {
    hide ParseS64, SignedBytes, HexBytes, IsHex, Split, Scaled, Wrap64, FitsSigned, PartsOk, ValText, Le;
  }

  /** The columns one after the other, each with ample room. */
  function RowBytes(schema: seq<Type>, vals: seq<Val>, n: nat): seq<byte>
    requires n <= |schema| && n <= |vals|
  {
    if n == 0 then []
    else
      RowBytes(schema, vals, n - 1) + match Column(schema[n - 1], vals[n - 1], AMPLE) case Ok(c) => c case Err(_) => []
  }

  predicate ColumnTaken(schema: seq<Type>, vals: seq<Val>, i: nat)
    requires i < |schema| && i < |vals|
  {
    Column(schema[i], vals[i], AMPLE).Ok?
  }

  /** A row is taken exactly when each of its values is, and all of them together fit. */
  lemma {:induction false} RowTaken(schema: seq<Type>, vals: seq<Val>, n: nat, size: nat)
    requires n <= |schema| && n <= |vals|
    ensures var e := Encoded(schema, vals, n, size);
      && (e.Ok? <==> |RowBytes(schema, vals, n)| <= size && forall i | 0 <= i < n :: ColumnTaken(schema, vals, i))
      && (e.Ok? ==> e.value == RowBytes(schema, vals, n))
    decreases n
  {
    hide Column;
    if n > 0 {
      RowTaken(schema, vals, n - 1, size);
      var e := Encoded(schema, vals, n - 1, size);
      if e.Ok? {
        ColumnRoom(schema[n - 1], vals[n - 1], size - |e.value|);
        assert ColumnTaken(schema, vals, n - 1) <==> Column(schema[n - 1], vals[n - 1], AMPLE).Ok?;
      }
    }
  }

  lemma ColumnFits(ty: Type, v: Val, room: nat)
    requires Column(ty, v, room).Ok?
    ensures |Column(ty, v, room).value| <= room
  {
    var c := Column(ty, v, room).value;
    assert c[0..|c|] == c;
    ColumnRoundTrip(ty, v, room, c, 0);
  }

  predicate ColumnReads(schema: seq<Type>, vals: seq<Val>, texts: seq<Text>, i: nat)
    requires i < |schema| && i < |vals| && i < |texts|
  {
    Reads(schema[i], vals[i], texts[i])
  }

  /** A row that was encoded decodes, over exactly its own bytes, to its values. */
  lemma {:induction false} RowRoundTrip(schema: seq<Type>, vals: seq<Val>, n: nat, size: nat, buf: seq<byte>)
    requires n <= |schema| && n <= |vals| && Encoded(schema, vals, n, size).Ok?
    requires Encoded(schema, vals, n, size).value <= buf
    ensures var d := Decoded(schema, n, buf);
      && d.Ok? && d.value.1 == |Encoded(schema, vals, n, size).value|
      && forall i | 0 <= i < n :: ColumnReads(schema, vals, d.value.0, i)
    decreases n
  {
    hide Column, ReadColumn, Reads;
    if n > 0 {
      var b := Encoded(schema, vals, n - 1, size).value;
      var ty, v, room := schema[n - 1], vals[n - 1], size - |b|;
      var c := Column(ty, v, room).value;
      Prefix(b, c, buf);
      RowRoundTrip(schema, vals, n - 1, size, buf);
      ColumnRoundTrip(ty, v, room, buf, |b|);
      var texts, before := Decoded(schema, n, buf).value.0, Decoded(schema, n - 1, buf).value.0;
      forall i | 0 <= i < n
        ensures ColumnReads(schema, vals, texts, i)
      {
        if i < n - 1 {
          assert ColumnReads(schema, vals, before, i);
        }
      }
    }
  }

  lemma Prefix(b: seq<byte>, c: seq<byte>, buf: seq<byte>)
    requires b + c <= buf
    ensures b <= buf && |b| + |c| <= |buf| && buf[|b|..|b| + |c|] == c
  {
    assert buf[..|b + c|] == b + c;
  }

  /** The key that the insert executor takes from the first eight bytes is the first value,
      written as an integer or as a string. */
  lemma {:induction false} KeyFirst(schema: seq<Type>, vals: seq<Val>, n: nat, size: nat)
    requires 0 < n <= |schema| && n <= |vals| && Encoded(schema, vals, n, size).Ok? && schema[0].Int64?
    ensures var b, v := Encoded(schema, vals, n, size).value, ParseS64(ValText(vals[0]));
      |b| >= HeapInsertSpec.KEY_SIZE && v.Ok? && Signed(b[..HeapInsertSpec.KEY_SIZE]) == v.value
    ensures vals[0].IntVal? && IsS64(vals[0].v) ==> ParseS64(ValText(vals[0])) == Ok(vals[0].v)
    decreases n
  {
    hide Signed, SignedBytes, Format, ParseS64, Encode;
    if n == 1 {
      var b := Encoded(schema, vals, 1, size).value;
      assert Encoded(schema, vals, 0, size) == Ok([]);
      ValueRoundTrip(Int64, ValText(vals[0]), size);
      assert b == [] + Encode(Int64, ValText(vals[0]), size).value == Encode(Int64, ValText(vals[0]), size).value;
      assert b[..HeapInsertSpec.KEY_SIZE] == b;
    } else {
      KeyFirst(schema, vals, n - 1, size);
      var front := Encoded(schema, vals, n - 1, size).value;
      assert Encoded(schema, vals, n, size).value[..HeapInsertSpec.KEY_SIZE] == front[..HeapInsertSpec.KEY_SIZE];
    }
    if vals[0].IntVal? && IsS64(vals[0].v) {
      ParseOfFormat(vals[0].v);
    }
  }

  // -------------------------------------------------------------- methods

  /** One value, by its type's own encoder. */
  method EncodeValue(ty: Type, s: Text, room: nat) returns (r: Result<seq<byte>>)
    requires !ty.Unknown?
    ensures r == Encode(ty, s, room)
  {
    if ty.Float? {
      if room < 4 {
        return Err(ENOSPC);
      }
      r := ParseHex(s, 4);
    } else if ty.Decimal? {
      SplitParts(s);
      r := EncodeDecimal(s, room);
    } else {
      r := Encode(ty, s, room);
    }
  }

  lemma SplitParts(s: Text)
    ensures Split(s).Ok? ==> PartsOk(Split(s).value)
    ensures Split(s).Err? ==> Split(s).error == EINVAL
  {
    if Split(s).Ok? {
      RenderingOfSplit(s);
    }
  }

  method EncodeRow(schema: seq<Type>, vals: seq<Val>, buf: array<byte>) returns (r: Result<nat>)
    requires |schema| <= |vals|
    modifies buf
    ensures var e := Encoded(schema, vals, |schema|, buf.Length);
      && (e.Err? ==> r == Err(e.error))
      && (e.Ok? ==> r == Ok(|e.value|) && |e.value| <= buf.Length && buf[..|e.value|] == e.value)
  {
    hide Encode, FixedLen, ValText, Le;
    var off := 0;
    var i := 0;
    ghost var done: seq<byte> := [];
    while i < |schema|
      invariant i <= |schema| && Encoded(schema, vals, i, buf.Length) == Ok(done)
      invariant off == |done| <= buf.Length && buf[..off] == done
    {
      var c := EncodeColumn(schema[i], vals[i], buf.Length - off);
      if c.Err? {
        ErrorStays(schema, vals, i + 1, |schema|, buf.Length);
        return Err(c.error);
      }
      hide Column;
      ColumnFits(schema[i], vals[i], buf.Length - off);
      CopyAppends(buf[..], off, c.value);
      CopyIn(buf, off, c.value);
      done := done + c.value;
      off := off + |c.value|;
      i := i + 1;
    }
    r := Ok(off);
  }

  method EncodeColumn(ty: Type, v: Val, room: nat) returns (r: Result<seq<byte>>)
    ensures r == Column(ty, v, room)
  {
    hide Encode, ValText;
    if ty.Unknown? {
      return Err(EINVAL);
    }
    if FixedLen(ty) == 0 {
      if 2 > room {
        return Err(ENOSPC);
      }
      r := EncodeValue(ty, ValText(v), room - 2);
      if r.Ok? {
        r := Ok(Le(|r.value|, 2) + r.value);
      }
    } else {
      if FixedLen(ty) > room {
        return Err(ENOSPC);
      }
      r := EncodeValue(ty, ValText(v), room);
    }
  }

  lemma CopyAppends(b: seq<byte>, off: nat, c: seq<byte>)
    requires off + |c| <= |b|
    ensures Splice(b, off, c)[..off + |c|] == b[..off] + c
  {
  }

  lemma {:induction false} ErrorStays(schema: seq<Type>, vals: seq<Val>, i: nat, n: nat, size: nat)
    requires i <= n <= |schema| && n <= |vals| && Encoded(schema, vals, i, size).Err?
    ensures Encoded(schema, vals, n, size) == Encoded(schema, vals, i, size)
    decreases n
  {
    hide Column;
    if n > i {
      ErrorStays(schema, vals, i, n - 1, size);
    }
  }

  method DecodeRow(schema: seq<Type>, buf: seq<byte>) returns (r: Result<(seq<Text>, nat)>)
    ensures r == Decoded(schema, |schema|, buf)
  {
    hide ReadColumn;
    var texts: seq<Text>, off := [], 0;
    var i := 0;
    while i < |schema|
      invariant i <= |schema| && off <= |buf| && Decoded(schema, i, buf) == Ok((texts, off))
    {
      var c := ReadColumn(schema[i], buf, off);
      if c.Err? {
        DecodeErrorStays(schema, i + 1, |schema|, buf);
        return Err(c.error);
      }
      texts, off := texts + [c.value.0], c.value.1;
      i := i + 1;
    }
    r := Ok((texts, off));
  }

  lemma {:induction false} DecodeErrorStays(schema: seq<Type>, i: nat, n: nat, buf: seq<byte>)
    requires i <= n <= |schema| && Decoded(schema, i, buf).Err?
    ensures Decoded(schema, n, buf) == Decoded(schema, i, buf)
    decreases n
  {
    hide ReadColumn;
    if n > i {
      DecodeErrorStays(schema, i, n - 1, buf);
    }
  }
}
