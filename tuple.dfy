/** A row of a table and its byte encoding: each field in column order, an INT
    as a four-byte big-endian int, a STRING as a four-byte length followed by
    its bytes. Strings are modelled as the bytes getBytes produces. */
module Tuples {
  import opened Bytes
  import opened Wrappers
  import opened Schemas

  /** The size of the ByteBuffer serialize writes into. */
  const BUFFER_SIZE: nat := 4096

  /** A field value: a Java Integer or a Java String. */
  datatype Value = IntVal(v: Int32) | StrVal(s: seq<Byte>)

  datatype Tuple = Tuple(schema: Schema, values: seq<Value>)

  /** A tuple as its constructor leaves it: one value per column. */
  ghost predicate Shaped(t: Tuple)
  {
    WellFormed(t.schema) && |t.values| == NumColumns(t.schema)
  }

  /** new Tuple(schema, vals): fails when the value count is not the column count. */
  function NewTuple(schema: Schema, vals: seq<Value>): (r: Result<Tuple>)
    requires WellFormed(schema)
    ensures r.Ok? <==> |vals| == NumColumns(schema)
    ensures r.Ok? ==> Shaped(r.value) && r.value.schema == schema && r.value.values == vals
    ensures r.Err? ==> r.msg == "Value count mismatch"
  {
    if |vals| != |schema.names| then Err("Value count mismatch")
    else Ok(Tuple(schema, vals))
  }

  // ----- decimal text, as Integer.toString writes and Integer.parseInt reads it

  const MINUS: Byte := 45
  const PLUS: Byte := 43

  predicate IsDigit(b: Byte)
  {
    48 <= b <= 57
  }

  predicate AllDigits(s: seq<Byte>)
  {
    forall i :: 0 <= i < |s| ==> IsDigit(s[i])
  }

  /** The decimal digits of n, without leading zeros. */
  function Digits(n: nat): (r: seq<Byte>)
    ensures |r| >= 1 && AllDigits(r)
  {
    if n < 10 then [48 + n] else Digits(n / 10) + [48 + n % 10]
  }

  /** The number a string of decimal digits denotes. */
  function DigitsValue(s: seq<Byte>): nat
    requires AllDigits(s)
  {
    if s == [] then 0 else DigitsValue(s[..|s| - 1]) * 10 + (s[|s| - 1] - 48)
  }

  lemma {:induction false} DigitsRoundTrip(n: nat)
    ensures DigitsValue(Digits(n)) == n
  {
    if n >= 10 {
      var s := Digits(n);
      assert s[..|s| - 1] == Digits(n / 10);
      DigitsRoundTrip(n / 10);
    }
  }

  /** Integer.toString(v). */
  function IntText(v: Int32): (r: seq<Byte>)
    ensures |r| >= 1
  {
    if v < 0 then [MINUS] + Digits(-(v as int)) else Digits(v)
  }

  /** Integer.parseInt(s): an optional sign, then at least one decimal digit,
      denoting a value in int range; anything else is a NumberFormatException. */
  function ParseInt(s: seq<Byte>): (r: Option<Int32>)
    ensures r.Some? ==> |s| >= 1
  {
    if s == [] then None
    else
      var signed := s[0] == MINUS || s[0] == PLUS;
      var body := if signed then s[1..] else s;
      if body == [] || !AllDigits(body) then None
      else
        var m: int := DigitsValue(body);
        var v: int := if s[0] == MINUS then -m else m;
        if -0x8000_0000 <= v < 0x8000_0000 then Some(v) else None
  }

  /** parseInt of digits, with a minus sign in front or none. */
  lemma ParseSigned(d: seq<Byte>, neg: bool)
    requires d != [] && AllDigits(d)
    requires -0x8000_0000 <= (if neg then -(DigitsValue(d) as int) else DigitsValue(d)) < 0x8000_0000
    ensures ParseInt(if neg then [MINUS] + d else d) == Some(if neg then -(DigitsValue(d) as int) else DigitsValue(d))
  {
    var s := if neg then [MINUS] + d else d;
    assert neg ==> s[1..] == d;
    assert !neg ==> IsDigit(s[0]);
  }

  /** parseInt reads back what toString writes. */
  lemma ParseIntText(v: Int32)
    ensures ParseInt(IntText(v)) == Some(v)
  {
    var m: nat := if v < 0 then -(v as int) else v;
    DigitsRoundTrip(m);
    ParseSigned(Digits(m), v < 0);
  }

  // ----- serialize

  /** values[i].toString(): the text an INT column is parsed from. */
  function Text(x: Value): seq<Byte>
  {
    match x
    case IntVal(v) => IntText(v)
    case StrVal(s) => s
  }

  /** The bytes one field adds to the buffer, or the exception writing it throws
      when room bytes are left: parseInt failing on an INT column, the String cast
      failing on a STRING column, or the buffer overflowing. */
  function EncodeField(ty: Type, x: Value, room: int): (r: Result<seq<Byte>>)
    requires 0 <= room <= BUFFER_SIZE
    ensures r.Ok? ==> |r.value| <= room
  {
    match ty
    case INT =>
      var n := ParseInt(Text(x));
      if n.None? then Err("NumberFormatException")
      else if room < 4 then Err("BufferOverflowException")
      else Ok(EncodeInt32(n.value))
    case STRING =>
      if !x.StrVal? then Err("ClassCastException")
      else if room < 4 || room - 4 < |x.s| then Err("BufferOverflowException")
      else Ok(EncodeInt32(|x.s|) + x.s)
  }

  /** The serialize loop from column 0 on, with room bytes left in the buffer. */
  function EncodeFields(types: seq<Type>, vals: seq<Value>, room: int): (r: Result<seq<Byte>>)
    requires |types| == |vals| && 0 <= room <= BUFFER_SIZE
    ensures r.Ok? ==> |r.value| <= room
  {
    if types == [] then Ok([])
    else
      var head := EncodeField(types[0], vals[0], room);
      if head.Err? then Err(head.msg)
      else
        var rest := EncodeFields(types[1..], vals[1..], room - |head.value|);
        if rest.Err? then Err(rest.msg) else Ok(head.value + rest.value)
  }

  /** Tuple.serialize: the fields in column order in a buffer of 4096 bytes. */
  function Serialize(t: Tuple): (r: Result<seq<Byte>>)
    requires Shaped(t)
    ensures r.Ok? ==> |r.value| <= BUFFER_SIZE
  {
    EncodeFields(t.schema.types, t.values, BUFFER_SIZE)
  }

  /** The value of each column has the column's Java type. */
  ghost predicate WellTyped(types: seq<Type>, vals: seq<Value>)
  {
    |types| == |vals| &&
    forall i :: 0 <= i < |types| ==> (types[i] == INT <==> vals[i].IntVal?)
  }

  /** The length of the encoding of well-typed values. */
  function EncodedSize(types: seq<Type>, vals: seq<Value>): nat
    requires |types| == |vals|
  {
    if types == [] then 0
    else (if vals[0].StrVal? then 4 + |vals[0].s| else 4) + EncodedSize(types[1..], vals[1..])
  }

  /** Well-typed values encode exactly when they fit the room left, and then
      take EncodedSize bytes. */
  lemma {:induction false} EncodeFieldsSize(types: seq<Type>, vals: seq<Value>, room: int)
    requires WellTyped(types, vals) && 0 <= room <= BUFFER_SIZE
    ensures EncodeFields(types, vals, room).Ok? <==> EncodedSize(types, vals) <= room
    ensures EncodeFields(types, vals, room).Ok? ==>
              |EncodeFields(types, vals, room).value| == EncodedSize(types, vals)
  {
    if types != [] {
      if vals[0].IntVal? {
        ParseIntText(vals[0].v);
      }
      var head := EncodeField(types[0], vals[0], room);
      var w := if vals[0].StrVal? then 4 + |vals[0].s| else 4;
      assert head.Ok? <==> w <= room;
      assert WellTyped(types[1..], vals[1..]);
      if w <= room {
        EncodeFieldsSize(types[1..], vals[1..], room - w);
      }
    }
  }

  /** serialize succeeds on a well-typed tuple exactly when its encoding fits
      the 4096-byte buffer, and the result has the encoding's length. */
  lemma SerializeSize(t: Tuple)
    requires Shaped(t) && WellTyped(t.schema.types, t.values)
    ensures Serialize(t).Ok? <==> EncodedSize(t.schema.types, t.values) <= BUFFER_SIZE
    ensures Serialize(t).Ok? ==> |Serialize(t).value| == EncodedSize(t.schema.types, t.values)
  {
    EncodeFieldsSize(t.schema.types, t.values, BUFFER_SIZE);
  }

  /** An INT column is encoded from its value's text: any two value lists whose
      INT columns read as the same text and whose other columns are equal
      serialize identically, so the String "5" and the Integer 5 give the same bytes. */
  lemma {:induction false} EncodeByText(types: seq<Type>, vals: seq<Value>, vals': seq<Value>, room: int)
    requires |types| == |vals| == |vals'| && 0 <= room <= BUFFER_SIZE
    requires forall i :: 0 <= i < |types| ==>
               if types[i] == INT then Text(vals[i]) == Text(vals'[i]) else vals[i] == vals'[i]
    ensures EncodeFields(types, vals, room) == EncodeFields(types, vals', room)
  {
    if types != [] {
      var head := EncodeField(types[0], vals[0], room);
      assert head == EncodeField(types[0], vals'[0], room);
      if head.Ok? {
        EncodeByText(types[1..], vals[1..], vals'[1..], room - |head.value|);
      }
    }
  }

  // ----- deserialize

  /** Reading the fields back from a ByteBuffer over data: an INT is getInt, a
      STRING a getInt length then that many bytes. Too few bytes left is a
      BufferUnderflowException, a negative length a NegativeArraySizeException;
      bytes left over after the last column are ignored. */
  function DecodeFields(types: seq<Type>, data: seq<Byte>): (r: Result<seq<Value>>)
    ensures r.Ok? ==> |r.value| == |types|
  {
    if types == [] then Ok([])
    else if |data| < 4 then Err("BufferUnderflowException")
    else
      var n := DecodeInt32(data[..4]);
      match types[0]
      case INT =>
        var rest := DecodeFields(types[1..], data[4..]);
        if rest.Err? then rest else Ok([IntVal(n)] + rest.value)
      case STRING =>
        if n < 0 then Err("NegativeArraySizeException")
        else if |data| - 4 < n then Err("BufferUnderflowException")
        else
          var rest := DecodeFields(types[1..], data[4 + n..]);
          if rest.Err? then rest else Ok([StrVal(data[4..4 + n])] + rest.value)
  }

  /** Tuple.deserialize(schema, data). */
  function Deserialize(schema: Schema, data: seq<Byte>): (r: Result<Tuple>)
    requires WellFormed(schema)
    ensures r.Ok? ==> Shaped(r.value) && r.value.schema == schema
  {
    var vals := DecodeFields(schema.types, data);
    if vals.Err? then Err(vals.msg) else Ok(Tuple(schema, vals.value))
  }

  /** Decoding an INT column: the four bytes of the int, then the other columns. */
  lemma DecodeIntField(types: seq<Type>, v: Int32, rest: seq<Byte>)
    requires types != [] && types[0] == INT
    ensures var d := DecodeFields(types[1..], rest);
            DecodeFields(types, EncodeInt32(v) + rest) ==
              if d.Err? then d else Ok([IntVal(v)] + d.value)
  {
    var data := EncodeInt32(v) + rest;
    assert data[..4] == EncodeInt32(v) && data[4..] == rest;
    Int32RoundTrip(v);
  }

  /** Decoding a STRING column: the length, the bytes, then the other columns. */
  lemma DecodeStringField(types: seq<Type>, s: seq<Byte>, rest: seq<Byte>)
    requires types != [] && types[0] == STRING && |s| <= INT32_MAX
    ensures var d := DecodeFields(types[1..], rest);
            DecodeFields(types, EncodeInt32(|s|) + s + rest) ==
              if d.Err? then d else Ok([StrVal(s)] + d.value)
  {
    var data := EncodeInt32(|s|) + s + rest;
    assert data[..4] == EncodeInt32(|s|);
    Int32RoundTrip(|s|);
    assert data[4..4 + |s|] == s && data[4 + |s|..] == rest;
  }

  /** Strings short enough for their length to be an int. */
  ghost predicate Short(vals: seq<Value>)
  {
    forall i :: 0 <= i < |vals| && vals[i].StrVal? ==> |vals[i].s| <= INT32_MAX
  }

  /** The bytes a well-typed value is written as. */
  function EncodeValue(x: Value): (r: seq<Byte>)
    requires x.StrVal? ==> |x.s| <= INT32_MAX
  {
    match x
    case IntVal(v) => EncodeInt32(v)
    case StrVal(s) => EncodeInt32(|s|) + s
  }

  function EncodeValues(vals: seq<Value>): seq<Byte>
    requires Short(vals)
  {
    if vals == [] then [] else EncodeValue(vals[0]) + EncodeValues(vals[1..])
  }

  /** What serialize writes for well-typed values is their encoding, wherever
      the buffer ends. */
  lemma {:induction false} EncodeFieldsTyped(types: seq<Type>, vals: seq<Value>, room: int)
    requires WellTyped(types, vals) && 0 <= room <= BUFFER_SIZE && EncodeFields(types, vals, room).Ok?
    ensures Short(vals) && EncodeFields(types, vals, room).value == EncodeValues(vals)
  {
    if types != [] {
      var head := EncodeField(types[0], vals[0], room).value;
      if vals[0].IntVal? {
        ParseIntText(vals[0].v);
      }
      assert head == EncodeValue(vals[0]);
      assert WellTyped(types[1..], vals[1..]);
      EncodeFieldsTyped(types[1..], vals[1..], room - |head|);
      assert vals[1..] == vals[1..];
    }
  }

  /** Decoding one well-typed value, then the other columns. */
  lemma DecodeHead(types: seq<Type>, x: Value, more: seq<Byte>)
    requires types != [] && (types[0] == INT <==> x.IntVal?) && (x.StrVal? ==> |x.s| <= INT32_MAX)
    ensures var d := DecodeFields(types[1..], more);
            DecodeFields(types, EncodeValue(x) + more) == if d.Err? then d else Ok([x] + d.value)
  {
    match x
    case IntVal(v) =>
      DecodeIntField(types, v, more);
    case StrVal(b) =>
      DecodeStringField(types, b, more);
  }

  /** Decoding the encoding of well-typed values gives them back, whatever
      follows them. */
  lemma {:induction false} DecodeValues(types: seq<Type>, vals: seq<Value>, tail: seq<Byte>)
    requires WellTyped(types, vals) && Short(vals)
    ensures DecodeFields(types, EncodeValues(vals) + tail) == Ok(vals)
  {
    if types != [] {
      var rest := EncodeValues(vals[1..]);
      assert WellTyped(types[1..], vals[1..]);
      DecodeValues(types[1..], vals[1..], tail);
      assert EncodeValues(vals) + tail == EncodeValue(vals[0]) + (rest + tail);
      DecodeHead(types, vals[0], rest + tail);
      assert vals == [vals[0]] + vals[1..];
    }
  }

  /** Decoding what the serialize loop wrote gives back the values, whatever
      follows them. */
  lemma DecodeEncoded(types: seq<Type>, vals: seq<Value>, room: int, tail: seq<Byte>)
    requires WellTyped(types, vals) && 0 <= room <= BUFFER_SIZE && EncodeFields(types, vals, room).Ok?
    ensures DecodeFields(types, EncodeFields(types, vals, room).value + tail) == Ok(vals)
  {
    EncodeFieldsTyped(types, vals, room);
    DecodeValues(types, vals, tail);
  }

  /** deserialize(schema, serialize(t)) is t again, for a well-typed tuple. */
  lemma SerializeRoundTrip(t: Tuple)
    requires Shaped(t) && WellTyped(t.schema.types, t.values) && Serialize(t).Ok?
    ensures Deserialize(t.schema, Serialize(t).value) == Ok(t)
  {
    DecodeEncoded(t.schema.types, t.values, BUFFER_SIZE, []);
    assert Serialize(t).value + [] == Serialize(t).value;
  }

  // ----- toString

  const OPEN: Byte := 40
  const CLOSE: Byte := 41
  const COMMA: seq<Byte> := [44, 32]

  /** The text the loop of toString builds: each piece appended, with ", "
      before every piece but the first. */
  function Join(xs: seq<seq<Byte>>): seq<Byte>
  {
    if xs == [] then []
    else if |xs| == 1 then xs[0]
    else Join(xs[..|xs| - 1]) + COMMA + xs[|xs| - 1]
  }

  /** The same text built from the front. */
  function JoinFront(xs: seq<seq<Byte>>): seq<Byte>
  {
    if xs == [] then []
    else if |xs| == 1 then xs[0]
    else xs[0] + COMMA + JoinFront(xs[1..])
  }

  lemma {:induction false} JoinAgrees(xs: seq<seq<Byte>>)
    ensures Join(xs) == JoinFront(xs)
  {
    if |xs| > 2 {
      var n := |xs|;
      JoinAgrees(xs[..n - 1]);
      JoinAgrees(xs[1..]);
      JoinAgrees(xs[1..][..n - 2]);
      assert xs[..n - 1][1..] == xs[1..][..n - 2];
      assert xs[1..][n - 2] == xs[n - 1];
    }
  }

  function Texts(vals: seq<Value>): (r: seq<seq<Byte>>)
    ensures |r| == |vals| && forall i :: 0 <= i < |vals| ==> r[i] == Text(vals[i])
  {
    seq(|vals|, i requires 0 <= i < |vals| => Text(vals[i]))
  }

  /** Tuple.toString: "(", the fields joined by ", ", then ")". */
  function TupleText(t: Tuple): (r: seq<Byte>)
    requires Shaped(t)
    ensures |r| >= 2 && r[0] == OPEN && r[|r| - 1] == CLOSE
    ensures r[1..|r| - 1] == JoinFront(Texts(t.values))
  {
    JoinAgrees(Texts(t.values));
    [OPEN] + Join(Texts(t.values)) + [CLOSE]
  }
}
