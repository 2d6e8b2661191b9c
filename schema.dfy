/** A table's schema: parallel lists of column names and column types. */
module Schemas {
  import opened Wrappers

  datatype Type = INT | STRING

  datatype Schema = Schema(names: seq<string>, types: seq<Type>)

  /** Names and types pair up: the only schemas the constructor lets through. */
  ghost predicate WellFormed(s: Schema)
  {
    |s.names| == |s.types|
  }

  /** new Schema(names, types): fails when the two lists differ in length. */
  function NewSchema(names: seq<string>, types: seq<Type>): (r: Result<Schema>)
    ensures r.Ok? <==> |names| == |types|
    ensures r.Ok? ==> WellFormed(r.value) && r.value.names == names && r.value.types == types
    ensures r.Err? ==> r.msg == "Names/types length mismatch"
  {
    if |names| != |types| then Err("Names/types length mismatch")
    else Ok(Schema(names, types))
  }

  /** numColumns: the number of names, which is also the number of types. */
  function NumColumns(s: Schema): (n: nat)
    requires WellFormed(s)
    ensures n == |s.types|
  {
    |s.names|
  }

  /** getColumnName(i): the i-th name, or a failure when i is out of range. */
  function ColumnName(s: Schema, i: int): (r: Option<string>)
    ensures r.Some? <==> 0 <= i < |s.names|
    ensures r.Some? ==> r.value in s.names
  {
    if 0 <= i < |s.names| then Some(s.names[i]) else None
  }

  /** getColumnType(i): the i-th type, or a failure when i is out of range. */
  function ColumnType(s: Schema, i: int): (r: Option<Type>)
    requires WellFormed(s)
    ensures r.Some? <==> 0 <= i < NumColumns(s)
    ensures r.Some? ==> r.value in s.types
  {
    if 0 <= i < |s.types| then Some(s.types[i]) else None
  }

  /** getColumnNames: a copy of the names, in order. */
  function ColumnNames(s: Schema): (r: seq<string>)
    ensures |r| == |s.names|
    ensures forall i :: 0 <= i < |r| ==> ColumnName(s, i) == Some(r[i])
  {
    s.names
  }

  /** List.indexOf: the position of the first element equal to x. */
  function IndexOf(xs: seq<string>, x: string): (r: Option<nat>)
    ensures r.Some? <==> x in xs
    ensures r.Some? ==> r.value < |xs| && xs[r.value] == x && x !in xs[..r.value]
  {
    if xs == [] then None
    else if xs[0] == x then Some(0)
    else
      var k := IndexOf(xs[1..], x);
      assert xs[1..] == xs[1..][..] && (k.Some? ==> xs[..k.value + 1] == [xs[0]] + xs[1..][..k.value]);
      if k.None? then None else Some(k.value + 1)
  }

  /** getColumnIndex: the first position holding the name; an unknown name fails. */
  function ColumnIndex(s: Schema, name: string): (r: Result<nat>)
    ensures r.Ok? <==> name in s.names
    ensures r.Ok? ==> ColumnName(s, r.value) == Some(name) && name !in s.names[..r.value]
    ensures r.Err? ==> r.msg == "Unknown column: " + name
  {
    var k := IndexOf(s.names, name);
    if k.None? then Err("Unknown column: " + name) else Ok(k.value)
  }

  /** When the names are distinct, name lookup and getColumnName are inverse. */
  lemma IndexNameRoundTrip(s: Schema, i: nat)
    requires i < |s.names|
    requires forall a, b :: 0 <= a < b < |s.names| ==> s.names[a] != s.names[b]
    ensures ColumnIndex(s, s.names[i]) == Ok(i)
  {
  }
}
