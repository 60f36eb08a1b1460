/**
 * Script values and the row <-> object conversion of `Converter`: a row
 * becomes an object with one property per attribute, and a script value
 * becomes a row either by reading each attribute's property (composite
 * mode) or by using the value itself for every column (scalar mode).
 */
module Convert {
  import opened Base
  import opened Decimal

  /** A script value, as far as the bridge distinguishes them. */
  datatype Value =
    | Undefined
    | Null
    | Bool(b: bool)
    | Num(n: int)
    | Str(s: string)
    | Arr(elems: seq<Value>)
    | Obj(props: map<string, Value>, order: seq<string>)
  {
    predicate IsNullish() {
      Undefined? || Null?
    }

    /** An object lists each of its property names once, in the order the properties were first set. */
    ghost predicate OrderMatchesProps()
      requires Obj?
    {
      && NoDup(order)
      && forall k :: k in props <==> k in order
    }

    /** Arrays are objects to the engine; strings, numbers and booleans are not. */
    predicate IsObject() {
      Arr? || Obj?
    }
  }

  /**
   * A non-null column value. Per-type scalar conversion is outside this
   * model: a datum stands for the script value it converts to.
   */
  type Datum = v: Value | !v.IsNullish() witness Num(0)

  /** A tuple: one entry per attribute, `None` for a null. */
  type Row = seq<Option<Datum>>

  /** A converter for one row type: its attribute names, and whether the result is a bare scalar. */
  datatype Converter = Converter(colnames: seq<string>, isScalar: bool)

  /** A column value as a script value: null becomes `null`. */
  function DatumToValue(d: Option<Datum>): (v: Value)
    ensures v.Null? <==> d.None?
    ensures d.Some? ==> v == d.value
  {
    match d
    case None => Null
    case Some(x) => x
  }

  /**
   * Setting a property: an existing one keeps its place in the order and
   * takes the new value; a new one is added last.
   */
  function SetProperty(o: Value, name: string, v: Value): Value
    requires o.Obj?
  {
    Obj(o.props[name := v], if name in o.props then o.order else o.order + [name])
  }

  /** The property values set by the first `c` attributes, later ones overwriting earlier ones of the same name. */
  function BuildProps(names: seq<string>, row: Row, c: nat): (m: map<string, Value>)
    requires c <= |names| == |row|
    ensures m.Keys == set i | 0 <= i < c :: names[i]
    decreases c
  {
    if c == 0 then map[]
    else BuildProps(names, row, c - 1)[names[c - 1] := DatumToValue(row[c - 1])]
  }

  /**
   * The property order after setting the first `c` attributes: each name
   * where it first occurs. With distinct names it is the attribute order.
   */
  function BuildOrder(names: seq<string>, c: nat): (order: seq<string>)
    requires c <= |names|
    ensures NoDup(order)
    ensures forall x :: x in order <==> x in names[..c]
    ensures NoDup(names[..c]) ==> order == names[..c]
    decreases c
  {
    if c == 0 then []
    else
      var prev := BuildOrder(names, c - 1);
      assert names[..c] == names[..c - 1] + [names[c - 1]];
      if names[c - 1] in prev then prev else prev + [names[c - 1]]
  }

  /** The object after setting the first `c` attributes in turn. */
  function BuildObject(names: seq<string>, row: Row, c: nat): (o: Value)
    requires c <= |names| == |row|
    ensures o.Obj?
    ensures o.props.Keys == set i | 0 <= i < c :: names[i]
    ensures o.OrderMatchesProps()
  {
    var o := Obj(BuildProps(names, row, c), BuildOrder(names, c));
    assert forall x :: x in o.order <==> x in o.props by {
      forall x ensures x in o.order <==> x in o.props {
        if x in names[..c] {
          var i :| 0 <= i < c && names[..c][i] == x;
          assert names[i] == x;
        }
        if x in o.props {
          var i :| 0 <= i < c && names[i] == x;
          assert names[..c][i] == x;
        }
      }
    }
    o
  }

  /** The object for `c` attributes is the one for `c - 1` with attribute `c - 1` set on it. */
  lemma BuildObjectSetsInTurn(names: seq<string>, row: Row, c: nat)
    requires 0 < c <= |names| == |row|
    ensures BuildObject(names, row, c) == SetProperty(BuildObject(names, row, c - 1), names[c - 1], DatumToValue(row[c - 1]))
  {
    var prev := BuildObject(names, row, c - 1);
    assert names[c - 1] in prev.props <==> names[c - 1] in prev.order;
  }

  /**
   * `Converter::ToValue`: one property per attribute, named as the
   * attribute, set in attribute order.
   */
  function RowToObject(conv: Converter, row: Row): (o: Value)
    requires |row| == |conv.colnames|
    ensures o.Obj?
    ensures o.props.Keys == set c | 0 <= c < |row| :: conv.colnames[c]
    ensures o.OrderMatchesProps()
    ensures NoDup(conv.colnames) ==> o.order == conv.colnames
  {
    assert conv.colnames[..|row|] == conv.colnames;
    BuildObject(conv.colnames, row, |row|)
  }

  /** Property lookup; a missing property reads as `undefined`, an array answers `length` and its indices. */
  function GetProperty(v: Value, name: string): Value {
    match v
    case Obj(props, _) => if name in props then props[name] else Undefined
    case Arr(elems) =>
      if name == "length" then Num(|elems|)
      else if 1 <= |name| && AllDigits(name) && (name[0] != '0' || |name| == 1) && ParseDigits(name) < |elems|
      then elems[ParseDigits(name)]
      else Undefined
    case _ => Undefined
  }

  /** The value read for column `c`: the value itself in scalar mode, else its property of that name. */
  function ColumnValue(conv: Converter, v: Value, c: nat): Value
    requires c < |conv.colnames|
  {
    if conv.isScalar then v else GetProperty(v, conv.colnames[c])
  }

  /** A column is null exactly when its value is missing, `undefined` or `null`. */
  function ToColumn(a: Value): (d: Option<Datum>)
    ensures d.None? <==> a.IsNullish()
    ensures d.Some? ==> d.value == a
  {
    if a.IsNullish() then None else Some(a)
  }

  /** What `Converter::ToDatum` throws for a non-object in composite mode. */
  const ObjectRequired: string := "argument must be an object"

  /** The row-building part of `Converter::ToDatum`. */
  function ObjectToRow(conv: Converter, v: Value): (r: Result<Row>)
    ensures r.Fail? <==> !conv.isScalar && !v.IsObject()
    ensures r.Fail? ==> r == ScriptFail(ObjectRequired)
    ensures r.Ok? ==> |r.value| == |conv.colnames|
    ensures r.Ok? ==> forall c :: 0 <= c < |r.value| ==>
      (r.value[c].None? <==> ColumnValue(conv, v, c).IsNullish())
  {
    if !conv.isScalar && !v.IsObject() then ScriptFail(ObjectRequired)
    else Ok(seq(|conv.colnames|, c requires 0 <= c < |conv.colnames| => ToColumn(ColumnValue(conv, v, c))))
  }

  /** Where `Converter::ToDatum` puts the row it builds. */
  datatype Sink = ToStore(id: nat) | Standalone

  /** A result store per identifier: the rows appended so far. */
  type Stores = map<nat, seq<Row>>

  datatype Placed = Placed(stores: Stores, tuple: Option<Row>)

  /**
   * `Converter::ToDatum`: the row goes to the tuple store when one is given,
   * else it is returned as a standalone tuple.
   */
  function ToDatum(conv: Converter, v: Value, sink: Sink, stores: Stores): (r: Result<Placed>)
    requires sink.ToStore? ==> sink.id in stores
    ensures r.Fail? <==> ObjectToRow(conv, v).Fail?
    ensures r.Ok? && sink.ToStore? ==>
      && r.value.tuple.None?
      && r.value.stores == stores[sink.id := stores[sink.id] + [ObjectToRow(conv, v).value]]
    ensures r.Ok? && sink.Standalone? ==>
      r.value.stores == stores && r.value.tuple == Some(ObjectToRow(conv, v).value)
  {
    var row :- ObjectToRow(conv, v);
    match sink
    case ToStore(id) => Ok(Placed(stores[id := stores[id] + [row]], None))
    case Standalone => Ok(Placed(stores, Some(row)))
  }

  /** The last attribute of a given name determines that property's value. */
  lemma {:induction false} BuildPropsLookup(names: seq<string>, row: Row, c: nat, k: nat)
    requires c <= |names| == |row|
    requires k < c
    requires forall d :: k < d < c ==> names[d] != names[k]
    ensures names[k] in BuildProps(names, row, c)
    ensures BuildProps(names, row, c)[names[k]] == DatumToValue(row[k])
    decreases c
  {
    if k < c - 1 {
      BuildPropsLookup(names, row, c - 1, k);
    }
  }

  /** With distinct attribute names, every property holds its attribute's value (`null` for a null). */
  lemma RowToObjectProperties(conv: Converter, row: Row)
    requires |row| == |conv.colnames|
    requires NoDup(conv.colnames)
    ensures forall c :: 0 <= c < |row| ==>
      && conv.colnames[c] in RowToObject(conv, row).props
      && RowToObject(conv, row).props[conv.colnames[c]] == DatumToValue(row[c])
  {
    forall c | 0 <= c < |row|
      ensures conv.colnames[c] in RowToObject(conv, row).props
      ensures RowToObject(conv, row).props[conv.colnames[c]] == DatumToValue(row[c])
    {
      BuildPropsLookup(conv.colnames, row, |row|, c);
    }
  }

  /** An object holding every attribute's value under its name reads back, through a composite converter, as that row. */
  lemma ReadsBackRow(conv: Converter, o: Value, row: Row)
    requires |row| == |conv.colnames|
    requires !conv.isScalar && o.Obj?
    requires forall c :: 0 <= c < |row| ==>
      conv.colnames[c] in o.props && o.props[conv.colnames[c]] == DatumToValue(row[c])
    ensures ObjectToRow(conv, o) == Ok(row)
  {
    assert o.IsObject();
    var r := ObjectToRow(conv, o);
    forall c | 0 <= c < |row|
      ensures r.value[c] == row[c]
    {
      assert ColumnValue(conv, o, c) == DatumToValue(row[c]);
    }
    assert r.value == row;
  }

  /**
   * Round trip: a row converted to an object and read back through a
   * composite converter is the same row, values and null flags alike.
   */
  lemma RowObjectRoundTrip(conv: Converter, row: Row)
    requires |row| == |conv.colnames|
    requires NoDup(conv.colnames)
    requires !conv.isScalar
    ensures ObjectToRow(conv, RowToObject(conv, row)) == Ok(row)
  {
    RowToObjectProperties(conv, row);
    ReadsBackRow(conv, RowToObject(conv, row), row);
  }

  /** In scalar mode every column reads the same value: all null, or all that value. */
  lemma ScalarModeRepeatsValue(conv: Converter, v: Value)
    requires conv.isScalar
    ensures ObjectToRow(conv, v).Ok?
    ensures forall c :: 0 <= c < |conv.colnames| ==> ObjectToRow(conv, v).value[c] == ToColumn(v)
  {
  }
}
