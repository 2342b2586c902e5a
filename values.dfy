/** The schema-less configuration tree the listener builders emit: protobuf's
    Value (a string, number, boolean, struct or list), and the constructors
    sv, st, lv and nv of internal/envoy/listener.go.

    A Value is immutable; the constructors only ever wrap their argument in
    a new Value. What they promise is stated through the observers below,
    which read a Value back the way a serializer does. */
module Values {

  /** One protobuf Value: exactly one kind is set. Numbers are integers
      here (the weights this core emits), not float64. */
  datatype Value =
    | Null
    | Num(number: int)
    | Str(text: string)
    | Bool(flag: bool)
    | Struct(fields: map<string, Value>)
    | List(values: seq<Value>)

  datatype Option<T> = None | Some(value: T)

  // Observers: what a serializer reads back from a Value.

  /** The string payload, if v is a string value. */
  function AsString(v: Value): Option<string>
  {
    if v.Str? then Some(v.text) else None
  }

  /** The number payload, if v is a number value. */
  function AsNumber(v: Value): Option<int>
  {
    if v.Num? then Some(v.number) else None
  }

  /** The field names of v, empty unless v is a struct value. */
  function FieldNames(v: Value): set<string>
  {
    if v.Struct? then v.fields.Keys else {}
  }

  /** The value under key, if v is a struct value that has that field. */
  function Field(v: Value, key: string): Option<Value>
  {
    if v.Struct? && key in v.fields then Some(v.fields[key]) else None
  }

  /** The number of elements, 0 unless v is a list value. */
  function Length(v: Value): nat
  {
    if v.List? then |v.values| else 0
  }

  /** The i-th element, if v is a list value that long. */
  function Element(v: Value, i: nat): Option<Value>
  {
    if v.List? && i < |v.values| then Some(v.values[i]) else None
  }

  /** sv: a string value holding exactly s. */
  function Sv(s: string): (v: Value)
    ensures AsString(v) == Some(s)
    ensures AsNumber(v) == None && FieldNames(v) == {} && Length(v) == 0
  {
    Str(s)
  }

  /** nv: a number value holding exactly n. */
  function Nv(n: int): (v: Value)
    ensures AsNumber(v) == Some(n)
    ensures AsString(v) == None && FieldNames(v) == {} && Length(v) == 0
  {
    Num(n)
  }

  /** st: a struct value whose fields are exactly the entries of m. */
  function St(m: map<string, Value>): (v: Value)
    ensures v.Struct?
    ensures FieldNames(v) == m.Keys
    ensures forall key :: Field(v, key) == (if key in m then Some(m[key]) else None)
    ensures AsString(v) == None && AsNumber(v) == None && Length(v) == 0
  {
    Struct(m)
  }

  /** lv: a list value whose elements are exactly vs, in argument order. */
  function Lv(vs: seq<Value>): (v: Value)
    ensures v.List?
    ensures Length(v) == |vs|
    ensures forall i: nat :: Element(v, i) == (if i < |vs| then Some(vs[i]) else None)
    ensures AsString(v) == None && AsNumber(v) == None && FieldNames(v) == {}
  {
    List(vs)
  }
}
