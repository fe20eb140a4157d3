// JSON values as `serde_json` holds them: a number is an unsigned 64-bit integer, a
// negative signed 64-bit integer, or a float.
module Json {
  import opened Common

  const TWO_63: int := 0x8000_0000_0000_0000
  const TWO_64: int := 0x1_0000_0000_0000_0000

  type PosInt = n: int | 0 <= n < TWO_64
  type NegInt = n: int | -TWO_63 <= n < 0 witness -1

  datatype Value =
    | Null
    | Bool(b: bool)
    | Unsigned(u: PosInt)
    | Negative(i: NegInt)
    | Float(r: real)
    | Str(s: string)
    | Arr(elements: seq<Value>)
    | Obj(fields: map<string, Value>)
  {
    // Looking a key up in anything but an object finds nothing.
    function Get(key: string): Option<Value> {
      if Obj? && key in fields then Some(fields[key]) else None
    }

    function AsI64(): Option<int> {
      match this
      case Unsigned(u) => if u < TWO_63 then Some(u) else None
      case Negative(i) => Some(i)
      case _ => None
    }

    function AsStr(): Option<string> {
      if Str? then Some(s) else None
    }
  }
}
