/** Parsed YAML as Python holds it, with the truth value Python gives it. */
module Yaml {
  import opened Bytes

  datatype Value =
    | Null
    | Bool(b: bool)
    | Num(n: int)
    | Str(s: string)
    | List(items: seq<Value>)
    | Map(fields: Fields)

  type Fields = map<Value, Value>

  predicate Truthy(v: Value) {
    match v
    case Null => false
    case Bool(b) => b
    case Num(n) => n != 0
    case Str(s) => s != ""
    case List(items) => items != []
    case Map(fields) => fields != map[]
  }

  /** `d.get(key)`. */
  function Get(fields: Fields, key: string): Value {
    if Str(key) in fields then fields[Str(key)] else Null
  }

  /** `bool(d.get(key))`. */
  predicate Has(fields: Fields, key: string) {
    Truthy(Get(fields, key))
  }

  /** `for x in v or []` where every `x` is asked `(x or {}).get(..)`: the items, or None
      when that raises. A mapping yields its keys and a text its characters; of these
      only falsy keys survive, and they hold nothing. */
  function Iterate(v: Value): Option<seq<Value>> {
    if !Truthy(v) then Some([])
    else match v
      case List(items) => Some(items)
      case Map(fields) => if forall k :: k in fields.Keys ==> !Truthy(k) then Some([]) else None
      case _ => None
  }

  /** `(entry or {}).get(key)`: None when `entry` is neither falsy nor a mapping. */
  function EntryGet(entry: Value, key: string): Option<Value> {
    if !Truthy(entry) then Some(Null)
    else if entry.Map? then Some(Get(entry.fields, key))
    else None
  }

  /** What walking a value meets: nothing for what is empty; a list's items; of a mapping
      nothing if all its keys are empty; anything else raises, numbers and texts included. */
  lemma IterateIs(v: Value)
    ensures v in {Null, Bool(false), Num(0), Str(""), List([]), Map(map[])} ==> Iterate(v) == Some([])
    ensures v.List? ==> Iterate(v) == Some(v.items)
    ensures v.Map? && (exists k :: k in v.fields && Truthy(k)) ==> Iterate(v) == None
    ensures v.Map? && (forall k :: k in v.fields ==> !Truthy(k)) ==> Iterate(v) == Some([])
    ensures (v.Str? && v.s != "") || (v.Num? && v.n != 0) || (v.Bool? && v.b) ==> Iterate(v) == None
  {
  }

  /** What an entry answers: nothing if empty, its field if a mapping; else it raises. */
  lemma EntryGetIs(entry: Value, key: string)
    ensures entry.Map? ==> EntryGet(entry, key) == Some(Get(entry.fields, key))
    ensures entry in {Null, Bool(false), Num(0), Str(""), List([])} ==> EntryGet(entry, key) == Some(Null)
    ensures (entry.Str? && entry.s != "") || (entry.List? && entry.items != []) ==> EntryGet(entry, key) == None
    ensures (entry.Num? && entry.n != 0) || (entry.Bool? && entry.b) ==> EntryGet(entry, key) == None
  {
    if entry == Map(map[]) {
      assert Get(entry.fields, key) == Null;
    }
  }
}
