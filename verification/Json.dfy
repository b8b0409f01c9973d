/** JSON values as the plugin sees them, and the text conversion it takes as given. */
module Json {
  import opened Prelude

  /** Object labels: the ones the plugin names, and any other text. */
  datatype Label =
    | PairedDevices | DeviceAddr | FriendlyName | DeviceType | LastVolumeSetting
    | AutoConnectStatus | LastConnectionTimeUTC // the AS file
    | DeviceID | Autoconnect | LastConnectTimeUtc // the persistent store's records
    | Other(name: string)

  datatype Value =
    | Null
    | Bool(b: bool)
    | Num(n: Int64)
    | Str(s: string)
    | Arr(items: seq<Value>)
    | Obj(fields: map<Label, Value>)

  /** The members of a JSON object. */
  type Fields = map<Label, Value>

  /** The JSON library: printer, parser, and the coercions its accessors apply
      when a value is not of the type asked for. Nothing is known about the
      coercions; every law below holds whatever they do. */
  datatype Text = Text(
    encode: Value -> string,
    decode: string -> Option<Value>,
    show: Value -> string,
    number: Value -> Int64,
    members: Value -> Fields)
  {
    /** Printing is undone by parsing and never prints the empty text. */
    ghost predicate Inverse() {
      forall v :: decode(encode(v)) == Some(v) && encode(v) != ""
    }

    function String(v: Value): string {
      if v.Str? then v.s else show(v)
    }

    function Number(v: Value): Int64 {
      if v.Num? then v.n else number(v)
    }

    function Object(v: Value): Fields {
      if v.Obj? then v.fields else members(v)
    }
  }

  /** `object[name]`: a missing name reads as an empty variant. */
  function Get(fields: Fields, name: Label): Value {
    if name in fields then fields[name] else Null
  }

  const ARRAY_LENGTH_LIMIT: nat := 0x1_0000

  /** The elements a loop with a 16-bit counter up to the array's 16-bit length visits. */
  function Visible(items: seq<Value>): seq<Value> {
    items[..|items| % ARRAY_LENGTH_LIMIT]
  }

  lemma AllVisible(items: seq<Value>)
    requires |items| < ARRAY_LENGTH_LIMIT
    ensures Visible(items) == items
  {
    assert items[..|items|] == items;
  }
}
