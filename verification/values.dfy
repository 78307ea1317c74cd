/** The dynamically typed values kept in the chat bot's per-user settings
    and written to the settings file, Python truthiness on them, and
    `datetime.isoformat()`. */
module Values {
  import opened Decimal

  /** A naive `datetime`. */
  datatype DateTime = DateTime(year: nat, month: nat, day: nat, hour: nat, minute: nat, second: nat,
                               microsecond: nat)

  /** A Python value of the kinds the settings hold. A dict keeps its entries
      in insertion order. */
  datatype Value =
    | VNone
    | VBool(b: bool)
    | VInt(i: int)
    | VFloat(r: real)
    | VStr(s: string)
    | VDateTime(dt: DateTime)
    | VList(items: seq<Value>)
    | VDict(entries: seq<(string, Value)>)

  /** One user's settings dict, and all users' settings keyed by the numeric
      chat id. */
  type UserSettings = map<string, Value>
  type Settings = map<int, UserSettings>

  /** `bool(v)`: empty containers, zero, `None` and `False` are false. */
  predicate Truthy(v: Value)
  {
    match v
    case VNone => false
    case VBool(b) => b
    case VInt(i) => i != 0
    case VFloat(r) => r != 0.0
    case VStr(s) => |s| > 0
    case VDateTime(_) => true
    case VList(items) => |items| > 0
    case VDict(entries) => |entries| > 0
  }

  /** `dt.isoformat()`: `YYYY-MM-DDTHH:MM:SS`, then `.ffffff` unless the
      microseconds are zero. */
  function IsoFormat(dt: DateTime): string
  {
    Pad(dt.year, 4) + "-" + Pad(dt.month, 2) + "-" + Pad(dt.day, 2) + "T"
      + Pad(dt.hour, 2) + ":" + Pad(dt.minute, 2) + ":" + Pad(dt.second, 2)
      + (if dt.microsecond == 0 then "" else "." + Pad(dt.microsecond, 6))
  }

  /** No `datetime` anywhere inside. */
  predicate NoDateTime(v: Value)
  {
    match v
    case VDateTime(_) => false
    case VList(items) => forall i | 0 <= i < |items| :: NoDateTime(items[i])
    case VDict(entries) => forall i | 0 <= i < |entries| :: NoDateTime(entries[i].1)
    case _ => true
  }
}
