/** The commands a master writes on the replication link, with the C buffers they pass through. */
module Wire {
  import opened Decimal

  /** What %s prints of a std::string's c_str(): the bytes before the first NUL. */
  function CStr(s: string): (r: string)
    ensures r <= s && '\0' !in r
    ensures r == s <==> '\0' !in s
  {
    if s == [] || s[0] == '\0' then [] else [s[0]] + CStr(s[1..])
  }

  /** snprintf into a buffer of the given size: one byte is kept for the terminator. */
  function Snprintf(size: nat, s: string): string
    requires size > 0
  {
    if |s| < size then s else s[..size - 1]
  }

  datatype Msg =
    | MsetMsg(pairs: seq<(string, string)>)
    | DelMsg(key: string)
    | SetMsg(key: string, value: string)
    | SetexMsg(key: string, ttl: nat, value: string)

  const ITEM_BUFFER: nat := 100
  const REPLY_BUFFER: nat := 300
  const HEAD_BUFFER: nat := 30
  const EXPIRE_BUFFER: nat := 20

  function ItemHeader(key: string, value: string): string {
    "$" + Dec(|key|) + "\r\n" + CStr(key) + "\r\n$" + Dec(|value|) + "\r\n"
  }

  function ItemText(key: string, value: string): string {
    Snprintf(ITEM_BUFFER, ItemHeader(key, value)) + value + "\r\n"
  }

  function ItemsText(pairs: seq<(string, string)>): string {
    if pairs == [] then ""
    else ItemsText(pairs[..|pairs| - 1]) + ItemText(pairs[|pairs| - 1].0, pairs[|pairs| - 1].1)
  }

  lemma ItemsTextSnoc(pairs: seq<(string, string)>, key: string, value: string)
    ensures ItemsText(pairs + [(key, value)]) == ItemsText(pairs) + ItemText(key, value)
  {
  }

  /** Each line followed by its line break, as the printf formats spell it out. */
  function JoinLines(lines: seq<string>): string {
    if lines == [] then "" else lines[0] + "\r\n" + JoinLines(lines[1..])
  }

  function MsetLines(num: nat): seq<string> {
    ["*" + Dec(2 * num + 1), "$4", "mset"]
  }

  function MsetHeader(num: nat): string {
    Snprintf(HEAD_BUFFER, JoinLines(MsetLines(num)))
  }

  function SetLines(key: string, value: string): seq<string> {
    ["*3", "$3", "set", "$" + Dec(|key|), CStr(key), "$" + Dec(|value|)]
  }

  function SetexLines(key: string, ttl: string, value: string): seq<string> {
    ["*4", "$5", "setex", "$" + Dec(|key|), CStr(key), "$" + Dec(|ttl|), ttl, "$" + Dec(|value|)]
  }

  function DelLines(key: string): seq<string> {
    ["*2", "$3", "del", "$" + Dec(|key|), CStr(key)]
  }

  function DelText(key: string): string {
    Snprintf(REPLY_BUFFER, JoinLines(DelLines(key)))
  }

  /** The bytes put on the link for one message. */
  function MsgText(m: Msg): string {
    match m
    case MsetMsg(pairs) => MsetHeader(|pairs|) + ItemsText(pairs)
    case DelMsg(key) => DelText(key)
    case SetMsg(key, value) => Snprintf(REPLY_BUFFER, JoinLines(SetLines(key, value))) + value + "\r\n"
    case SetexMsg(key, ttl, value) =>
      Snprintf(REPLY_BUFFER, JoinLines(SetexLines(key, Snprintf(EXPIRE_BUFFER, Dec(ttl)), value))) + value + "\r\n"
  }

  /** Keys and values as a parser gathers them. */
  type Store = map<string, string>

  /** Storing pairs in order, the last one for a key wins. */
  function PutPairs(s: Store, pairs: seq<(string, string)>): Store
    decreases |pairs|
  {
    if pairs == [] then s else PutPairs(s[pairs[0].0 := pairs[0].1], pairs[1..])
  }

  /** A stored value with its expiry second; 0 means that it never expires. */
  datatype Entry = Entry(value: string, expire: nat)

  type Db = map<string, Entry>

  function Entries(kv: Store): Db { map k | k in kv :: Entry(kv[k], 0) }

  /** What a database becomes when it executes a message in the second now. */
  function Apply(db: Db, m: Msg, now: nat): Db {
    match m
    case MsetMsg(pairs) => db + Entries(PutPairs(map[], pairs))
    case DelMsg(key) => db - {key}
    case SetMsg(key, value) => db[key := Entry(value, 0)]
    case SetexMsg(key, ttl, value) => db[key := Entry(value, now + ttl)]
  }
}
