/** The text of an access manifest: how it is printed and how the hand-written scanner looks at it.
    Printing functions take the text that follows, so that `QuotedThen(v, rest)` is a quoted `v` with `rest`
    behind it. */
module ManifestText {
  import opened Wrappers
  import opened CText
  import opened AccessRules

  // ---------- printing ----------

  /** A byte inside a JSON string. */
  function EscChar(c: char): (t: string)
    ensures t != "" && t[0] != '"'
    ensures IsPlain(c) ==> t == [c]
    ensures !IsPlain(c) ==> |t| >= 2 && t[0] == '\\' && (c == '"' || c == '\\' ==> t == ['\\', c])
    ensures forall i :: 0 <= i < |t| ==> t[i] as int >= 0x20
    ensures !IsPlain(c) ==> forall i :: 2 <= i < |t| ==> IsPlain(t[i])
    ensures c != '"' ==> forall i :: 0 <= i < |t| ==> t[i] != '"'
  {
    if c == '"' || c == '\\' then ['\\', c]
    else if c == '\n' then "\\n"
    else if c == '\r' then "\\r"
    else if c == '\t' then "\\t"
    else if c as int < 0x20 then "\\u00" + [HexDigit(c as int / 16), HexDigit(c as int % 16)]
    else [c]
  }

  /** Printed as it is. */
  predicate IsPlain(c: char) { c != '"' && c != '\\' && c as int >= 0x20 }

  function EscThen(v: string, rest: string): string {
    if v == "" then rest else EscChar(v[0]) + EscThen(v[1..], rest)
  }

  function QuotedThen(v: string, rest: string): string { "\"" + EscThen(v, "\"" + rest) }

  datatype Pair = Pair(key: string, val: string)

  /** `"k0":"v0","k1":"v1",...` and then the rest. */
  function FieldsThen(ps: seq<Pair>, rest: string): string {
    if ps == [] then rest
    else QuotedThen(ps[0].key, ":" + QuotedThen(ps[0].val, if |ps| == 1 then rest else "," + FieldsThen(ps[1..], rest)))
  }

  /** One object: string fields, and possibly a number at the end. */
  datatype Entry = Entry(fields: seq<Pair>, number: Option<(string, nat)>)

  function NumberThen(number: Option<(string, nat)>, rest: string): string {
    match number
    case None => rest
    case Some((key, n)) => "," + QuotedThen(key, ":" + Decimal(n) + rest)
  }

  function EntryThen(e: Entry, rest: string): string {
    "{" + FieldsThen(e.fields, NumberThen(e.number, "}" + rest))
  }

  function ListThen(es: seq<Entry>, first: bool, rest: string): string {
    if es == [] then rest
    else (if first then "\n    " else ",\n    ") + EntryThen(es[0], ListThen(es[1..], false, rest))
  }

  function RequestFields(r: Request): seq<Pair> {
    [Pair("kind", r.kind), Pair("subject", r.subject), Pair("method", r.method_), Pair("path", r.path)]
  }

  function PolicyAsEntry(p: PolicyEntry): Entry {
    Entry(RequestFields(p.request) + [Pair("policy", p.policy)], None)
  }

  function PendingAsEntry(w: PendingEntry): Entry {
    Entry([Pair("id", w.id)] + RequestFields(w.request), Some(("created_at", w.createdAt)))
  }

  function PolicyEntries(ps: seq<PolicyEntry>): seq<Entry> {
    seq(|ps|, i requires 0 <= i < |ps| => PolicyAsEntry(ps[i]))
  }

  function PendingEntries(ws: seq<PendingEntry>): seq<Entry> {
    seq(|ws|, i requires 0 <= i < |ws| => PendingAsEntry(ws[i]))
  }

  /** The whole file. */
  function Print(m: Manifest): string {
    "{\n  " + QuotedThen("version", ": 1,\n  "
      + QuotedThen("agent_id", ": " + QuotedThen(m.agentId, ",\n  " + AfterHeader(m))))
  }

  function AfterHeader(m: Manifest): string {
    QuotedThen("policies", ": [" + ListThen(PolicyEntries(m.policies), true, "\n  ]" + AfterPolicies(m)))
  }

  function AfterPolicies(m: Manifest): string {
    ",\n  " + QuotedThen("pending", ": [" + ListThen(PendingEntries(m.pending), true, "\n  ]\n}\n"))
  }

  // ---------- searching ----------

  /** What follows the first occurrence of a text. */
  function After(s: string, needle: string): (r: Option<string>)
    ensures r.Some? ==> |r.value| <= |s|
  {
    if needle <= s then Some(s[|needle|..]) else if s == "" then None else After(s[1..], needle)
  }

  function AfterChar(s: string, c: char): (r: Option<string>)
    ensures r.Some? ==> |r.value| < |s|
  {
    if s == "" then None else if s[0] == c then Some(s[1..]) else AfterChar(s[1..], c)
  }

  /** The text from the first `c` on. */
  function FromChar(s: string, c: char): (r: Option<string>)
    ensures r.Some? ==> r.value != "" && r.value[0] == c && |r.value| <= |s|
  {
    if s == "" then None else if s[0] == c then Some(s) else FromChar(s[1..], c)
  }

  function Needle(key: string): string { "\"" + key + "\"" }

  /** Copy up to `room` characters of a quoted value, dropping the backslash of every escape. */
  function ReadQuoted(s: string, room: nat): (r: (string, string))
    ensures |r.0| <= room
  {
    if s == "" || s[0] == '"' || room == 0 then ("", s)
    else if s[0] == '\\' && |s| > 1 then var (out, rest) := ReadQuoted(s[2..], room - 1); ([s[1]] + out, rest)
    else var (out, rest) := ReadQuoted(s[1..], room - 1); ([s[0]] + out, rest)
  }

  /** Copy a quoted value, if there is one, into a buffer of `cap` bytes that held `before`. */
  function QuotedValue(t: string, cap: nat, before: string): (r: (bool, string))
    requires cap > 0
  {
    var u := TrimLeft(t);
    if u == "" || u[0] != '"' then (false, before)
    else
      var (out, rest) := ReadQuoted(u[1..], cap - 1);
      (rest != "" && rest[0] == '"', out)
  }

  /** Look a key up and copy its value. */
  function GetString(obj: string, key: string, cap: nat, before: string): (r: (bool, string))
    requires cap > 0
  {
    match After(obj, Needle(key))
    case None => (false, before)
    case Some(s) =>
      match AfterChar(s, ':')
      case None => (false, before)
      case Some(t) => QuotedValue(t, cap, before)
  }

  /** The value of the digits a text starts with. */
  function ReadDigits(s: string, value: nat): nat {
    if s == "" || !IsDigit(s[0]) then value else ReadDigits(s[1..], value * 10 + (s[0] as int - '0' as int))
  }

  function GetNumber(obj: string, key: string): nat {
    match After(obj, Needle(key))
    case None => 0
    case Some(s) =>
      match AfterChar(s, ':')
      case None => 0
      case Some(t) => ReadDigits(TrimLeft(t), 0)
  }

  /** How much text is left from the bracket on that closes depth 1; brackets in strings do not count. */
  function ScanClose(s: string, open: char, close: char, depth: int, inString: bool, escaped: bool): (left: Option<nat>)
    ensures left.Some? ==> 0 < left.value <= |s|
  {
    if s == "" then None
    else if inString then ScanClose(s[1..], open, close, depth, escaped || s[0] != '"', !escaped && s[0] == '\\')
    else if s[0] == '"' then ScanClose(s[1..], open, close, depth, true, false)
    else if s[0] == open then ScanClose(s[1..], open, close, depth + 1, false, false)
    else if s[0] == close then
      if depth == 1 then Some(|s|) else ScanClose(s[1..], open, close, depth - 1, false, false)
    else ScanClose(s[1..], open, close, depth, false, false)
  }

  /** The text behind the opening bracket of a named array, and how much of it is inside. */
  function FindArray(json: string, name: string): (r: Option<(string, nat)>)
    ensures r.Some? ==> r.value.1 < |r.value.0|
  {
    match After(json, Needle(name))
    case None => None
    case Some(s) =>
      match FromChar(s, '[')
      case None => None
      case Some(p) =>
        match ScanClose(p, '[', ']', 0, false, false)
        case None => None
        case Some(left) => if left == |p| then None else Some((p[1..], |p| - 1 - left))
  }

  /** Where the next object starts and how long it is. */
  function NextObject(s: string, at: nat): (r: Option<(nat, nat)>)
    requires at <= |s|
    ensures r.Some? ==> at <= r.value.0 && r.value.1 > 0 && r.value.0 + r.value.1 <= |s|
    decreases |s| - at
  {
    if at == |s| then None
    else if s[at] != '{' then NextObject(s, at + 1)
    else match ScanClose(s[at..], '{', '}', 0, false, false)
      case None => None
      case Some(left) => Some((at, |s| - at - left + 1))
  }

  // ---------- what is read ----------

  function FieldOf(obj: string, key: string, size: nat): string
    requires size > 0
  {
    var (ok, value) := GetString(obj, key, PATH_SIZE, "");
    if ok then Cut(value, size) else ""
  }

  function ReadRequest(obj: string): Request {
    NormalizeRequest(Request(FieldOf(obj, "kind", KIND_SIZE), FieldOf(obj, "subject", SUBJECT_SIZE),
                             FieldOf(obj, "method", METHOD_SIZE), FieldOf(obj, "path", PATH_SIZE)))
  }

  /** `stale` is what the slot's policy field held before. */
  function ReadPolicy(obj: string, stale: string): PolicyEntry {
    PolicyEntry(ReadRequest(obj), NormalizeToken(GetString(obj, "policy", POLICY_SIZE, stale).1, POLICY_SIZE, true))
  }

  function ReadPending(obj: string, stale: string): PendingEntry {
    PendingEntry(GetString(obj, "id", ID_SIZE, stale).1, ReadRequest(obj), GetNumber(obj, "created_at"))
  }

  predicate KeepsPolicy(p: PolicyEntry) { p.request.kind != "" && p.request.subject != "" && IsPolicyValue(p.policy) }

  predicate KeepsPending(w: PendingEntry) { w.request.kind != "" && w.request.subject != "" }

  /** The entries of an array whose first `room` characters of `s` are still to be read; `free` slots are left. */
  function ReadPolicies(s: string, room: nat, free: nat, stale: string): (ps: seq<PolicyEntry>)
    requires room <= |s|
    ensures |ps| <= free
    decreases room
  {
    if room == 0 || free == 0 then []
    else match NextObject(s[..room], 0)
      case None => []
      case Some((at, len)) =>
        var p := ReadPolicy(s[at..], stale);
        if KeepsPolicy(p) then [p] + ReadPolicies(s[at + len..], room - at - len, free - 1, "")
        else ReadPolicies(s[at + len..], room - at - len, free, p.policy)
  }

  function ReadPendings(s: string, room: nat, free: nat, stale: string): (ws: seq<PendingEntry>)
    requires room <= |s|
    ensures |ws| <= free
    decreases room
  {
    if room == 0 || free == 0 then []
    else match NextObject(s[..room], 0)
      case None => []
      case Some((at, len)) =>
        var w := ReadPending(s[at..], stale);
        if KeepsPending(w) then [w] + ReadPendings(s[at + len..], room - at - len, free - 1, "")
        else ReadPendings(s[at + len..], room - at - len, free, w.id)
  }

  function LoadPolicies(json: string): seq<PolicyEntry> {
    match FindArray(json, "policies")
    case None => []
    case Some((s, room)) => ReadPolicies(s, room, MAX_POLICIES, "")
  }

  function LoadPending(json: string): seq<PendingEntry> {
    match FindArray(json, "pending")
    case None => []
    case Some((s, room)) => ReadPendings(s, room, MAX_PENDING, "")
  }

  /** Read a manifest file; `None` when it says it belongs to another agent. A missing file reads as "". */
  function Load(agentId: string, json: string): Option<Manifest> {
    var (ok, owner) := GetString(json, "agent_id", AGENT_ID_SIZE, "");
    if ok && owner != agentId then None
    else Some(Manifest(agentId, LoadPolicies(json), LoadPending(json)))
  }
}
