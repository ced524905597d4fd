/** Chat histories brought into the role order that chat back ends accept: one system message in front, then user and
    assistant turns in alternation, beginning with the user. */
module ChatMessages {
  import opened Wrappers
  import opened CText

  datatype Result<+T> = Ok(value: T) | NoMessages

  /** A decoded JSON value.  `shown` is what str() makes of it. */
  datatype Value =
    | Str(text: string)
    | Dict(members: seq<(string, Value)>, shown: string)
    | List(items: seq<Value>, shown: string)
    | Scalar(shown: string, truthy: bool)

  datatype Role = System | User | Assistant
  datatype Message = Message(role: Role, content: string)

  // ---------- values ----------

  function Get(members: seq<(string, Value)>, key: string): Option<Value> {
    if members == [] then None else if members[0].0 == key then Some(members[0].1) else Get(members[1..], key)
  }

  predicate Truthy(v: Value) {
    match v
    case Str(s) => s != ""
    case Dict(members, _) => members != []
    case List(items, _) => items != []
    case Scalar(_, truthy) => truthy
  }

  function Shown(v: Value): string {
    if v.Str? then v.text else v.shown
  }

  /** `str(get(a) or get(b) or ... or default)` */
  function FirstTruthy(members: seq<(string, Value)>, keys: seq<string>, default: string): string {
    if keys == [] then default
    else
      var v := Get(members, keys[0]);
      if v.Some? && Truthy(v.value) then Shown(v.value) else FirstTruthy(members, keys[1..], default)
  }

  function PartText(v: Value): string {
    if v.Dict? then FirstTruthy(v.members, ["text", "input_text", "output_text"], "") else Shown(v)
  }

  function Join(separator: string, parts: seq<string>): string {
    if parts == [] then ""
    else if |parts| == 1 then parts[0]
    else Join(separator, parts[..|parts| - 1]) + separator + parts[|parts| - 1]
  }

  /** Texts of the parts that have any. */
  function PartTexts(items: seq<Value>): seq<string> {
    if items == [] then []
    else
      var t := PartText(items[|items| - 1]);
      PartTexts(items[..|items| - 1]) + (if t == "" then [] else [t])
  }

  function ContentText(v: Value): string {
    if v.List? then Join("\n", PartTexts(v.items)) else PartText(v)
  }

  /** White space that strip() takes off. */
  predicate IsWhite(c: char) {
    var n := c as int;
    || 9 <= n <= 13 || 28 <= n <= 32 || n == 0x85 || n == 0xA0 || n == 0x1680 || 0x2000 <= n <= 0x200A
    || n == 0x2028 || n == 0x2029 || n == 0x202F || n == 0x205F || n == 0x3000
  }

  function StripLeft(s: string): (r: string)
    ensures |r| <= |s|
  {
    if s != "" && IsWhite(s[0]) then StripLeft(s[1..]) else s
  }

  function StripRight(s: string): (r: string)
    ensures |r| <= |s|
  {
    if s != "" && IsWhite(s[|s| - 1]) then StripRight(s[..|s| - 1]) else s
  }

  function Strip(s: string): string { StripRight(StripLeft(s)) }

  /** Not empty, and without white space at either end. */
  predicate Clean(s: string) { s != "" && !IsWhite(s[0]) && !IsWhite(s[|s| - 1]) }

  lemma StripLeftIs(s: string)
    ensures var r := StripLeft(s);
      && (r == "" || !IsWhite(r[0])) && (s != "" && !IsWhite(s[0]) ==> r == s) && (r != "" ==> s[|s| - 1] == r[|r| - 1])
  {
  }

  lemma StripRightIs(s: string)
    ensures var r := StripRight(s);
      (r == "" || !IsWhite(r[|r| - 1])) && r <= s && (s != "" && !IsWhite(s[|s| - 1]) ==> r == s)
  {
  }

  lemma StripCleans(s: string)
    ensures Strip(s) != "" ==> Clean(Strip(s))
    ensures Clean(s) ==> Strip(s) == s
  {
    StripLeftIs(s);
    StripRightIs(StripLeft(s));
  }

  // ---------- one item ----------

  // The two texts are put together from pieces: the verifier can look through a short text for a character, but not
  // through a long one, and that no line ends in them is what ChatTheorems needs.
  const FAILED_TURN := "[assistant turn " + "failed before " + "producing content]"
  const TOO_LARGE := "context overflow" + ": prompt too " + "large for the " + "model. "
  const TRY_RESET := "try /reset (or " + "/new) to start " + "a fresh session, "
  const LARGER_CONTEXT := "or use a larger-" + "context model."
  const OVERFLOW := TOO_LARGE + TRY_RESET + LARGER_CONTEXT

  predicate IsFailed(content: string) {
    Lower(Strip(content)) == FAILED_TURN || Lower(Strip(content)) == OVERFLOW
  }

  function RoleNamed(name: string): Role {
    var role := Lower(name);
    if role == "developer" || role == "system" then System else if role == "assistant" then Assistant else User
  }

  function NormalizeRole(v: Option<Value>): Role {
    RoleNamed(if v.Some? && Truthy(v.value) then Shown(v.value) else "user")
  }

  predicate IsTool(v: Option<Value>) {
    var role := Lower(if v.Some? then Shown(v.value) else "");
    role == "tool" || role == "function"
  }

  function ToolText(name: string, content: string): string { "Tool result (" + name + "):\n" + content }

  /** What an item of the history contributes. */
  function Kept(item: Value): Option<Message> {
    match item
    case Str(s) => if Strip(s) == "" then None else Some(Message(User, Strip(s)))
    case Dict(members, _) =>
      var role := NormalizeRole(Get(members, "role"));
      var given := Get(members, "content");
      var content := Strip(if given.Some? then ContentText(given.value) else "");
      if content == "" || (role == Assistant && IsFailed(content)) then None
      else if IsTool(Get(members, "role")) then
        Some(Message(role, ToolText(FirstTruthy(members, ["name", "tool_call_id"], "tool"), content)))
      else Some(Message(role, content))
    case _ => None
  }

  function KeptAll(items: seq<Value>): seq<Message> {
    if items == [] then []
    else
      var m := Kept(items[|items| - 1]);
      KeptAll(items[..|items| - 1]) + (if m.Some? then [m.value] else [])
  }

  // ---------- the whole history ----------

  function Contents(ms: seq<Message>): (r: seq<string>)
    ensures |r| == |ms| && forall i :: 0 <= i < |ms| ==> r[i] == ms[i].content
  {
    seq(|ms|, i requires 0 <= i < |ms| => ms[i].content)
  }

  /** The messages of one role, in order. */
  function OfRole(ms: seq<Message>, role: Role): seq<Message> {
    if ms == [] then []
    else OfRole(ms[..|ms| - 1], role) + (if ms[|ms| - 1].role == role then [ms[|ms| - 1]] else [])
  }

  /** The messages that are not system messages, in order. */
  function Turns(ms: seq<Message>): (r: seq<Message>)
    ensures forall i :: 0 <= i < |r| ==> r[i].role != System
  {
    if ms == [] then []
    else Turns(ms[..|ms| - 1]) + (if ms[|ms| - 1].role == System then [] else [ms[|ms| - 1]])
  }

  /** The messages from the first user message on. */
  function FromFirstUser(ms: seq<Message>): (r: seq<Message>)
    ensures |r| <= |ms| && (r == [] || r[0].role == User)
    ensures (forall i :: 0 <= i < |ms| ==> ms[i].role != System) ==> forall i :: 0 <= i < |r| ==> r[i].role != System
  {
    if ms == [] || ms[0].role == User then ms else FromFirstUser(ms[1..])
  }

  /** Length of the run of messages of one role that `ms` begins with. */
  function RunLength(ms: seq<Message>): (n: nat)
    requires ms != []
    ensures 1 <= n <= |ms| && (n < |ms| ==> ms[n].role != ms[0].role)
    ensures forall i :: 0 <= i < n ==> ms[i].role == ms[0].role
  {
    if |ms| == 1 || ms[1].role != ms[0].role then 1
    else
      assert ms[1..][0].role == ms[0].role;
      1 + RunLength(ms[1..])
  }

  /** The first run made into one message. */
  function FirstRun(ms: seq<Message>): Message
    requires ms != []
  {
    Message(ms[0].role, Join("\n\n", Contents(ms[..RunLength(ms)])))
  }

  /** Each run of messages of one role made into one message. */
  function Merged(ms: seq<Message>): seq<Message>
    decreases |ms|
  {
    if ms == [] then [] else [FirstRun(ms)] + Merged(ms[RunLength(ms)..])
  }

  /** The system message, if any item is one. */
  function Header(kept: seq<Message>): seq<Message> {
    var parts := OfRole(kept, System);
    if parts == [] then [] else [Message(System, Join("\n\n", Contents(parts)))]
  }

  /** What a normalised history is: the system message, then the runs of what follows the first user message. */
  function Arranged(kept: seq<Message>): seq<Message> {
    Header(kept) + Merged(FromFirstUser(Turns(kept)))
  }

  function Normalized(items: seq<Value>): Result<seq<Message>> {
    var out := Arranged(KeptAll(items));
    if out == [] then NoMessages else Ok(out)
  }

  // ---------- as the server computes it ----------

  method ContentToText(v: Value) returns (text: string)
    ensures text == ContentText(v)
  {
    if !v.List? { return PartText(v); }
    var parts: seq<string> := [];
    for i := 0 to |v.items|
      invariant parts == PartTexts(v.items[..i])
    {
      assert v.items[..i + 1][..i] == v.items[..i];
      var part := PartText(v.items[i]);
      if part != "" { parts := parts + [part]; }
    }
    assert v.items[..|v.items|] == v.items;
    return Join("\n", parts);
  }

  predicate HasUser(ms: seq<Message>) { exists i :: 0 <= i < |ms| && ms[i].role == User }

  /** What one turn does to the ordered messages: a turn of the assistant before any of the user is dropped, a turn of
      the same role as the last message is added to it. */
  function AddTurn(ordered: seq<Message>, m: Message): seq<Message> {
    if m.role == Assistant && !HasUser(ordered) then ordered
    else if ordered != [] && ordered[|ordered| - 1].role == m.role then
      var last := ordered[|ordered| - 1];
      ordered[|ordered| - 1 := last.(content := last.content + "\n\n" + m.content)]
    else ordered + [m]
  }

  /** The ordered messages after a header and some turns. */
  ghost function Ordered(header: seq<Message>, ms: seq<Message>): seq<Message> {
    header + Merged(FromFirstUser(ms))
  }

  method NormalizeMessageOrder(messages: seq<Message>, systemParts: seq<string>) returns (ordered: seq<Message>)
    requires forall i :: 0 <= i < |messages| ==> messages[i].role != System
    ensures ordered ==
      (if systemParts == [] then [] else [Message(System, Join("\n\n", systemParts))]) + Merged(FromFirstUser(messages))
  {
    hide Merged, FromFirstUser, Join, HasUser, Ordered;
    ordered := if systemParts == [] then [] else [Message(System, Join("\n\n", systemParts))];
    ghost var header := ordered;
    NothingOrdered(header, messages);
    for i := 0 to |messages|
      invariant ordered == Ordered(header, messages[..i])
    {
      var message := messages[i];
      TurnAdded(header, messages[..i], message);
      assert messages[..i + 1] == messages[..i] + [message];
      if message.role == Assistant && !HasUser(ordered) { continue; }
      if ordered != [] && ordered[|ordered| - 1].role == message.role {
        var last := ordered[|ordered| - 1];
        ordered := ordered[|ordered| - 1 := last.(content := last.content + "\n\n" + message.content)];
        continue;
      }
      ordered := ordered + [message];
    }
    AllOrdered(header, messages);
  }

  lemma NothingOrdered(header: seq<Message>, ms: seq<Message>)
    ensures Ordered(header, ms[..0]) == header
  {
    NothingMerged();
  }

  lemma AllOrdered(header: seq<Message>, ms: seq<Message>)
    ensures Ordered(header, ms[..|ms|]) == header + Merged(FromFirstUser(ms))
  {
    assert ms[..|ms|] == ms;
  }

  lemma HasUserIff(header: seq<Message>, ms: seq<Message>)
    requires forall i :: 0 <= i < |header| ==> header[i].role == System
    ensures HasUser(header + Merged(FromFirstUser(ms))) <==> FromFirstUser(ms) != []
  {
    hide RunLength, Join, FromFirstUser;
    var kept := FromFirstUser(ms);
    var all := header + Merged(kept);
    if kept != [] { assert all[|header|] == Merged(kept)[0] && Merged(kept)[0].role == User; }
  }

  lemma TurnAdded(header: seq<Message>, ms: seq<Message>, m: Message)
    requires forall i :: 0 <= i < |header| ==> header[i].role == System
    requires m.role != System && forall i :: 0 <= i < |ms| ==> ms[i].role != System
    ensures AddTurn(Ordered(header, ms), m) == Ordered(header, ms + [m])
  {
    hide Merged, FromFirstUser, HasUser;
    HasUserIff(header, ms);
    OneMoreTurn(ms, m);
    NothingMerged();
    var before := FromFirstUser(ms);
    MergeOne(before, m);
    if before != [] {
      MergedLast(before);
      var all := header + Merged(before);
      assert all[|all| - 1] == Merged(before)[|Merged(before)| - 1];
    }
  }

  method NormalizeChatMessages(value: seq<Value>) returns (r: Result<seq<Message>>)
    ensures r == Normalized(value)
  {
    hide Kept, KeptAll, Join, Merged, FromFirstUser;
    assert KeptAll(value[..0]) == [] by { NothingKept(value); }
    var messages: seq<Message>, systemParts: seq<string> := [], [];
    for i := 0 to |value|
      invariant messages == Turns(KeptAll(value[..i]))
      invariant systemParts == Contents(OfRole(KeptAll(value[..i]), System))
    {
      KeptStep(value, i);
      var kept := KeepItem(value[i]);
      if kept.None? { continue; }
      OneMoreKept(KeptAll(value[..i]), kept.value);
      if kept.value.role == System {
        systemParts := systemParts + [kept.value.content];
      } else {
        messages := messages + [kept.value];
      }
    }
    assert value[..|value|] == value;
    var ordered := NormalizeMessageOrder(messages, systemParts);
    r := if ordered != [] then Ok(ordered) else NoMessages;
  }

  method KeepItem(item: Value) returns (kept: Option<Message>)
    ensures kept == Kept(item)
  {
    if item.Str? {
      var content := Strip(item.text);
      return if content != "" then Some(Message(User, content)) else None;
    }
    if !item.Dict? { return None; }
    var role := NormalizeRole(Get(item.members, "role"));
    var given := Get(item.members, "content");
    var text := ContentToText(if given.Some? then given.value else Str(""));
    var content := Strip(text);
    if content == "" && role == Assistant { return None; }
    if role == Assistant && IsFailed(content) { return None; }
    if content == "" { return None; }
    if IsTool(Get(item.members, "role")) {
      content := ToolText(FirstTruthy(item.members, ["name", "tool_call_id"], "tool"), content);
    }
    return Some(Message(role, content));
  }

  lemma KeptStep(items: seq<Value>, i: nat)
    requires i < |items|
    ensures KeptAll(items[..i + 1])
      == KeptAll(items[..i]) + (if Kept(items[i]).Some? then [Kept(items[i]).value] else [])
    ensures Kept(items[i]).None? ==> KeptAll(items[..i + 1]) == KeptAll(items[..i])
  {
    hide Kept;
    assert items[..i + 1][..i] == items[..i];
  }

  lemma NothingKept(items: seq<Value>)
    ensures KeptAll(items[..0]) == []
  {
  }

  lemma NothingMerged()
    ensures FromFirstUser([]) == [] && Merged([]) == []
  {
  }

  lemma OneMoreKept(ms: seq<Message>, m: Message)
    ensures Turns(ms + [m]) == Turns(ms) + (if m.role == System then [] else [m])
    ensures Contents(OfRole(ms + [m], System))
      == Contents(OfRole(ms, System)) + (if m.role == System then [m.content] else [])
  {
    assert (ms + [m])[..|ms|] == ms;
  }

  lemma {:induction false} OneMoreTurn(ms: seq<Message>, m: Message)
    ensures FromFirstUser(ms + [m]) ==
      if FromFirstUser(ms) == [] && m.role != User then [] else FromFirstUser(ms) + [m]
  {
    if ms == [] {
      assert [m][1..] == [];
    } else if ms[0].role != User {
      OneMoreTurn(ms[1..], m);
      assert (ms + [m])[1..] == ms[1..] + [m];
    }
  }

  lemma {:induction false} RunGrows(ms: seq<Message>, m: Message)
    requires ms != []
    ensures RunLength(ms + [m]) == if RunLength(ms) == |ms| && m.role == ms[0].role then |ms| + 1 else RunLength(ms)
  {
    if |ms| > 1 && ms[1].role == ms[0].role {
      RunGrows(ms[1..], m);
      assert (ms + [m])[1..] == ms[1..] + [m];
    } else if |ms| == 1 {
      assert (ms + [m])[1..] == [m];
    }
  }

  /** One more message joins the last run or starts a new one. */
  lemma {:induction false} MergeOne(ms: seq<Message>, m: Message)
    ensures Merged(ms + [m]) ==
      if ms != [] && ms[|ms| - 1].role == m.role then AddToLast(ms, m.content) else Merged(ms) + [m]
    decreases |ms|
  {
    hide RunLength, Join, Merged, Contents, FirstRun;
    if ms == [] {
      OneMessage(m);
      NothingMerged();
    } else {
      var n := RunLength(ms);
      if n < |ms| {
        MergeOne(ms[n..], m);
        LaterRun(ms, m);
        MergedLast(ms[n..]);
        assert ms[n..][|ms[n..]| - 1] == ms[|ms| - 1];
      } else {
        LastRun(ms, m);
        assert ms[|ms| - 1].role == ms[0].role;
      }
    }
  }

  /** The first of several runs stays as it is when a message is added. */
  lemma LaterRun(ms: seq<Message>, m: Message)
    requires ms != [] && RunLength(ms) < |ms|
    ensures var rest := ms[RunLength(ms)..];
      Merged(ms + [m]) == [FirstRun(ms)] + Merged(rest + [m]) && Merged(ms) == [FirstRun(ms)] + Merged(rest)
  {
    hide RunLength, Merged, FirstRun;
    var n := RunLength(ms);
    RunGrows(ms, m);
    FirstRunStays(ms, m);
    MergedUnfolds(ms);
    MergedUnfolds(ms + [m]);
    DropAppended(ms, m, n);
  }

  lemma DropAppended(ms: seq<Message>, m: Message, n: nat)
    requires n <= |ms|
    ensures (ms + [m])[n..] == ms[n..] + [m]
  {
  }

  lemma MergedUnfolds(ms: seq<Message>)
    requires ms != []
    ensures Merged(ms) == [FirstRun(ms)] + Merged(ms[RunLength(ms)..])
  {
    hide RunLength, FirstRun;
  }

  lemma FirstRunStays(ms: seq<Message>, m: Message)
    requires ms != [] && RunLength(ms) < |ms|
    ensures FirstRun(ms + [m]) == FirstRun(ms)
  {
    RunGrows(ms, m);
    hide RunLength, Join, Contents;
    assert (ms + [m])[..RunLength(ms)] == ms[..RunLength(ms)];
  }

  /** The merged messages with `text` added to the last of them. */
  ghost function AddToLast(ms: seq<Message>, text: string): seq<Message>
    requires ms != []
  {
    MergedLast(ms);
    var merged := Merged(ms);
    var last := merged[|merged| - 1];
    merged[|merged| - 1 := last.(content := last.content + "\n\n" + text)]
  }

  lemma OneMessage(m: Message)
    ensures Merged([] + [m]) == [m]
  {
    assert [] + [m] == [m];
    assert Contents([m][..1]) == [m.content];
  }

  lemma {:induction false} MergedLast(ms: seq<Message>)
    requires ms != []
    ensures Merged(ms) != [] && Merged(ms)[|Merged(ms)| - 1].role == ms[|ms| - 1].role
    decreases |ms|
  {
    hide RunLength, Join;
    var n := RunLength(ms);
    if n < |ms| {
      MergedLast(ms[n..]);
    } else {
      assert ms[n..] == [] && Merged(ms[n..]) == [];
    }
  }

  lemma JoinGrows(ms: seq<Message>, m: Message)
    requires ms != []
    ensures Join("\n\n", Contents(ms + [m])) == Join("\n\n", Contents(ms)) + "\n\n" + m.content
  {
    assert Contents(ms + [m])[..|ms|] == Contents(ms);
  }

  lemma OneRun(ms: seq<Message>)
    requires ms != [] && RunLength(ms) == |ms|
    ensures Merged(ms) == [Message(ms[0].role, Join("\n\n", Contents(ms)))]
  {
    hide RunLength, Join;
    assert ms[..|ms|] == ms && ms[|ms|..] == [];
    assert Merged([]) == [];
  }

  lemma LastRun(ms: seq<Message>, m: Message)
    requires ms != [] && RunLength(ms) == |ms|
    ensures m.role == ms[0].role ==>
      Merged(ms + [m]) == [Message(m.role, Join("\n\n", Contents(ms)) + "\n\n" + m.content)]
    ensures m.role != ms[0].role ==> Merged(ms + [m]) == Merged(ms) + [m]
    ensures Merged(ms) == [Message(ms[0].role, Join("\n\n", Contents(ms)))]
  {
    hide RunLength, Join;
    RunGrows(ms, m);
    OneRun(ms);
    if m.role == ms[0].role {
      OneRun(ms + [m]);
      JoinGrows(ms, m);
    } else {
      OneMessage(m);
      assert (ms + [m])[..|ms|] == ms && (ms + [m])[|ms|..] == [] + [m];
    }
  }
}
