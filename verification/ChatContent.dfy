/** What text the items of a history contribute: the parts of a content value, the roles they are given, and the results
    of tools. */
module ChatContent {
  import opened Wrappers
  import opened CText
  import opened ChatMessages
  import opened ChatTheorems

  // ---------- the text of one part ----------

  lemma {:induction false} GetFirst(members: seq<(string, Value)>, key: string, i: nat)
    requires i < |members| && members[i].0 == key && forall j :: 0 <= j < i ==> members[j].0 != key
    ensures Get(members, key) == Some(members[i].1)
  {
    if i > 0 {
      assert members[1..][i - 1] == members[i];
      forall j | 0 <= j < i - 1 ensures members[1..][j].0 != key { assert members[1..][j] == members[j + 1]; }
      GetFirst(members[1..], key, i - 1);
    }
  }

  lemma {:induction false} GetNone(members: seq<(string, Value)>, key: string)
    requires forall j :: 0 <= j < |members| ==> members[j].0 != key
    ensures Get(members, key) == None
  {
    if members != [] {
      forall j | 0 <= j < |members| - 1 ensures members[1..][j].0 != key { assert members[1..][j] == members[j + 1]; }
      GetNone(members[1..], key);
    }
  }

  /** The member is there and not empty. */
  ghost predicate Given(members: seq<(string, Value)>, key: string) {
    Get(members, key).Some? && Truthy(Get(members, key).value)
  }

  /** What part of a content value is read: its "text", or else its "input_text", or else its "output_text". */
  lemma PartIs(members: seq<(string, Value)>, shown: string)
    ensures var text := PartText(Dict(members, shown));
      && (Given(members, "text") ==> text == Shown(Get(members, "text").value))
      && (!Given(members, "text") && Given(members, "input_text") ==> text == Shown(Get(members, "input_text").value))
      && (!Given(members, "text") && !Given(members, "input_text") ==>
            text == if Given(members, "output_text") then Shown(Get(members, "output_text").value) else "")
  {
    hide Get, Truthy, Shown;
    var keys := ["text", "input_text", "output_text"];
    FirstOf(members, keys, "");
    FirstOf(members, ["input_text", "output_text"], "");
    FirstOf(members, ["output_text"], "");
    FirstOf(members, [], "");
    assert keys[1..] == ["input_text", "output_text"] && keys[1..][1..] == ["output_text"];
  }

  lemma FirstOf(members: seq<(string, Value)>, keys: seq<string>, default: string)
    ensures keys == [] ==> FirstTruthy(members, keys, default) == default
    ensures keys != [] && Given(members, keys[0]) ==>
      FirstTruthy(members, keys, default) == Shown(Get(members, keys[0]).value)
    ensures keys != [] && !Given(members, keys[0]) ==>
      FirstTruthy(members, keys, default) == FirstTruthy(members, keys[1..], default)
  {
    hide Get, Truthy, Shown;
  }

  // ---------- the text of a list of parts ----------

  /** Texts one below the other. */
  function Lines(texts: seq<string>): string {
    if texts == [] then "" else if |texts| == 1 then texts[0] else texts[0] + "\n" + Lines(texts[1..])
  }

  lemma {:induction false} JoinFromFront(separator: string, first: string, rest: seq<string>)
    requires rest != []
    ensures Join(separator, [first] + rest) == first + separator + Join(separator, rest)
  {
    var all := [first] + rest;
    var n := |rest| - 1;
    assert all[..n + 1] == [first] + rest[..n] && all[n + 1] == rest[n];
    if n == 0 {
      assert all[..1] == [first];
    } else {
      JoinFromFront(separator, first, rest[..n]);
    }
  }

  lemma {:induction false} JoinIsLines(texts: seq<string>)
    ensures Join("\n", texts) == Lines(texts)
  {
    if |texts| > 1 {
      JoinFromFront("\n", texts[0], texts[1..]);
      JoinIsLines(texts[1..]);
      assert texts == [texts[0]] + texts[1..];
    }
  }

  /** A part with a text: the text itself, or an object that has it. */
  ghost predicate IsTextPart(v: Value, text: string) {
    text != "" && (v == Str(text) || (v.Dict? && Get(v.members, "text") == Some(Str(text))))
  }

  /** A part without any. */
  ghost predicate IsBlankPart(v: Value) {
    || v == Str("")
    || (v.Dict? && !Given(v.members, "text") && !Given(v.members, "input_text") && !Given(v.members, "output_text"))
  }

  lemma TextOfPart(v: Value, text: string)
    ensures IsTextPart(v, text) ==> PartText(v) == text
    ensures IsBlankPart(v) ==> PartText(v) == ""
  {
    if v.Dict? { PartIs(v.members, v.shown); }
    hide Get;
  }

  /** The items are the given texts, in order, among parts without text. */
  ghost predicate AreTexts(items: seq<Value>, texts: seq<string>)
    decreases |items|
  {
    if items == [] then texts == []
    else
      || (IsBlankPart(items[0]) && AreTexts(items[1..], texts))
      || (texts != [] && IsTextPart(items[0], texts[0]) && AreTexts(items[1..], texts[1..]))
  }

  lemma {:induction false} PartTextsConcat(a: seq<Value>, b: seq<Value>)
    ensures PartTexts(a + b) == PartTexts(a) + PartTexts(b)
  {
    hide PartText;
    if b == [] {
      assert a + b == a;
    } else {
      var n := |b| - 1;
      PartTextsConcat(a, b[..n]);
      assert (a + b)[..|a| + n] == a + b[..n];
    }
  }

  lemma {:induction false} PartTextsAre(items: seq<Value>, texts: seq<string>)
    requires AreTexts(items, texts)
    ensures PartTexts(items) == texts
  {
    hide IsTextPart, IsBlankPart, PartText;
    if items != [] {
      var v := items[0];
      assert items == [v] + items[1..];
      PartTextsConcat([v], items[1..]);
      OnePart(v);
      if IsBlankPart(v) && AreTexts(items[1..], texts) {
        TextOfPart(v, "");
        PartTextsAre(items[1..], texts);
      } else {
        TextOfPart(v, texts[0]);
        PartNotEmpty(v, texts[0]);
        PartTextsAre(items[1..], texts[1..]);
        assert texts == [texts[0]] + texts[1..];
      }
    }
  }

  lemma PartNotEmpty(v: Value, text: string)
    requires IsTextPart(v, text)
    ensures text != ""
  {
  }

  lemma OnePart(v: Value)
    ensures PartTexts([v]) == if PartText(v) == "" then [] else [PartText(v)]
  {
    hide PartText;
    assert [v][..0] == [] && PartTexts([]) == [];
  }

  /** The text of a list of parts: their texts one below the other, whatever parts without text are among them. */
  lemma ContentIsLines(items: seq<Value>, texts: seq<string>, shown: string)
    requires AreTexts(items, texts)
    ensures ContentText(List(items, shown)) == Lines(texts)
  {
    hide PartTexts, AreTexts, Join;
    PartTextsAre(items, texts);
    JoinIsLines(texts);
  }

  /** An empty text, object or list is as good as none. */
  lemma EmptyIsNotGiven(members: seq<(string, Value)>, key: string, shown: string)
    requires Get(members, key) in {Some(Str("")), Some(Dict([], shown)), Some(List([], shown))}
    ensures !Given(members, key)
  {
  }

  // ---------- whole items ----------

  /** The role of an item, from its name: "developer" is "system", and what is none of the three is "user". */
  ghost predicate NamesRole(v: Option<Value>, role: Role) {
    match role
    case System => v.Some? && v.value.Str? && Lower(v.value.text) in {"system", "developer"}
    case Assistant => v.Some? && v.value.Str? && Lower(v.value.text) == "assistant"
    case User => v.None? || (v.value.Str? && Lower(v.value.text) !in {"system", "developer", "assistant"})
  }

  /** A tool's item names it. */
  ghost predicate NamesTool(v: Option<Value>) {
    v.Some? && v.value.Str? && Lower(v.value.text) in {"tool", "function"}
  }

  lemma RoleIs(v: Option<Value>, role: Role)
    requires NamesRole(v, role)
    ensures NormalizeRole(v) == role && (IsTool(v) <==> NamesTool(v))
    ensures NamesTool(v) ==> role == User
  {
    RoleWords();
    LowerOfNothing();
    RoleLengths();
  }

  lemma RoleLengths()
    ensures |"tool"| == 4 && |"function"| == 8 && |"system"| == 6 && |"developer"| == 9 && |"assistant"| == 9
    ensures |"user"| == 4 && "developer"[0] == 'd' && "assistant"[0] == 'a'
  {
  }

  lemma LowerOfNothing()
    ensures Lower("") == "" && Lower("user") == "user"
  {
    assert forall i :: 0 <= i < 4 ==> LowerChar("user"[i]) == "user"[i];
  }

  /** What an item contributes, from its fields: nothing without text, the text without white space around it under its
      role, and for a tool the text under a heading with the tool's name. */
  lemma ItemContributes(members: seq<(string, Value)>, shown: string, role: Role, text: string)
    requires NamesRole(Get(members, "role"), role)
    requires Get(members, "content").Some? && ContentText(Get(members, "content").value) == text
    ensures var kept, content := Kept(Dict(members, shown)), Strip(text);
      && (content == "" ==> kept == None)
      && (content != "" && NamesTool(Get(members, "role")) ==>
            kept == Some(Message(User, "Tool result (" + ToolName(members) + "):\n" + content)))
      && (content != "" && role == Assistant && IsFailed(content) ==> kept == None)
      && (content != "" && !NamesTool(Get(members, "role")) && (role == Assistant ==> !IsFailed(content)) ==>
            kept == Some(Message(role, content)))
  {
    hide Get, ContentText, Strip, NormalizeRole, IsTool, NamesRole, NamesTool, IsFailed;
    RoleIs(Get(members, "role"), role);
    ToolNameIs(members);
  }

  /** The name of a tool, or else the id of its call, or else "tool". */
  ghost function ToolName(members: seq<(string, Value)>): string {
    if Given(members, "name") then Shown(Get(members, "name").value)
    else if Given(members, "tool_call_id") then Shown(Get(members, "tool_call_id").value)
    else "tool"
  }

  lemma ToolNameIs(members: seq<(string, Value)>)
    ensures FirstTruthy(members, ["name", "tool_call_id"], "tool") == ToolName(members)
  {
    hide Get, Truthy, Shown, FirstTruthy;
    var keys := ["name", "tool_call_id"];
    FirstOf(members, keys, "tool");
    FirstOf(members, ["tool_call_id"], "tool");
    FirstOf(members, [], "tool");
    assert keys[1..] == ["tool_call_id"] && ["tool_call_id"][1..] == [];
  }

  /** A turn of the assistant that only says that it failed is dropped, in any case and with white space around it. */
  lemma FailedIsDropped(members: seq<(string, Value)>, shown: string, text: string)
    requires NamesRole(Get(members, "role"), Assistant)
    requires Get(members, "content").Some? && ContentText(Get(members, "content").value) == text
    requires Lower(Strip(text)) == FAILED_TURN || Lower(Strip(text)) == OVERFLOW
    ensures Kept(Dict(members, shown)) == None
  {
    StripCleans(text);
    RestIsStripped(text);
    hide Get, ContentText, Strip, NamesRole, FAILED_TURN, OVERFLOW;
    ItemContributes(members, shown, Assistant, text);
  }

  lemma RestIsStripped(text: string)
    ensures Strip(Strip(text)) == Strip(text)
  {
    StripCleans(text);
    StripCleans(Strip(text));
    hide Strip;
    if Strip(text) == "" { NothingStripped(); }
  }

  lemma NothingStripped()
    ensures Strip("") == ""
  {
  }

  // ---------- one user turn ----------

  lemma OneKept(item: Value)
    ensures KeptAll([item]) == if Kept(item).Some? then [Kept(item).value] else []
  {
    hide Kept;
    assert [item][..0] == [] && KeptAll([]) == [];
  }

  lemma OneUserMessage(m: Message)
    requires m.role == User
    ensures Arranged([m]) == [m]
  {
    InOrderIsArranged([m]);
  }

  /** A history of one user turn is that turn, its parts one below the other without white space around them. */
  lemma OneTurn(members: seq<(string, Value)>, shown: string, items: seq<Value>, list: string, texts: seq<string>)
    requires NamesRole(Get(members, "role"), User) && !NamesTool(Get(members, "role"))
    requires Get(members, "content") == Some(List(items, list)) && AreTexts(items, texts)
    ensures Normalized([Dict(members, shown)]) ==
      if Strip(Lines(texts)) == "" then NoMessages else Ok([Message(User, Strip(Lines(texts)))])
  {
    hide Get, ContentText, Strip, NamesRole, NamesTool, AreTexts, Kept, KeptAll, Arranged, Lines;
    ContentIsLines(items, texts, list);
    ItemContributes(members, shown, User, Lines(texts));
    OneKept(Dict(members, shown));
    NothingArrangedOfNothing();
    if Strip(Lines(texts)) != "" { OneUserMessage(Message(User, Strip(Lines(texts)))); }
  }

  lemma NothingArrangedOfNothing()
    ensures Arranged([]) == []
  {
    NothingMerged();
    NothingOfNothing(System);
    assert Turns([]) == [];
  }

  /** The same for a turn that is just a text. */
  lemma OneString(text: string)
    ensures Normalized([Str(text)]) == if Strip(text) == "" then NoMessages else Ok([Message(User, Strip(text))])
  {
    hide Strip, KeptAll, Arranged;
    OneKept(Str(text));
    NothingArrangedOfNothing();
    if Strip(text) != "" { OneUserMessage(Message(User, Strip(text))); }
  }
}
