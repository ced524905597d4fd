/** What normalising a chat history guarantees. */
module ChatTheorems {
  import opened Wrappers
  import opened CText
  import opened ChatMessages

  // ---------- role order ----------

  /** At most one system message, in front; then user and assistant in turn, the user first. */
  ghost predicate InRoleOrder(ms: seq<Message>) {
    var h := if ms != [] && ms[0].role == System then 1 else 0;
    forall i :: h <= i < |ms| ==> ms[i].role == if (i - h) % 2 == 0 then User else Assistant
  }

  ghost predicate NoSystem(ms: seq<Message>) { forall i :: 0 <= i < |ms| ==> ms[i].role != System }

  /** Neighbours differ in their roles. */
  ghost predicate Alternating(ms: seq<Message>) { forall i :: 0 < i < |ms| ==> ms[i].role != ms[i - 1].role }

  lemma {:induction false} MergedAlternates(ms: seq<Message>)
    requires NoSystem(ms)
    ensures NoSystem(Merged(ms)) && Alternating(Merged(ms))
    ensures ms != [] ==> Merged(ms) != [] && Merged(ms)[0].role == ms[0].role
    decreases |ms|
  {
    hide RunLength, FirstRun;
    if ms == [] {
      NothingMerged();
    } else {
      hide Merged;
      var rest := ms[RunLength(ms)..];
      MergedUnfolds(ms);
      FirstRunRole(ms);
      MergedAlternates(rest);
      assert rest != [] ==> rest[0].role != ms[0].role;
      if rest == [] { NothingMerged(); }
    }
  }

  lemma FirstRunRole(ms: seq<Message>)
    requires ms != []
    ensures FirstRun(ms).role == ms[0].role
  {
  }

  lemma {:induction false} TurnsTakeTurns(ms: seq<Message>, i: nat)
    requires NoSystem(ms) && Alternating(ms) && i < |ms| && ms[0].role == User
    ensures ms[i].role == if i % 2 == 0 then User else Assistant
  {
    if i > 0 { TurnsTakeTurns(ms, i - 1); }
  }

  lemma ArrangedInRoleOrder(kept: seq<Message>)
    ensures InRoleOrder(Arranged(kept))
  {
    hide Merged, OfRole, Turns, FromFirstUser, Join;
    var turns := FromFirstUser(Turns(kept));
    MergedAlternates(turns);
    if turns == [] { NothingMerged(); }
    var merged := Merged(turns);
    forall i | 0 <= i < |merged|
      ensures merged[i].role == if i % 2 == 0 then User else Assistant
    {
      TurnsTakeTurns(merged, i);
    }
    var h := |Header(kept)|;
    assert forall i :: h <= i < |Arranged(kept)| ==> Arranged(kept)[i] == merged[i - h];
  }

  // ---------- no text is lost ----------

  /** All text of one role. */
  ghost function AllText(ms: seq<Message>, role: Role): string { Join("\n\n", Contents(OfRole(ms, role))) }

  lemma {:induction false} OfRoleConcat(a: seq<Message>, b: seq<Message>, role: Role)
    ensures OfRole(a + b, role) == OfRole(a, role) + OfRole(b, role)
  {
    if b == [] {
      assert a + b == a;
    } else {
      OfRoleConcat(a, b[..|b| - 1], role);
      assert (a + b)[..|a + b| - 1] == a + b[..|b| - 1];
    }
  }

  lemma {:induction false} OfRoleUniform(ms: seq<Message>, role: Role, one: Role)
    requires forall i :: 0 <= i < |ms| ==> ms[i].role == one
    ensures OfRole(ms, role) == if role == one then ms else []
  {
    if ms != [] { OfRoleUniform(ms[..|ms| - 1], role, one); }
  }

  lemma {:induction false} JoinConcat(a: seq<string>, b: seq<string>)
    requires a != [] && b != []
    ensures Join("\n\n", a + b) == Join("\n\n", a) + "\n\n" + Join("\n\n", b)
  {
    assert (a + b)[..|a + b| - 1] == a + b[..|b| - 1];
    if |b| > 1 {
      JoinConcat(a, b[..|b| - 1]);
    } else {
      assert a + b[..|b| - 1] == a;
    }
  }

  /** Text of two parts of a history. */
  lemma TextConcat(a: seq<Message>, b: seq<Message>, role: Role)
    ensures OfRole(a, role) == [] ==> AllText(a + b, role) == AllText(b, role)
    ensures OfRole(b, role) == [] ==> AllText(a + b, role) == AllText(a, role)
    ensures OfRole(a, role) != [] && OfRole(b, role) != [] ==>
      AllText(a + b, role) == AllText(a, role) + "\n\n" + AllText(b, role)
  {
    hide OfRole, Join;
    OfRoleConcat(a, b, role);
    var x, y := OfRole(a, role), OfRole(b, role);
    assert Contents(x + y) == Contents(x) + Contents(y);
    if x == [] {
      assert x + y == y;
    } else if y == [] {
      assert x + y == x;
    } else {
      JoinConcat(Contents(x), Contents(y));
    }
  }

  lemma OneMessageText(m: Message, role: Role)
    ensures OfRole([m], role) == if m.role == role then [m] else []
    ensures m.role == role ==> AllText([m], role) == m.content
  {
    assert [m][..0] == [];
    assert OfRole([m], role) == if m.role == role then [m] else [];
    hide OfRole;
    assert Contents([m]) == [m.content];
  }

  lemma FirstRunText(ms: seq<Message>, role: Role)
    requires ms != []
    ensures var run := ms[..RunLength(ms)];
      && (OfRole([FirstRun(ms)], role) == [] <==> OfRole(run, role) == [])
      && AllText([FirstRun(ms)], role) == AllText(run, role)
  {
    hide RunLength, Join, OfRole;
    var run := ms[..RunLength(ms)];
    OfRoleUniform(run, role, ms[0].role);
    OneMessageText(FirstRun(ms), role);
  }

  /** Merging keeps the text of each role. */
  lemma {:induction false} MergedKeepsText(ms: seq<Message>, role: Role)
    ensures AllText(Merged(ms), role) == AllText(ms, role)
    ensures OfRole(Merged(ms), role) == [] <==> OfRole(ms, role) == []
    decreases |ms|
  {
    hide RunLength, FirstRun, AllText, OfRole, Merged;
    NothingMerged();
    if ms != [] {
      var n := RunLength(ms);
      var run, rest := ms[..n], ms[n..];
      MergedKeepsText(rest, role);
      FirstRunText(ms, role);
      MergedUnfolds(ms);
      TextConcat([FirstRun(ms)], Merged(rest), role);
      TextConcat(run, rest, role);
      OfRoleConcat([FirstRun(ms)], Merged(rest), role);
      OfRoleConcat(run, rest, role);
      assert run + rest == ms;
    }
  }

  lemma {:induction false} TurnsOfRole(kept: seq<Message>, role: Role)
    ensures OfRole(Turns(kept), role) == if role == System then [] else OfRole(kept, role)
  {
    if kept != [] {
      var before, last := kept[..|kept| - 1], kept[|kept| - 1];
      TurnsOfRole(before, role);
      if last.role != System {
        assert Turns(kept)[..|Turns(before)|] == Turns(before);
      } else {
        assert Turns(kept) == Turns(before);
      }
    }
  }

  lemma {:induction false} FirstUserKeepsUsers(ms: seq<Message>)
    ensures OfRole(FromFirstUser(ms), User) == OfRole(ms, User)
  {
    if ms != [] && ms[0].role != User {
      FirstUserKeepsUsers(ms[1..]);
      assert ms == [ms[0]] + ms[1..];
      OfRoleConcat([ms[0]], ms[1..], User);
      OneMessageText(ms[0], User);
    }
  }

  lemma {:induction false} NothingOfSystem(ms: seq<Message>)
    requires NoSystem(ms)
    ensures OfRole(ms, System) == []
  {
    if ms != [] { NothingOfSystem(ms[..|ms| - 1]); }
  }

  /** Role by role, the text of the normalised history is the text kept from the input, in its order; of the assistant,
      what follows the first user message. */
  lemma TextIsKept(kept: seq<Message>)
    ensures AllText(Arranged(kept), System) == AllText(kept, System)
    ensures AllText(Arranged(kept), User) == AllText(kept, User)
    ensures AllText(Arranged(kept), Assistant) == AllText(FromFirstUser(Turns(kept)), Assistant)
  {
    hide Merged, OfRole, Turns, FromFirstUser, Join, AllText;
    var turns := FromFirstUser(Turns(kept));
    var header := Header(kept);
    HeaderText(kept);
    TextConcat(header, Merged(turns), System);
    TextConcat(header, Merged(turns), User);
    TextConcat(header, Merged(turns), Assistant);
    MergedKeepsText(turns, User);
    MergedKeepsText(turns, Assistant);
    MergedAlternates(turns);
    NothingOfSystem(Merged(turns));
    FirstUserKeepsUsers(Turns(kept));
    TurnsOfRole(kept, User);
    assert AllText(turns, User) == AllText(kept, User) by { SameText(turns, kept, User); }
  }

  lemma SameText(a: seq<Message>, b: seq<Message>, role: Role)
    requires OfRole(a, role) == OfRole(b, role)
    ensures AllText(a, role) == AllText(b, role)
  {
  }

  lemma HeaderText(kept: seq<Message>)
    ensures AllText(Header(kept), System) == AllText(kept, System)
    ensures OfRole(Header(kept), User) == [] && OfRole(Header(kept), Assistant) == []
  {
    hide Join, OfRole;
    var parts := OfRole(kept, System);
    if parts == [] {
      NothingOfNothing(System);
      NothingOfNothing(User);
      NothingOfNothing(Assistant);
    } else {
      var m := Message(System, Join("\n\n", Contents(parts)));
      assert Header(kept) == [m];
      OneMessageText(m, System);
      OneMessageText(m, User);
      OneMessageText(m, Assistant);
    }
  }

  // ---------- normalising again ----------

  /** A message that is kept as it is. */
  ghost predicate Presentable(m: Message) { Clean(m.content) && !(m.role == Assistant && IsFailed(m.content)) }

  ghost predicate AllPresentable(ms: seq<Message>) { forall i :: 0 <= i < |ms| ==> Presentable(ms[i]) }

  lemma ToolTextClean(name: string, content: string)
    requires Clean(content)
    ensures Clean(ToolText(name, content))
  {
    var t := ToolText(name, content);
    assert t[0] == 'T';
    assert t[|t| - 1] == content[|content| - 1];
  }

  lemma RoleWords()
    ensures RoleNamed("user") == User && RoleNamed("assistant") == Assistant && RoleNamed("system") == System
    ensures !IsTool(Some(Str("user"))) && !IsTool(Some(Str("assistant"))) && !IsTool(Some(Str("system")))
  {
    assert Lower("user") == "user" && Lower("assistant") == "assistant" && Lower("system") == "system";
  }

  lemma ToolsAreUsers(v: Option<Value>)
    requires IsTool(v)
    ensures NormalizeRole(v) == User
  {
    assert |Lower("user")| == 4 && Lower("user") == "user";
  }

  lemma KeptIsPresentable(item: Value)
    requires Kept(item).Some?
    ensures Presentable(Kept(item).value)
  {
    hide Strip, IsFailed, NormalizeRole, IsTool, Clean, ContentText, FirstTruthy, ToolText;
    match item {
      case Str(s) => StripCleans(s);
      case Dict(members, _) =>
        var given := Get(members, "content");
        var text := if given.Some? then ContentText(given.value) else "";
        StripCleans(text);
        if IsTool(Get(members, "role")) {
          ToolsAreUsers(Get(members, "role"));
          ToolTextClean(FirstTruthy(members, ["name", "tool_call_id"], "tool"), Strip(text));
        }
      case _ =>
    }
  }

  lemma {:induction false} KeptArePresentable(items: seq<Value>)
    ensures AllPresentable(KeptAll(items))
  {
    hide Kept, Presentable;
    if items != [] {
      KeptArePresentable(items[..|items| - 1]);
      if Kept(items[|items| - 1]).Some? { KeptIsPresentable(items[|items| - 1]); }
    }
  }

  lemma {:induction false} JoinClean(parts: seq<string>)
    requires parts != [] && forall i :: 0 <= i < |parts| ==> Clean(parts[i])
    ensures Clean(Join("\n\n", parts))
    ensures |parts| > 1 ==> '\n' in Join("\n\n", parts)
  {
    if |parts| > 1 {
      var front, last := Join("\n\n", parts[..|parts| - 1]), parts[|parts| - 1];
      JoinClean(parts[..|parts| - 1]);
      var all := front + "\n\n" + last;
      assert all[0] == front[0] && all[|all| - 1] == last[|last| - 1];
      assert all[|front|] == '\n';
    }
  }

  lemma FailedTurnIsOneLine()
    ensures '\n' !in FAILED_TURN
  {
    assert '\n' !in "[assistant turn " && '\n' !in "failed before " && '\n' !in "producing content]";
  }

  lemma TooLargeIsOneLine()
    ensures '\n' !in TOO_LARGE
  {
    assert '\n' !in "context overflow" && '\n' !in ": prompt too " && '\n' !in "large for the " && '\n' !in "model. ";
  }

  lemma TryResetIsOneLine()
    ensures '\n' !in TRY_RESET
  {
    assert '\n' !in "try /reset (or " && '\n' !in "/new) to start " && '\n' !in "a fresh session, ";
  }

  lemma LargerContextIsOneLine()
    ensures '\n' !in LARGER_CONTEXT
  {
    assert '\n' !in "or use a larger-" && '\n' !in "context model.";
  }

  lemma OverflowIsOneLine()
    ensures '\n' !in OVERFLOW
  {
    TooLargeIsOneLine();
    TryResetIsOneLine();
    LargerContextIsOneLine();
    hide TOO_LARGE, TRY_RESET, LARGER_CONTEXT;
  }

  /** A text of several lines is not one of the messages of a failed turn. */
  lemma SeveralLinesAreNotFailed(content: string)
    requires Clean(content) && '\n' in content
    ensures !IsFailed(content)
  {
    StripCleans(content);
    FailedTurnIsOneLine();
    OverflowIsOneLine();
    var i :| 0 <= i < |content| && content[i] == '\n';
    assert Lower(content)[i] == '\n';
    hide Strip;
  }

  lemma MergedIsPresentable(run: seq<Message>)
    requires run != [] && AllPresentable(run) && forall i :: 0 <= i < |run| ==> run[i].role == run[0].role
    ensures Presentable(Message(run[0].role, Join("\n\n", Contents(run))))
  {
    hide IsFailed, Clean;
    JoinClean(Contents(run));
    if |run| > 1 {
      SeveralLinesAreNotFailed(Join("\n\n", Contents(run)));
    } else {
      assert Presentable(run[0]);
    }
  }

  lemma {:induction false} AllMergedPresentable(ms: seq<Message>)
    requires AllPresentable(ms)
    ensures AllPresentable(Merged(ms))
    decreases |ms|
  {
    hide RunLength, Presentable, Join;
    if ms != [] {
      AllMergedPresentable(ms[RunLength(ms)..]);
      MergedIsPresentable(ms[..RunLength(ms)]);
    }
  }

  lemma {:induction false} PartsPresentable(ms: seq<Message>)
    requires AllPresentable(ms)
    ensures AllPresentable(OfRole(ms, System)) && AllPresentable(Turns(ms))
    ensures forall i :: 0 <= i < |OfRole(ms, System)| ==> OfRole(ms, System)[i].role == System
  {
    hide Presentable;
    if ms != [] { PartsPresentable(ms[..|ms| - 1]); }
  }

  lemma {:induction false} RestPresentable(ms: seq<Message>)
    requires AllPresentable(ms)
    ensures AllPresentable(FromFirstUser(ms))
  {
    hide Presentable;
    if ms != [] { RestPresentable(ms[1..]); }
  }

  lemma ArrangedPresentable(kept: seq<Message>)
    requires AllPresentable(kept)
    ensures AllPresentable(Arranged(kept))
  {
    hide Presentable, Merged, OfRole, Turns, FromFirstUser, Join;
    PartsPresentable(kept);
    RestPresentable(Turns(kept));
    AllMergedPresentable(FromFirstUser(Turns(kept)));
    if OfRole(kept, System) != [] { MergedIsPresentable(OfRole(kept, System)); }
  }

  function RoleName(role: Role): string {
    match role case System => "system" case User => "user" case Assistant => "assistant"
  }

  /** A normalised message as an item of a history. */
  function ToItem(m: Message): Value {
    Dict([("role", Str(RoleName(m.role))), ("content", Str(m.content))], "")
  }

  function ToItems(ms: seq<Message>): (r: seq<Value>)
    ensures |r| == |ms| && forall i :: 0 <= i < |ms| ==> r[i] == ToItem(ms[i])
  {
    seq(|ms|, i requires 0 <= i < |ms| => ToItem(ms[i]))
  }

  lemma Fields(m: Message)
    ensures var members := [("role", Str(RoleName(m.role))), ("content", Str(m.content))];
      Get(members, "role") == Some(Str(RoleName(m.role))) && Get(members, "content") == Some(Str(m.content))
  {
    var members := [("role", Str(RoleName(m.role))), ("content", Str(m.content))];
    assert members[1..] == [("content", Str(m.content))];
  }

  lemma ItemIsKept(m: Message)
    requires Presentable(m)
    ensures Kept(ToItem(m)) == Some(m)
  {
    Fields(m);
    RoleWords();
    StripCleans(m.content);
    hide Get, Strip, IsFailed, RoleNamed, IsTool;
  }

  lemma {:induction false} ItemsAreKept(ms: seq<Message>)
    requires AllPresentable(ms)
    ensures KeptAll(ToItems(ms)) == ms
  {
    hide Presentable, Kept, ToItem;
    if ms != [] {
      ItemsAreKept(ms[..|ms| - 1]);
      ItemIsKept(ms[|ms| - 1]);
      assert ToItems(ms)[..|ms| - 1] == ToItems(ms[..|ms| - 1]);
    }
  }

  lemma {:induction false} AlternatingIsMerged(ms: seq<Message>)
    requires Alternating(ms)
    ensures Merged(ms) == ms
  {
    if ms != [] {
      var rest := ms[1..];
      assert Alternating(rest);
      AlternatingIsMerged(rest);
      hide Merged;
      assert RunLength(ms) == 1;
      MergedUnfolds(ms);
      hide RunLength;
      assert Contents(ms[..1]) == [ms[0].content];
      assert FirstRun(ms) == ms[0];
    }
  }

  lemma {:induction false} TurnsOfTurns(ms: seq<Message>)
    requires NoSystem(ms)
    ensures Turns(ms) == ms
  {
    if ms != [] {
      TurnsOfTurns(ms[..|ms| - 1]);
      assert ms == ms[..|ms| - 1] + [ms[|ms| - 1]];
    }
  }

  lemma {:induction false} TurnsConcat(a: seq<Message>, b: seq<Message>)
    requires NoSystem(b) && forall i :: 0 <= i < |a| ==> a[i].role == System
    ensures Turns(a + b) == b
  {
    if b == [] {
      assert a + b == a;
      if a != [] { TurnsConcat(a[..|a| - 1], []); }
      if a != [] { assert a[..|a| - 1] + [] == a[..|a| - 1]; }
    } else {
      TurnsConcat(a, b[..|b| - 1]);
      assert (a + b)[..|a + b| - 1] == a + b[..|b| - 1];
    }
  }

  lemma InOrderParts(header: seq<Message>, turns: seq<Message>)
    requires |header| <= 1 && (header != [] ==> header[0].role == System)
    requires NoSystem(turns) && Alternating(turns) && (turns != [] ==> turns[0].role == User)
    ensures Arranged(header + turns) == header + turns
  {
    hide OfRole, Turns, Join, Merged;
    OfRoleConcat(header, turns, System);
    NothingOfSystem(turns);
    OfRoleUniform(header, System, System);
    assert OfRole(header + turns, System) == header;
    TurnsConcat(header, turns);
    AlternatingIsMerged(turns);
    hide Alternating, NoSystem;
    assert FromFirstUser(turns) == turns;
    hide FromFirstUser;
    HeaderOfOne(header);
  }

  lemma HeaderOfOne(header: seq<Message>)
    requires |header| <= 1 && (header != [] ==> header[0].role == System)
    ensures header == if header == [] then [] else [Message(System, Join("\n\n", Contents(header)))]
  {
    if header != [] { assert Contents(header) == [header[0].content]; }
  }

  lemma TurnsInOrder(ms: seq<Message>, h: nat)
    requires InRoleOrder(ms) && h == if ms != [] && ms[0].role == System then 1 else 0
    ensures NoSystem(ms[h..]) && Alternating(ms[h..]) && (ms[h..] != [] ==> ms[h..][0].role == User)
  {
    var turns := ms[h..];
    forall i | 0 <= i < |turns| ensures turns[i].role == if i % 2 == 0 then User else Assistant {
      assert turns[i] == ms[i + h] && (i + h) - h == i;
    }
  }

  /** Messages already in role order are arranged as they are. */
  lemma InOrderIsArranged(ms: seq<Message>)
    requires InRoleOrder(ms)
    ensures Arranged(ms) == ms
  {
    hide Arranged, InRoleOrder, Alternating, NoSystem;
    var h := if ms != [] && ms[0].role == System then 1 else 0;
    TurnsInOrder(ms, h);
    assert ms == ms[..h] + ms[h..];
    InOrderParts(ms[..h], ms[h..]);
  }

  /** Messages that can be kept come out unchanged exactly when there are any and they are in role order. */
  lemma UnchangedIff(ms: seq<Message>)
    requires AllPresentable(ms)
    ensures Normalized(ToItems(ms)) == Ok(ms) <==> ms != [] && InRoleOrder(ms)
  {
    hide InRoleOrder, Presentable, Arranged;
    ItemsAreKept(ms);
    ArrangedInRoleOrder(ms);
    if InRoleOrder(ms) { InOrderIsArranged(ms); }
  }

  /** The result of normalising is in role order, all of it can be kept, and normalising it again changes nothing. */
  lemma NormalizedTwice(items: seq<Value>)
    requires Normalized(items).Ok?
    ensures var ms := Normalized(items).value;
      InRoleOrder(ms) && AllPresentable(ms) && Normalized(ToItems(ms)) == Ok(ms)
  {
    hide InRoleOrder, AllPresentable, Arranged, KeptAll;
    var kept := KeptAll(items);
    KeptArePresentable(items);
    ArrangedInRoleOrder(kept);
    ArrangedPresentable(kept);
    UnchangedIff(Arranged(kept));
  }

  lemma OnlyAssistants(kept: seq<Message>)
    requires forall i :: 0 <= i < |kept| ==> kept[i].role == Assistant
    ensures Arranged(kept) == []
  {
    hide OfRole, Turns, FromFirstUser, Join, Merged;
    OfRoleUniform(kept, System, Assistant);
    OfRoleUniform(kept, User, Assistant);
    FirstUserKeepsUsers(Turns(kept));
    TurnsOfRole(kept, User);
    var turns := FromFirstUser(Turns(kept));
    assert turns == [] by {
      if turns != [] { NothingOfRole(turns, User, 0); }
    }
    NothingMerged();
    assert Header(kept) == [];
  }

  lemma NothingArranged(kept: seq<Message>, i: nat)
    requires Arranged(kept) == [] && i < |kept|
    ensures kept[i].role == Assistant
  {
    hide OfRole, Turns, FromFirstUser, Join, Merged;
    var turns := FromFirstUser(Turns(kept));
    assert Header(kept) == [] && Merged(turns) == [];
    MergedAlternates(turns);
    assert turns == [];
    FirstUserKeepsUsers(Turns(kept));
    TurnsOfRole(kept, User);
    NothingOfNothing(User);
    NothingOfRole(kept, User, i);
    NothingOfRole(kept, System, i);
  }

  ghost predicate AllAssistant(ms: seq<Message>) { forall i :: 0 <= i < |ms| ==> ms[i].role == Assistant }

  /** There is nothing to send exactly when only assistant messages are kept. */
  lemma NoMessagesIff(items: seq<Value>)
    ensures Normalized(items).NoMessages? <==> AllAssistant(KeptAll(items))
  {
    hide Arranged, KeptAll;
    var kept := KeptAll(items);
    if Arranged(kept) == [] {
      forall i | 0 <= i < |kept| ensures kept[i].role == Assistant { NothingArranged(kept, i); }
    } else if AllAssistant(kept) {
      OnlyAssistants(kept);
    }
  }

  lemma NothingOfNothing(role: Role)
    ensures OfRole([], role) == []
  {
  }

  lemma {:induction false} SomethingOfRole(ms: seq<Message>, i: nat)
    requires i < |ms|
    ensures OfRole(ms, ms[i].role) != []
  {
    var front, role := ms[..|ms| - 1], ms[i].role;
    if i < |ms| - 1 {
      SomethingOfRole(front, i);
      assert front[i] == ms[i];
    }
    assert |OfRole(ms, role)| >= |OfRole(front, role)|;
    assert ms[|ms| - 1].role == role ==> |OfRole(ms, role)| > 0;
  }

  lemma NothingOfRole(ms: seq<Message>, role: Role, i: nat)
    requires OfRole(ms, role) == [] && i < |ms|
    ensures ms[i].role != role
  {
    SomethingOfRole(ms, i);
  }
}
