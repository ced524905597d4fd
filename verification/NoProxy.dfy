/** The list of hosts that bypass the proxy: scanned in place by the sandbox, split and stripped by the command line. */
module NoProxy {
  import opened CText
  import opened CommaLists
  import C = ChatMessages

  const BUFFER_SIZE: nat := 512

  function SkipSpaces(s: string): (r: string)
    ensures |r| <= |s|
    ensures r == "" || r[0] != ' '
  {
    if s != "" && s[0] == ' ' then SkipSpaces(s[1..]) else s
  }

  function DropSpaces(s: string): (r: string)
    ensures r <= s && (r == "" || r[|r| - 1] != ' ')
  {
    if s != "" && s[|s| - 1] == ' ' then DropSpaces(s[..|s| - 1]) else s
  }

  /** Without the spaces at its ends. */
  function TrimSpaces(s: string): string { DropSpaces(SkipSpaces(s)) }

  /** The entries of a list. */
  function Entries(value: string): seq<string> { Items(Split(value), TrimSpaces) }

  // ---------- the scan ----------

  lemma EntriesOfNothing()
    ensures Entries("") == []
  {
    assert Split("") == [""];
    assert [""][1..] == [];
  }

  lemma EntriesStep(value: string, n: nat)
    requires n == IndexOf(value, ',')
    ensures Entries(value) == Items([value[..n]], TrimSpaces) + if n == |value| then [] else Entries(value[n + 1..])
  {
    hide IndexOf;
    if n == |value| {
      assert value[..n] == value;
    } else {
      ItemsConcat([value[..n]], Split(value[n + 1..]), TrimSpaces);
    }
  }

  lemma OneItem(field: string)
    ensures Items([field], TrimSpaces) == if TrimSpaces(field) == "" then [] else [TrimSpaces(field)]
  {
    assert [field][1..] == [];
  }

  /** Skipping a separator loses no entry. */
  lemma SeparatorSkipped(value: string)
    requires value != "" && (value[0] == ' ' || value[0] == ',')
    ensures Entries(value) == Entries(value[1..])
  {
    hide Items, Split;
    var n := IndexOf(value, ',');
    EntriesStep(value, n);
    OneItem(value[..n]);
    if value[0] == ',' {
      assert value[..0] == "" && TrimSpaces("") == "";
    } else {
      assert IndexOf(value[1..], ',') == n - 1;
      EntriesStep(value[1..], n - 1);
      OneItem(value[1..][..n - 1]);
      assert value[..n][1..] == value[1..][..n - 1];
      assert value[1..][n - 1..] == value[n..];
      assert n < |value| ==> value[1..][n..] == value[n + 1..];
    }
  }

  /** The entry that a list not beginning with a separator begins with, and the rest. */
  lemma EntryTaken(value: string, n: nat, entry: string)
    requires value != "" && value[0] != ' ' && value[0] != ',' && n == IndexOf(value, ',')
    requires entry == DropSpaces(value[..n])
    ensures entry != "" && Entries(value) == [entry] + Entries(value[n..])
  {
    hide Items, Split, IndexOf;
    EntriesStep(value, n);
    OneItem(value[..n]);
    FirstStays(value[..n]);
    assert SkipSpaces(value[..n]) == value[..n];
    if n == |value| {
      EntriesOfNothing();
      assert value[n..] == "";
    } else {
      SeparatorSkipped(value[n..]);
      assert value[n..][1..] == value[n + 1..];
    }
  }

  lemma {:induction false} FirstStays(s: string)
    requires s != "" && s[0] != ' '
    ensures DropSpaces(s) != ""
  {
    if s[|s| - 1] == ' ' { FirstStays(s[..|s| - 1]); }
  }

  /** Whether an entry is in a list: one pass over the text, without copying it. */
  method NoProxyHasEntry(value: string, entry: string) returns (found: bool)
    ensures found <==> entry in Entries(value)
  {
    hide Entries, IndexOf, DropSpaces;
    if entry == "" {
      EntriesNotEmpty(value);
      return false;
    }
    var cursor := 0;
    assert value[0..] == value;
    while cursor < |value|
      invariant cursor <= |value|
      invariant entry in Entries(value) <==> entry in Entries(value[cursor..])
    {
      while cursor < |value| && (value[cursor] == ' ' || value[cursor] == ',')
        invariant cursor <= |value|
        invariant entry in Entries(value) <==> entry in Entries(value[cursor..])
      {
        SeparatorSkipped(value[cursor..]);
        assert value[cursor..][1..] == value[cursor + 1..];
        cursor := cursor + 1;
      }
      if cursor == |value| { break; }
      var start := cursor;
      cursor := FindComma(value, start);
      var end := DropTrailing(value, start, cursor);
      ghost var rest := value[start..];
      assert rest[..cursor - start] == value[start..cursor] && rest[cursor - start..] == value[cursor..];
      EntryTaken(rest, cursor - start, value[start..end]);
      if value[start..end] == entry { return true; }
    }
    assert value[cursor..] == "";
    EntriesOfNothing();
    return false;
  }

  method FindComma(value: string, from: nat) returns (at: nat)
    requires from < |value| && value[from] != ','
    ensures from < at <= |value| && at - from == IndexOf(value[from..], ',')
  {
    at := from;
    while at < |value| && value[at] != ','
      invariant from <= at <= |value| && IndexOf(value[from..], ',') == at - from + IndexOf(value[at..], ',')
      invariant at == from ==> value[at] != ','
    {
      assert value[at..][1..] == value[at + 1..];
      at := at + 1;
    }
  }

  method DropTrailing(value: string, from: nat, to: nat) returns (end: nat)
    requires from <= to <= |value|
    ensures from <= end <= to && value[from..end] == DropSpaces(value[from..to])
  {
    end := to;
    while end > from && value[end - 1] == ' '
      invariant from <= end <= to && DropSpaces(value[from..to]) == DropSpaces(value[from..end])
    {
      var s := value[from..end];
      assert s[|s| - 1] == ' ' && s[..|s| - 1] == value[from..end - 1];
      end := end - 1;
    }
    if end > from { assert value[from..end][end - from - 1] == value[end - 1]; }
  }

  lemma {:induction false} ItemsNotEmpty(fields: seq<string>, trim: string -> string)
    ensures "" !in Items(fields, trim)
  {
    if fields != [] { ItemsNotEmpty(fields[1..], trim); }
  }

  lemma EntriesNotEmpty(value: string)
    ensures "" !in Entries(value)
  {
    ItemsNotEmpty(Split(value), TrimSpaces);
  }

  // ---------- appending ----------

  /** The value after appending an entry: a list that would not fit the buffer stays as it is. */
  function Appended(value: string, entry: string): string {
    if value == "" then entry
    else if entry in Entries(value) then value
    else if |value| + 1 + |entry| < BUFFER_SIZE then value + "," + entry
    else value
  }

  /** An entry that is its own list. */
  ghost predicate IsEntry(entry: string) {
    entry != "" && ',' !in entry && entry[0] != ' ' && entry[|entry| - 1] != ' '
  }

  lemma EntryIsItsList(entry: string)
    requires IsEntry(entry)
    ensures Entries(entry) == [entry]
  {
    OneField(entry);
    OneItem(entry);
    hide Items, Split;
    assert SkipSpaces(entry) == entry && DropSpaces(entry) == entry;
  }

  /** Whether an entry is there already or can be added. */
  predicate HasRoom(value: string, entry: string) {
    value == "" || entry in Entries(value) || |value| + 1 + |entry| < BUFFER_SIZE
  }

  /** Appending keeps all entries in their order and adds the new one behind them, once; without room
      nothing changes. */
  lemma AppendedEntries(value: string, entry: string)
    requires IsEntry(entry)
    ensures Entries(Appended(value, entry)) ==
      Entries(value) + if entry in Entries(value) || !HasRoom(value, entry) then [] else [entry]
    ensures |value| < BUFFER_SIZE && |entry| < BUFFER_SIZE ==> |Appended(value, entry)| < BUFFER_SIZE
  {
    EntryIsItsList(entry);
    EntriesOfNothing();
    SplitConcat(value, entry);
    ItemsConcat(Split(value), Split(entry), TrimSpaces);
    hide Items, Split;
  }

  /** Appending an entry again changes nothing, whether or not there was room for it. */
  lemma AppendedTwice(value: string, entry: string)
    requires IsEntry(entry)
    ensures Appended(Appended(value, entry), entry) == Appended(value, entry)
  {
    AppendedEntries(value, entry);
    EntryIsItsList(entry);
    hide Entries;
  }

  class Environment {
    var vars: map<string, string>

    function Get(name: string): string
      reads this
    {
      if name in vars then vars[name] else ""
    }

    method AppendNoProxyEnv(name: string, entry: string)
      modifies this
      ensures vars == old(vars)[name := Appended(old(Get(name)), entry)]
    {
      hide Entries;
      var existing := Get(name);
      if existing == "" {
        vars := vars[name := entry];
        return;
      }
      var found := NoProxyHasEntry(existing, entry);
      if found { return; }
      var buffer := existing + "," + entry;
      if |buffer| < BUFFER_SIZE { vars := vars[name := buffer]; }
    }

    /** Let the local host bypass the proxy, in both spellings of the variable. */
    method ApplySandboxNoProxy()
      modifies this
      ensures vars ==
        old(vars)["NO_PROXY" := WithLocal(old(Get("NO_PROXY")))]["no_proxy" := WithLocal(old(Get("no_proxy")))]
    {
      hide Appended;
      TwoNames();
      AppendNoProxyEnv("NO_PROXY", LOOPBACK);
      AppendNoProxyEnv("NO_PROXY", LOCALHOST);
      AppendNoProxyEnv("no_proxy", LOOPBACK);
      AppendNoProxyEnv("no_proxy", LOCALHOST);
    }
  }

  lemma TwoNames()
    ensures "NO_PROXY" != "no_proxy"
  {
    assert "NO_PROXY"[0] != "no_proxy"[0];
  }

  // ---------- agreement with the command line ----------

  const LOOPBACK := "127.0.0.1"
  const LOCALHOST := "localhost"

  /** The value the sandbox leaves. */
  function WithLocal(value: string): string { Appended(Appended(value, LOOPBACK), LOCALHOST) }

  /** The entries as the command line splits and strips them. */
  function StrippedEntries(value: string): seq<string> { Items(Split(value), C.Strip) }

  function AddMissing(entries: seq<string>, entry: string): seq<string> {
    if entry in entries then entries else entries + [entry]
  }

  /** The entries the command line leaves, and their text. */
  function ListWithLocal(value: string): seq<string> {
    AddMissing(AddMissing(StrippedEntries(value), LOOPBACK), LOCALHOST)
  }

  function TextWithLocal(value: string): string { C.Join(",", ListWithLocal(value)) }

  lemma LocalEntries()
    ensures IsEntry(LOOPBACK) && IsEntry(LOCALHOST) && LOOPBACK != LOCALHOST
  {
    assert |LOOPBACK| == 9 && |LOCALHOST| == 9 && LOOPBACK[0] == '1' && LOCALHOST[0] == 'l';
  }

  /** No entry of the list begins or ends in white space other than spaces. */
  ghost predicate PlainEnds(value: string) {
    forall i :: 0 <= i < |Entries(value)| ==> C.Strip(Entries(value)[i]) == Entries(value)[i]
  }

  /** For every value, the sandbox leaves the entries that the command line leaves exactly when no entry begins or
      ends in white space other than spaces, and both entries were there or had room. */
  lemma AgreeIff(value: string)
    ensures Entries(WithLocal(value)) == ListWithLocal(value)
      <==> PlainEnds(value) && HasRoom(value, LOOPBACK) && HasRoom(Appended(value, LOOPBACK), LOCALHOST)
  {
    LocalEntries();
    var once := Appended(value, LOOPBACK);
    hide Entries, StrippedEntries, IsEntry, LOOPBACK, LOCALHOST, Appended, HasRoom, PlainEnds;
    AppendedEntries(value, LOOPBACK);
    AppendedEntries(once, LOCALHOST);
    RoomIfThere(value, once);
    if PlainEnds(value) {
      StrippedAlike(value);
      Compare(Entries(value), Entries(once), Entries(WithLocal(value)), HasRoom(value, LOOPBACK),
        HasRoom(once, LOCALHOST), LOOPBACK, LOCALHOST);
    } else {
      OtherSpaceStays(value);
    }
  }

  lemma RoomIfThere(value: string, once: string)
    ensures LOOPBACK in Entries(value) ==> HasRoom(value, LOOPBACK)
    ensures LOCALHOST in Entries(once) ==> HasRoom(once, LOCALHOST)
  {
  }

  lemma StrippedAlike(value: string)
    requires PlainEnds(value)
    ensures StrippedEntries(value) == Entries(value)
  {
    hide Split, Items, SkipSpaces, DropSpaces, C.StripLeft, C.StripRight;
    assert Entries(value) == Items(Split(value), TrimSpaces);
    ItemsStrippedAlike(Split(value));
  }

  lemma {:induction false} ItemsStrippedAlike(fields: seq<string>)
    requires forall i ::
      0 <= i < |Items(fields, TrimSpaces)| ==> C.Strip(Items(fields, TrimSpaces)[i]) == Items(fields, TrimSpaces)[i]
    ensures Items(fields, C.Strip) == Items(fields, TrimSpaces)
  {
    hide SkipSpaces, DropSpaces, C.StripLeft, C.StripRight;
    if fields != [] {
      var trimmed := TrimSpaces(fields[0]);
      StripOfTrimmed(fields[0]);
      StripNothing();
      var head, tail := Item(fields[0], TrimSpaces), Items(fields[1..], TrimSpaces);
      assert head == if trimmed == "" then [] else [trimmed];
      if trimmed != "" { assert Items(fields, TrimSpaces)[0] == trimmed; }
      assert forall i :: 0 <= i < |tail| ==> tail[i] == Items(fields, TrimSpaces)[|head| + i];
      ItemsStrippedAlike(fields[1..]);
    }
  }

  lemma StripNothing()
    ensures C.Strip("") == ""
  {
  }

  /** Taking spaces off first makes no difference to stripping. */
  lemma StripOfTrimmed(field: string)
    ensures C.Strip(TrimSpaces(field)) == C.Strip(field)
  {
    StripSkipped(field);
    var left := SkipSpaces(field);
    DropThenStripLeft(left);
    StripDropped(C.StripLeft(left));
  }

  lemma {:induction false} StripSkipped(s: string)
    ensures C.StripLeft(SkipSpaces(s)) == C.StripLeft(s)
  {
    if s != "" && s[0] == ' ' {
      assert C.IsWhite(' ');
      StripSkipped(s[1..]);
    }
  }

  lemma {:induction false} StripDropped(s: string)
    ensures C.StripRight(DropSpaces(s)) == C.StripRight(s)
  {
    if s != "" && s[|s| - 1] == ' ' {
      assert C.IsWhite(' ');
      StripDropped(s[..|s| - 1]);
    }
  }

  /** Spaces at the end and white space in front are taken off in either order. */
  lemma {:induction false} DropThenStripLeft(s: string)
    ensures C.StripLeft(DropSpaces(s)) == DropSpaces(C.StripLeft(s))
    decreases |s|
  {
    if s != "" && s[|s| - 1] == ' ' {
      var front := s[..|s| - 1];
      DropThenStripLeft(front);
      StripLeftAndSpace(front);
      assert s == front + " ";
    } else if s != "" {
      C.StripLeftIs(s);
      var r := C.StripLeft(s);
      assert r != "" ==> r[|r| - 1] == s[|s| - 1];
    }
  }

  lemma {:induction false} StripLeftAndSpace(s: string)
    ensures C.StripLeft(s + " ") == if C.StripLeft(s) == "" then "" else C.StripLeft(s) + " "
  {
    assert C.IsWhite(' ');
    if s == "" {
      assert (s + " ")[1..] == "";
    } else if C.IsWhite(s[0]) {
      assert (s + " ")[0] == s[0] && (s + " ")[1..] == s[1..] + " ";
      StripLeftAndSpace(s[1..]);
    }
  }

  /** An entry with other white space at an end is among those the sandbox leaves, and never among the
      command line's. */
  lemma OtherSpaceStays(value: string)
    requires !PlainEnds(value)
    ensures Entries(WithLocal(value)) != ListWithLocal(value)
  {
    LocalEntries();
    LocalStripped();
    hide Split, Items, IsEntry, LOOPBACK, LOCALHOST, Appended, C.Strip;
    var once, entries := Appended(value, LOOPBACK), Entries(value);
    var i :| 0 <= i < |entries| && C.Strip(entries[i]) != entries[i];
    AppendedEntries(value, LOOPBACK);
    AppendedEntries(once, LOCALHOST);
    hide HasRoom;
    assert Entries(WithLocal(value))[i] == entries[i];
    StrippedStay(Split(value));
    var listed := ListWithLocal(value);
    assert forall j :: 0 <= j < |listed| ==> C.Strip(listed[j]) == listed[j];
    assert C.Strip(Entries(WithLocal(value))[i]) != Entries(WithLocal(value))[i];
  }

  lemma LocalStripped()
    ensures C.Strip(LOOPBACK) == LOOPBACK && C.Strip(LOCALHOST) == LOCALHOST
  {
    assert |LOOPBACK| == 9 && |LOCALHOST| == 9 && LOOPBACK[0] == '1' && LOOPBACK[8] == '1' && LOCALHOST[0] == 'l'
      && LOCALHOST[8] == 't';
    C.StripCleans(LOOPBACK);
    C.StripCleans(LOCALHOST);
  }

  lemma {:induction false} StrippedStay(fields: seq<string>)
    ensures forall i ::
      0 <= i < |Items(fields, C.Strip)| ==> C.Strip(Items(fields, C.Strip)[i]) == Items(fields, C.Strip)[i]
  {
    hide C.Strip;
    if fields != [] {
      StrippedStay(fields[1..]);
      C.StripCleans(fields[0]);
      C.StripCleans(C.Strip(fields[0]));
    }
  }

  /** A value of 510 characters has no room left. */
  lemma NoRoomLeft()
    ensures Entries(WithLocal(seq(510, _ => 'a'))) != ListWithLocal(seq(510, _ => 'a'))
  {
    var long := seq(510, _ => 'a');
    EntryIsItsList(long);
    assert |LOOPBACK| == 9 && |long| == 510;
    hide Entries, WithLocal, ListWithLocal;
    AgreeIff(long);
  }

  /** An entry behind a tab is read in two ways. */
  lemma TabInFront()
    ensures Entries(WithLocal("\ta")) != ListWithLocal("\ta")
  {
    EntryIsItsList("\ta");
    TabStripped();
    hide Entries, WithLocal, ListWithLocal, C.Strip;
    assert Entries("\ta")[0] == "\ta";
    AgreeIff("\ta");
  }

  lemma TabStripped()
    ensures C.Strip("\ta") != "\ta"
  {
    assert ("\ta")[0] == '\t' && C.IsWhite('\t') && ("\ta")[1..] == "a";
    assert C.StripLeft("\ta") == C.StripLeft("a") == "a";
  }

  lemma Compare(start: seq<string>, middle: seq<string>, end: seq<string>, first: bool, second: bool, a: string,
                b: string)
    requires a != b
    requires middle == start + if a in start || !first then [] else [a]
    requires end == middle + if b in middle || !second then [] else [b]
    requires a in start ==> first
    requires b in middle ==> second
    ensures end == AddMissing(AddMissing(start, a), b) <==> first && second
  {
    var full := AddMissing(AddMissing(start, a), b);
    if !first {
      assert a !in start && a !in middle && a !in end;
      assert a in AddMissing(start, a) && a in full;
    } else if !second {
      assert middle == AddMissing(start, a);
      assert |end| == |middle| && |full| == |middle| + 1;
    } else {
      assert middle == AddMissing(start, a);
    }
  }

  /** The text the command line writes lists exactly its entries. */
  lemma {:induction false} JoinedEntries(entries: seq<string>)
    requires forall i :: 0 <= i < |entries| ==> IsEntry(entries[i])
    ensures Entries(C.Join(",", entries)) == entries
  {
    hide IsEntry, Split, Items;
    if entries == [] {
      EntriesOfNothing();
    } else {
      var front, last := entries[..|entries| - 1], entries[|entries| - 1];
      EntryIsItsList(last);
      assert entries == front + [last];
      if front != [] {
        JoinedEntries(front);
        SplitConcat(C.Join(",", front), last);
        ItemsConcat(Split(C.Join(",", front)), Split(last), TrimSpaces);
      }
    }
  }

  lemma {:induction false} StripLeftKeepsOut(s: string, c: char)
    requires c !in s
    ensures c !in C.StripLeft(s)
  {
    if s != "" { StripLeftKeepsOut(s[1..], c); }
  }

  lemma StrippedIsEntry(field: string)
    requires ',' !in field && C.Strip(field) != ""
    ensures IsEntry(C.Strip(field))
  {
    StripLeftKeepsOut(field, ',');
    C.StripRightIs(C.StripLeft(field));
    C.StripCleans(field);
    hide C.StripLeft, C.StripRight;
    assert C.IsWhite(' ');
  }

  lemma {:induction false} StrippedAreEntries(fields: seq<string>)
    requires forall i :: 0 <= i < |fields| ==> ',' !in fields[i]
    ensures forall i :: 0 <= i < |Items(fields, C.Strip)| ==> IsEntry(Items(fields, C.Strip)[i])
  {
    hide IsEntry, C.Strip;
    if fields != [] {
      StrippedAreEntries(fields[1..]);
      if C.Strip(fields[0]) != "" { StrippedIsEntry(fields[0]); }
    }
  }

  lemma {:induction false} FieldsHaveNoComma(value: string)
    ensures forall i :: 0 <= i < |Split(value)| ==> ',' !in Split(value)[i]
    decreases |value|
  {
    var n := IndexOf(value, ',');
    if n < |value| { FieldsHaveNoComma(value[n + 1..]); }
  }

  /** Reading back what the command line writes gives its entries, for every value it started from. */
  lemma TextReadsBack(value: string)
    ensures Entries(TextWithLocal(value)) == ListWithLocal(value)
  {
    LocalEntries();
    FieldsHaveNoComma(value);
    StrippedAreEntries(Split(value));
    hide IsEntry, Items, Split, LOOPBACK, LOCALHOST;
    JoinedEntries(ListWithLocal(value));
  }
}
