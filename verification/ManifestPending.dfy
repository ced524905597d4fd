/** Where the reader looks for the waiting list: behind its name, or behind a value of the policies taken for it. */
module ManifestPending {
  import opened Wrappers
  import opened CText
  import opened AccessRules
  import opened ManifestText
  import opened ManifestRoundTrip
  import opened ManifestReload

  // ---------- no value is taken for the name ----------

  /** No value of the policies is taken for the name of the other array. */
  ghost predicate NoneHits(ps: seq<PolicyEntry>, k: string) {
    forall i, j :: 0 <= i < |ps| && 0 <= j < 5 ==> !Hit(PolicyAsEntry(ps[i]).fields[j].val, k)
  }

  lemma AfterPolicyEntry(p: PolicyEntry, rest: string, k: string)
    requires PlainKey(k) && Delimited("}" + rest) && !IsRequestKey(k) && k != "policy"
    requires forall j :: 0 <= j < 5 ==> !Hit(PolicyAsEntry(p).fields[j].val, k)
    ensures After(EntryThen(PolicyAsEntry(p), rest), Needle(k)) == After(rest, Needle(k))
  {
    hide After, Hit, Needle, FieldsThen, Source;
    PolicyFields(p);
    var ps := PolicyAsEntry(p).fields;
    AfterSteps("{", FieldsThen(ps, "}" + rest), k);
    AfterFields(ps, "}" + rest, k);
    AfterSteps("}", rest, k);
  }

  lemma PendingText(m: Manifest)
    ensures AfterPolicies(m) ==
      ",\n  " + QuotedThen("pending", ": [" + (Inside(PendingEntries(m.pending), true) + ("]" + "\n}\n")))
  {
    hide QuotedThen, PendingEntries;
    ListAppend(PendingEntries(m.pending), true, "\n  ", "]" + "\n}\n");
    assert "\n  " + ("]" + "\n}\n") == "\n  ]\n}\n";
  }

  // ---------- a value is taken for it, but no bracket follows ----------

  /** All fields of the policies, in the order they are printed. */
  ghost function AllFields(ps: seq<PolicyEntry>): seq<Pair> {
    if ps == [] then [] else PolicyAsEntry(ps[0]).fields + AllFields(ps[1..])
  }

  ghost predicate BracketFree(fs: seq<Pair>) { forall i :: 0 <= i < |fs| ==> '[' !in fs[i].val }

  /** Behind a value that is taken for the name of the waiting list no other value of the policies holds an opening
      bracket, so the array found is the waiting list all the same. */
  ghost predicate PendingInSight(ps: seq<PolicyEntry>) {
    var fs := AllFields(ps);
    forall i :: 0 <= i < |fs| && Hit(fs[i].val, "pending") ==> BracketFree(fs[i + 1..])
  }

  lemma BracketFreeParts(a: seq<Pair>, b: seq<Pair>)
    requires BracketFree(a + b)
    ensures BracketFree(a) && BracketFree(b)
  {
    forall i | 0 <= i < |a| ensures '[' !in a[i].val { assert (a + b)[i] == a[i]; }
    forall i | 0 <= i < |b| ensures '[' !in b[i].val { assert (a + b)[|a| + i] == b[i]; }
  }

  lemma BehindField(fs: seq<Pair>, rest: seq<Pair>, i: nat)
    requires i < |fs|
    ensures (fs + rest)[i + 1..] == fs[i + 1..] + rest
  {
  }

  lemma {:induction false} BracketSkipped(x: string, y: string)
    requires '[' !in x
    ensures FromChar(x + y, '[') == FromChar(y, '[')
  {
    if x == "" {
      assert x + y == y;
    } else {
      assert (x + y)[0] == x[0] && (x + y)[1..] == x[1..] + y;
      assert x[0] in x;
      BracketSkipped(x[1..], y);
    }
  }

  lemma EscapeHasNoBracket(c: char)
    requires c != '['
    ensures '[' !in EscChar(c)
  {
  }

  lemma {:induction false} BracketBehindValue(v: string, rest: string)
    requires '[' !in v
    ensures FromChar(EscThen(v, rest), '[') == FromChar(rest, '[')
  {
    hide EscChar, FromChar;
    if v != "" {
      assert v[0] in v;
      EscapeHasNoBracket(v[0]);
      BracketSkipped(EscChar(v[0]), EscThen(v[1..], rest));
      BracketBehindValue(v[1..], rest);
    }
  }

  lemma BracketBehindQuoted(v: string, rest: string)
    requires '[' !in v
    ensures FromChar(QuotedThen(v, rest), '[') == FromChar(rest, '[')
  {
    hide EscThen, FromChar;
    BracketSkipped("\"", EscThen(v, "\"" + rest));
    BracketBehindValue(v, "\"" + rest);
    BracketSkipped("\"", rest);
  }

  lemma {:induction false} BracketBehindFields(fs: seq<Pair>, rest: string)
    requires PlainKeys(fs) && BracketFree(fs)
    ensures FromChar(FieldsThen(fs, rest), '[') == FromChar(rest, '[')
  {
    hide QuotedThen, FromChar;
    if fs != [] {
      var tail := if |fs| == 1 then rest else "," + FieldsThen(fs[1..], rest);
      assert '[' !in fs[0].key;
      BracketBehindQuoted(fs[0].key, ":" + QuotedThen(fs[0].val, tail));
      BracketSkipped(":", QuotedThen(fs[0].val, tail));
      BracketBehindQuoted(fs[0].val, tail);
      if |fs| > 1 {
        BracketSkipped(",", FieldsThen(fs[1..], rest));
        BracketBehindFields(fs[1..], rest);
      }
    }
  }

  lemma {:induction false} BracketBehindList(ps: seq<PolicyEntry>, first: bool, rest: string)
    requires BracketFree(AllFields(ps))
    ensures FromChar(ListThen(PolicyEntries(ps), first, rest), '[') == FromChar(rest, '[')
  {
    hide FromChar, FieldsThen, PolicyEntries, PolicyAsEntry;
    PolicyEntriesStep(ps);
    if ps != [] {
      var fs, sep := PolicyAsEntry(ps[0]).fields, if first then "\n    " else ",\n    ";
      var tail := ListThen(PolicyEntries(ps[1..]), false, rest);
      PolicyShape(ps[0]);
      assert forall i :: 0 <= i < |fs| ==> fs[i] == AllFields(ps)[i];
      assert forall i :: 0 <= i < |AllFields(ps[1..])| ==> AllFields(ps[1..])[i] == AllFields(ps)[|fs| + i];
      BracketSkipped(sep, "{" + FieldsThen(fs, "}" + tail));
      BracketSkipped("{", FieldsThen(fs, "}" + tail));
      BracketBehindFields(fs, "}" + tail);
      BracketSkipped("}", tail);
      BracketBehindList(ps[1..], false, rest);
    }
  }

  lemma PolicyShape(p: PolicyEntry)
    ensures PlainKeys(PolicyAsEntry(p).fields) && PolicyAsEntry(p).number.None? && |PolicyAsEntry(p).fields| == 5
    ensures forall j :: 0 <= j < 5 ==> PolicyAsEntry(p).fields[j].key != "pending"
  {
    PolicyFields(p);
  }

  /** In an entry with a value taken for the name: what is found behind it, if the values behind it have no bracket. */
  lemma FoundBehindHit(p: PolicyEntry, tail: string, i: nat)
    requires Delimited("}" + tail) && i == FirstHit(PolicyAsEntry(p).fields, "pending") < |PolicyAsEntry(p).fields|
    requires PlainKey("pending") && BracketFree(PolicyAsEntry(p).fields[i + 1..])
    ensures var r := After(EntryThen(PolicyAsEntry(p), tail), Needle("pending"));
      r.Some? && FromChar(r.value, '[') == FromChar(tail, '[')
  {
    hide After, Needle, FieldsThen, FromChar, PolicyAsEntry, FirstHit, PlainKey;
    PolicyShape(p);
    var fs := PolicyAsEntry(p).fields;
    AfterSteps("{", FieldsThen(fs, "}" + tail), "pending");
    AfterFields(fs, "}" + tail, "pending");
    BracketSkipped("}", tail);
    if i + 1 < |fs| {
      BracketSkipped(",", FieldsThen(fs[i + 1..], "}" + tail));
      BracketBehindFields(fs[i + 1..], "}" + tail);
    }
  }

  /** Searching the policies for the name of the waiting list: past them, or at a value behind which the next bracket
      is that of the rest. */
  lemma {:induction false} SearchPolicies(ps: seq<PolicyEntry>, first: bool, rest: string)
    requires PlainKey("pending") && Delimited("}" + rest) && PendingInSight(ps)
    ensures var r := After(ListThen(PolicyEntries(ps), first, rest), Needle("pending"));
      r == After(rest, Needle("pending")) || (r.Some? && FromChar(r.value, '[') == FromChar(rest, '['))
  {
    hide After, Needle, EntryThen, PolicyEntries, PolicyAsEntry, FromChar, Hit, PlainKey;
    PolicyEntriesStep(ps);
    if ps != [] {
      var fs, sep := PolicyAsEntry(ps[0]).fields, if first then "\n    " else ",\n    ";
      var tail := ListThen(PolicyEntries(ps[1..]), false, rest);
      PolicyShape(ps[0]);
      SightOfRest(ps);
      AfterSteps(sep, EntryThen(PolicyAsEntry(ps[0]), tail), "pending");
      var i := FirstHit(fs, "pending");
      if i < |fs| {
        FoundBehindHit(ps[0], tail, i);
        BracketBehindList(ps[1..], false, rest);
      } else {
        OnlyRequestKeys();
        AfterPolicyEntry(ps[0], tail, "pending");
        SearchPolicies(ps[1..], false, rest);
      }
    }
  }

  lemma OnlyRequestKeys()
    ensures !IsRequestKey("pending") && "pending" != "policy" && "pending" != "policies"
  {
    assert |"pending"| == 7 && |"policy"| == 6 && |"policies"| == 8;
  }

  lemma SightOfRest(ps: seq<PolicyEntry>)
    requires ps != [] && PendingInSight(ps)
    ensures PendingInSight(ps[1..])
    ensures var fs := PolicyAsEntry(ps[0]).fields; var i := FirstHit(fs, "pending");
      i < |fs| && fs[i].key != "pending" ==> BracketFree(fs[i + 1..]) && BracketFree(AllFields(ps[1..]))
  {
    hide Hit, PolicyAsEntry;
    var fs, rest, all := PolicyAsEntry(ps[0]).fields, AllFields(ps[1..]), AllFields(ps);
    forall i | 0 <= i < |rest| && Hit(rest[i].val, "pending") ensures BracketFree(rest[i + 1..]) {
      assert all[|fs| + i] == rest[i] && all[|fs| + i + 1..] == rest[i + 1..];
    }
    var i := FirstHit(fs, "pending");
    if i < |fs| && fs[i].key != "pending" {
      assert all[i] == fs[i];
      BehindField(fs, rest, i);
      BracketFreeParts(fs[i + 1..], rest);
    }
  }

  /** The array the reader finds is the waiting list. */
  lemma PendingFound(m: Manifest)
    requires IsValidAgentId(m.agentId) && PendingInSight(m.policies)
    ensures FindArray(Print(m), "pending") ==
      Some((Inside(PendingEntries(m.pending), true) + ("]" + "\n}\n"), |Inside(PendingEntries(m.pending), true)|))
  {
    hide After, Needle, QuotedThen, Print, PolicyEntries, PendingEntries, Inside, ListThen, FromChar, ScanClose;
    hide AfterPolicies, AfterHeader, PendingInSight, PlainKey, IsValidAgentId, IsRequestKey, Hit;
    var es, rest := PendingEntries(m.pending), "\n  ]" + AfterPolicies(m);
    var whole := "[" + (Inside(es, true) + ("]" + "\n}\n"));
    KeysArePlain();
    OnlyRequestKeys();
    HeaderSkipped(m, "pending");
    HeaderIs(m);
    KeyHits("policies", "pending");
    SkipQuoted("policies", ": [", ListThen(PolicyEntries(m.policies), true, rest), "pending");
    SearchPolicies(m.policies, true, rest);
    NextBracket(m);
    NameReached(m);
    ArrayMeasured(es, "\n}\n");
    assert whole[1..] == Inside(es, true) + ("]" + "\n}\n");
    assert ": [" + (Inside(es, true) + ("]" + "\n}\n")) == ": " + whole;
  }

  lemma HeaderIs(m: Manifest)
    ensures AfterHeader(m)
      == QuotedThen("policies", ": [" + ListThen(PolicyEntries(m.policies), true, "\n  ]" + AfterPolicies(m)))
  {
  }

  /** Behind the policies the next bracket is that of the waiting list. */
  lemma NextBracket(m: Manifest)
    ensures FromChar("\n  ]" + AfterPolicies(m), '[') ==
      Some("[" + (Inside(PendingEntries(m.pending), true) + ("]" + "\n}\n")))
  {
    hide QuotedThen, PendingEntries, Inside, FromChar, AfterPolicies;
    var q := Inside(PendingEntries(m.pending), true) + ("]" + "\n}\n");
    PendingText(m);
    BracketSkipped("\n  ]", AfterPolicies(m));
    BracketSkipped(",\n  ", QuotedThen("pending", ": [" + q));
    BracketBehindQuoted("pending", ": [" + q);
    BracketAfterColon(q);
    assert ": [" + q == ": " + ("[" + q);
  }

  /** And so is the next place where its name stands. */
  lemma NameReached(m: Manifest)
    ensures After("\n  ]" + AfterPolicies(m), Needle("pending")) ==
      Some(": [" + (Inside(PendingEntries(m.pending), true) + ("]" + "\n}\n")))
  {
    hide After, Needle, QuotedThen, PendingEntries, Inside, AfterPolicies, PlainKey, Hit;
    var q := Inside(PendingEntries(m.pending), true) + ("]" + "\n}\n");
    KeysArePlain();
    PendingText(m);
    SkipText("\n  ]", AfterPolicies(m), "pending");
    SkipText(",\n  ", QuotedThen("pending", ": [" + q), "pending");
    HitsItself("pending");
    AfterQuoted("pending", ": [" + q, "pending");
  }

  lemma NoneHitsLater(ps: seq<PolicyEntry>)
    requires ps != [] && NoneHits(ps, "pending")
    ensures NoneHits(ps[1..], "pending")
  {
    hide Hit;
    forall i, j | 0 <= i < |ps[1..]| && 0 <= j < 5 ensures !Hit(PolicyAsEntry(ps[1..][i]).fields[j].val, "pending") {
      assert ps[1..][i] == ps[i + 1];
    }
  }

  /** When no value is taken for the name, it is in sight. */
  lemma {:induction false} NoneHitsInSight(ps: seq<PolicyEntry>)
    requires NoneHits(ps, "pending")
    ensures forall i :: 0 <= i < |AllFields(ps)| ==> !Hit(AllFields(ps)[i].val, "pending")
    ensures PendingInSight(ps)
  {
    hide Hit, PolicyAsEntry;
    if ps != [] {
      var fs := PolicyAsEntry(ps[0]).fields;
      PolicyShape(ps[0]);
      NoneHitsLater(ps);
      NoneHitsInSight(ps[1..]);
      forall i | 0 <= i < |AllFields(ps)| ensures !Hit(AllFields(ps)[i].val, "pending") {
        if i < |fs| { assert AllFields(ps)[i] == PolicyAsEntry(ps[0]).fields[i]; }
        else { assert AllFields(ps)[i] == AllFields(ps[1..])[i - |fs|]; }
      }
    }
  }
}
