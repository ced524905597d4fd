/** Entries that do not come back from the file as they were, one for each reason. */
module ManifestInstances {
  import opened Wrappers
  import opened CText
  import opened AccessRules
  import opened ManifestText
  import opened ManifestRoundTrip
  import opened ManifestReload
  import opened ManifestTheorems

  /** Whatever an operation stores, if its normal form is not stable it is lost. */
  lemma UnstableIsLost(p: PolicyEntry)
    requires !NormalRequest(p.request)
    ensures !PolicySurvives(p)
  {
    hide Stored, NormalizeToken;
    if PolicySurvives(p) {
      PolicyFields(p);
      var fs := PolicyAsEntry(p).fields;
      assert Stored(fs[0].key, fs[0].val) == fs[0].val && Stored(fs[1].key, fs[1].val) == fs[1].val;
      assert Stored(fs[2].key, fs[2].val) == fs[2].val && Stored(fs[3].key, fs[3].val) == fs[3].val;
      StoredIsNormal(p.request);
      assert false;
    }
  }

  lemma StoredIsNormal(r: Request)
    requires Stored("kind", r.kind) == r.kind && Stored("subject", r.subject) == r.subject
    requires Stored("method", r.method_) == r.method_ && Stored("path", r.path) == r.path
    ensures NormalRequest(r)
  {
    StoredIsNormalField("kind", r.kind);
    StoredIsNormalField("subject", r.subject);
    StoredIsNormalField("method", r.method_);
    StoredIsNormalField("path", r.path);
  }

  lemma StoredIsNormalField(k: string, v: string)
    requires k != "id" && Stored(k, v) == v
    ensures NormalizeToken(v, SizeOf(k), IsLowercased(k)) == v
  {
    hide NormalizeToken, SizeOf, IsLowercased;
    StoredFits(k, v);
  }

  /** The kind that ends in a space after it has been cut. */
  lemma CutKindIsLost(policy: string)
    ensures var r := Request(seq(30, _ => 'a') + " b", "s", "", "");
      !PolicySurvives(PolicyEntry(NormalizeRequest(r), policy))
  {
    var r := Request(seq(30, _ => 'a') + " b", "s", "", "");
    SpaceLeftByCut();
    hide NormalizeToken;
    UnstableIsLost(PolicyEntry(NormalizeRequest(r), policy));
  }

  /** The control character 1 is written as an escape that is read as letters. */
  lemma ControlCharacter()
    ensures Mangle([1 as char]) == "u0001"
  {
    var c := 1 as char;
    assert EscChar(c) == "\\u0001";
    assert [c][1..] == "";
  }

  lemma ControlIsLost(r: Request, policy: string)
    requires !NoControl(r.subject)
    ensures !PolicySurvives(PolicyEntry(r, policy))
  {
    var p := PolicyEntry(r, policy);
    PolicyFields(p);
    hide NoControl;
    assert PolicyAsEntry(p).fields[1].val == r.subject;
  }

  /** A host called "path" makes the path read as the method. */
  lemma KeyIsTaken()
    ensures var p := PolicyEntry(Request("http", "path", "GET", "/x"), "ask");
      Source(PolicyAsEntry(p).fields, "path") == 2 && !PolicySurvives(p)
  {
    var p := PolicyEntry(Request("http", "path", "GET", "/x"), "ask");
    PolicyFields(p);
    var fs := PolicyAsEntry(p).fields;
    assert |"http"| == 4 && |"path"| == 4 && "http"[0] == 'h' && "path"[0] == 'p' && |"kind"| == 4 && "kind"[0] == 'k'
      && |"subject"| == 7;
    assert !Hit("http", "path") by { assert |"\"path"| == 5; }
    assert Hit("path", "path");
    assert fs[1..][0] == fs[1];
    assert FirstHit(fs[1..], "path") == 0;
    assert FirstHit(fs, "path") == 1;
    hide FirstHit, Hit;
    PathOfGet();
    assert !ReadInPlace(fs) by { assert fs[3].key == "path" && fs[2].val == "GET" && fs[3].val == "/x"; }
  }

  lemma PathOfGet()
    ensures Stored("path", "GET") != "/x"
  {
    TrimTrims("GET");
    assert Trim("GET") == "GET";
    hide Trim;
    assert |"id"| == 2 && |"path"| == 4 && |"GET"| == 3 && |"/x"| == 2;
  }

  /** What is read of an object that lacks a key: nothing for a field of the request, 0 for the time, and for policy and
      id what the slot held before, which is what the last object dropped from it left there. */
  lemma MissingFields(obj: string, stale: string)
    ensures After(obj, Needle("kind")) == None ==> ReadRequest(obj).kind == ""
    ensures After(obj, Needle("path")) == None ==> ReadRequest(obj).path == ""
    ensures After(obj, Needle("created_at")) == None ==> ReadPending(obj, stale).createdAt == 0
    ensures After(obj, Needle("policy")) == None ==>
      ReadPolicy(obj, stale).policy == NormalizeToken(stale, POLICY_SIZE, true)
    ensures After(obj, Needle("id")) == None ==> ReadPending(obj, stale).id == stale
  {
    NothingNormal();
    hide After, Needle, AfterChar, QuotedValue, NormalizeToken;
  }

  lemma NothingNormal()
    ensures NormalizeToken("", KIND_SIZE, true) == "" && NormalizeToken("", PATH_SIZE, false) == ""
  {
    NormalizedIff("", KIND_SIZE, true);
    NormalizedIff("", PATH_SIZE, false);
    hide NormalizeToken;
  }
}
