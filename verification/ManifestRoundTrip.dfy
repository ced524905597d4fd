/** What a printed manifest reads back as. */
module ManifestRoundTrip {
  import opened Wrappers
  import opened CText
  import opened AccessRules
  import opened ManifestText

  predicate KeyChar(c: char) { 'a' <= c <= 'z' || c == '_' }

  /** The key names of the file format are made of lower-case letters and underscores. */
  ghost predicate PlainKey(k: string) { k != "" && forall i :: 0 <= i < |k| ==> KeyChar(k[i]) }

  /** A printed value is taken for the quoted key `k` when it is `k`, or ends in a quote followed by `k`. */
  predicate Hit(v: string, k: string) { v == k || EndsWith(v, "\"" + k) }

  ghost predicate Delimited(rest: string) { rest == "" || !KeyChar(rest[0]) }

  // ---------- searching a key in printed text ----------

  lemma {:induction false} KeyThenQuote(k: string, v: string, rest: string)
    requires forall i :: 0 <= i < |k| ==> KeyChar(k[i])
    ensures k + "\"" <= EscThen(v, "\"" + rest) <==> v == k
  {
    hide EscChar;
    var t := EscThen(v, "\"" + rest);
    if k == "" {
      assert k + "\"" == "\"";
      if v != "" { assert t[0] == EscChar(v[0])[0]; }
    } else {
      assert (k + "\"")[0] == k[0];
      assert k + "\"" == [k[0]] + (k[1..] + "\"");
      if v != "" {
        var u := EscThen(v[1..], "\"" + rest);
        assert t == EscChar(v[0]) + u && t[0] == EscChar(v[0])[0];
        if v[0] == k[0] {
          assert t == [k[0]] + u;
          KeyThenQuote(k[1..], v[1..], rest);
          assert k + "\"" <= t <==> k[1..] + "\"" <= u by { PrefixCons(k[0], k[1..] + "\"", u); }
          assert v == k <==> v[1..] == k[1..] by { assert v == [v[0]] + v[1..] && k == [k[0]] + k[1..]; }
        } else {
          assert t[0] != k[0];
        }
      }
    }
  }

  lemma PrefixCons(c: char, a: string, b: string)
    ensures [c] + a <= [c] + b <==> a <= b
  {
    if a <= b { assert [c] + b == [c] + a + b[|a|..]; }
    if [c] + a <= [c] + b { assert ([c] + b)[1..] == b && ([c] + a)[1..] == a; }
  }

  /** Stepping over one character that is not a quote. */
  lemma AfterStep(c: char, s: string, k: string)
    requires c != '"'
    ensures After([c] + s, Needle(k)) == After(s, Needle(k))
  {
    assert ([c] + s)[1..] == s && Needle(k)[0] == '"';
  }

  lemma {:induction false} AfterSteps(t: string, s: string, k: string)
    requires forall i :: 0 <= i < |t| ==> t[i] != '"'
    ensures After(t + s, Needle(k)) == After(s, Needle(k))
  {
    if t == "" { assert t + s == s; }
    else {
      assert t + s == [t[0]] + (t[1..] + s);
      AfterStep(t[0], t[1..] + s, k);
      AfterSteps(t[1..], s, k);
    }
  }

  /** A quote is where the needle is found exactly when the key and a closing quote follow. */
  lemma AfterQuote(s: string, k: string)
    ensures k + "\"" <= s ==> After("\"" + s, Needle(k)) == Some(s[|k| + 1..])
    ensures !(k + "\"" <= s) ==> After("\"" + s, Needle(k)) == After(s, Needle(k))
  {
    var t := "\"" + s;
    assert Needle(k) == ['"'] + (k + "\"");
    PrefixCons('"', k + "\"", s);
    assert t[1..] == s;
    if k + "\"" <= s { assert t[|k| + 2..] == s[|k| + 1..]; }
  }

  lemma {:induction false} EscLength(v: string, rest: string)
    ensures EscThen(v, rest) == EscThen(v, "") + rest
  {
    if v != "" { EscLength(v[1..], rest); }
  }

  lemma {:induction false} PlainEsc(k: string, rest: string)
    requires forall i :: 0 <= i < |k| ==> KeyChar(k[i])
    ensures EscThen(k, rest) == k + rest
  {
    if k == "" {
      assert k + rest == rest;
    } else {
      PlainEsc(k[1..], rest);
      assert EscChar(k[0]) == [k[0]];
      assert [k[0]] + (k[1..] + rest) == k + rest;
    }
  }

  lemma EndsWithStep(v: string, w: string)
    requires v != "" && w != ""
    ensures EndsWith(v, w) <==> v == w || EndsWith(v[1..], w)
  {
    if |v| > |w| { assert v[1..][|v| - 1 - |w|..] == v[|v| - |w|..]; }
  }

  /** Searching through the inside of a printed value. */
  lemma {:induction false} AfterInside(v: string, rest: string, k: string)
    requires PlainKey(k) && Delimited(rest)
    ensures After(EscThen(v, "\"" + rest), Needle(k)) ==
            if EndsWith(v, "\"" + k) then Some(rest) else After(rest, Needle(k))
  {
    hide EscChar;
    if v == "" {
      AfterQuote(rest, k);
      assert rest != "" ==> (k + "\"")[0] == k[0];
    } else {
      var u := EscThen(v[1..], "\"" + rest);
      AfterInside(v[1..], rest, k);
      EndsWithStep(v, "\"" + k);
      if v[0] == '"' {
        assert EscThen(v, "\"" + rest) == ['\\'] + ("\"" + u);
        AfterStep('\\', "\"" + u, k);
        AfterQuote(u, k);
        KeyThenQuote(k, v[1..], rest);
        assert v == "\"" + k <==> v[1..] == k by { assert v == ['"'] + v[1..]; }
        if v[1..] == k { AfterKeyText(k, rest); }
      } else {
        AfterSteps(EscChar(v[0]), u, k);
        assert v[0] != ("\"" + k)[0];
      }
    }
  }

  lemma AfterKeyText(k: string, rest: string)
    requires PlainKey(k)
    ensures var s := EscThen(k, "\"" + rest); |s| == |k| + 1 + |rest| && s[|k| + 1..] == rest
  {
    PlainEsc(k, "\"" + rest);
    assert (k + ("\"" + rest))[|k| + 1..] == rest;
  }

  /** Searching from the opening quote of a printed value: found right behind it, or past it. */
  lemma AfterQuoted(v: string, rest: string, k: string)
    requires PlainKey(k) && Delimited(rest)
    ensures After(QuotedThen(v, rest), Needle(k)) == if Hit(v, k) then Some(rest) else After(rest, Needle(k))
  {
    var s := EscThen(v, "\"" + rest);
    AfterQuote(s, k);
    KeyThenQuote(k, v, rest);
    if v == k { AfterKeyText(k, rest); } else { AfterInside(v, rest, k); }
  }

  lemma KeyHits(k0: string, k: string)
    requires PlainKey(k0) && PlainKey(k)
    ensures Hit(k0, k) <==> k0 == k
  {
    if |k0| > |k| {
      var ending := k0[|k0| - (|k| + 1)..];
      assert ending[0] == k0[|k0| - (|k| + 1)];
    }
  }

  // ---------- which field a lookup reads ----------

  ghost predicate PlainKeys(ps: seq<Pair>) { forall i :: 0 <= i < |ps| ==> PlainKey(ps[i].key) }

  /** First field whose key is `k` or whose value is taken for it; the number of fields if there is none. */
  function FirstHit(ps: seq<Pair>, k: string): (i: nat)
    ensures i <= |ps|
    ensures forall j :: 0 <= j < i ==> ps[j].key != k && !Hit(ps[j].val, k)
    ensures i < |ps| ==> ps[i].key == k || Hit(ps[i].val, k)
  {
    if ps == [] || ps[0].key == k || Hit(ps[0].val, k) then 0 else 1 + FirstHit(ps[1..], k)
  }

  /** The field whose value a lookup of `k` reads: the one called `k`, or the one behind a value taken for `k`. */
  function Source(ps: seq<Pair>, k: string): nat {
    var i := FirstHit(ps, k);
    if i < |ps| && ps[i].key != k then i + 1 else i
  }

  function FieldsFrom(ps: seq<Pair>, i: nat, rest: string): string
    requires i <= |ps|
  {
    if i == |ps| then rest else "," + FieldsThen(ps[i..], rest)
  }

  lemma {:induction false} AfterFields(ps: seq<Pair>, rest: string, k: string)
    requires ps != [] && PlainKeys(ps) && PlainKey(k) && Delimited(rest)
    ensures After(FieldsThen(ps, rest), Needle(k)) ==
      var i := FirstHit(ps, k);
      if i == |ps| then After(rest, Needle(k))
      else if ps[i].key == k then Some(":" + QuotedThen(ps[i].val, FieldsFrom(ps, i + 1, rest)))
      else Some(FieldsFrom(ps, i + 1, rest))
  {
    hide EscThen, EscChar, EndsWith;
    var key, val := ps[0].key, ps[0].val;
    var tail := if |ps| == 1 then rest else "," + FieldsThen(ps[1..], rest);
    assert tail == FieldsFrom(ps, 1, rest);
    var i := FirstHit(ps, k);
    KeyHits(key, k);
    AfterQuoted(key, ":" + QuotedThen(val, tail), k);
    if key != k {
      AfterSteps(":", QuotedThen(val, tail), k);
      AfterQuoted(val, tail, k);
      if !Hit(val, k) && |ps| > 1 {
        AfterSteps(",", FieldsThen(ps[1..], rest), k);
        AfterFields(ps[1..], rest, k);
        assert i == 1 + FirstHit(ps[1..], k);
        if i < |ps| { assert ps[1..][i - 1] == ps[i] && ps[1..][i..] == ps[i + 1..]; }
      }
    }
  }

  // ---------- reading a value ----------

  /** What is left of a printed byte without the backslash: a control character turns into letters. */
  function MangleChar(c: char): string {
    if EscChar(c)[0] == '\\' then EscChar(c)[1..] else EscChar(c)
  }

  function Mangle(v: string): string {
    if v == "" then "" else MangleChar(v[0]) + Mangle(v[1..])
  }

  ghost predicate NoControl(v: string) { forall i :: 0 <= i < |v| ==> v[i] as int >= 0x20 }

  lemma {:induction false} MangleIff(v: string)
    ensures NoControl(Mangle(v))
    ensures Mangle(v) == v <==> NoControl(v)
    ensures |Mangle(v)| >= |v|
  {
    hide EscChar;
    if v != "" {
      var c := v[0];
      MangleIff(v[1..]);
      assert v == [c] + v[1..];
      assert NoControl(MangleChar(c)) && MangleChar(c) != "";
      assert Mangle(v)[0] == MangleChar(c)[0];
      if c as int >= 0x20 {
        assert MangleChar(c) == [c];
        assert Mangle(v)[1..] == Mangle(v[1..]);
        assert NoControl(v) ==> forall i :: 0 <= i < |v[1..]| ==> v[1..][i] == v[i + 1];
        assert NoControl(v[1..]) ==> forall i :: 1 <= i < |v| ==> v[i] == v[1..][i - 1];
      }
    }
  }

  lemma {:induction false} ReadPlain(t: string, u: string, room: nat)
    requires forall i :: 0 <= i < |t| ==> t[i] != '"' && t[i] != '\\'
    ensures |t| <= room ==> ReadQuoted(t + u, room) == (t + ReadQuoted(u, room - |t|).0, ReadQuoted(u, room - |t|).1)
    ensures room < |t| ==> ReadQuoted(t + u, room) == (t[..room], t[room..] + u)
  {
    if t == "" {
      assert t + u == u;
      assert t + ReadQuoted(u, room).0 == ReadQuoted(u, room).0;
    } else if room > 0 {
      var s := t[1..];
      assert (t + u)[1..] == s + u && (t + u)[0] == t[0];
      ReadPlain(s, u, room - 1);
      assert t == [t[0]] + s;
      if room < |t| {
        assert [t[0]] + s[..room - 1] == t[..room] && s[room - 1..] == t[room..];
      } else {
        assert [t[0]] + (s + ReadQuoted(u, room - |t|).0) == t + ReadQuoted(u, room - |t|).0;
      }
    } else {
      assert t[0..] == t;
    }
  }

  /** One printed byte: all of it is read, or the buffer fills up inside it. */
  ghost predicate ReadsAs(c: char, u: string, room: nat) {
    var m, r := MangleChar(c), ReadQuoted(EscChar(c) + u, room);
    if |m| <= room then r == (m + ReadQuoted(u, room - |m|).0, ReadQuoted(u, room - |m|).1)
    else r.0 == m[..room] && r.1 != "" && r.1[0] != '"'
  }

  lemma ReadEscape(c: char, u: string, room: nat)
    requires !IsPlain(c)
    ensures ReadsAs(c, u, room)
  {
    var e := EscChar(c);
    var d, m, s := e[2..], e[1..], e + u;
    hide EscChar;
    assert m == MangleChar(c) && m == [e[1]] + d;
    if room > 0 {
      assert s[0] == '\\' && s[1] == e[1] && s[2..] == d + u;
      assert ReadQuoted(s, room) == ([e[1]] + ReadQuoted(d + u, room - 1).0, ReadQuoted(d + u, room - 1).1);
      ReadPlain(d, u, room - 1);
      hide ReadQuoted, MangleChar;
      if |m| <= room {
        assert [e[1]] + (d + ReadQuoted(u, room - |m|).0) == m + ReadQuoted(u, room - |m|).0;
      } else {
        assert [e[1]] + d[..room - 1] == m[..room];
      }
    } else {
      assert s[0] == '\\' && m[..0] == "";
    }
  }

  lemma ReadChar(c: char, u: string, room: nat)
    ensures ReadsAs(c, u, room)
  {
    if IsPlain(c) {
      assert MangleChar(c) == [c];
      ReadPlain([c], u, room);
    } else {
      ReadEscape(c, u, room);
    }
  }

  /** Reading stops at the closing quote with all of the (mangled) value, or when the buffer is full. */
  lemma {:induction false} ReadValue(v: string, rest: string, room: nat)
    ensures var (out, left) := ReadQuoted(EscThen(v, "\"" + rest), room);
      && out == (if |Mangle(v)| <= room then Mangle(v) else Mangle(v)[..room])
      && ((left != "" && left[0] == '"') <==> |Mangle(v)| <= room)
  {
    if v != "" {
      var u, m := EscThen(v[1..], "\"" + rest), MangleChar(v[0]);
      hide EscChar, ReadQuoted, MangleChar;
      ReadChar(v[0], u, room);
      if |m| <= room {
        ReadValue(v[1..], rest, room - |m|);
        if |Mangle(v)| > room { assert m + Mangle(v[1..])[..room - |m|] == Mangle(v)[..room]; }
      } else {
        assert Mangle(v)[..room] == m[..room];
      }
    }
  }

  // ---------- looking a field up ----------

  lemma SkipTo(t: string, s: string, c: char)
    requires forall i :: 0 <= i < |t| ==> t[i] != c
    ensures AfterChar(t + [c] + s, c) == Some(s)
  {
    if t == "" {
      assert ("" + [c] + s)[1..] == s;
    } else {
      SkipTo(t[1..], s, c);
      assert (t + [c] + s)[1..] == t[1..] + [c] + s;
    }
  }

  /** From a separator and a field, the search for the colon arrives at the field's value. */
  lemma ColonAfterKey(sep: string, key: string, s: string)
    requires PlainKey(key) && (sep == "" || sep == ",")
    ensures AfterChar(sep + QuotedThen(key, ":" + s), ':') == Some(s)
  {
    PlainEsc(key, "\"" + (":" + s));
    var t := sep + "\"" + key + "\"";
    assert sep + QuotedThen(key, ":" + s) == t + [':'] + s;
    SkipTo(t, s, ':');
  }

  lemma FieldsFromStep(ps: seq<Pair>, i: nat, rest: string)
    requires i < |ps|
    ensures FieldsFrom(ps, i, rest) ==
      "," + QuotedThen(ps[i].key, ":" + QuotedThen(ps[i].val, FieldsFrom(ps, i + 1, rest)))
  {
    hide EscThen, QuotedThen;
    assert ps[i..][1..] == ps[i + 1..] && ps[i..][0] == ps[i];
  }

  lemma LookupReaches(ps: seq<Pair>, rest: string, k: string)
    requires ps != [] && PlainKeys(ps) && PlainKey(k) && Delimited(rest) && Source(ps, k) < |ps|
    ensures var i := Source(ps, k);
      var s := After(FieldsThen(ps, rest), Needle(k));
      s.Some? && AfterChar(s.value, ':') == Some(QuotedThen(ps[i].val, FieldsFrom(ps, i + 1, rest)))
  {
    hide FieldsThen, FieldsFrom, QuotedThen, Hit, After, AfterChar, Needle;
    AfterFields(ps, rest, k);
    var i := FirstHit(ps, k);
    if ps[i].key == k {
      var s := QuotedThen(ps[i].val, FieldsFrom(ps, i + 1, rest));
      SkipTo("", s, ':');
      assert "" + [':'] + s == ":" + s;
    } else {
      FieldsFromStep(ps, i + 1, rest);
      ColonAfterKey(",", ps[i + 1].key, QuotedThen(ps[i + 1].val, FieldsFrom(ps, i + 2, rest)));
    }
  }

  /** Once a lookup has arrived at a printed value, it reads that value. */
  lemma GetArrived(obj: string, k: string, cap: nat, before: string, val: string, tail: string)
    requires cap > 0 && After(obj, Needle(k)).Some?
    requires AfterChar(After(obj, Needle(k)).value, ':') == Some(QuotedThen(val, tail))
    ensures GetString(obj, k, cap, before) == (|Mangle(val)| < cap, Cut(Mangle(val), cap))
  {
    hide After, AfterChar, Needle, EscThen, ReadQuoted, Mangle;
    var t := QuotedThen(val, tail);
    var u := EscThen(val, "\"" + tail);
    assert t == ['"'] + u;
    assert TrimLeft(t) == t && t[1..] == u;
    ReadValue(val, tail, cap - 1);
  }

  /** What a lookup in printed fields yields: the value of the source field, with its control characters
      mangled, whole if that fits the buffer and cut otherwise. */
  lemma GetField(ps: seq<Pair>, rest: string, k: string, cap: nat, before: string)
    requires ps != [] && PlainKeys(ps) && PlainKey(k) && Delimited(rest) && Source(ps, k) < |ps| && cap > 0
    ensures var v := Mangle(ps[Source(ps, k)].val);
      GetString("{" + FieldsThen(ps, rest), k, cap, before) == (|v| < cap, Cut(v, cap))
  {
    hide FieldsThen, FieldsFrom, After, AfterChar, Source, GetString, QuotedThen, Mangle, Needle;
    AfterSteps("{", FieldsThen(ps, rest), k);
    LookupReaches(ps, rest, k);
    var i := Source(ps, k);
    GetArrived("{" + FieldsThen(ps, rest), k, cap, before, ps[i].val, FieldsFrom(ps, i + 1, rest));
  }

  // ---------- numbers ----------

  ghost function Scale(n: nat): (s: nat)
    ensures s >= 1
  {
    if n < 10 then 10 else Scale(n / 10) * 10
  }

  lemma {:induction false} DecimalScale(n: nat, rest: string, value: nat)
    ensures ReadDigits(Decimal(n) + rest, value) == ReadDigits(rest, value * Scale(n) + n)
  {
    if n < 10 {
      ReadOneDigit(n, rest, value);
    } else {
      var d := [('0' as int + n % 10) as char];
      assert Decimal(n) + rest == Decimal(n / 10) + (d + rest);
      DecimalScale(n / 10, d + rest, value);
      ReadOneDigit(n % 10, rest, value * Scale(n / 10) + n / 10);
      ScaleStep(n, value);
    }
  }

  lemma ReadOneDigit(d: nat, rest: string, value: nat)
    requires d < 10
    ensures ReadDigits([('0' as int + d) as char] + rest, value) == ReadDigits(rest, value * 10 + d)
  {
    var s := [('0' as int + d) as char] + rest;
    assert s[1..] == rest && s[0] as int - '0' as int == d;
  }

  lemma ScaleStep(n: nat, value: nat)
    requires n >= 10
    ensures (value * Scale(n / 10) + n / 10) * 10 + n % 10 == value * Scale(n) + n
  {
    Regroup(value, Scale(n / 10));
  }

  lemma Regroup(v: nat, s: nat)
    ensures v * (s * 10) == v * s * 10
  {
  }
}
