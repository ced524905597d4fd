/** The cursor loops that read a manifest's text: searching, skipping, copying out values, matching brackets. */
module ManifestScanner {
  import opened Wrappers
  import opened CText
  import opened AccessRules
  import opened ManifestText

  method LeadingSpaces(src: string) returns (start: nat)
    ensures start <= |src| && TrimLeft(src) == src[start..]
  {
    start := 0;
    while start < |src| && IsSpace(src[start])
      invariant start <= |src| && TrimLeft(src[start..]) == TrimLeft(src)
    {
      assert src[start..][1..] == src[start + 1..];
      start := start + 1;
    }
  }

  method WithoutTrailingSpaces(src: string, start: nat) returns (end: nat)
    requires start <= |src|
    ensures end <= |src| - start && TrimRight(src[start..]) == src[start..start + end]
  {
    end := |src| - start;
    assert src[start..start + end] == src[start..];
    while end > 0 && IsSpace(src[start + end - 1])
      invariant 0 <= end <= |src| - start
      invariant TrimRight(src[start..]) == TrimRight(src[start..start + end])
    {
      var t := src[start..start + end];
      assert t[|t| - 1] == src[start + end - 1] && t[..|t| - 1] == src[start..start + (end - 1)];
      end := end - 1;
    }
  }

  method CopyLower(src: string, lowercase: bool) returns (dst: string)
    ensures dst == if lowercase then Lower(src) else src
  {
    dst := "";
    for i := 0 to |src|
      invariant |dst| == i && forall j :: 0 <= j < i ==> dst[j] == if lowercase then LowerChar(src[j]) else src[j]
    {
      dst := dst + [if lowercase then LowerChar(src[i]) else src[i]];
    }
  }

  /** Strip spaces at both ends, cut to the field and lower the case. */
  method Normalize(src: string, size: nat, lowercase: bool) returns (dst: string)
    requires size > 0
    ensures dst == NormalizeToken(src, size, lowercase)
  {
    hide TrimLeft, TrimRight, Lower;
    var start := LeadingSpaces(src);
    var end := WithoutTrailingSpaces(src, start);
    ghost var trimmed := src[start..start + end];
    if end > size - 1 { end := size - 1; }
    assert src[start..start + end] == Cut(trimmed, size);
    dst := CopyLower(src[start..start + end], lowercase);
  }

  method NormalizeAll(r: Request) returns (n: Request)
    ensures n == NormalizeRequest(r)
  {
    var kind := Normalize(r.kind, KIND_SIZE, true);
    var subject := Normalize(r.subject, SUBJECT_SIZE, true);
    var method_ := Normalize(r.method_, METHOD_SIZE, false);
    var path := Normalize(r.path, PATH_SIZE, false);
    return Request(kind, subject, method_, path);
  }

  lemma AfterShifts(s: string, at: nat, needle: string)
    requires at < |s| && !(needle <= s[at..])
    ensures After(s[at..], needle) == After(s[at + 1..], needle)
  {
    assert s[at..][1..] == s[at + 1..];
  }

  /** Index just behind the first occurrence of a text at or after `from`, or -1. */
  method FindText(s: string, from: nat, needle: string) returns (behind: int)
    requires from <= |s|
    ensures -1 <= behind <= |s|
    ensures After(s[from..], needle) == if behind < 0 then None else Some(s[behind..])
    ensures behind >= 0 ==> behind >= from
  {
    var at := from;
    while at < |s|
      invariant from <= at <= |s|
      invariant After(s[from..], needle) == After(s[at..], needle)
    {
      if needle <= s[at..] {
        assert s[at..][|needle|..] == s[at + |needle|..];
        return at + |needle|;
      }
      AfterShifts(s, at, needle);
      at := at + 1;
    }
    assert s[at..] == "";
    if needle == "" { return at; }
    return -1;
  }

  /** Index of the first `c` at or after `from`, or -1. */
  method FindChar(s: string, from: nat, c: char) returns (at: int)
    requires from <= |s|
    ensures -1 <= at < |s| && (at >= 0 ==> at >= from)
    ensures AfterChar(s[from..], c) == if at < 0 then None else Some(s[at + 1..])
    ensures FromChar(s[from..], c) == if at < 0 then None else Some(s[at..])
  {
    at := from;
    while at < |s|
      invariant from <= at <= |s|
      invariant AfterChar(s[from..], c) == AfterChar(s[at..], c)
      invariant FromChar(s[from..], c) == FromChar(s[at..], c)
    {
      assert s[at..][0] == s[at] && s[at..][1..] == s[at + 1..];
      if s[at] == c { return; }
      at := at + 1;
    }
    at := -1;
  }

  method SkipSpaces(s: string, from: nat) returns (at: nat)
    requires from <= |s|
    ensures from <= at <= |s| && TrimLeft(s[from..]) == s[at..]
  {
    at := from;
    while at < |s| && IsSpace(s[at])
      invariant from <= at <= |s| && TrimLeft(s[from..]) == TrimLeft(s[at..])
    {
      assert s[at..][1..] == s[at + 1..];
      at := at + 1;
    }
  }

  method QuotedValueAt(s: string, from: nat, cap: nat, before: string) returns (ok: bool, value: string)
    requires from <= |s| && cap > 0
    ensures (ok, value) == QuotedValue(s[from..], cap, before)
  {
    hide TrimLeft, ReadQuoted;
    var pos := SkipSpaces(s, from);
    if pos == |s| || s[pos] != '"' { return false, before; }
    assert s[pos..][0] == s[pos] && s[pos..][1..] == s[pos + 1..];
    var stop;
    value, stop := CopyQuoted(s, pos + 1, cap - 1);
    ok := stop < |s| && s[stop] == '"';
  }

  method GetStringAt(s: string, from: nat, key: string, cap: nat, before: string) returns (ok: bool, value: string)
    requires from <= |s| && cap > 0
    ensures (ok, value) == GetString(s[from..], key, cap, before)
  {
    hide After, AfterChar, QuotedValue, Needle;
    var pos := FindText(s, from, Needle(key));
    if pos < 0 { return false, before; }
    var colon := FindChar(s, pos, ':');
    if colon < 0 { return false, before; }
    ok, value := QuotedValueAt(s, colon + 1, cap, before);
  }

  /** Having copied `out`, the cursor at `stop` reads the rest of what reading from `from` gives. */
  ghost predicate Copied(s: string, from: nat, room: nat, out: string, stop: nat) {
    && from <= stop <= |s| && |out| <= room
    && ReadQuoted(s[from..], room)
      == (out + ReadQuoted(s[stop..], room - |out|).0, ReadQuoted(s[stop..], room - |out|).1)
  }

  lemma CopiedStart(s: string, from: nat, room: nat)
    requires from <= |s|
    ensures Copied(s, from, room, "", from)
  {
    var out := ReadQuoted(s[from..], room).0;
    assert "" + out == out;
  }

  lemma CopiedStep(s: string, from: nat, room: nat, out: string, stop: nat)
    requires Copied(s, from, room, out, stop) && stop < |s| && s[stop] != '"' && |out| < room
    ensures var p := if s[stop] == '\\' && stop + 1 < |s| then stop + 1 else stop;
      Copied(s, from, room, out + [s[p]], p + 1)
  {
    var p := if s[stop] == '\\' && stop + 1 < |s| then stop + 1 else stop;
    ReadQuotedStep(s, stop, room - |out|);
    hide ReadQuoted;
    var more := ReadQuoted(s[p + 1..], room - |out| - 1).0;
    assert out + ([s[p]] + more) == out + [s[p]] + more;
  }

  lemma CopiedEnd(s: string, from: nat, room: nat, out: string, stop: nat)
    requires Copied(s, from, room, out, stop) && (stop == |s| || s[stop] == '"' || |out| == room)
    ensures ReadQuoted(s[from..], room) == (out, s[stop..])
  {
    assert ReadQuoted(s[stop..], room - |out|) == ("", s[stop..]);
    assert out + "" == out;
  }

  method CopyQuoted(s: string, from: nat, room: nat) returns (out: string, stop: nat)
    requires from <= |s|
    ensures stop <= |s| && ReadQuoted(s[from..], room) == (out, s[stop..])
  {
    hide ReadQuoted, Copied;
    out, stop := "", from;
    CopiedStart(s, from, room);
    while stop < |s| && s[stop] != '"' && |out| < room
      invariant from <= stop <= |s| && |out| <= room && Copied(s, from, room, out, stop)
    {
      CopiedStep(s, from, room, out, stop);
      if s[stop] == '\\' && stop + 1 < |s| { stop := stop + 1; }
      out := out + [s[stop]];
      stop := stop + 1;
    }
    CopiedEnd(s, from, room, out, stop);
  }

  lemma ReadQuotedStep(s: string, pos: nat, room: nat)
    requires pos < |s| && s[pos] != '"' && room > 0
    ensures var p := if s[pos] == '\\' && pos + 1 < |s| then pos + 1 else pos;
      ReadQuoted(s[pos..], room) == ([s[p]] + ReadQuoted(s[p + 1..], room - 1).0, ReadQuoted(s[p + 1..], room - 1).1)
  {
    var t := s[pos..];
    assert t[1..] == s[pos + 1..];
    if |t| > 1 { assert t[2..] == s[pos + 2..]; }
  }

  method GetNumberAt(s: string, from: nat, key: string) returns (n: nat)
    requires from <= |s|
    ensures n == GetNumber(s[from..], key)
  {
    hide After, AfterChar, TrimLeft, ReadDigits, Needle;
    var pos := FindText(s, from, Needle(key));
    if pos < 0 { return 0; }
    var colon := FindChar(s, pos, ':');
    if colon < 0 { return 0; }
    pos := SkipSpaces(s, colon + 1);
    n := DigitsAt(s, pos);
  }

  method DigitsAt(s: string, from: nat) returns (n: nat)
    requires from <= |s|
    ensures n == ReadDigits(s[from..], 0)
  {
    n := 0;
    var pos := from;
    while pos < |s| && IsDigit(s[pos])
      invariant from <= pos <= |s| && ReadDigits(s[from..], 0) == ReadDigits(s[pos..], n)
    {
      assert s[pos..][0] == s[pos] && s[pos..][1..] == s[pos + 1..];
      n := n * 10 + (s[pos] as int - '0' as int);
      pos := pos + 1;
    }
  }

  /** Walk from an opening bracket to the one that closes it, keeping depth and string state; -1 if there is none
      before `end`. */
  method MatchBracket(s: string, from: nat, end: nat, open: char, close: char) returns (at: int)
    requires from <= end <= |s|
    ensures -1 <= at < end && (at >= 0 ==> at >= from)
    ensures ScanClose(s[from..end], open, close, 0, false, false) == if at < 0 then None else Some(end - at)
  {
    var depth, inString, escaped := 0, false, false;
    at := from;
    while at < end
      invariant from <= at <= end && (escaped ==> inString)
      invariant ScanClose(s[from..end], open, close, 0, false, false)
        == ScanClose(s[at..end], open, close, depth, inString, escaped)
    {
      assert s[at..end][0] == s[at] && s[at..end][1..] == s[at + 1..end];
      if inString {
        if escaped {
          escaped := false;
        } else if s[at] == '\\' {
          escaped := true;
        } else if s[at] == '"' {
          inString := false;
        }
      } else if s[at] == '"' {
        inString := true;
      } else if s[at] == open {
        depth := depth + 1;
      } else if s[at] == close {
        depth := depth - 1;
        if depth == 0 { return; }
      }
      at := at + 1;
    }
    at := -1;
  }

  /** Start (behind the bracket) and end of a named array. */
  method FindArrayAt(s: string, name: string) returns (found: bool, start: nat, end: nat)
    ensures found ==> start <= end <= |s|
    ensures FindArray(s, name) == if found then Some((s[start..], end - start)) else None
  {
    var pos := FindText(s, 0, Needle(name));
    assert s[0..] == s;
    if pos < 0 { return false, 0, 0; }
    var bracket := FindChar(s, pos, '[');
    if bracket < 0 { return false, 0, 0; }
    var closing := MatchBracket(s, bracket, |s|, '[', ']');
    assert s[bracket..|s|] == s[bracket..];
    if closing <= bracket { return false, 0, 0; }
    assert s[bracket..][1..] == s[bracket + 1..];
    return true, bracket + 1, closing;
  }

  lemma NextObjectShifts(s: string, from: nat, at: nat, end: nat)
    requires from <= at <= end <= |s| && forall i :: from <= i < at ==> s[i] != '{'
    ensures NextObject(s[from..end], 0) == NextObject(s[from..end], at - from)
    decreases at - from
  {
    if from < at {
      NextObjectShifts(s, from, at - 1, end);
      assert s[from..end][at - 1 - from] == s[at - 1];
    }
  }

  /** Start and end of the next object inside `from..end`. */
  method NextObjectAt(s: string, from: nat, end: nat) returns (found: bool, start: nat, behind: nat)
    requires from <= end <= |s|
    ensures found ==> from <= start < behind <= end
    ensures NextObject(s[from..end], 0) == if found then Some((start - from, behind - start)) else None
  {
    var at := from;
    while at < end && s[at] != '{'
      invariant from <= at <= end && forall i :: from <= i < at ==> s[i] != '{'
    {
      at := at + 1;
    }
    NextObjectShifts(s, from, at, end);
    if at == end { return false, 0, 0; }
    assert s[from..end][at - from] == s[at] && s[from..end][at - from..] == s[at..end];
    var closing := MatchBracket(s, at, end, '{', '}');
    if closing < 0 { return false, 0, 0; }
    return true, at, closing + 1;
  }

  method ReadFieldAt(s: string, from: nat, key: string, size: nat) returns (value: string)
    requires from <= |s| && size > 0
    ensures value == FieldOf(s[from..], key, size)
  {
    var ok, v := GetStringAt(s, from, key, PATH_SIZE, "");
    return if ok then Cut(v, size) else "";
  }

  method ReadRequestAt(s: string, from: nat) returns (r: Request)
    requires from <= |s|
    ensures r == ReadRequest(s[from..])
  {
    var kind := ReadFieldAt(s, from, "kind", KIND_SIZE);
    var subject := ReadFieldAt(s, from, "subject", SUBJECT_SIZE);
    var method_ := ReadFieldAt(s, from, "method", METHOD_SIZE);
    var path := ReadFieldAt(s, from, "path", PATH_SIZE);
    r := NormalizeAll(Request(kind, subject, method_, path));
  }
}
