/** Lists written as text with commas. */
module CommaLists {
  import opened CText

  /** `s.split(",")` */
  function Split(s: string): (r: seq<string>)
    ensures r != []
    decreases |s|
  {
    var n := IndexOf(s, ',');
    if n == |s| then [s] else [s[..n]] + Split(s[n + 1..])
  }

  function Item(field: string, trim: string -> string): seq<string> {
    if trim(field) == "" then [] else [trim(field)]
  }

  /** The fields with their ends trimmed, without those of which nothing is left. */
  function Items(fields: seq<string>, trim: string -> string): seq<string> {
    if fields == [] then [] else Item(fields[0], trim) + Items(fields[1..], trim)
  }

  lemma {:induction false} ItemsConcat(a: seq<string>, b: seq<string>, trim: string -> string)
    ensures Items(a + b, trim) == Items(a, trim) + Items(b, trim)
  {
    hide Item;
    if a == [] {
      assert a + b == b;
    } else {
      ItemsConcat(a[1..], b, trim);
      assert (a + b)[1..] == a[1..] + b;
      var x, y, z := Item(a[0], trim), Items(a[1..], trim), Items(b, trim);
      assert x + (y + z) == (x + y) + z;
    }
  }

  lemma CommaWithin(a: string, b: string)
    ensures IndexOf(a + "," + b, ',') == IndexOf(a, ',')
  {
    var t := a + "," + b;
    var n := IndexOf(a, ',');
    assert t[n] == ',';
    assert forall i :: 0 <= i < n ==> t[i] == a[i];
  }

  lemma CutAt(a: string, b: string, n: nat)
    requires n <= |a|
    ensures (a + "," + b)[..n] == a[..n]
    ensures (a + "," + b)[n + 1..] == if n == |a| then b else a[n + 1..] + "," + b
  {
  }

  lemma {:induction false} SplitConcat(a: string, b: string)
    ensures Split(a + "," + b) == Split(a) + Split(b)
    decreases |a|
  {
    hide IndexOf;
    var n := IndexOf(a, ',');
    CommaWithin(a, b);
    CutAt(a, b, n);
    if n == |a| {
      assert a[..n] == a;
    } else {
      SplitConcat(a[n + 1..], b);
    }
  }

  lemma OneField(s: string)
    requires ',' !in s
    ensures Split(s) == [s]
  {
  }
}
