/**
 * The value `response.json()` hands back, and the three Python operations
 * the updater applies to it: `x.get(key)` on a dict, the subscript
 * `x[key]`, and iteration `for y in x`.
 */
module Json {
  import opened Wrappers
  import opened OrderedMaps

  /** A parsed JSON value. An object keeps its members in document order. */
  datatype Json =
    | JNull
    | JBool(b: bool)
    | JNum(n: int)
    | JStr(s: string)
    | JArr(items: seq<Json>)
    | JObj(members: seq<(string, Json)>)

  /** The dict `json.loads` builds from an object's members: a key given
      twice keeps the position of its first occurrence and its last value. */
  function Dict(members: seq<(string, Json)>): seq<(string, Json)> {
    FromPairs(members)
  }

  /** `x[key]` (and `x.get(key)`) with a string key: only a dict gives a
      value, and then the value of the last member named `key`; a missing
      key (KeyError) and any other kind of value (TypeError) fail. */
  function Subscript(x: Json, key: string): (r: Option<Json>)
    ensures r.Some? ==> x.JObj?
    ensures x.JObj? ==> (r.None? <==> forall i :: 0 <= i < |x.members| ==> x.members[i].0 != key)
    ensures r.Some? ==> LastValue(x.members, key, r.value)
  {
    match x
    case JObj(members) =>
      FromPairsGet(members, key);
      Get(Dict(members), key)
    case _ => None
  }

  /** The last of several members with the same name is the one read. */
  lemma SubscriptLastWins(members: seq<(string, Json)>, key: string, v: Json)
    ensures Subscript(JObj(members + [(key, v)]), key) == Some(v)
  {
    var ms := members + [(key, v)];
    assert ms[|members|] == (key, v);
    var r := Subscript(JObj(ms), key);
    var i :| 0 <= i < |ms| && ms[i] == (key, r.value) && forall j :: i < j < |ms| ==> ms[j].0 != key;
    assert i == |members|;
  }

  /** Each key as a JSON string. */
  function JStrs(keys: seq<string>): (r: seq<Json>)
    ensures |r| == |keys|
    ensures forall i :: 0 <= i < |keys| ==> r[i] == JStr(keys[i])
  {
    if |keys| == 0 then [] else [JStr(keys[0])] + JStrs(keys[1..])
  }

  /** The keys of `Dict(members)` as JSON strings: each key once, in the
      order of its first occurrence. */
  function KeyStrings(members: seq<(string, Json)>): (ks: seq<Json>)
    ensures forall i :: 0 <= i < |members| ==> JStr(members[i].0) in ks
    ensures forall i :: 0 <= i < |ks| ==> ks[i].JStr? && IndexOf(members, ks[i].s).Some?
    ensures forall i, j :: 0 <= i < j < |ks| ==>
              IndexOf(members, ks[i].s).value < IndexOf(members, ks[j].s).value
  {
    KeyStringsOrder(members);
    JStrs(Keys(Dict(members)))
  }

  lemma KeyStringsOrder(members: seq<(string, Json)>)
    ensures var ks := JStrs(Keys(Dict(members)));
            && (forall i :: 0 <= i < |members| ==> JStr(members[i].0) in ks)
            && (forall i :: 0 <= i < |ks| ==> ks[i].JStr? && IndexOf(members, ks[i].s).Some?)
            && (forall i, j :: 0 <= i < j < |ks| ==>
                  IndexOf(members, ks[i].s).value < IndexOf(members, ks[j].s).value)
  {
    FromPairsKeys(members);
    KeyStringsCover(members, Dict(members));
    KeyStringsSorted(members, Dict(members));
  }

  lemma KeyStringsCover(members: seq<(string, Json)>, d: seq<(string, Json)>)
    requires FirstOccurrenceOrder(members, d)
    ensures forall i :: 0 <= i < |members| ==> JStr(members[i].0) in JStrs(Keys(d))
  {
    var keys := Keys(d);
    var ks := JStrs(keys);
    forall i | 0 <= i < |members| ensures JStr(members[i].0) in ks {
      assert members[i].0 in keys;
      var j :| 0 <= j < |keys| && keys[j] == members[i].0;
      assert ks[j] == JStr(members[i].0);
    }
  }

  lemma KeyStringsSorted(members: seq<(string, Json)>, d: seq<(string, Json)>)
    requires FirstOccurrenceOrder(members, d)
    ensures var ks := JStrs(Keys(d));
            && (forall i :: 0 <= i < |ks| ==> ks[i].JStr? && IndexOf(members, ks[i].s).Some?)
            && (forall i, j :: 0 <= i < j < |ks| ==>
                  IndexOf(members, ks[i].s).value < IndexOf(members, ks[j].s).value)
  {
    var ks := JStrs(Keys(d));
    assert forall i :: 0 <= i < |ks| ==> ks[i].s == d[i].0;
  }

  /** `for y in x`: a list yields its items, a dict its keys (each once, in
      the order they first occur in the document), a string its characters
      (as one-character strings); anything else is not iterable. */
  function Iterate(x: Json): (r: Option<seq<Json>>)
    ensures r.None? <==> (x.JNull? || x.JBool? || x.JNum?)
    ensures x.JArr? ==> r == Some(x.items)
    ensures x.JObj? ==> r.Some?
    ensures x.JObj? ==> forall i :: 0 <= i < |x.members| ==> JStr(x.members[i].0) in r.value
    ensures x.JObj? ==> forall i :: 0 <= i < |r.value| ==>
                          r.value[i].JStr? && IndexOf(x.members, r.value[i].s).Some?
    ensures x.JObj? ==> forall i, j :: 0 <= i < j < |r.value| ==>
                          IndexOf(x.members, r.value[i].s).value < IndexOf(x.members, r.value[j].s).value
    ensures x.JStr? ==> r.Some? && |r.value| == |x.s|
                        && forall i :: 0 <= i < |x.s| ==> r.value[i] == JStr([x.s[i]])
  {
    match x
    case JArr(items) => Some(items)
    case JObj(members) => Some(KeyStrings(members))
    case JStr(s) => Some(seq(|s|, i requires 0 <= i < |s| => JStr([s[i]])))
    case _ => None
  }

  /** Iterating a dict never yields a key twice, however often the
      document names it. */
  lemma IterateKeysOnce(members: seq<(string, Json)>)
    ensures forall i, j :: 0 <= i < j < |Iterate(JObj(members)).value| ==>
              Iterate(JObj(members)).value[i] != Iterate(JObj(members)).value[j]
  {
    var r := Iterate(JObj(members)).value;
    forall i, j | 0 <= i < j < |r| ensures r[i] != r[j] {
      assert IndexOf(members, r[i].s).value < IndexOf(members, r[j].s).value;
    }
  }
}
