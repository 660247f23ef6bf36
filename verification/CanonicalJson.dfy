/** canonical_json_bytes: compact JSON with keys sorted at every depth, as UTF-8. */
module CanonicalJson {
  import opened PyText
  import opened Utf8
  import opened JsonText
  import JsonRoundTrip

  /** What a JSON value means once the insertion order of its objects is forgotten. */
  datatype Value =
    | VNull
    | VBool(b: bool)
    | VInt(n: int)
    | VStr(s: string)
    | VArr(items: seq<Value>)
    | VObj(fields: map<string, Value>)

  function Meaning(v: Json): Value
    decreases v, 0
  {
    match v
    case Null => VNull
    case Bool(b) => VBool(b)
    case Int(n) => VInt(n)
    case Str(s) => VStr(s)
    case Arr(items) => VArr(MeaningOfItems(items))
    case Obj(ms) => VObj(MeaningOfMembers(ms))
  }

  function MeaningOfItems(items: seq<Json>): (r: seq<Value>)
    ensures |r| == |items|
    decreases items, 1
  {
    if items == [] then [] else [Meaning(items[0])] + MeaningOfItems(items[1..])
  }

  function MeaningOfMembers(ms: seq<Member>): map<string, Value>
    decreases ms, 1
  {
    if ms == [] then map[] else MeaningOfMembers(ms[1..])[ms[0].key := Meaning(ms[0].value)]
  }

  // ----- sorting by key -----

  predicate KeySorted(ms: seq<Member>) {
    forall i, j :: 0 <= i < j < |ms| ==> Less(ms[i].key, ms[j].key)
  }

  function InsertByKey(m: Member, ms: seq<Member>): (r: seq<Member>)
    ensures forall x :: x in r <==> x == m || x in ms
    ensures KeySorted(ms) && !HasKey(ms, m.key) ==> KeySorted(r)
  {
    if ms == [] then [m]
    else
      assert ms == [ms[0]] + ms[1..];
      if Less(ms[0].key, m.key) then
        var r := [ms[0]] + InsertByKey(m, ms[1..]);
        assert !HasKey(ms, m.key) ==> !HasKey(ms[1..], m.key) by { HeadKeys(ms); }
        assert forall i :: 1 <= i < |r| ==> r[i] in InsertByKey(m, ms[1..]);
        assert forall x :: x in ms[1..] && KeySorted(ms) ==> Less(ms[0].key, x.key);
        r
      else
        var r := [m] + ms;
        assert !HasKey(ms, m.key) ==> Less(m.key, ms[0].key) by { LessTotal(m.key, ms[0].key); }
        assert !HasKey(ms, m.key) && KeySorted(ms) ==> forall i :: 0 <= i < |ms| ==> Less(m.key, ms[i].key) by {
          forall i | 1 <= i < |ms| && Less(m.key, ms[0].key) && KeySorted(ms) ensures Less(m.key, ms[i].key) {
            LessTransitive(m.key, ms[0].key, ms[i].key);
          }
        }
        r
  }

  function SortByKey(ms: seq<Member>): (r: seq<Member>)
    ensures forall x :: x in r <==> x in ms
    ensures UniqueKeys(ms) ==> KeySorted(r)
  {
    if ms == [] then []
    else
      assert ms == [ms[0]] + ms[1..];
      var rest := SortByKey(ms[1..]);
      assert UniqueKeys(ms) ==> forall x :: x in ms[1..] ==> x.key != ms[0].key;
      assert forall i :: 0 <= i < |rest| ==> rest[i] in ms[1..];
      InsertByKey(ms[0], rest)
  }

  /** sort_keys=True: every object in the tree with its members in key order. */
  function Canon(v: Json): Json
    decreases v, 0
  {
    match v
    case Arr(items) => Arr(CanonItems(items))
    case Obj(ms) => Obj(SortByKey(CanonMembers(ms)))
    case _ => v
  }

  function CanonItems(items: seq<Json>): (r: seq<Json>)
    ensures |r| == |items|
    decreases items, 1
  {
    if items == [] then [] else [Canon(items[0])] + CanonItems(items[1..])
  }

  function CanonMembers(ms: seq<Member>): (r: seq<Member>)
    ensures |r| == |ms| && forall i :: 0 <= i < |ms| ==> r[i].key == ms[i].key
    decreases ms, 1
  {
    if ms == [] then [] else [Member(ms[0].key, Canon(ms[0].value))] + CanonMembers(ms[1..])
  }

  function CanonicalBytes(v: Json): Bytes { Encode(Print(Canon(v), Compact)) }

  // ----- proofs -----

  lemma KeySortedIsUnique(ms: seq<Member>)
    requires KeySorted(ms)
    ensures UniqueKeys(ms)
  {
    forall i, j | 0 <= i < j < |ms| ensures ms[i].key != ms[j].key {
      LessTotal(ms[i].key, ms[j].key);
    }
  }

  lemma Inhabited(ms: seq<Member>)
    ensures ms != [] ==> exists x :: x in ms
  {
    if ms != [] { assert ms[0] in ms; }
  }

  /** Two key-sorted lists with the same elements are the same list. */
  lemma {:induction false} SortedListsAgree(a: seq<Member>, b: seq<Member>)
    requires KeySorted(a) && KeySorted(b) && forall x :: x in a <==> x in b
    ensures a == b
  {
    if a == [] {
      Inhabited(b);
    } else {
      assert a[0] in b;
      assert b[0] in a;
      if a[0] != b[0] {
        LessTotal(a[0].key, b[0].key);
      }
      KeySortedIsUnique(a);
      KeySortedIsUnique(b);
      assert a == [a[0]] + a[1..] && b == [b[0]] + b[1..];
      assert a[0] !in a[1..] && b[0] !in b[1..];
      forall x ensures x in a[1..] <==> x in b[1..] {
        assert x in a <==> x == a[0] || x in a[1..];
        assert x in b <==> x == b[0] || x in b[1..];
      }
      SortedListsAgree(a[1..], b[1..]);
    }
  }

  lemma {:induction false} ItemAt(items: seq<Json>, i: nat)
    requires i < |items|
    ensures CanonItems(items)[i] == Canon(items[i]) && MeaningOfItems(items)[i] == Meaning(items[i])
  {
    hide Canon, Meaning;
    if i > 0 { ItemAt(items[1..], i - 1); }
  }

  lemma {:induction false} CanonMemberAt(ms: seq<Member>, i: nat)
    requires i < |ms|
    ensures CanonMembers(ms)[i] == Member(ms[i].key, Canon(ms[i].value))
  {
    hide Canon;
    if i > 0 { CanonMemberAt(ms[1..], i - 1); }
  }

  lemma {:induction false} MeaningKeys(ms: seq<Member>)
    ensures forall k :: k in MeaningOfMembers(ms) <==> HasKey(ms, k)
  {
    hide Meaning;
    if ms != [] {
      MeaningKeys(ms[1..]);
      HeadKeys(ms);
    }
  }

  lemma {:induction false} MeaningAt(ms: seq<Member>, i: nat)
    requires UniqueKeys(ms) && i < |ms|
    ensures ms[i].key in MeaningOfMembers(ms) && MeaningOfMembers(ms)[ms[i].key] == Meaning(ms[i].value)
  {
    hide Meaning;
    if i > 0 { MeaningAt(ms[1..], i - 1); }
  }

  /** Sorting the keys keeps the value a dict and keeps what it means. */
  lemma {:induction false} CanonKeepsMeaning(v: Json)
    requires IsDict(v)
    ensures IsDict(Canon(v)) && Meaning(Canon(v)) == Meaning(v)
    decreases v
  {
    match v
    case Arr(items) =>
      forall i | 0 <= i < |items|
        ensures IsDict(CanonItems(items)[i]) && MeaningOfItems(CanonItems(items))[i] == MeaningOfItems(items)[i]
      {
        CanonKeepsMeaning(items[i]);
        ItemAt(items, i);
        ItemAt(CanonItems(items), i);
      }
      assert MeaningOfItems(CanonItems(items)) == MeaningOfItems(items);
    case Obj(ms) =>
      forall i | 0 <= i < |ms|
        ensures IsDict(CanonMembers(ms)[i].value) && Meaning(CanonMembers(ms)[i].value) == Meaning(ms[i].value)
      {
        CanonKeepsMeaning(ms[i].value);
        CanonMemberAt(ms, i);
      }
      SortKeepsMeaning(ms, SortByKey(CanonMembers(ms)));
    case _ =>
  }

  lemma SortKeepsMeaning(ms: seq<Member>, sorted: seq<Member>)
    requires UniqueKeys(ms) && sorted == SortByKey(CanonMembers(ms))
    requires forall i :: 0 <= i < |ms| ==>
               IsDict(CanonMembers(ms)[i].value) && Meaning(CanonMembers(ms)[i].value) == Meaning(ms[i].value)
    ensures IsDict(Obj(sorted)) && MeaningOfMembers(sorted) == MeaningOfMembers(ms)
  {
    hide Canon, Meaning, SortByKey, CanonMembers, MeaningOfMembers, IsDict;
    var cs := CanonMembers(ms);
    assert UniqueKeys(cs);
    assert KeySorted(sorted) && forall x :: x in sorted <==> x in cs;
    KeySortedIsUnique(sorted);
    forall i | 0 <= i < |sorted|
      ensures IsDict(sorted[i].value)
      ensures HasField(ms, sorted[i])
    {
      assert sorted[i] in cs;
      var j :| 0 <= j < |cs| && cs[j] == sorted[i];
      assert ms[j].key == sorted[i].key;
    }
    forall j | 0 <= j < |ms| ensures HasKey(sorted, ms[j].key) {
      assert cs[j] in sorted;
    }
    SameFieldsSameMeaning(ms, sorted);
    SortedIsDict(sorted);
  }

  /** Some member has this key and a value that means the same. */
  ghost predicate HasField(ms: seq<Member>, m: Member) {
    exists j :: 0 <= j < |ms| && ms[j].key == m.key && Meaning(ms[j].value) == Meaning(m.value)
  }

  lemma SortedIsDict(ms: seq<Member>)
    requires UniqueKeys(ms) && forall i :: 0 <= i < |ms| ==> IsDict(ms[i].value)
    ensures IsDict(Obj(ms))
  {
  }

  lemma SameFieldsSameMeaning(ms: seq<Member>, ns: seq<Member>)
    requires UniqueKeys(ms) && UniqueKeys(ns)
    requires forall i :: 0 <= i < |ns| ==> HasField(ms, ns[i])
    requires forall j :: 0 <= j < |ms| ==> HasKey(ns, ms[j].key)
    ensures MeaningOfMembers(ms) == MeaningOfMembers(ns)
  {
    hide Meaning, MeaningOfMembers;
    MeaningKeys(ms);
    MeaningKeys(ns);
    forall k | HasKey(ms, k) ensures HasKey(ns, k) {
      var j :| 0 <= j < |ms| && ms[j].key == k;
    }
    forall k | HasKey(ns, k) ensures HasKey(ms, k) && MeaningOfMembers(ms)[k] == MeaningOfMembers(ns)[k] {
      var i :| 0 <= i < |ns| && ns[i].key == k;
      var j :| 0 <= j < |ms| && ms[j].key == ns[i].key && Meaning(ms[j].value) == Meaning(ns[i].value);
      MeaningAt(ns, i);
      MeaningAt(ms, j);
    }
  }

  /** Objects that mean the same are printed from the same sorted tree. */
  lemma {:induction false} SameMeaningSameCanon(v: Json, w: Json)
    requires IsDict(v) && IsDict(w) && Meaning(v) == Meaning(w)
    ensures Canon(v) == Canon(w)
    decreases v
  {
    match v
    case Arr(items) =>
      assert |items| == |w.items|;
      forall i | 0 <= i < |items| ensures CanonItems(items)[i] == CanonItems(w.items)[i] {
        ItemAt(items, i);
        ItemAt(w.items, i);
        SameMeaningSameCanon(items[i], w.items[i]);
      }
      assert CanonItems(items) == CanonItems(w.items);
    case Obj(ms) =>
      var ns := w.members;
      forall i, j | 0 <= i < |ms| && 0 <= j < |ns| && ms[i].key == ns[j].key
        ensures Canon(ms[i].value) == Canon(ns[j].value)
      {
        MeaningAt(ms, i);
        MeaningAt(ns, j);
        SameMeaningSameCanon(ms[i].value, ns[j].value);
      }
      CanonElements(ms, ns);
      CanonElements(ns, ms);
      SortedListsAgree(SortByKey(CanonMembers(ms)), SortByKey(CanonMembers(ns)));
    case _ =>
  }

  lemma CanonElements(ms: seq<Member>, ns: seq<Member>)
    requires UniqueKeys(ms) && UniqueKeys(ns) && MeaningOfMembers(ms) == MeaningOfMembers(ns)
    requires forall i, j :: 0 <= i < |ms| && 0 <= j < |ns| && ms[i].key == ns[j].key ==>
               Canon(ms[i].value) == Canon(ns[j].value)
    ensures forall x :: x in CanonMembers(ms) ==> x in CanonMembers(ns)
    ensures KeySorted(SortByKey(CanonMembers(ms)))
  {
    hide Canon, Meaning;
    forall x | x in CanonMembers(ms) ensures x in CanonMembers(ns) {
      var i :| 0 <= i < |ms| && CanonMembers(ms)[i] == x;
      CanonMemberAt(ms, i);
      MeaningKeys(ms);
      MeaningKeys(ns);
      assert HasKey(ms, ms[i].key);
      assert ms[i].key in MeaningOfMembers(ns);
      var j :| 0 <= j < |ns| && ns[j].key == ms[i].key;
      CanonMemberAt(ns, j);
      assert CanonMembers(ns)[j] == x;
    }
    assert UniqueKeys(CanonMembers(ms));
  }

  /** Canonical JSON gives equal bytes exactly when two values are equal as maps at every depth. */
  lemma CanonicalBytesDecideEquality(v: Json, w: Json)
    requires IsDict(v) && IsDict(w)
    ensures CanonicalBytes(v) == CanonicalBytes(w) <==> Meaning(v) == Meaning(w)
  {
    hide Canon, Meaning, Print, IsDict;
    if CanonicalBytes(v) == CanonicalBytes(w) {
      EncodeInjective(Print(Canon(v), Compact), Print(Canon(w), Compact));
      CanonKeepsMeaning(v);
      CanonKeepsMeaning(w);
      JsonRoundTrip.RoundTrip(Canon(v), Compact);
      JsonRoundTrip.RoundTrip(Canon(w), Compact);
    }
    if Meaning(v) == Meaning(w) {
      SameMeaningSameCanon(v, w);
    }
  }
}
