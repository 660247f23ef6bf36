/** sorted(rows, key=...) and its reverse=True form: the order, the elements and the ties. */
module StableSort {
  import opened PyText

  function Insert<T(!new)>(x: T, xs: seq<T>, key: T -> string): (r: seq<T>)
    ensures forall y :: y in r <==> y == x || y in xs
  {
    if xs == [] then [x]
    else
      assert xs == [xs[0]] + xs[1..];
      if Less(key(xs[0]), key(x)) then [xs[0]] + Insert(x, xs[1..], key) else [x] + xs
  }

  function Sort<T(!new)>(xs: seq<T>, key: T -> string): seq<T> {
    if xs == [] then [] else Insert(xs[0], Sort(xs[1..], key), key)
  }

  function Reverse<T(!new)>(xs: seq<T>): seq<T> {
    if xs == [] then [] else Reverse(xs[1..]) + [xs[0]]
  }

  /** reverse=True: ties still keep their input order. */
  function SortDescending<T(!new)>(xs: seq<T>, key: T -> string): seq<T> {
    Reverse(Sort(Reverse(xs), key))
  }

  predicate Ascending<T(!new)>(xs: seq<T>, key: T -> string) {
    forall i, j :: 0 <= i < j < |xs| ==> !Less(key(xs[j]), key(xs[i]))
  }

  predicate Descending<T(!new)>(xs: seq<T>, key: T -> string) {
    forall i, j :: 0 <= i < j < |xs| ==> !Less(key(xs[i]), key(xs[j]))
  }

  /** The elements with one key, in their order. */
  function OfKey<T(!new)>(xs: seq<T>, key: T -> string, k: string): (r: seq<T>)
    ensures forall i :: 0 <= i < |r| ==> key(r[i]) == k && r[i] in xs
  {
    if xs == [] then []
    else
      assert xs == [xs[0]] + xs[1..];
      (if key(xs[0]) == k then [xs[0]] else []) + OfKey(xs[1..], key, k)
  }

  /** Same elements, ties in the same order. */
  ghost predicate SameTies<T(!new)>(xs: seq<T>, ys: seq<T>, key: T -> string) {
    multiset(xs) == multiset(ys) && forall k :: OfKey(xs, key, k) == OfKey(ys, key, k)
  }

  // ----- ascending -----

  lemma NotLessTransitive(a: string, b: string, c: string)
    requires !Less(b, a) && !Less(c, b)
    ensures !Less(c, a)
  {
    LessTotal(a, b);
    LessTotal(b, c);
    LessTotal(a, c);
    if Less(a, b) && Less(b, c) { LessTransitive(a, b, c); }
  }

  lemma {:induction false} InsertAscending<T(!new)>(x: T, xs: seq<T>, key: T -> string)
    requires Ascending(xs, key)
    ensures Ascending(Insert(x, xs, key), key)
  {
    if xs != [] {
      if Less(key(xs[0]), key(x)) {
        InsertAscending(x, xs[1..], key);
        var rest := Insert(x, xs[1..], key);
        LessTotal(key(xs[0]), key(x));
        forall j | 0 <= j < |rest| ensures !Less(key(rest[j]), key(xs[0])) {
          assert rest[j] in rest;
        }
      } else {
        forall j | 0 <= j < |xs| ensures !Less(key(xs[j]), key(x)) {
          if j > 0 { NotLessTransitive(key(x), key(xs[0]), key(xs[j])); }
        }
      }
    }
  }

  lemma {:induction false} InsertMultiset<T(!new)>(x: T, xs: seq<T>, key: T -> string)
    ensures multiset(Insert(x, xs, key)) == multiset([x]) + multiset(xs)
  {
    if xs != [] && Less(key(xs[0]), key(x)) {
      InsertMultiset(x, xs[1..], key);
      assert xs == [xs[0]] + xs[1..];
    }
  }

  lemma {:induction false} InsertSameTies<T(!new)>(x: T, xs: seq<T>, key: T -> string, k: string)
    ensures OfKey(Insert(x, xs, key), key, k) == OfKey([x] + xs, key, k)
  {
    if xs != [] && Less(key(xs[0]), key(x)) {
      InsertSameTies(x, xs[1..], key, k);
      LessTotal(key(xs[0]), key(x));
      TiesBehind(x, xs, Insert(x, xs[1..], key), key, k);
    }
  }

  lemma TiesBehind<T(!new)>(x: T, xs: seq<T>, rest: seq<T>, key: T -> string, k: string)
    requires xs != [] && key(xs[0]) != key(x) && OfKey(rest, key, k) == OfKey([x] + xs[1..], key, k)
    ensures OfKey([xs[0]] + rest, key, k) == OfKey([x] + xs, key, k)
  {
    hide OfKey;
    assert xs == [xs[0]] + xs[1..];
    OfKeyCons(xs[0], rest, key, k);
    OfKeyCons(x, xs[1..], key, k);
    OfKeyCons(x, xs, key, k);
    OfKeyCons(xs[0], xs[1..], key, k);
  }

  lemma OfKeyCons<T(!new)>(x: T, xs: seq<T>, key: T -> string, k: string)
    ensures OfKey([x] + xs, key, k) == (if key(x) == k then [x] else []) + OfKey(xs, key, k)
  {
    assert ([x] + xs)[1..] == xs;
  }

  /** sorted(): ascending, the same elements, ties in input order. */
  lemma {:induction false} SortIsStable<T(!new)>(xs: seq<T>, key: T -> string)
    ensures Ascending(Sort(xs, key), key) && SameTies(xs, Sort(xs, key), key)
  {
    if xs != [] {
      SortIsStable(xs[1..], key);
      var rest := Sort(xs[1..], key);
      InsertAscending(xs[0], rest, key);
      InsertMultiset(xs[0], rest, key);
      assert xs == [xs[0]] + xs[1..];
      forall k ensures OfKey(xs, key, k) == OfKey(Sort(xs, key), key, k) {
        InsertSameTies(xs[0], rest, key, k);
        OfKeyCons(xs[0], rest, key, k);
        OfKeyCons(xs[0], xs[1..], key, k);
      }
    }
  }

  // ----- descending -----

  lemma {:induction false} ReverseAt<T(!new)>(xs: seq<T>, i: nat)
    requires i < |xs|
    ensures |Reverse(xs)| == |xs| && Reverse(xs)[|xs| - 1 - i] == xs[i]
  {
    if |xs| > 1 { ReverseAt(xs[1..], if i > 0 then i - 1 else 0); }
  }

  lemma {:induction false} ReverseMultiset<T(!new)>(xs: seq<T>)
    ensures multiset(Reverse(xs)) == multiset(xs)
  {
    if xs != [] {
      ReverseMultiset(xs[1..]);
      assert xs == [xs[0]] + xs[1..];
    }
  }

  lemma {:induction false} ReverseConcat<T(!new)>(xs: seq<T>, ys: seq<T>)
    ensures Reverse(xs + ys) == Reverse(ys) + Reverse(xs)
  {
    if xs == [] {
      assert xs + ys == ys;
    } else {
      ReverseConcat(xs[1..], ys);
      assert (xs + ys)[1..] == xs[1..] + ys && (xs + ys)[0] == xs[0];
    }
  }

  lemma {:induction false} OfKeyConcat<T(!new)>(xs: seq<T>, ys: seq<T>, key: T -> string, k: string)
    ensures OfKey(xs + ys, key, k) == OfKey(xs, key, k) + OfKey(ys, key, k)
  {
    if xs == [] {
      assert xs + ys == ys;
    } else {
      OfKeyConcat(xs[1..], ys, key, k);
      assert (xs + ys)[1..] == xs[1..] + ys && (xs + ys)[0] == xs[0];
    }
  }

  lemma {:induction false} OfKeyReverse<T(!new)>(xs: seq<T>, key: T -> string, k: string)
    ensures OfKey(Reverse(xs), key, k) == Reverse(OfKey(xs, key, k))
  {
    if xs != [] {
      OfKeyReverse(xs[1..], key, k);
      OfKeyConcat(Reverse(xs[1..]), [xs[0]], key, k);
      var head := if key(xs[0]) == k then [xs[0]] else [];
      assert [xs[0]][1..] == [];
      assert OfKey([xs[0]], key, k) == head;
      ReverseConcat(head, OfKey(xs[1..], key, k));
      assert Reverse(head) == head by { if head != [] { assert head[1..] == []; } }
    }
  }

  lemma {:induction false} ReverseTwice<T(!new)>(xs: seq<T>)
    ensures Reverse(Reverse(xs)) == xs
  {
    if xs != [] {
      ReverseTwice(xs[1..]);
      ReverseConcat(Reverse(xs[1..]), [xs[0]]);
      assert [xs[0]][1..] == [];
      assert Reverse([xs[0]]) == [xs[0]];
    }
  }

  lemma ReverseDescends<T(!new)>(s: seq<T>, key: T -> string)
    requires Ascending(s, key)
    ensures Descending(Reverse(s), key)
  {
    hide Reverse, Less;
    var r := Reverse(s);
    ReverseMultiset(s);
    assert |r| == |multiset(r)| == |s|;
    forall i, j | 0 <= i < j < |r| ensures !Less(key(r[i]), key(r[j])) {
      ReverseAt(s, |s| - 1 - i);
      ReverseAt(s, |s| - 1 - j);
    }
  }

  /** sorted(reverse=True): descending, the same elements, and ties still in input order. */
  lemma SortDescendingIsStable<T(!new)>(xs: seq<T>, key: T -> string)
    ensures Descending(SortDescending(xs, key), key) && SameTies(xs, SortDescending(xs, key), key)
  {
    hide Ascending, Descending, Sort, Reverse, OfKey;
    var s := Sort(Reverse(xs), key);
    SortIsStable(Reverse(xs), key);
    ReverseMultiset(xs);
    ReverseMultiset(s);
    forall k ensures OfKey(Reverse(s), key, k) == OfKey(xs, key, k) {
      OfKeyReverse(s, key, k);
      OfKeyReverse(xs, key, k);
      ReverseTwice(OfKey(xs, key, k));
    }
    ReverseDescends(s, key);
  }

  // ----- the order and the ties determine the result -----

  lemma OfKeyHead<T(!new)>(xs: seq<T>, ys: seq<T>, key: T -> string)
    requires xs != [] && ys != [] && key(xs[0]) == key(ys[0])
    requires OfKey(xs, key, key(xs[0])) == OfKey(ys, key, key(xs[0]))
    ensures xs[0] == ys[0]
  {
    assert OfKey(xs, key, key(xs[0]))[0] == xs[0];
    assert OfKey(ys, key, key(xs[0]))[0] == ys[0];
  }

  lemma HeadOccurs<T(!new)>(xs: seq<T>, key: T -> string)
    ensures xs != [] ==> OfKey(xs, key, key(xs[0])) != []
  {
  }

  /** There is one ascending list with given ties: any stable sort gives this result. */
  lemma {:induction false} StableSortIsUnique<T(!new)>(xs: seq<T>, ys: seq<T>, key: T -> string)
    requires Ascending(xs, key) && Ascending(ys, key)
    requires forall k :: OfKey(xs, key, k) == OfKey(ys, key, k)
    ensures xs == ys
    decreases |xs|
  {
    if xs == [] {
      HeadOccurs(ys, key);
    } else {
      HeadOccurs(xs, key);
      assert ys != [];
      HeadOccurs(ys, key);
      KeyOccurs(ys, key, key(xs[0]));
      KeyOccurs(xs, key, key(ys[0]));
      LessTotal(key(xs[0]), key(ys[0]));
      OfKeyHead(xs, ys, key);
      assert xs == [xs[0]] + xs[1..] && ys == [ys[0]] + ys[1..];
      forall k ensures OfKey(xs[1..], key, k) == OfKey(ys[1..], key, k) {
        assert OfKey(xs, key, k) == OfKey(ys, key, k);
        OfKeyCons(xs[0], xs[1..], key, k);
        OfKeyCons(ys[0], ys[1..], key, k);
        var n := if key(xs[0]) == k then 1 else 0;
        assert OfKey(xs[1..], key, k) == OfKey(xs, key, k)[n..];
        assert OfKey(ys[1..], key, k) == OfKey(ys, key, k)[n..];
      }
      StableSortIsUnique(xs[1..], ys[1..], key);
    }
  }

  lemma KeyOccurs<T(!new)>(xs: seq<T>, key: T -> string, k: string)
    requires OfKey(xs, key, k) != []
    ensures exists i :: 0 <= i < |xs| && key(xs[i]) == k
  {
    assert OfKey(xs, key, k)[0] in xs;
  }

  lemma ReverseAscends<T(!new)>(xs: seq<T>, key: T -> string)
    requires Descending(xs, key)
    ensures Ascending(Reverse(xs), key)
  {
    hide Reverse, Less;
    var r := Reverse(xs);
    ReverseMultiset(xs);
    assert |r| == |multiset(r)| == |xs|;
    forall i, j | 0 <= i < j < |r| ensures !Less(key(r[j]), key(r[i])) {
      ReverseAt(xs, |xs| - 1 - i);
      ReverseAt(xs, |xs| - 1 - j);
    }
  }

  /** There is one descending list with given ties, too. */
  lemma StableDescendingIsUnique<T(!new)>(xs: seq<T>, ys: seq<T>, key: T -> string)
    requires Descending(xs, key) && Descending(ys, key)
    requires forall k :: OfKey(xs, key, k) == OfKey(ys, key, k)
    ensures xs == ys
  {
    hide Ascending, Descending, Reverse, OfKey;
    ReverseAscends(xs, key);
    ReverseAscends(ys, key);
    forall k ensures OfKey(Reverse(xs), key, k) == OfKey(Reverse(ys), key, k) {
      assert OfKey(xs, key, k) == OfKey(ys, key, k);
      OfKeyReverse(xs, key, k);
      OfKeyReverse(ys, key, k);
    }
    StableSortIsUnique(Reverse(xs), Reverse(ys), key);
    ReverseTwice(xs);
    ReverseTwice(ys);
  }
}
