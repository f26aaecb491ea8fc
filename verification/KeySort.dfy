/** Collecting the keys of an object and sorting them in place. */
module KeySort {
  import Lexicographic
  import Utf16
  import opened KeyOrder

  /** The comparison of `lessUTF16`, unit by unit. */
  method LessUTF16(a: string, b: string) returns (less: bool)
    ensures less == Less(Utf16Order, a, b)
  {
    var ua, ub := Utf16.Encode(a), Utf16.Encode(b);
    var index := 0;
    while index < |ua| && index < |ub|
      invariant index <= |ua| && index <= |ub| && ua[..index] == ub[..index]
    {
      if ua[index] != ub[index] {
        Lexicographic.FirstDifference(ua, ub, index);
        return ua[index] < ub[index];
      }
      index := index + 1;
    }
    if |ua| < |ub| {
      Lexicographic.ProperPrefix(ua, ub);
    } else if |ub| < |ua| {
      Lexicographic.ProperPrefix(ub, ua);
      Lexicographic.Asymmetric(ub, ua);
    } else {
      assert ua == ub;
      Lexicographic.Irreflexive(ua);
    }
    less := |ua| < |ub|;
  }

  method LessBy(o: Order, a: string, b: string) returns (less: bool)
    ensures less == Less(o, a, b)
  {
    match o
    case Utf16Order => less := LessUTF16(a, b);
    case ByteOrder => less := Less(o, a, b);
  }

  ghost predicate Sorted(o: Order, q: seq<string>) {
    forall i, j :: 0 <= i < j < |q| ==> !Less(o, q[j], q[i])
  }

  /** Sorted apart from the element at `hole`, which is not above anything to its right. */
  ghost predicate SortedExcept(o: Order, q: seq<string>, hole: nat) {
    (forall i, j :: 0 <= i < j < |q| && j != hole ==> !Less(o, q[j], q[i]))
  }

  lemma SwapDown(o: Order, q: seq<string>, hole: nat)
    requires 0 < hole < |q| && SortedExcept(o, q, hole) && Less(o, q[hole], q[hole - 1])
    ensures SortedExcept(o, q[hole := q[hole - 1]][hole - 1 := q[hole]], hole - 1)
  {
    var r := q[hole := q[hole - 1]][hole - 1 := q[hole]];
    forall i, j | 0 <= i < j < |r| && j != hole - 1
      ensures !Less(o, r[j], r[i])
    {
      if j == hole && i == hole - 1 {
        StrictTotalOrder(o, q[hole], q[hole - 1], q[hole]);
      }
    }
  }

  lemma HoleFilled(o: Order, q: seq<string>, hole: nat)
    requires hole < |q| && SortedExcept(o, q, hole)
    requires hole > 0 ==> !Less(o, q[hole], q[hole - 1])
    ensures Sorted(o, q)
  {
    hide Less;
    forall i | 0 <= i < hole
      ensures !Less(o, q[hole], q[i])
    {
      if i < hole - 1 {
        assert !Less(o, q[hole - 1], q[i]);
        NotLessTransitive(o, q[hole], q[hole - 1], q[i]);
      }
    }
  }

  lemma NotLessTransitive(o: Order, a: string, b: string, c: string)
    requires !Less(o, a, b) && !Less(o, b, c)
    ensures !Less(o, a, c)
  {
    StrictTotalOrder(o, a, b, a);
    StrictTotalOrder(o, b, c, b);
    StrictTotalOrder(o, b, a, c);
    StrictTotalOrder(o, a, c, b);
  }

  /** Sorts `keys` in place by the given order, losing and inventing no key. */
  method SortKeys(o: Order, keys: array<string>)
    modifies keys
    ensures Sorted(o, keys[..])
    ensures multiset(keys[..]) == multiset(old(keys[..]))
  {
    var n := 0;
    while n < keys.Length
      invariant n <= keys.Length
      invariant Sorted(o, keys[..n])
      invariant multiset(keys[..]) == multiset(old(keys[..]))
    {
      SinkInto(o, keys, n);
      n := n + 1;
    }
    assert keys[..] == keys[..n];
  }

  method SinkInto(o: Order, keys: array<string>, n: nat)
    requires n < keys.Length && Sorted(o, keys[..n])
    modifies keys
    ensures Sorted(o, keys[..n + 1])
    ensures multiset(keys[..]) == multiset(old(keys[..]))
  {
    hide Less;
    var hole := n;
    while hole > 0
      invariant 0 <= hole <= n
      invariant SortedExcept(o, keys[..n + 1], hole)
      invariant multiset(keys[..]) == multiset(old(keys[..]))
    {
      var down := LessBy(o, keys[hole], keys[hole - 1]);
      if !down {
        break;
      }
      ghost var q := keys[..n + 1];
      SwapDown(o, q, hole);
      keys[hole], keys[hole - 1] := keys[hole - 1], keys[hole];
      assert keys[..n + 1] == q[hole := q[hole - 1]][hole - 1 := q[hole]];
      hole := hole - 1;
    }
    HoleFilled(o, keys[..n + 1], hole);
  }

  lemma RearrangedSetIsDistinct(q: seq<string>, s: set<string>, i: nat, j: nat)
    requires multiset(q) == multiset(s) && i < j < |q|
    ensures q[i] != q[j]
  {
    var k := q[j];
    assert q == q[..j] + ([k] + q[j + 1..]);
    assert multiset(q) == multiset(q[..j]) + (multiset{k} + multiset(q[j + 1..]));
    assert multiset(s)[k] <= 1;
    assert k !in multiset(q[..j]);
    assert q[..j][i] == q[i];
  }

  lemma RearrangedSetElements(q: seq<string>, s: set<string>)
    requires multiset(q) == multiset(s)
    ensures Elements(q) == s
  {
    assert forall k :: k in q <==> k in multiset(q);
    assert forall k :: k in multiset(s) <==> k in s;
  }

  /** A sorted rearrangement of distinct keys is the one strictly sorted list of them. */
  lemma SortedSetIsSortedKeys(o: Order, q: seq<string>, s: set<string>)
    requires Sorted(o, q) && multiset(q) == multiset(s)
    ensures q == SortedKeys(o, s)
  {
    hide Less;
    forall i, j | 0 <= i < j < |q|
      ensures Less(o, q[i], q[j])
    {
      RearrangedSetIsDistinct(q, s, i, j);
      StrictTotalOrder(o, q[i], q[j], q[i]);
    }
    RearrangedSetElements(q, s);
    SortedUnique(o, q, SortedKeys(o, s));
  }

  /** The given keys in order, whatever order the map that holds them hands them out in. */
  method KeysInOrder(o: Order, keys: set<string>) returns (sorted: array<string>)
    ensures fresh(sorted) && sorted[..] == SortedKeys(o, keys)
  {
    var todo := keys;
    var list: seq<string> := [];
    while todo != {}
      invariant todo <= keys
      invariant multiset(list) + multiset(todo) == multiset(keys)
      decreases |todo|
    {
      var key :| key in todo;
      assert multiset(todo) == multiset(todo - {key}) + multiset{key};
      list, todo := list + [key], todo - {key};
    }
    sorted := SortList(o, list, keys);
  }

  /** A list that holds each of `keys` once, sorted. */
  method SortList(o: Order, list: seq<string>, ghost keys: set<string>) returns (sorted: array<string>)
    requires multiset(list) == multiset(keys)
    ensures fresh(sorted) && sorted[..] == SortedKeys(o, keys)
  {
    sorted := new string[|list|](i requires 0 <= i < |list| => list[i]);
    assert sorted[..] == list;
    SortKeys(o, sorted);
    SortedSetIsSortedKeys(o, sorted[..], keys);
  }
}
