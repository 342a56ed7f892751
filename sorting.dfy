/**
 * `sort_patients`: parameter checks, then a stable sort of the stored
 * records by one key, ascending or descending.
 */
module Sorting {
  import opened Patients
  import opened Errors
  import opened Store

  /** The fields a caller may sort by. */
  datatype SortKey = ByAge | ByHeight | ByBmi

  /** The value of the chosen field of a stored record (bmi as stored). */
  function Key(r: Record, k: SortKey): real
  {
    match k
    case ByAge => r.age as real
    case ByHeight => r.height
    case ByBmi => r.bmi
  }

  /** The parsed query: the key and whether the order is descending. */
  datatype SortSpec = SortSpec(key: SortKey, desc: bool)

  /**
   * The two parameter checks, sort_order first: a bad sort_order is reported
   * even when sort_by is bad too. Neither check looks at the store.
   */
  function ParseSortParams(sortBy: string, sortOrder: string): (r: Result<SortSpec>)
    ensures r.Ok? <==> sortOrder in ["asc", "desc"] && sortBy in ["age", "height", "bmi"]
    ensures r == Err(InvalidSortOrder) <==> sortOrder !in ["asc", "desc"]
    ensures r == Err(InvalidSortBy) <==>
      sortOrder in ["asc", "desc"] && sortBy !in ["age", "height", "bmi"]
    ensures r.Ok? ==>
      r.value.desc == (sortOrder == "desc") &&
      (r.value.key == ByAge <==> sortBy == "age") &&
      (r.value.key == ByHeight <==> sortBy == "height") &&
      (r.value.key == ByBmi <==> sortBy == "bmi")
  {
    if sortOrder !in ["asc", "desc"] then Err(InvalidSortOrder)
    else if sortBy !in ["age", "height", "bmi"] then Err(InvalidSortBy)
    else
      var key := if sortBy == "age" then ByAge else if sortBy == "height" then ByHeight else ByBmi;
      Ok(SortSpec(key, sortOrder == "desc"))
  }

  /** a may stand before b: no larger key ascending, no smaller key descending. */
  predicate InOrder(a: Record, b: Record, k: SortKey, desc: bool)
  {
    if desc then Key(a, k) >= Key(b, k) else Key(a, k) <= Key(b, k)
  }

  ghost predicate Sorted(s: seq<Record>, k: SortKey, desc: bool)
  {
    forall i, j :: 0 <= i < j < |s| ==> InOrder(s[i], s[j], k, desc)
  }

  /** The records of s whose key is v, in the order of s. */
  function WithKey(s: seq<Record>, k: SortKey, v: real): seq<Record>
  {
    if s == [] then []
    else (if Key(s[0], k) == v then [s[0]] else []) + WithKey(s[1..], k, v)
  }

  /**
   * t keeps the relative order of s among records with equal keys: for every
   * key value both list the same records in the same order.
   */
  ghost predicate SameOrderOnTies(s: seq<Record>, t: seq<Record>, k: SortKey)
  {
    forall v :: WithKey(t, k, v) == WithKey(s, k, v)
  }

  lemma {:induction false} WithKeyAppend(a: seq<Record>, b: seq<Record>, k: SortKey, v: real)
    ensures WithKey(a + b, k, v) == WithKey(a, k, v) + WithKey(b, k, v)
    decreases |a|
  {
    if a == [] {
      assert a + b == b;
    } else {
      var ab := a + b;
      assert ab != [] && ab[0] == a[0];
      assert ab[1..] == a[1..] + b;
      var first := if Key(a[0], k) == v then [a[0]] else [];
      assert WithKey(ab, k, v) == first + WithKey(ab[1..], k, v);
      assert WithKey(a, k, v) == first + WithKey(a[1..], k, v);
      WithKeyAppend(a[1..], b, k, v);
    }
  }

  lemma {:induction false} WithKeyNone(s: seq<Record>, k: SortKey, v: real)
    requires forall i :: 0 <= i < |s| ==> Key(s[i], k) != v
    ensures WithKey(s, k, v) == []
    decreases |s|
  {
    if s != [] {
      WithKeyNone(s[1..], k, v);
    }
  }

  /** Inserting x after the records that may precede it and before those that may not keeps the order. */
  lemma InsertKeepsSorted(s: seq<Record>, j: nat, x: Record, k: SortKey, desc: bool)
    requires Sorted(s, k, desc) && j <= |s|
    requires j == 0 || InOrder(s[j - 1], x, k, desc)
    requires forall m :: j <= m < |s| ==> !InOrder(s[m], x, k, desc)
    ensures Sorted(s[..j] + [x] + s[j..], k, desc)
  {
  }

  /** In x's own tie group, inserting x before records of other keys puts x last. */
  lemma WithKeyInsertOwn(a: seq<Record>, b: seq<Record>, x: Record, k: SortKey)
    requires WithKey(b, k, Key(x, k)) == []
    ensures WithKey(a + [x] + b, k, Key(x, k)) == WithKey(a + b, k, Key(x, k)) + [x]
  {
    var v := Key(x, k);
    WithKeyAppend(a + [x], b, k, v);
    WithKeyAppend(a, [x], k, v);
    WithKeyAppend(a, b, k, v);
  }

  /** In any other tie group, inserting x changes nothing. */
  lemma WithKeyInsertOther(a: seq<Record>, b: seq<Record>, x: Record, k: SortKey, v: real)
    requires v != Key(x, k)
    ensures WithKey(a + [x] + b, k, v) == WithKey(a + b, k, v)
  {
    WithKeyAppend(a + [x], b, k, v);
    WithKeyAppend(a, [x], k, v);
    WithKeyAppend(a, b, k, v);
    WithKeyNone([x], k, v);
  }

  /** Inserting x before records whose keys all differ from x's keeps every tie group's order and adds x last to its own. */
  lemma InsertKeepsTieOrder(s: seq<Record>, j: nat, x: Record, k: SortKey, v: real)
    requires j <= |s|
    requires forall m :: j <= m < |s| ==> Key(s[m], k) != Key(x, k)
    ensures WithKey(s[..j] + [x] + s[j..], k, v) == WithKey(s, k, v) + WithKey([x], k, v)
  {
    var a, b := s[..j], s[j..];
    assert s == a + b;
    if v == Key(x, k) {
      assert forall m :: 0 <= m < |b| ==> b[m] == s[j + m];
      WithKeyNone(b, k, v);
      WithKeyInsertOwn(a, b, x, k);
    } else {
      WithKeyInsertOther(a, b, x, k, v);
      WithKeyNone([x], k, v);
    }
  }

  /**
   * Inserts x into the sorted sequence s after every record that may stand
   * before it, so that x follows the records with an equal key.
   */
  method InsertSorted(s: seq<Record>, x: Record, k: SortKey, desc: bool) returns (t: seq<Record>)
    requires Sorted(s, k, desc)
    ensures Sorted(t, k, desc)
    ensures multiset(t) == multiset(s) + multiset{x}
    ensures forall v :: WithKey(t, k, v) == WithKey(s, k, v) + WithKey([x], k, v)
  {
    var j := |s|;
    while j > 0 && !InOrder(s[j - 1], x, k, desc)
      invariant 0 <= j <= |s|
      invariant forall m :: j <= m < |s| ==> !InOrder(s[m], x, k, desc)
    {
      j := j - 1;
    }
    InsertKeepsSorted(s, j, x, k, desc);
    forall v {
      InsertKeepsTieOrder(s, j, x, k, v);
    }
    t := s[..j] + [x] + s[j..];
    assert s == s[..j] + s[j..];
  }

  /** Extending the sorted prefix by one record keeps the order of ties. */
  lemma ExtendKeepsTieOrder(s: seq<Record>, i: nat, t: seq<Record>, t': seq<Record>, k: SortKey)
    requires i < |s|
    requires SameOrderOnTies(s[..i], t, k)
    requires forall v :: WithKey(t', k, v) == WithKey(t, k, v) + WithKey([s[i]], k, v)
    ensures SameOrderOnTies(s[..i + 1], t', k)
  {
    assert s[..i + 1] == s[..i] + [s[i]];
    forall v ensures WithKey(t', k, v) == WithKey(s[..i + 1], k, v) {
      WithKeyAppend(s[..i], [s[i]], k, v);
    }
  }

  /** A stable insertion sort of s by key k, ascending or (desc) descending. */
  method InsertionSort(s: seq<Record>, k: SortKey, desc: bool) returns (t: seq<Record>)
    ensures Sorted(t, k, desc)
    ensures multiset(t) == multiset(s)
    ensures SameOrderOnTies(s, t, k)
  {
    t := [];
    var i := 0;
    while i < |s|
      invariant 0 <= i <= |s|
      invariant Sorted(t, k, desc)
      invariant multiset(t) == multiset(s[..i])
      invariant SameOrderOnTies(s[..i], t, k)
    {
      var t' := InsertSorted(t, s[i], k, desc);
      ExtendKeepsTieOrder(s, i, t, t', k);
      assert s[..i + 1] == s[..i] + [s[i]];
      t, i := t', i + 1;
    }
    assert s[..i] == s;
  }

  /** The stored records, in the iteration order of the mapping. */
  function Values(e: seq<Entry>): (vs: seq<Record>)
    ensures |vs| == |e| && forall i :: 0 <= i < |e| ==> vs[i] == e[i].1
  {
    seq(|e|, i requires 0 <= i < |e| => e[i].1)
  }

  /**
   * `sort_patients`: both parameters are checked before the store is used;
   * then the stored records come back sorted by the key, in a stable order.
   */
  method SortPatients(sortBy: string, sortOrder: string, e: seq<Entry>) returns (r: Result<seq<Record>>)
    ensures ParseSortParams(sortBy, sortOrder).Err? ==>
      r == Err(ParseSortParams(sortBy, sortOrder).error)
    ensures ParseSortParams(sortBy, sortOrder).Ok? ==>
      var spec := ParseSortParams(sortBy, sortOrder).value;
      r.Ok? &&
      Sorted(r.value, spec.key, spec.desc) &&
      multiset(r.value) == multiset(Values(e)) &&
      SameOrderOnTies(Values(e), r.value, spec.key)
  {
    var parsed := ParseSortParams(sortBy, sortOrder);
    if parsed.Err? {
      return Err(parsed.error);
    }
    var sorted := InsertionSort(Values(e), parsed.value.key, parsed.value.desc);
    r := Ok(sorted);
  }

  /** The head of a sorted sequence may stand before each of its elements. */
  lemma SortedHeadFirst(a: seq<Record>, y: Record, k: SortKey, desc: bool)
    requires Sorted(a, k, desc) && y in a
    ensures InOrder(a[0], y, k, desc)
  {
  }

  /** Two sequences that agree on every tie group and whose heads share a key have equal heads and agreeing tails. */
  lemma HeadsAndTails(a: seq<Record>, b: seq<Record>, k: SortKey)
    requires a != [] && b != [] && Key(a[0], k) == Key(b[0], k)
    requires SameOrderOnTies(a, b, k)
    ensures a[0] == b[0]
    ensures SameOrderOnTies(a[1..], b[1..], k)
  {
    var v := Key(a[0], k);
    assert WithKey(a, k, v) == [a[0]] + WithKey(a[1..], k, v);
    assert WithKey(b, k, v) == [b[0]] + WithKey(b[1..], k, v);
    assert WithKey(a, k, v)[0] == a[0];
    forall w ensures WithKey(b[1..], k, w) == WithKey(a[1..], k, w) {
      if w != v {
        assert WithKey(a, k, w) == WithKey(a[1..], k, w);
        assert WithKey(b, k, w) == WithKey(b[1..], k, w);
      } else {
        assert WithKey(a, k, v)[1..] == WithKey(a[1..], k, v);
        assert WithKey(b, k, v)[1..] == WithKey(b[1..], k, v);
      }
    }
  }

  /**
   * Sortedness, being a permutation and keeping the order of ties pin the
   * output down: any two sequences with these properties are equal, so the
   * insertion sort returns exactly what a stable library sort returns.
   */
  lemma {:induction false} StableSortIsUnique(a: seq<Record>, b: seq<Record>, k: SortKey, desc: bool)
    requires Sorted(a, k, desc) && Sorted(b, k, desc)
    requires multiset(a) == multiset(b)
    requires SameOrderOnTies(a, b, k)
    ensures a == b
    decreases |a|
  {
    assert |a| == |multiset(a)| == |multiset(b)| == |b|;
    if a != [] {
      assert a[0] in multiset(b) && b[0] in multiset(a);
      SortedHeadFirst(a, b[0], k, desc);
      SortedHeadFirst(b, a[0], k, desc);
      HeadsAndTails(a, b, k);
      assert a == [a[0]] + a[1..] && b == [b[0]] + b[1..];
      assert multiset(a[1..]) == multiset(a) - multiset{a[0]};
      assert multiset(b[1..]) == multiset(b) - multiset{b[0]};
      StableSortIsUnique(a[1..], b[1..], k, desc);
    }
  }
}
