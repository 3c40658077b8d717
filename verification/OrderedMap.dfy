/**
 Strict total orders, their lexicographic lifting (`std::lexicographical_compare`,
 which is what comparing strings, vectors and maps comes down to), and the ascending
 iteration order of a map with string keywords (`std::map`, and Python's
 `sorted(d.items())`).
 */
module OrderedMap {

  ghost predicate StrictTotalOrder<T(!new)>(less: (T, T) -> bool) {
    && (forall x :: !less(x, x))
    && (forall x, y :: x != y ==> less(x, y) || less(y, x))
    && (forall x, y, z :: less(x, y) && less(y, z) ==> less(x, z))
  }

  /** Element-wise comparison as the C++ library does it, using nothing but `less`. */
  predicate Lex<T>(less: (T, T) -> bool, a: seq<T>, b: seq<T>)
    decreases |a|
  {
    && b != []
    && (|| a == []
        || less(a[0], b[0])
        || (!less(b[0], a[0]) && Lex(less, a[1..], b[1..])))
  }

  lemma {:induction false} LexIrreflexive<T(!new)>(less: (T, T) -> bool, a: seq<T>)
    requires StrictTotalOrder(less)
    ensures !Lex(less, a, a)
    decreases |a|
  {
    if a != [] {
      LexIrreflexive(less, a[1..]);
    }
  }

  lemma {:induction false} LexTotal<T(!new)>(less: (T, T) -> bool, a: seq<T>, b: seq<T>)
    requires StrictTotalOrder(less)
    requires a != b
    ensures Lex(less, a, b) || Lex(less, b, a)
    decreases |a|
  {
    if a != [] && b != [] && a[0] == b[0] {
      assert a == [a[0]] + a[1..] && b == [b[0]] + b[1..];
      LexTotal(less, a[1..], b[1..]);
    }
  }

  lemma {:induction false} LexTransitive<T(!new)>(less: (T, T) -> bool, a: seq<T>, b: seq<T>, c: seq<T>)
    requires StrictTotalOrder(less)
    requires Lex(less, a, b) && Lex(less, b, c)
    ensures Lex(less, a, c)
    decreases |a|
  {
    if a != [] && a[0] == b[0] == c[0] {
      LexTransitive(less, a[1..], b[1..], c[1..]);
    }
  }

  /** Lifting a strict total order to sequences gives a strict total order. */
  lemma LexIsStrictTotalOrder<T(!new)>(less: (T, T) -> bool)
    requires StrictTotalOrder(less)
    ensures StrictTotalOrder((a: seq<T>, b: seq<T>) => Lex(less, a, b))
  {
    forall a: seq<T> ensures !Lex(less, a, a) {
      LexIrreflexive(less, a);
    }
    forall a: seq<T>, b: seq<T> | a != b ensures Lex(less, a, b) || Lex(less, b, a) {
      LexTotal(less, a, b);
    }
    forall a: seq<T>, b: seq<T>, c: seq<T> | Lex(less, a, b) && Lex(less, b, c) ensures Lex(less, a, c) {
      LexTransitive(less, a, b, c);
    }
  }

  /** The comparison is decided where two sequences first differ, or by which of them ends there. */
  lemma {:induction false} LexDecidedByFirstDifference<T(!new)>(less: (T, T) -> bool, p: seq<T>, a: seq<T>, b: seq<T>)
    requires StrictTotalOrder(less)
    requires a == [] || b == [] || a[0] != b[0]
    ensures Lex(less, p + a, p + b) <==> b != [] && (a == [] || less(a[0], b[0]))
    decreases |p|
  {
    if p == [] {
      assert p + a == a && p + b == b;
    } else {
      assert (p + a)[1..] == p[1..] + a && (p + b)[1..] == p[1..] + b;
      LexDecidedByFirstDifference(less, p[1..], a, b);
    }
  }

  predicate CharLess(a: char, b: char) {
    a < b
  }

  predicate StringLess(a: string, b: string) {
    Lex(CharLess, a, b)
  }

  lemma StringLessIsStrictTotalOrder()
    ensures StrictTotalOrder(StringLess)
    ensures forall a, b, c :: StringLess(a, b) && StringLess(b, c) ==> StringLess(a, c)
  {
    LexIsStrictTotalOrder(CharLess);
    var lifted := (a: string, b: string) => Lex(CharLess, a, b);
    assert forall a, b :: StringLess(a, b) == lifted(a, b);
  }

  /** Spelled out on characters: the first difference decides by `<`, a proper prefix comes first. */
  lemma StringOrder(p: string, a: string, b: string)
    requires a == "" || b == "" || a[0] != b[0]
    ensures StringLess(p + a, p + b) <==> b != "" && (a == "" || a[0] < b[0])
  {
    LexDecidedByFirstDifference(CharLess, p, a, b);
  }

  // ---- ascending iteration -------------------------------------------------------------

  ghost predicate IsLeast(k: string, keys: set<string>) {
    k in keys && forall other :: other in keys ==> other == k || StringLess(k, other)
  }

  lemma {:induction false} LeastExists(keys: set<string>)
    requires keys != {}
    ensures exists k :: IsLeast(k, keys)
  {
    StringLessIsStrictTotalOrder();
    var k :| k in keys;
    if keys == {k} {
      assert IsLeast(k, keys);
    } else {
      var rest := keys - {k};
      assert rest < keys;
      LeastExists(rest);
      var m :| IsLeast(m, rest);
      if StringLess(k, m) {
        forall other | other in keys && other != k ensures StringLess(k, other) {
          assert other in rest;
        }
        assert IsLeast(k, keys);
      } else {
        assert IsLeast(m, keys);
      }
    }
  }

  function Least(keys: set<string>): (k: string)
    requires keys != {}
    ensures IsLeast(k, keys)
  {
    LeastExists(keys);
    StringLessIsStrictTotalOrder();
    var k :| k in keys && forall other :: other in keys ==> other == k || StringLess(k, other);
    k
  }

  /** The pairs of `m` in the order an ordered map is traversed. */
  function Items<V>(m: map<string, V>): seq<(string, V)>
    decreases |m|
  {
    if m == map[] then []
    else
      var k := Least(m.Keys);
      var rest := m - {k};
      assert rest.Keys == m.Keys - {k};
      assert |rest.Keys| < |m.Keys|;
      [(k, m[k])] + Items(rest)
  }

  /** Assigning the pairs one after another: a later pair for a keyword replaces an earlier one. */
  function AssignAll<V>(m: map<string, V>, pairs: seq<(string, V)>): map<string, V> {
    if pairs == [] then m
    else
      var last := pairs[|pairs| - 1];
      AssignAll(m, pairs[..|pairs| - 1])[last.0 := last.1]
  }

  /** Emplacing the pairs one after another: the first pair for a keyword stays. */
  function EmplaceAll<V>(pairs: seq<(string, V)>): map<string, V> {
    if pairs == [] then map[]
    else
      var last := pairs[|pairs| - 1];
      var m := EmplaceAll(pairs[..|pairs| - 1]);
      if last.0 in m then m else m[last.0 := last.1]
  }

  ghost predicate DistinctKeywords<V>(pairs: seq<(string, V)>) {
    forall i, j :: 0 <= i < j < |pairs| ==> pairs[i].0 != pairs[j].0
  }

  ghost predicate Ascending<V>(pairs: seq<(string, V)>) {
    forall i, j :: 0 <= i < j < |pairs| ==> StringLess(pairs[i].0, pairs[j].0)
  }

  lemma ItemsUnfold<V>(m: map<string, V>) returns (k: string, rest: map<string, V>)
    requires m != map[]
    ensures IsLeast(k, m.Keys) && rest == m - {k} && |rest| == |m| - 1
    ensures Items(m) == [(k, m[k])] + Items(rest)
  {
    k := Least(m.Keys);
    rest := m - {k};
    assert rest.Keys == m.Keys - {k};
    assert |rest.Keys| == |m.Keys| - 1;
  }

  /** The traversal lists exactly the pairs of the map. */
  lemma {:induction false} ItemsListPairs<V>(m: map<string, V>)
    ensures |Items(m)| == |m|
    ensures forall i :: 0 <= i < |Items(m)| ==> Items(m)[i].0 in m && m[Items(m)[i].0] == Items(m)[i].1
    ensures forall k :: k in m ==> (k, m[k]) in Items(m)
    decreases |m|
  {
    if m != map[] {
      var least, rest := ItemsUnfold(m);
      ItemsListPairs(rest);
      var items := Items(rest);
      forall k | k in m ensures (k, m[k]) in [(least, m[least])] + items {
        if k != least {
          assert k in rest && (k, rest[k]) in items;
        }
      }
    }
  }

  lemma AscendingCons<V>(p: (string, V), items: seq<(string, V)>)
    requires Ascending(items) && forall i :: 0 <= i < |items| ==> StringLess(p.0, items[i].0)
    ensures Ascending([p] + items)
  {
    hide StringLess;
  }

  lemma AscendingIsDistinct<V>(items: seq<(string, V)>)
    requires Ascending(items)
    ensures DistinctKeywords(items)
  {
    StringLessIsStrictTotalOrder();
    hide StringLess;
  }

  /** The traversal is strictly ascending. */
  lemma {:induction false} ItemsAscending<V>(m: map<string, V>)
    ensures Ascending(Items(m)) && DistinctKeywords(Items(m))
    decreases |m|
  {
    if m != map[] {
      var least, rest := ItemsUnfold(m);
      ItemsAscending(rest);
      ItemsListPairs(rest);
      var items := Items(rest);
      hide Items, StringLess, Ascending, DistinctKeywords;
      forall i | 0 <= i < |items| ensures StringLess(least, items[i].0) {
        assert items[i].0 in m.Keys;
      }
      AscendingCons((least, m[least]), items);
      AscendingIsDistinct(Items(m));
    }
  }

  /** What `EmplaceAll` stores: for every keyword, the value of its first occurrence. */
  lemma {:induction false} EmplaceFirst<V>(pairs: seq<(string, V)>, i: nat)
    requires i < |pairs|
    requires forall j :: 0 <= j < i ==> pairs[j].0 != pairs[i].0
    ensures pairs[i].0 in EmplaceAll(pairs) && EmplaceAll(pairs)[pairs[i].0] == pairs[i].1
  {
    var init := pairs[..|pairs| - 1];
    if i < |init| {
      EmplaceFirst(init, i);
    } else if pairs[i].0 in EmplaceAll(init) {
      var j := EmplaceOrigin(init, pairs[i].0);
    }
  }

  lemma {:induction false} EmplaceOrigin<V>(pairs: seq<(string, V)>, k: string) returns (i: nat)
    requires k in EmplaceAll(pairs)
    ensures i < |pairs| && pairs[i].0 == k && EmplaceAll(pairs)[k] == pairs[i].1
    ensures forall j :: 0 <= j < i ==> pairs[j].0 != k
  {
    var init := pairs[..|pairs| - 1];
    if k in EmplaceAll(init) {
      i := EmplaceOrigin(init, k);
    } else {
      i := |init|;
      forall j | 0 <= j < i ensures pairs[j].0 != k {
        if pairs[j].0 == k {
          var f := FirstOccurrence(init, j);
          EmplaceFirst(init, f);
        }
      }
    }
  }

  lemma {:induction false} FirstOccurrence<V>(pairs: seq<(string, V)>, j: nat) returns (f: nat)
    requires j < |pairs|
    ensures f <= j && pairs[f].0 == pairs[j].0
    ensures forall i :: 0 <= i < f ==> pairs[i].0 != pairs[f].0
  {
    f := j;
    if i :| 0 <= i < j && pairs[i].0 == pairs[j].0 {
      f := FirstOccurrence(pairs, i);
    }
  }

  /** What `AssignAll` stores: for every keyword, the value of its last occurrence. */
  lemma {:induction false} AssignLast<V>(m: map<string, V>, pairs: seq<(string, V)>, i: nat)
    requires i < |pairs|
    requires forall j :: i < j < |pairs| ==> pairs[j].0 != pairs[i].0
    ensures pairs[i].0 in AssignAll(m, pairs) && AssignAll(m, pairs)[pairs[i].0] == pairs[i].1
  {
    if i < |pairs| - 1 {
      AssignLast(m, pairs[..|pairs| - 1], i);
    }
  }

  lemma {:induction false} AssignUntouched<V>(m: map<string, V>, pairs: seq<(string, V)>, k: string)
    requires forall j :: 0 <= j < |pairs| ==> pairs[j].0 != k
    ensures k in AssignAll(m, pairs) <==> k in m
    ensures k in m ==> AssignAll(m, pairs)[k] == m[k]
  {
    if pairs != [] {
      AssignUntouched(m, pairs[..|pairs| - 1], k);
    }
  }

  /** `m` holds exactly the keywords of the pairs, each with the value of its last occurrence. */
  ghost predicate HoldsLastValues<V>(m: map<string, V>, pairs: seq<(string, V)>) {
    && (forall k :: k in m ==> exists i :: 0 <= i < |pairs| && pairs[i].0 == k)
    && forall i :: 0 <= i < |pairs| && (forall j :: i < j < |pairs| ==> pairs[j].0 != pairs[i].0) ==>
         pairs[i].0 in m && m[pairs[i].0] == pairs[i].1
  }

  lemma AssigningHoldsLastValues<V>(pairs: seq<(string, V)>)
    ensures HoldsLastValues(AssignAll(map[], pairs), pairs)
  {
    var m := AssignAll(map[], pairs);
    forall k | k in m ensures exists i :: 0 <= i < |pairs| && pairs[i].0 == k {
      if forall i :: 0 <= i < |pairs| ==> pairs[i].0 != k {
        AssignUntouched(map[], pairs, k);
      }
    }
    forall i | 0 <= i < |pairs| && (forall j :: i < j < |pairs| ==> pairs[j].0 != pairs[i].0)
      ensures pairs[i].0 in m && m[pairs[i].0] == pairs[i].1
    {
      AssignLast(map[], pairs, i);
    }
  }

  /** Two listings of the same pairs, each keyword once, build the same map in any order. */
  lemma ListingOrderIrrelevant<V>(ps: seq<(string, V)>, qs: seq<(string, V)>)
    requires DistinctKeywords(ps) && DistinctKeywords(qs)
    requires forall p :: p in ps <==> p in qs
    ensures AssignAll(map[], ps) == AssignAll(map[], qs)
  {
    var m, n := AssignAll(map[], ps), AssignAll(map[], qs);
    forall k ensures (k in m <==> k in n) && (k in m ==> m[k] == n[k]) {
      if i :| 0 <= i < |ps| && ps[i].0 == k {
        AssignLast(map[], ps, i);
        assert ps[i] in qs;
        var j :| 0 <= j < |qs| && qs[j] == ps[i];
        AssignLast(map[], qs, j);
      } else {
        AssignUntouched(map[], ps, k);
        forall j | 0 <= j < |qs| ensures qs[j].0 != k {
          assert qs[j] in ps;
        }
        AssignUntouched(map[], qs, k);
      }
    }
  }

  /** The listing has every keyword once and lists exactly the map's entries. */
  ghost predicate ListsExactly<V>(pairs: seq<(string, V)>, m: map<string, V>) {
    && DistinctKeywords(pairs)
    && (forall i :: 0 <= i < |pairs| ==> pairs[i].0 in m && m[pairs[i].0] == pairs[i].1)
    && forall k :: k in m ==> (k, m[k]) in pairs
  }

  lemma RebuildAt<V>(pairs: seq<(string, V)>, m: map<string, V>, k: string)
    requires ListsExactly(pairs, m)
    ensures (k in EmplaceAll(pairs) <==> k in m) && (k in AssignAll(map[], pairs) <==> k in m)
    ensures k in m ==> EmplaceAll(pairs)[k] == m[k] == AssignAll(map[], pairs)[k]
  {
    if k in m {
      assert (k, m[k]) in pairs;
      var i :| 0 <= i < |pairs| && pairs[i] == (k, m[k]);
      EmplaceFirst(pairs, i);
      AssignLast(map[], pairs, i);
    } else {
      AssignUntouched(map[], pairs, k);
      if k in EmplaceAll(pairs) {
        var i := EmplaceOrigin(pairs, k);
      }
    }
  }

  /** Inserting an exact listing gives the map, by either way of inserting. */
  lemma ListingRebuilds<V>(pairs: seq<(string, V)>, m: map<string, V>)
    requires ListsExactly(pairs, m)
    ensures EmplaceAll(pairs) == m && AssignAll(map[], pairs) == m
  {
    var e, a := EmplaceAll(pairs), AssignAll(map[], pairs);
    hide *;
    forall k ensures (k in e <==> k in m) && (k in a <==> k in m) && (k in m ==> e[k] == m[k] == a[k]) {
      RebuildAt(pairs, m, k);
    }
  }

  /** Rebuilding a map from its own traversal gives the map back. */
  lemma ItemsRebuild<V>(m: map<string, V>)
    ensures EmplaceAll(Items(m)) == m
    ensures AssignAll(map[], Items(m)) == m
  {
    ItemsAscending(m);
    ItemsListPairs(m);
    hide Items;
    ListingRebuilds(Items(m), m);
  }

  lemma EmplaceSnoc<V>(pairs: seq<(string, V)>, p: (string, V))
    ensures var m := EmplaceAll(pairs);
            EmplaceAll(pairs + [p]) == if p.0 in m then m else m[p.0 := p.1]
  {
    assert (pairs + [p])[..|pairs|] == pairs;
  }

  lemma ItemsSingle<V>(k: string, v: V)
    ensures Items(map[k := v]) == [(k, v)]
  {
    var m := map[k := v];
    assert m.Keys == {k} && m - {k} == map[];
  }

  /** The entry visited first stays first when a keyword above all others is added. */
  lemma LeastBelowNew<V>(m: map<string, V>, k: string, v: V, l: string, least: string)
    requires forall j :: j in m ==> StringLess(j, k)
    requires IsLeast(l, m.Keys) && IsLeast(least, m[k := v].Keys)
    ensures least == l && l != k && m[k := v][l] == m[l] && m[k := v] - {l} == (m - {l})[k := v]
  {
    StringLessIsStrictTotalOrder();
    hide StringLess;
    assert l in m && l in m[k := v].Keys;
    assert StringLess(l, k) && !StringLess(k, l);
    assert least == l || (least in m.Keys && StringLess(l, least)) || least == k;
  }

  /** A keyword above all others is visited last. */
  lemma {:induction false} ItemsSnoc<V>(m: map<string, V>, k: string, v: V)
    requires forall j :: j in m ==> StringLess(j, k)
    ensures Items(m[k := v]) == Items(m) + [(k, v)]
    decreases |m|
  {
    if m == map[] {
      ItemsSingle(k, v);
      assert m[k := v] == map[k := v];
    } else {
      hide *;
      var least, rest := ItemsUnfold(m[k := v]);
      var l, tail := ItemsUnfold(m);
      LeastBelowNew(m, k, v, l, least);
      ItemsSnoc(tail, k, v);
      assert [(l, m[l])] + (Items(tail) + [(k, v)]) == [(l, m[l])] + Items(tail) + [(k, v)];
    }
  }
}
