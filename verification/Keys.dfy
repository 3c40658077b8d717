/** `dasi::Key`: the ordered map of keyword and value strings, its parser, printer and comparison. */
module Keys {
  import opened Outcome
  import opened OrderedMap
  import opened Parsing
  import opened Text

  type Pair = (string, string)

  // ---- parsing ---------------------------------------------------------------------------

  function ParsePair(keepEmpty: bool, bit: string): Result<Pair, UserError> {
    var kvs := Split(keepEmpty, '=', bit);
    if |kvs| != 2 then Err(InvalidKey)
    else if '/' in kvs[1] then Err(QuerySupplied)
    else Ok((kvs[0], kvs[1]))
  }

  function PairParser(keepEmpty: bool): string -> Result<Pair, UserError> {
    bit => ParsePair(keepEmpty, bit)
  }

  function ParsePairs(keepEmpty: bool, bits: seq<string>): Result<seq<Pair>, UserError> {
    ParseEach(PairParser(keepEmpty), bits)
  }

  function ParseKey(keepEmpty: bool, text: string): Result<map<string, string>, UserError> {
    var pairs := ParsePairs(keepEmpty, Split(keepEmpty, ',', text));
    if pairs.Err? then Err(pairs.error) else Ok(EmplaceAll(pairs.value))
  }

  // ---- printing --------------------------------------------------------------------------

  function PairText(p: Pair): string {
    p.0 + "=" + p.1
  }

  function PairTexts(pairs: seq<Pair>): (texts: seq<string>)
    ensures |texts| == |pairs|
    ensures forall i :: 0 <= i < |pairs| ==> texts[i] == PairText(pairs[i])
  {
    seq(|pairs|, i requires 0 <= i < |pairs| => PairText(pairs[i]))
  }

  /** How a map of strings is streamed: `{key1=value1,key2=value2}`, keywords ascending. */
  function PrintKey(m: map<string, string>): string {
    "{" + Join(',', PairTexts(Items(m))) + "}"
  }

  /** The printed text without its two braces. */
  function Unbraced(text: string): string
    requires |text| >= 2
  {
    text[1..|text| - 1]
  }

  /** The printed text, entry by entry in keyword order: `{}`, and how one more entry behind the others extends it. */
  lemma PrintedEntries(m: map<string, string>, k: string, v: string)
    requires forall j :: j in m ==> StringLess(j, k)
    ensures PrintKey(map[]) == "{}"
    ensures var before, text := PrintKey(m), k + "=" + v;
            PrintKey(m[k := v]) == before[..|before| - 1] + (if m == map[] then "" else ",") + text + "}"
  {
    var texts, text := PairTexts(Items(m)), k + "=" + v;
    var body := Join(',', texts);
    ItemsSnoc(m, k, v);
    ItemsListPairs(m);
    assert PairTexts(Items(m) + [(k, v)]) == texts + [text];
    JoinSnoc(',', texts, text);
    assert PrintKey(m) == "{" + body + "}" && PrintKey(m[k := v]) == "{" + Join(',', texts + [text]) + "}";
    assert body == "" || texts != [];
    hide *;
    Truncated("{" + body, "}");
    ConcatAssoc("{", body + ",", text);
    ConcatAssoc("{", body, ",");
  }

  // ---- the object ------------------------------------------------------------------------

  class Key {
    var values: map<string, string>

    constructor ()
      ensures values == map[]
    {
      values := map[];
    }

    constructor Copy(other: map<string, string>)
      ensures values == other
    {
      values := other;
    }

    /** The parsing constructor; on a thrown error there is no object. */
    static method FromString(keepEmpty: bool, text: string) returns (r: Result<Key, UserError>)
      ensures r.Err? ==> ParseKey(keepEmpty, text) == Err(r.error)
      ensures r.Ok? ==> fresh(r.value) && ParseKey(keepEmpty, text) == Ok(r.value.values)
    {
      var bits := Split(keepEmpty, ',', text);
      var key := new Key();
      ghost var pairs: seq<Pair> := [];
      for i := 0 to |bits|
        invariant ParsePairs(keepEmpty, bits[..i]) == Ok(pairs)
        invariant key.values == EmplaceAll(pairs)
      {
        ParseEachStep(PairParser(keepEmpty), bits, i, pairs);
        hide Split, ParseEach, EmplaceAll;
        var kvs := Split(keepEmpty, '=', bits[i]);
        if |kvs| != 2 {
          return Err(InvalidKey);
        }
        if '/' in kvs[1] {
          return Err(QuerySupplied);
        }
        EmplaceSnoc(pairs, (kvs[0], kvs[1]));
        if kvs[0] !in key.values {
          key.values := key.values[kvs[0] := kvs[1]];
        }
        pairs := pairs + [(kvs[0], kvs[1])];
      }
      assert bits[..|bits|] == bits;
      return Ok(key);
    }

    method Set(keyword: string, value: string)
      modifies this
      ensures values == old(values)[keyword := value]
    {
      values := values[keyword := value];
    }

    method Get(keyword: string) returns (r: Result<string, UserError>)
      ensures r == if keyword in values then Ok(values[keyword]) else Err(KeywordNotFound(keyword))
    {
      if keyword !in values {
        return Err(KeywordNotFound(keyword));
      }
      return Ok(values[keyword]);
    }

    method Erase(keyword: string)
      modifies this
      ensures values == old(values) - {keyword}
    {
      if keyword in values {
        values := values - {keyword};
      }
    }

    method Clear()
      modifies this
      ensures values == map[]
    {
      values := map[];
    }

    /** pydasi's `Key.insert`: one `set` per entry, in the order the dict is traversed. */
    method Insert(pairs: seq<Pair>)
      modifies this
      ensures values == AssignAll(old(values), pairs)
    {
      for i := 0 to |pairs|
        invariant values == AssignAll(old(values), pairs[..i])
      {
        assert pairs[..i + 1][..i] == pairs[..i];
        Set(pairs[i].0, pairs[i].1);
      }
      assert pairs[..|pairs|] == pairs;
    }

    /** `dasi_key_get_index`: the n-th pair of the ordered traversal. */
    method GetIndex(n: int) returns (r: Result<Pair, Status>)
      ensures r.Ok? <==> 0 <= n < |values|
      ensures r.Ok? ==> r.value.0 in values && r.value.1 == values[r.value.0]
      ensures r.Ok? ==> n == |set k | k in values && StringLess(k, r.value.0)|
      ensures r.Err? ==> r.error == ErrorAssert
    {
      if n < 0 || n >= |values| {
        return Err(ErrorAssert);
      }
      ItemsListPairs(values);
      ItemsRank(values, n);
      return Ok(Items(values)[n]);
    }

    /** `dasi_key_compare` through the two comparison operators. */
    method CompareTo(other: Key) returns (result: int)
      ensures result == Compare(values, other.values)
      ensures result == 0 <==> values == other.values
      ensures forall k :: FirstDifference(values, other.values, k) ==>
                result == if Precedes(values, other.values, k) then -1 else 1
    {
      CompareLaws(values, other.values, values);
      forall k | FirstDifference(values, other.values, k)
        ensures Compare(values, other.values) == if Precedes(values, other.values, k) then -1 else 1
      {
        CompareDecidedByFirstDifference(values, other.values, k);
      }
      if MapLess(values, other.values) {
        result := -1;
      } else if MapLess(other.values, values) {
        result := 1;
      } else {
        result := 0;
      }
    }
  }

  /** The n-th keyword of the traversal is the one with exactly n keywords below it. */
  lemma ItemsRank(m: map<string, string>, n: nat)
    requires n < |Items(m)|
    ensures n == |set k | k in m && StringLess(k, Items(m)[n].0)|
  {
    ItemsListPairs(m);
    ItemsAscending(m);
    StringLessIsStrictTotalOrder();
    var items := Items(m);
    hide Items, StringLess;
    var below := set k | k in m && StringLess(k, items[n].0);
    forall k ensures k in below <==> exists i :: 0 <= i < n && items[i].0 == k {
      if k in below {
        assert (k, m[k]) in items;
        var i :| 0 <= i < |items| && items[i] == (k, m[k]);
      }
    }
    CountPrefix(items, n, below);
  }

  lemma {:induction false} CountPrefix(items: seq<Pair>, n: nat, keys: set<string>)
    requires n <= |items| && DistinctKeywords(items)
    requires forall k :: k in keys <==> exists i :: 0 <= i < n && items[i].0 == k
    ensures |keys| == n
  {
    if n == 0 {
      assert keys == {};
    } else {
      var rest := keys - {items[n - 1].0};
      CountPrefix(items, n - 1, rest);
      assert items[n - 1].0 in keys;
    }
  }

  // ---- comparison ------------------------------------------------------------------------

  /** `std::pair`'s operator<. */
  predicate PairLess(p: Pair, q: Pair) {
    StringLess(p.0, q.0) || (!StringLess(q.0, p.0) && StringLess(p.1, q.1))
  }

  /** `std::map`'s operator<. */
  predicate MapLess(m: map<string, string>, n: map<string, string>) {
    Lex(PairLess, Items(m), Items(n))
  }

  function Compare(m: map<string, string>, n: map<string, string>): int {
    if MapLess(m, n) then -1 else if MapLess(n, m) then 1 else 0
  }

  lemma PairLessIsStrictTotalOrder()
    ensures StrictTotalOrder(PairLess)
  {
    StringLessIsStrictTotalOrder();
    forall p: Pair, q: Pair | p != q ensures PairLess(p, q) || PairLess(q, p) {
      assert StringLess(p.0, q.0) || StringLess(q.0, p.0) || p.0 == q.0;
      assert StringLess(p.1, q.1) || StringLess(q.1, p.1) || p.1 == q.1;
    }
    assert forall p: Pair :: !PairLess(p, p);
    forall p: Pair, q: Pair, r: Pair | PairLess(p, q) && PairLess(q, r) ensures PairLess(p, r) {
      assert StringLess(p.0, q.0) || p.0 == q.0;
      assert StringLess(q.0, r.0) || q.0 == r.0;
    }
  }

  /** Comparing keys is a strict total order on the maps they hold. */
  lemma MapLessIsStrictTotalOrder()
    ensures StrictTotalOrder(MapLess)
    ensures forall a, b, c :: MapLess(a, b) && MapLess(b, c) ==> MapLess(a, c)
  {
    PairLessIsStrictTotalOrder();
    forall m: map<string, string> ensures !MapLess(m, m) {
      LexIrreflexive(PairLess, Items(m));
    }
    forall m: map<string, string>, n: map<string, string> | m != n ensures MapLess(m, n) || MapLess(n, m) {
      ItemsRebuild(m);
      ItemsRebuild(n);
      LexTotal(PairLess, Items(m), Items(n));
    }
    forall a: map<string, string>, b: map<string, string>, c: map<string, string> | MapLess(a, b) && MapLess(b, c)
      ensures MapLess(a, c)
    {
      LexTransitive(PairLess, Items(a), Items(b), Items(c));
    }
  }

  /** `dasi_key_compare` is 0 exactly on equal contents, antisymmetric, and consistent as an ordering. */
  lemma CompareLaws(a: map<string, string>, b: map<string, string>, c: map<string, string>)
    ensures Compare(a, b) == 0 <==> a == b
    ensures Compare(b, a) == -Compare(a, b)
    ensures Compare(a, b) <= 0 && Compare(b, c) <= 0 ==> Compare(a, c) <= 0
  {
    MapLessIsStrictTotalOrder();
    assert a != b ==> MapLess(a, b) || MapLess(b, a);
    assert b != c ==> MapLess(b, c) || MapLess(c, b);
    assert !MapLess(a, a) && !MapLess(b, b);
  }

  predicate Differ(m: map<string, string>, n: map<string, string>, k: string) {
    (k in m) != (k in n) || (k in m && k in n && m[k] != n[k])
  }

  /** k is the least keyword on which two keys differ. */
  ghost predicate FirstDifference(m: map<string, string>, n: map<string, string>, k: string) {
    Differ(m, n, k) && forall j :: StringLess(j, k) ==> !Differ(m, n, j)
  }

  /**
   What the first difference decides: two values are compared; a keyword only one key has puts
   that key first, unless the other key has nothing left to compare it with.
   */
  ghost predicate Precedes(m: map<string, string>, n: map<string, string>, k: string) {
    if k in m && k in n then StringLess(m[k], n[k])
    else if k in m then exists j :: j in n && StringLess(k, j)
    else !exists j :: j in m && StringLess(k, j)
  }

  lemma LexCons<T>(less: (T, T) -> bool, x: T, a: seq<T>, y: T, b: seq<T>)
    ensures Lex(less, [x] + a, [y] + b) <==> less(x, y) || (!less(y, x) && Lex(less, a, b))
  {
    assert ([x] + a)[1..] == a && ([y] + b)[1..] == b;
  }

  lemma PairOrder(k: string, v: string, l: string, w: string)
    ensures StringLess(k, l) ==> PairLess((k, v), (l, w)) && !PairLess((l, w), (k, v))
    ensures k == l ==> (PairLess((k, v), (l, w)) <==> StringLess(v, w))
  {
    StringLessIsStrictTotalOrder();
  }

  /** Both keys' leading entries agree and lie below the first difference: they can be left out. */
  lemma DropCommonEntry(m: map<string, string>, n: map<string, string>, k: string, l: string)
    requires FirstDifference(m, n, k) && IsLeast(l, m.Keys) && IsLeast(l, n.Keys) && m[l] == n[l]
    ensures FirstDifference(m - {l}, n - {l}, k)
    ensures Precedes(m - {l}, n - {l}, k) <==> Precedes(m, n, k)
  {
    StringLessIsStrictTotalOrder();
    hide StringLess;
    assert k != l && (k in m.Keys || k in n.Keys);
    assert StringLess(l, k);
    assert forall j :: Differ(m - {l}, n - {l}, j) <==> Differ(m, n, j);
    assert forall j :: StringLess(k, j) ==> j != l;
    assert forall j :: StringLess(k, j) ==> (j in m <==> j in m - {l}) && (j in n <==> j in n - {l});
  }

  /** Two keys that start with different keywords: the smaller one is the first difference. */
  lemma DifferentStart(m: map<string, string>, n: map<string, string>, k: string, l: string, l': string)
    requires FirstDifference(m, n, k) && IsLeast(l, m.Keys) && IsLeast(l', n.Keys) && l != l'
    ensures Precedes(m, n, k) <==> StringLess(l, l')
    ensures StringLess(l, l') || StringLess(l', l)
  {
    StringLessIsStrictTotalOrder();
    hide StringLess;
    assert l in m.Keys && l' in n.Keys && (k in m.Keys || k in n.Keys);
    assert StringLess(l, l') ==> l !in n.Keys && Differ(m, n, l) && k == l;
    assert StringLess(l', l) ==> l' !in m.Keys && Differ(m, n, l') && k == l';
  }

  /** Two keys that start with the same keyword and different values: that keyword is the first difference. */
  lemma DifferentValue(m: map<string, string>, n: map<string, string>, k: string, l: string)
    requires FirstDifference(m, n, k) && IsLeast(l, m.Keys) && IsLeast(l, n.Keys) && m[l] != n[l]
    ensures k == l && (StringLess(m[l], n[l]) || StringLess(n[l], m[l]))
  {
    StringLessIsStrictTotalOrder();
    hide StringLess;
    assert Differ(m, n, l) && (k in m.Keys || k in n.Keys);
  }

  lemma {:induction false} MapLessAtFirstDifference(m: map<string, string>, n: map<string, string>, k: string)
    requires FirstDifference(m, n, k)
    ensures MapLess(m, n) <==> Precedes(m, n, k)
    decreases |m|
  {
    if m != map[] && n != map[] {
      var l, restM := ItemsUnfold(m);
      var l', restN := ItemsUnfold(n);
      PairOrder(l, m[l], l', n[l']);
      PairOrder(l', n[l'], l, m[l]);
      PairLessIsStrictTotalOrder();
      hide StringLess, PairLess, Items, Lex;
      LexCons(PairLess, (l, m[l]), Items(restM), (l', n[l']), Items(restN));
      if l != l' {
        hide Precedes, FirstDifference;
        DifferentStart(m, n, k, l, l');
      } else if m[l] == n[l] {
        hide Precedes, FirstDifference;
        DropCommonEntry(m, n, k, l);
        MapLessAtFirstDifference(restM, restN, k);
      } else {
        DifferentValue(m, n, k, l);
      }
    } else if m == map[] {
      assert Items(m) == [];
      assert k in n;
      var _, _ := ItemsUnfold(n);
    }
  }

  /** Which key comes first, in terms of the least keyword on which they differ. */
  lemma CompareDecidedByFirstDifference(m: map<string, string>, n: map<string, string>, k: string)
    requires FirstDifference(m, n, k)
    ensures Compare(m, n) == -1 <==> Precedes(m, n, k)
    ensures Compare(m, n) == 1 <==> !Precedes(m, n, k)
  {
    MapLessAtFirstDifference(m, n, k);
    CompareLaws(m, n, n);
  }

  lemma AgreeEverywhere(m: map<string, string>, n: map<string, string>)
    requires forall j :: !Differ(m, n, j)
    ensures m == n
  {
    forall j ensures (j in m <==> j in n) && (j in m ==> m[j] == n[j]) {
      assert !Differ(m, n, j);
    }
  }

  /** Different keys always have such a keyword. */
  lemma {:induction false} FirstDifferenceExists(m: map<string, string>, n: map<string, string>) returns (k: string)
    requires m != n
    ensures FirstDifference(m, n, k)
  {
    var candidates := set j | j in m.Keys + n.Keys && Differ(m, n, j);
    assert forall j :: Differ(m, n, j) ==> j in candidates;
    if candidates == {} {
      AgreeEverywhere(m, n);
      assert false;
    }
    StringLessIsStrictTotalOrder();
    hide StringLess;
    LeastExists(candidates);
    k :| IsLeast(k, candidates);
  }

  /** Python's `==` on two keys filled from dicts with the same entries, whatever the insertion orders. */
  lemma {:induction false} EqualityIgnoresInsertionOrder(ps: seq<Pair>, qs: seq<Pair>)
    requires DistinctKeywords(ps) && DistinctKeywords(qs)
    ensures Compare(AssignAll(map[], ps), AssignAll(map[], qs)) == 0 <==> (forall p :: p in ps <==> p in qs)
  {
    var m, n := AssignAll(map[], ps), AssignAll(map[], qs);
    CompareLaws(m, n, n);
    if forall p :: p in ps <==> p in qs {
      ListingOrderIrrelevant(ps, qs);
    } else if m == n {
      SameListing(ps, qs);
      SameListing(qs, ps);
    }
  }

  lemma SameListing(ps: seq<Pair>, qs: seq<Pair>)
    requires DistinctKeywords(ps) && AssignAll(map[], ps) == AssignAll(map[], qs)
    requires DistinctKeywords(qs)
    ensures forall p :: p in ps ==> p in qs
  {
    forall p | p in ps ensures p in qs {
      var i :| 0 <= i < |ps| && ps[i] == p;
      AssignLast(map[], ps, i);
      if j :| 0 <= j < |qs| && qs[j].0 == p.0 {
        AssignLast(map[], qs, j);
      } else {
        AssignUntouched(map[], qs, p.0);
      }
    }
  }

  // ---- parser properties -----------------------------------------------------------------

  /** The maps a key text can denote. */
  predicate Parseable(keepEmpty: bool, m: map<string, string>) {
    && (keepEmpty ==> m != map[])
    && forall k :: k in m ==>
      && ',' !in k && '=' !in k
      && ',' !in m[k] && '=' !in m[k] && '/' !in m[k]
      && (!keepEmpty ==> k != "" && m[k] != "")
  }

  lemma ParsedIsParseable(keepEmpty: bool, text: string)
    requires ParseKey(keepEmpty, text).Ok?
    ensures Parseable(keepEmpty, ParseKey(keepEmpty, text).value)
  {
    var bits := Split(keepEmpty, ',', text);
    SplitFree(keepEmpty, ',', text);
    ParseEachPointwise(PairParser(keepEmpty), bits);
    var pairs := ParsePairs(keepEmpty, bits).value;
    var m := EmplaceAll(pairs);
    forall k | k in m
      ensures ',' !in k && '=' !in k && ',' !in m[k] && '=' !in m[k] && '/' !in m[k]
      ensures !keepEmpty ==> k != "" && m[k] != ""
    {
      var i := EmplaceOrigin(pairs, k);
      SplitFree(keepEmpty, '=', bits[i]);
      var kvs := Split(keepEmpty, '=', bits[i]);
      assert kvs[0] in kvs && kvs[1] in kvs && bits[i] in bits;
      assert ParsePair(keepEmpty, bits[i]) == Ok(pairs[i]);
    }
    if keepEmpty {
      EmplaceFirst(pairs, 0);
    }
  }

  /** One piece, by its parts around '=': two parts make a pair, unless the value holds a '/'. */
  lemma ParsePairOfParts(keepEmpty: bool, parts: seq<string>)
    requires parts != [] && (keepEmpty || "" !in parts) && forall i :: 0 <= i < |parts| ==> '=' !in parts[i]
    ensures |parts| != 2 ==> ParsePair(keepEmpty, Join('=', parts)) == Err(InvalidKey)
    ensures |parts| == 2 && '/' in parts[1] ==> ParsePair(keepEmpty, Join('=', parts)) == Err(QuerySupplied)
    ensures |parts| == 2 && '/' !in parts[1] ==> ParsePair(keepEmpty, Join('=', parts)) == Ok((parts[0], parts[1]))
  {
    SplitOfJoin(keepEmpty, '=', parts);
  }

  /** A key text fails with the complaint about the first of its pieces that is rejected. */
  lemma FirstComplaint(keepEmpty: bool, bits: seq<string>, i: nat)
    requires i < |bits| && (keepEmpty || "" !in bits) && forall j :: 0 <= j < |bits| ==> ',' !in bits[j]
    requires forall j :: 0 <= j < i ==> ParsePair(keepEmpty, bits[j]).Ok?
    requires ParsePair(keepEmpty, bits[i]).Err?
    ensures ParseKey(keepEmpty, Join(',', bits)) == Err(ParsePair(keepEmpty, bits[i]).error)
  {
    SplitOfJoin(keepEmpty, ',', bits);
    var parse := PairParser(keepEmpty);
    ParseEachPointwise(parse, bits[..i]);
    assert forall j :: 0 <= j < i ==> parse(bits[..i][j]) == ParsePair(keepEmpty, bits[j]);
    ParseEachStep(parse, bits, i, ParseEach(parse, bits[..i]).value);
  }

  lemma ParsePrintedPair(keepEmpty: bool, p: Pair)
    requires '=' !in p.0 && '=' !in p.1 && '/' !in p.1
    requires !keepEmpty ==> p.0 != "" && p.1 != ""
    ensures ParsePair(keepEmpty, PairText(p)) == Ok(p)
  {
    JoinTwo('=', p.0, p.1);
    SplitOfJoin(keepEmpty, '=', [p.0, p.1]);
  }

  lemma ParsePrintedPairs(keepEmpty: bool, pairs: seq<Pair>)
    requires keepEmpty ==> pairs != []
    requires forall i :: 0 <= i < |pairs| ==> ',' !in PairText(pairs[i]) && PairText(pairs[i]) != ""
    requires forall i :: 0 <= i < |pairs| ==> ParsePair(keepEmpty, PairText(pairs[i])) == Ok(pairs[i])
    ensures ParsePairs(keepEmpty, Split(keepEmpty, ',', Join(',', PairTexts(pairs)))) == Ok(pairs)
  {
    var texts := PairTexts(pairs);
    SplitOfJoin(keepEmpty, ',', texts);
    ParseEachPointwise(PairParser(keepEmpty), texts);
    assert ParsePairs(keepEmpty, texts).value == pairs;
  }

  /** The print/parse round trip, with its exact domain. */
  lemma KeyRoundTrip(keepEmpty: bool, m: map<string, string>)
    ensures ParseKey(keepEmpty, Unbraced(PrintKey(m))) == Ok(m) <==> Parseable(keepEmpty, m)
  {
    var items := Items(m);
    var body := Join(',', PairTexts(items));
    assert Unbraced(PrintKey(m)) == body;
    if Parseable(keepEmpty, m) {
      assert ParseKey(keepEmpty, body) == Ok(m) by {
        ItemsListPairs(m);
        forall i | 0 <= i < |items| ensures ParsePair(keepEmpty, PairText(items[i])) == Ok(items[i]) {
          ParsePrintedPair(keepEmpty, items[i]);
        }
        ParsePrintedPairs(keepEmpty, items);
        ItemsRebuild(m);
      }
    } else if ParseKey(keepEmpty, body) == Ok(m) {
      ParsedIsParseable(keepEmpty, body);
    }
  }

  /** With a repeated keyword the parser keeps the first value, `set` and `insert` keep the last. */
  lemma RepeatedKeywords(keepEmpty: bool, text: string, i: nat, j: nat)
    requires ParsePairs(keepEmpty, Split(keepEmpty, ',', text)).Ok?
    requires var pairs := ParsePairs(keepEmpty, Split(keepEmpty, ',', text)).value;
             i <= j < |pairs| && pairs[i].0 == pairs[j].0
             && (forall h :: 0 <= h < |pairs| && pairs[h].0 == pairs[i].0 ==> i <= h <= j)
    ensures var pairs := ParsePairs(keepEmpty, Split(keepEmpty, ',', text)).value;
            && pairs[i].0 in ParseKey(keepEmpty, text).value
            && ParseKey(keepEmpty, text).value[pairs[i].0] == pairs[i].1
            && pairs[i].0 in AssignAll(map[], pairs)
            && AssignAll(map[], pairs)[pairs[i].0] == pairs[j].1
  {
    var pairs := ParsePairs(keepEmpty, Split(keepEmpty, ',', text)).value;
    EmplaceFirst(pairs, i);
    AssignLast(map[], pairs, j);
  }
}
