/** `dasi::Query`: keywords with lists of values, its text form, and how it relates to `Key`. */
module Queries {
  import opened Outcome
  import opened OrderedMap
  import opened Parsing
  import opened Text
  import Keys

  type Term = (string, seq<string>)

  function ParseTerm(keepEmpty: bool, bit: string): Result<Term, UserError> {
    var kvs := Split(keepEmpty, '=', bit);
    if |kvs| != 2 then Err(InvalidKey)
    else Ok((kvs[0], Split(keepEmpty, '/', kvs[1])))
  }

  function TermParser(keepEmpty: bool): string -> Result<Term, UserError> {
    bit => ParseTerm(keepEmpty, bit)
  }

  function ParseQuery(keepEmpty: bool, text: string): Result<map<string, seq<string>>, UserError> {
    var terms := ParseEach(TermParser(keepEmpty), Split(keepEmpty, ',', text));
    if terms.Err? then Err(terms.error) else Ok(EmplaceAll(terms.value))
  }

  /** The request text `k1=v1/v2,k2=v3`, keywords ascending and values in their order. */
  function QueryText(q: map<string, seq<string>>): string {
    Join(',', TermTexts(Items(q)))
  }

  function TermText(t: Term): string {
    t.0 + "=" + Join('/', t.1)
  }

  function TermTexts(terms: seq<Term>): (texts: seq<string>)
    ensures |texts| == |terms|
    ensures forall i :: 0 <= i < |terms| ==> texts[i] == TermText(terms[i])
  {
    seq(|terms|, i requires 0 <= i < |terms| => TermText(terms[i]))
  }

  /** The request text, term by term in keyword order. */
  lemma WrittenTerms(q: map<string, seq<string>>, k: string, vals: seq<string>)
    requires forall j :: j in q ==> StringLess(j, k)
    ensures QueryText(map[]) == ""
    ensures var text := k + "=" + Join('/', vals);
            QueryText(q[k := vals]) == QueryText(q) + (if q == map[] then "" else ",") + text
  {
    var texts, text := TermTexts(Items(q)), k + "=" + Join('/', vals);
    ItemsSnoc(q, k, vals);
    ItemsListPairs(q);
    assert TermTexts(Items(q) + [(k, vals)]) == texts + [text];
    JoinSnoc(',', texts, text);
    assert QueryText(q) == Join(',', texts) && QueryText(q[k := vals]) == Join(',', texts + [text]);
    hide *;
  }

  class Query {
    var values: map<string, seq<string>>

    constructor ()
      ensures values == map[]
    {
      values := map[];
    }

    /** The parsing constructor; on a thrown error there is no object. */
    static method FromString(keepEmpty: bool, text: string) returns (r: Result<Query, UserError>)
      ensures r.Err? ==> ParseQuery(keepEmpty, text) == Err(r.error)
      ensures r.Ok? ==> fresh(r.value) && ParseQuery(keepEmpty, text) == Ok(r.value.values)
    {
      var bits := Split(keepEmpty, ',', text);
      var query := new Query();
      ghost var terms: seq<Term> := [];
      for i := 0 to |bits|
        invariant ParseEach(TermParser(keepEmpty), bits[..i]) == Ok(terms)
        invariant query.values == EmplaceAll(terms)
      {
        ParseEachStep(TermParser(keepEmpty), bits, i, terms);
        hide Split, ParseEach, EmplaceAll;
        var kvs := Split(keepEmpty, '=', bits[i]);
        if |kvs| != 2 {
          return Err(InvalidKey);
        }
        var vals := Split(keepEmpty, '/', kvs[1]);
        EmplaceSnoc(terms, (kvs[0], vals));
        if kvs[0] !in query.values {
          query.values := query.values[kvs[0] := vals];
        }
        terms := terms + [(kvs[0], vals)];
      }
      assert bits[..|bits|] == bits;
      return Ok(query);
    }

    /** `dasi_query_set`: a null entry anywhere among the values leaves the query as it was. */
    method Set(keyword: string, vals: seq<Option<string>>, num: int) returns (status: Status)
      requires num <= |vals|
      modifies this
      ensures status == if num >= 0 && None !in vals[..num] then Success else ErrorAssert
      ensures status == ErrorAssert ==> values == old(values)
      ensures status == Success ==>
                && values.Keys == old(values).Keys + {keyword} && values - {keyword} == old(values) - {keyword}
                && |values[keyword]| == num && forall i :: 0 <= i < num ==> vals[i] == Some(values[keyword][i])
    {
      if num < 0 {
        return ErrorAssert;
      }
      var collected: seq<string> := [];
      for i := 0 to num
        invariant |collected| == i
        invariant forall j :: 0 <= j < i ==> vals[j] == Some(collected[j])
      {
        if vals[i].None? {
          assert vals[..num][i] == None;
          return ErrorAssert;
        }
        collected := collected + [vals[i].value];
      }
      values := values[keyword := collected];
      return Success;
    }

    /** `dasi_query_append`. */
    method Append(keyword: string, value: string)
      modifies this
      ensures keyword in old(values) ==> values == old(values)[keyword := old(values)[keyword] + [value]]
      ensures keyword !in old(values) ==> values == old(values)[keyword := [value]]
    {
      if keyword !in values {
        values := values[keyword := [value]];
        return;
      }
      values := values[keyword := values[keyword] + [value]];
    }

    /** `dasi_query_get`: the num-th value of a keyword. */
    method GetValue(keyword: string, num: int) returns (r: Result<string, Status>)
      ensures r.Ok? <==> keyword in values && 0 <= num < |values[keyword]|
      ensures r.Ok? ==> r.value == values[keyword][num]
      ensures r.Err? ==> r.error == if num >= 0 && keyword !in values then ErrorUser else ErrorAssert
    {
      if num < 0 {
        return Err(ErrorAssert);
      }
      if keyword !in values {
        return Err(ErrorUser);
      }
      if num >= |values[keyword]| {
        return Err(ErrorAssert);
      }
      return Ok(values[keyword][num]);
    }

    method Erase(keyword: string)
      modifies this
      ensures values == old(values) - {keyword}
    {
      if keyword in values {
        values := values - {keyword};
      }
    }
  }

  // ---- agreement with Key ----------------------------------------------------------------

  /** On one piece: the query parser accepts more, and agrees where the key parser accepts. */
  lemma TermOfPair(keepEmpty: bool, bit: string)
    ensures Keys.ParsePair(keepEmpty, bit).Ok? <==>
            ParseTerm(keepEmpty, bit).Ok? && '/' !in Split(keepEmpty, '=', bit)[1]
    ensures Keys.ParsePair(keepEmpty, bit).Ok? ==>
              var p := Keys.ParsePair(keepEmpty, bit).value;
              ParseTerm(keepEmpty, bit) == Ok((p.0, [p.1]))
  {
    var kvs := Split(keepEmpty, '=', bit);
    if |kvs| == 2 && '/' !in kvs[1] {
      SplitFree(keepEmpty, '=', bit);
      assert kvs[1] in kvs;
      SplitOfJoin(keepEmpty, '/', [kvs[1]]);
    }
  }

  lemma {:induction false} EmplaceSingletons(pairs: seq<Keys.Pair>, terms: seq<Term>)
    requires |pairs| == |terms|
    requires forall i :: 0 <= i < |pairs| ==> terms[i] == (pairs[i].0, [pairs[i].1])
    ensures EmplaceAll(terms) == map k | k in EmplaceAll(pairs) :: [EmplaceAll(pairs)[k]]
  {
    if pairs != [] {
      EmplaceSingletons(pairs[..|pairs| - 1], terms[..|terms| - 1]);
    }
  }

  /** Every text accepted as a key is accepted as a query, with the same keywords and single values. */
  lemma KeyTextIsQueryText(keepEmpty: bool, text: string)
    requires Keys.ParseKey(keepEmpty, text).Ok?
    ensures var m := Keys.ParseKey(keepEmpty, text).value;
            ParseQuery(keepEmpty, text) == Ok(map k | k in m :: [m[k]])
  {
    var bits := Split(keepEmpty, ',', text);
    ParseEachPointwise(Keys.PairParser(keepEmpty), bits);
    ParseEachPointwise(TermParser(keepEmpty), bits);
    forall i | 0 <= i < |bits|
      ensures ParseTerm(keepEmpty, bits[i]).Ok?
      ensures var p := Keys.ParsePair(keepEmpty, bits[i]).value;
              ParseTerm(keepEmpty, bits[i]) == Ok((p.0, [p.1]))
    {
      assert Keys.PairParser(keepEmpty)(bits[i]).Ok?;
      TermOfPair(keepEmpty, bits[i]);
    }
    assert forall i :: 0 <= i < |bits| ==> TermParser(keepEmpty)(bits[i]).Ok?;
    var pairs := Keys.ParsePairs(keepEmpty, bits).value;
    var terms := ParseEach(TermParser(keepEmpty), bits).value;
    EmplaceSingletons(pairs, terms);
  }

  /** Of the texts the query parser accepts, the key parser accepts exactly those without a value list. */
  lemma KeyTextIffNoValueList(keepEmpty: bool, text: string)
    ensures Keys.ParseKey(keepEmpty, text).Ok? <==>
            && ParseQuery(keepEmpty, text).Ok?
            && forall bit :: bit in Split(keepEmpty, ',', text) ==>
                 |Split(keepEmpty, '=', bit)| == 2 && '/' !in Split(keepEmpty, '=', bit)[1]
  {
    var bits := Split(keepEmpty, ',', text);
    ParseEachPointwise(Keys.PairParser(keepEmpty), bits);
    ParseEachPointwise(TermParser(keepEmpty), bits);
    forall bit | bit in bits
      ensures Keys.PairParser(keepEmpty)(bit).Ok? <==>
              |Split(keepEmpty, '=', bit)| == 2 && '/' !in Split(keepEmpty, '=', bit)[1]
      ensures TermParser(keepEmpty)(bit).Ok? <==> |Split(keepEmpty, '=', bit)| == 2
    {
    }
    assert forall i :: 0 <= i < |bits| ==> bits[i] in bits;
  }

  // ---- round trip ------------------------------------------------------------------------

  predicate SeparatorFreeTerm(keepEmpty: bool, t: Term) {
    && ',' !in t.0 && '=' !in t.0 && (!keepEmpty ==> t.0 != "")
    && forall v :: v in t.1 ==> ',' !in v && '=' !in v && '/' !in v && (!keepEmpty ==> v != "")
  }

  predicate SeparatorFree(keepEmpty: bool, q: map<string, seq<string>>) {
    && (keepEmpty ==> q != map[])
    && forall k :: k in q ==> SeparatorFreeTerm(keepEmpty, (k, q[k]))
  }

  /** The queries a request text can carry faithfully. */
  predicate Expressible(keepEmpty: bool, q: map<string, seq<string>>) {
    SeparatorFree(keepEmpty, q) && forall k :: k in q ==> q[k] != []
  }

  lemma {:induction false} JoinEmpty(sep: char, parts: seq<string>)
    requires parts != [] && "" !in parts
    ensures Join(sep, parts) != ""
  {
    assert parts[0] in parts;
  }

  lemma ParseTermText(keepEmpty: bool, t: Term)
    requires SeparatorFreeTerm(keepEmpty, t)
    ensures ',' !in TermText(t) && TermText(t) != ""
    ensures t.1 != [] ==> ParseTerm(keepEmpty, TermText(t)) == Ok(t)
    ensures t.1 == [] && ParseTerm(keepEmpty, TermText(t)).Ok? ==>
              var p := ParseTerm(keepEmpty, TermText(t)).value;
              p.0 == t.0 && p.1 != []
  {
    var joined := Join('/', t.1);
    var parts := [t.0, joined];
    JoinTwo('=', t.0, joined);
    forall c | c == ',' || c == '=' ensures c !in joined {
      if c in joined {
        JoinMembers('/', t.1, c);
      }
    }
    if t.1 != [] {
      if !keepEmpty {
        JoinEmpty('/', t.1);
      }
      SplitOfJoin(keepEmpty, '=', parts);
      SplitOfJoin(keepEmpty, '/', t.1);
    } else {
      PiecesStep('=', t.0, "");
      assert parts == [t.0, ""];
      assert TermText(t) == t.0 + "=" + "";
      assert Pieces('=', TermText(t)) == parts;
      if !keepEmpty {
        assert NonEmpty([""]) == NonEmpty([""][1..]);
        assert parts[1..] == [""];
      }
    }
  }

  lemma ParsedIsSeparatorFree(keepEmpty: bool, text: string)
    requires ParseQuery(keepEmpty, text).Ok?
    ensures SeparatorFree(keepEmpty, ParseQuery(keepEmpty, text).value)
  {
    var bits := Split(keepEmpty, ',', text);
    SplitFree(keepEmpty, ',', text);
    ParseEachPointwise(TermParser(keepEmpty), bits);
    var terms := ParseEach(TermParser(keepEmpty), bits).value;
    var q := EmplaceAll(terms);
    forall k | k in q ensures SeparatorFreeTerm(keepEmpty, (k, q[k])) {
      var i := EmplaceOrigin(terms, k);
      var kvs := Split(keepEmpty, '=', bits[i]);
      assert TermParser(keepEmpty)(bits[i]) == Ok(terms[i]);
      SplitFree(keepEmpty, '=', bits[i]);
      assert kvs[0] in kvs && kvs[1] in kvs && bits[i] in bits;
      SplitFree(keepEmpty, '/', kvs[1]);
    }
    if keepEmpty {
      EmplaceFirst(terms, 0);
    }
  }

  /** A request text is parsed term by term; `parsed` lists what each term is read back as. */
  lemma ParseTermTexts(keepEmpty: bool, terms: seq<Term>) returns (parsed: Result<seq<Term>, UserError>)
    requires keepEmpty ==> terms != []
    requires forall i :: 0 <= i < |terms| ==> ',' !in TermText(terms[i]) && TermText(terms[i]) != ""
    ensures parsed == ParseEach(TermParser(keepEmpty), Split(keepEmpty, ',', Join(',', TermTexts(terms))))
    ensures parsed.Ok? <==> forall i :: 0 <= i < |terms| ==> ParseTerm(keepEmpty, TermText(terms[i])).Ok?
    ensures parsed.Ok? ==> |parsed.value| == |terms|
    ensures parsed.Ok? ==>
              forall i :: 0 <= i < |terms| ==> ParseTerm(keepEmpty, TermText(terms[i])) == Ok(parsed.value[i])
  {
    var texts := TermTexts(terms);
    SplitOfJoin(keepEmpty, ',', texts);
    ParseEachPointwise(TermParser(keepEmpty), texts);
    parsed := ParseEach(TermParser(keepEmpty), texts);
    assert forall i :: 0 <= i < |terms| ==> TermParser(keepEmpty)(texts[i]) == ParseTerm(keepEmpty, TermText(terms[i]));
  }

  lemma ExpressibleTermsRoundTrip(keepEmpty: bool, terms: seq<Term>)
    requires keepEmpty ==> terms != []
    requires forall i :: 0 <= i < |terms| ==> SeparatorFreeTerm(keepEmpty, terms[i]) && terms[i].1 != []
    ensures ParseEach(TermParser(keepEmpty), Split(keepEmpty, ',', Join(',', TermTexts(terms)))) == Ok(terms)
  {
    forall i | 0 <= i < |terms|
      ensures ',' !in TermText(terms[i]) && TermText(terms[i]) != ""
      ensures ParseTerm(keepEmpty, TermText(terms[i])) == Ok(terms[i])
    {
      ParseTermText(keepEmpty, terms[i]);
    }
    hide *;
    var parsed := ParseTermTexts(keepEmpty, terms);
    assert parsed.value == terms;
  }

  lemma ExpressibleRoundTrips(keepEmpty: bool, q: map<string, seq<string>>)
    requires Expressible(keepEmpty, q)
    ensures ParseQuery(keepEmpty, QueryText(q)) == Ok(q)
  {
    var items := Items(q);
    ItemsListPairs(q);
    ItemsRebuild(q);
    hide Items, EmplaceAll, Split, Join, TermTexts, ParseEach, SeparatorFreeTerm;
    assert forall i :: 0 <= i < |items| ==> items[i] == (items[i].0, q[items[i].0]);
    ExpressibleTermsRoundTrip(keepEmpty, items);
  }

  /** A keyword without values is lost: its text is rejected or read back with one empty value. */
  lemma EmptyListIsLost(keepEmpty: bool, terms: seq<Term>, i: nat)
    requires DistinctKeywords(terms) && forall j :: 0 <= j < |terms| ==> SeparatorFreeTerm(keepEmpty, terms[j])
    requires i < |terms| && terms[i].1 == []
    ensures var parsed := ParseEach(TermParser(keepEmpty), Split(keepEmpty, ',', Join(',', TermTexts(terms))));
            parsed.Ok? ==>
              var q := EmplaceAll(parsed.value);
              terms[i].0 in q && q[terms[i].0] != []
  {
    forall j | 0 <= j < |terms|
      ensures ',' !in TermText(terms[j]) && TermText(terms[j]) != ""
      ensures ParseTerm(keepEmpty, TermText(terms[j])).Ok? ==>
                ParseTerm(keepEmpty, TermText(terms[j])).value.0 == terms[j].0
    {
      ParseTermText(keepEmpty, terms[j]);
    }
    var parsed := ParseTermTexts(keepEmpty, terms);
    if parsed.Ok? {
      ParseTermText(keepEmpty, terms[i]);
      EmplaceFirst(parsed.value, i);
    }
  }

  lemma EmptyListDoesNotRoundTrip(keepEmpty: bool, q: map<string, seq<string>>, k: string)
    requires SeparatorFree(keepEmpty, q) && k in q && q[k] == []
    ensures ParseQuery(keepEmpty, QueryText(q)) != Ok(q)
  {
    var items := Items(q);
    ItemsListPairs(q);
    ItemsAscending(q);
    assert (k, q[k]) in items;
    var i :| 0 <= i < |items| && items[i] == (k, q[k]);
    forall j | 0 <= j < |items| ensures SeparatorFreeTerm(keepEmpty, items[j]) {
      assert items[j] == (items[j].0, q[items[j].0]);
    }
    EmptyListIsLost(keepEmpty, items, i);
  }

  /** The request text round trip, value order included, with its exact domain. */
  lemma QueryRoundTrip(keepEmpty: bool, q: map<string, seq<string>>)
    ensures ParseQuery(keepEmpty, QueryText(q)) == Ok(q) <==> Expressible(keepEmpty, q)
  {
    if Expressible(keepEmpty, q) {
      ExpressibleRoundTrips(keepEmpty, q);
    } else if !SeparatorFree(keepEmpty, q) {
      if ParseQuery(keepEmpty, QueryText(q)) == Ok(q) {
        ParsedIsSeparatorFree(keepEmpty, QueryText(q));
      }
    } else {
      var k :| k in q && q[k] == [];
      EmptyListDoesNotRoundTrip(keepEmpty, q, k);
    }
  }
}
