/**
 When a file name determines the key it was made from. A name is read back by its separators,
 so it depends on where '-' and '_' may occur: this is settled for every such choice.
 */
module Injectivity {
  import opened OrderedMap
  import opened Text
  import opened Filenames

  /** What the keys in use may contain: parts that need sanitising, and the two separators on either side. */
  datatype Alphabet = Alphabet(
    rawKeyword: bool, dashInKeyword: bool, underscoreInKeyword: bool,
    rawValue: bool, dashInValue: bool, underscoreInValue: bool)

  /** Readable from the left: the first '-' ends the keyword, the next '_' ends the value. */
  const FORWARD := Alphabet(false, false, true, false, true, false)

  /** Readable from the right: the last '-' starts the value, the last '_' before it starts the keyword. */
  const BACKWARD := Alphabet(false, true, false, false, false, true)

  predicate Allowed(a: Alphabet, p: (string, string)) {
    && (!a.rawKeyword ==> Sanitary(p.0)) && (!a.rawValue ==> Sanitary(p.1))
    && (!a.dashInKeyword ==> '-' !in p.0) && (!a.underscoreInKeyword ==> '_' !in p.0)
    && (!a.dashInValue ==> '-' !in p.1) && (!a.underscoreInValue ==> '_' !in p.1)
  }

  predicate Conforms(a: Alphabet, items: seq<(string, string)>) {
    forall i :: 0 <= i < |items| ==> Allowed(a, items[i])
  }

  /** Different keys within the alphabet have different file names. */
  ghost predicate Injective(a: Alphabet) {
    forall k1, k2 :: Conforms(a, Items(k1)) && Conforms(a, Items(k2)) && Filename(k1) == Filename(k2) ==> k1 == k2
  }

  /** What decides it: no part needs sanitising, and names can be read from the left or from the right. */
  predicate Readable(a: Alphabet) {
    && !a.rawKeyword && !a.rawValue
    && ((!a.dashInKeyword && !a.underscoreInValue) || (!a.underscoreInKeyword && !a.dashInValue))
  }

  // ---- reading from the left -------------------------------------------------------------

  lemma HeadPiece(sep: char, a: string, x: string)
    requires sep !in a && (x == "" || x[0] == sep)
    ensures Pieces(sep, a + x)[0] == a
  {
    if x == "" {
      assert a + x == a;
      PiecesStep(sep, a, "");
    } else {
      assert a + x == a + [sep] + x[1..];
      PiecesStep(sep, a, x[1..]);
    }
  }

  /** A piece without the separator, followed by nothing or by the separator, is determined by the whole. */
  lemma TailCutUnique(sep: char, a: string, x: string, b: string, y: string)
    requires sep !in a && (x == "" || x[0] == sep)
    requires sep !in b && (y == "" || y[0] == sep)
    requires a + x == b + y
    ensures a == b && x == y
  {
    HeadPiece(sep, a, x);
    HeadPiece(sep, b, y);
    assert x == (a + x)[|a|..] && y == (b + y)[|b|..];
  }

  lemma Regroup(k: string, v: string, rest: string)
    ensures (k + "-" + v) + ['_'] + rest == k + ['-'] + (v + ("_" + rest))
    ensures k + "-" + v == k + ['-'] + (v + "")
  {
  }

  lemma ForwardUnfold(items: seq<(string, string)>) returns (tail: string)
    requires items != [] && Conforms(FORWARD, items)
    ensures tail == (if |items| == 1 then "" else "_" + Join('_', PartTexts(items[1..])))
    ensures Join('_', PartTexts(items)) == items[0].0 + ['-'] + (items[0].1 + tail)
  {
    assert Allowed(FORWARD, items[0]);
    SanitaryIsKept(items[0].0);
    SanitaryIsKept(items[0].1);
    assert PartTexts(items)[0] == items[0].0 + "-" + items[0].1;
    hide Sanitize, Sanitary;
    var rest := Join('_', PartTexts(items[1..]));
    assert PartTexts(items)[1..] == PartTexts(items[1..]);
    tail := if |items| == 1 then "" else "_" + rest;
    Regroup(items[0].0, items[0].1, rest);
  }

  lemma {:induction false} FirstItemDetermined(p: seq<(string, string)>, q: seq<(string, string)>)
    requires p != [] && q != [] && Conforms(FORWARD, p) && Conforms(FORWARD, q)
    requires Join('_', PartTexts(p)) == Join('_', PartTexts(q))
    ensures p[0] == q[0] && (|p| == 1 <==> |q| == 1)
    ensures |p| > 1 ==> Join('_', PartTexts(p[1..])) == Join('_', PartTexts(q[1..]))
  {
    var t := ForwardUnfold(p);
    var u := ForwardUnfold(q);
    assert Allowed(FORWARD, p[0]) && Allowed(FORWARD, q[0]);
    assert '-' !in p[0].0 && '_' !in p[0].1 && '-' !in q[0].0 && '_' !in q[0].1;
    hide *;
    FirstCutUnique('-', p[0].0, p[0].1 + t, q[0].0, q[0].1 + u);
    TailCutUnique('_', p[0].1, t, q[0].1, u);
    if |p| > 1 {
      assert t[1..] == Join('_', PartTexts(p[1..])) && u[1..] == Join('_', PartTexts(q[1..]));
    }
  }

  lemma {:induction false} ForwardDetermines(p: seq<(string, string)>, q: seq<(string, string)>)
    requires Conforms(FORWARD, p) && Conforms(FORWARD, q)
    requires Join('_', PartTexts(p)) == Join('_', PartTexts(q))
    ensures p == q
  {
    EmptyBody(p);
    EmptyBody(q);
    hide Join, PartTexts, Allowed;
    if p != [] {
      FirstItemDetermined(p, q);
      var p', q' := p[1..], q[1..];
      assert Conforms(FORWARD, p') && Conforms(FORWARD, q');
      hide *;
      if |p| > 1 {
        ForwardDetermines(p', q');
      }
      SameWithFirst(p, q);
    }
  }

  lemma SameWithFirst(p: seq<(string, string)>, q: seq<(string, string)>)
    requires p != [] && q != []
    requires p[0] == q[0] && p[1..] == q[1..]
    ensures p == q
  {
    assert p == [p[0]] + p[1..] && q == [q[0]] + q[1..];
  }

  // ---- reading from the right ------------------------------------------------------------

  /** Where the last occurrence of a character is, if what follows is free of it. */
  lemma LastAt(sep: char, x: string, a: string)
    requires sep !in a && (x == "" || x[|x| - 1] == sep)
    ensures forall i :: |x| <= i < |x + a| ==> (x + a)[i] != sep
    ensures x != "" ==> (x + a)[|x| - 1] == sep
  {
  }

  /** A piece without the separator, preceded by nothing or by the separator, is determined by the whole. */
  lemma HeadCutUnique(sep: char, x: string, a: string, y: string, b: string)
    requires sep !in a && (x == "" || x[|x| - 1] == sep)
    requires sep !in b && (y == "" || y[|y| - 1] == sep)
    requires x + a == y + b
    ensures x == y && a == b
  {
    LastAt(sep, x, a);
    LastAt(sep, y, b);
    var s := x + a;
    assert x == s[..|x|] && a == s[|x|..] && y == s[..|y|] && b == s[|y|..];
  }

  /** The last '-' and the '_' before it cut a name from the right. */
  lemma LastCut(t: string, k: string, v: string, u: string, l: string, w: string)
    requires '_' !in k && '-' !in v && (t == "" || t[|t| - 1] == '_')
    requires '_' !in l && '-' !in w && (u == "" || u[|u| - 1] == '_')
    requires ((t + k) + ['-']) + v == ((u + l) + ['-']) + w
    ensures t == u && k == l && v == w
  {
    var x, y := t + k, u + l;
    HeadCutUnique('-', x + ['-'], v, y + ['-'], w);
    assert x == (x + ['-'])[..|x|] && y == (y + ['-'])[..|y|];
    HeadCutUnique('_', t, k, u, l);
  }

  lemma RegroupBack(before: string, k: string, v: string)
    ensures before + ['_'] + (k + "-" + v) == (((before + "_") + k) + ['-']) + v
    ensures k + "-" + v == (("" + k) + ['-']) + v
  {
  }

  lemma BackwardUnfold(items: seq<(string, string)>) returns (head: string)
    requires items != [] && Conforms(BACKWARD, items)
    ensures var n := |items| - 1;
            && head == (if n == 0 then "" else Join('_', PartTexts(items[..n])) + "_")
            && Join('_', PartTexts(items)) == ((head + items[n].0) + ['-']) + items[n].1
  {
    var n := |items| - 1;
    assert Allowed(BACKWARD, items[n]);
    assert Sanitary(items[n].0) && Sanitary(items[n].1);
    hide *;
    var before := PartTexts(items[..n]);
    SanitaryPart(items[n]);
    PartTextsSnoc(items);
    head := if n == 0 then "" else Join('_', before) + "_";
    JoinSnoc('_', before, PartText(items[n]));
    RegroupBack(Join('_', before), items[n].0, items[n].1);
  }

  lemma SanitaryPart(p: (string, string))
    requires Sanitary(p.0) && Sanitary(p.1)
    ensures PartText(p) == p.0 + "-" + p.1
  {
    SanitaryIsKept(p.0);
    SanitaryIsKept(p.1);
  }

  lemma PartTextsSnoc(items: seq<(string, string)>)
    requires items != []
    ensures var n := |items| - 1;
            PartTexts(items) == PartTexts(items[..n]) + [PartText(items[n])]
  {
    hide PartText;
  }

  lemma {:induction false} LastItemDetermined(p: seq<(string, string)>, q: seq<(string, string)>)
    requires p != [] && q != [] && Conforms(BACKWARD, p) && Conforms(BACKWARD, q)
    requires Join('_', PartTexts(p)) == Join('_', PartTexts(q))
    ensures var m, n := |p| - 1, |q| - 1;
            p[m] == q[n] && Join('_', PartTexts(p[..m])) == Join('_', PartTexts(q[..n]))
  {
    var m, n := |p| - 1, |q| - 1;
    var t := BackwardUnfold(p);
    var u := BackwardUnfold(q);
    assert Allowed(BACKWARD, p[m]) && Allowed(BACKWARD, q[n]);
    assert '_' !in p[m].0 && '-' !in p[m].1 && '_' !in q[n].0 && '-' !in q[n].1;
    hide *;
    LastCut(t, p[m].0, p[m].1, u, q[n].0, q[n].1);
    if m > 0 {
      var b, c := Join('_', PartTexts(p[..m])), Join('_', PartTexts(q[..n]));
      assert b == (b + "_")[..|b|] && c == (c + "_")[..|c|];
    } else {
      assert p[..m] == q[..n] == [];
    }
  }

  lemma SameWithLast(p: seq<(string, string)>, q: seq<(string, string)>)
    requires p != [] && q != []
    requires p[|p| - 1] == q[|q| - 1] && p[..|p| - 1] == q[..|q| - 1]
    ensures p == q
  {
    assert p == p[..|p| - 1] + [p[|p| - 1]] && q == q[..|q| - 1] + [q[|q| - 1]];
  }

  lemma EmptyBody(items: seq<(string, string)>)
    ensures Join('_', PartTexts(items)) == "" <==> items == []
  {
    if items != [] {
      assert '-' in PartTexts(items)[0];
    }
  }

  lemma {:induction false} BackwardDetermines(p: seq<(string, string)>, q: seq<(string, string)>)
    requires Conforms(BACKWARD, p) && Conforms(BACKWARD, q)
    requires Join('_', PartTexts(p)) == Join('_', PartTexts(q))
    ensures p == q
    decreases |p|
  {
    EmptyBody(p);
    EmptyBody(q);
    if p != [] {
      LastItemDetermined(p, q);
      var p', q' := p[..|p| - 1], q[..|q| - 1];
      assert Conforms(BACKWARD, p') && Conforms(BACKWARD, q');
      hide *;
      BackwardDetermines(p', q');
      SameWithLast(p, q);
    }
  }

  // ---- collisions ------------------------------------------------------------------------

  lemma ItemsOfOne(k: string, v: string)
    ensures Items(map[k := v]) == [(k, v)]
  {
    var m := map[k := v];
    ItemsListPairs(m);
    assert k in m;
    assert Items(m)[0] in Items(m);
  }

  lemma ItemsOfTwo(a: string, b: string, c: string, d: string)
    requires StringLess(a, c)
    ensures Items(map[a := b, c := d]) == [(a, b), (c, d)]
  {
    var m := map[a := b, c := d];
    StringLessIsStrictTotalOrder();
    assert a != c;
    var rest := m - {a};
    assert rest == map[c := d];
    assert IsLeast(a, m.Keys);
    assert Least(m.Keys) == a;
    ItemsOfOne(c, d);
    assert m != map[];
  }

  /** A keyword that needs sanitising shares its file name with its sanitised form. */
  lemma UnsanitaryKeywordCollides(k: string, v: string)
    requires !Sanitary(k)
    ensures map[k := v] != map[Sanitize(k) := v]
    ensures Filename(map[k := v]) == Filename(map[Sanitize(k) := v])
  {
    SanitizeFixedPoints(k);
    ItemsOfOne(k, v);
    ItemsOfOne(Sanitize(k), v);
    assert k in map[k := v] && k !in map[Sanitize(k) := v];
    assert PartTexts([(k, v)]) == PartTexts([(Sanitize(k), v)]);
  }

  /** So does a value that needs it. */
  lemma UnsanitaryCollides(k: string, v: string)
    requires !Sanitary(v)
    ensures map[k := v] != map[k := Sanitize(v)]
    ensures Filename(map[k := v]) == Filename(map[k := Sanitize(v)])
  {
    SanitizeFixedPoints(v);
    ItemsOfOne(k, v);
    ItemsOfOne(k, Sanitize(v));
    assert map[k := v][k] != map[k := Sanitize(v)][k];
    assert PartTexts([(k, v)]) == PartTexts([(k, Sanitize(v))]);
  }

  /** Two parts with a separator between them contain that separator, and no other if they are plain. */
  lemma Joined(x: string, sep: char, y: string)
    requires Sanitary(x) && Sanitary(y) && IsSafeChar(sep)
    ensures Sanitary(x + [sep] + y)
    ensures forall c :: c in x + [sep] + y ==> c == sep || c in x || c in y
  {
  }

  lemma FilenameOfOne(k: string, v: string)
    requires Sanitary(k) && Sanitary(v)
    ensures Filename(map[k := v]) == Hyphenated(k, v) + ".data"
  {
    SanitaryIsKept(k);
    SanitaryIsKept(v);
    ItemsOfOne(k, v);
    assert PartTexts([(k, v)]) == [Hyphenated(k, v)];
  }

  lemma FilenameOfTwo(a: string, b: string, c: string, d: string)
    requires Sanitary(a) && Sanitary(b) && Sanitary(c) && Sanitary(d) && StringLess(a, c)
    ensures Filename(map[a := b, c := d]) == Hyphenated(a, b) + ['_'] + Hyphenated(c, d) + ".data"
  {
    SanitaryIsKept(a);
    SanitaryIsKept(b);
    SanitaryIsKept(c);
    SanitaryIsKept(d);
    ItemsOfTwo(a, b, c, d);
    hide Sanitize, Sanitary, Items, Hyphenated, Join;
    assert PartTexts([(a, b), (c, d)]) == [Hyphenated(a, b), Hyphenated(c, d)];
    JoinTwo('_', Hyphenated(a, b), Hyphenated(c, d));
  }

  /** '-' in keywords and in values: the boundary between keyword and value is lost. */
  lemma DashInKeywordCollides(a: string, b: string, c: string)
    requires Sanitary(a) && Sanitary(b) && Sanitary(c)
    ensures map[Hyphenated(a, b) := c] != map[a := Hyphenated(b, c)]
    ensures Filename(map[Hyphenated(a, b) := c]) == Filename(map[a := Hyphenated(b, c)])
  {
    Joined(a, '-', b);
    Joined(b, '-', c);
    var ab, bc := Hyphenated(a, b), Hyphenated(b, c);
    assert Hyphenated(ab, c) == Hyphenated(a, bc) && |ab| > |a|;
    hide *;
    FilenameOfOne(ab, c);
    FilenameOfOne(a, bc);
    assert ab in map[ab := c] && ab !in map[a := bc];
  }

  lemma RegroupUnderscore(a: string, b: string, c: string, d: string)
    ensures Hyphenated(a, b + ['_'] + Hyphenated(c, d)) == Hyphenated(a, b) + ['_'] + Hyphenated(c, d)
    ensures Hyphenated(Hyphenated(a, b) + ['_'] + c, d) == Hyphenated(a, b) + ['_'] + Hyphenated(c, d)
  {
  }

  /** '_' and '-' in values: the boundary between two entries is lost inside a value. */
  lemma SeparatorsInValueCollide(a: string, b: string, c: string, d: string)
    requires Sanitary(a) && Sanitary(b) && Sanitary(c) && Sanitary(d) && StringLess(a, c)
    ensures map[a := b + ['_'] + Hyphenated(c, d)] != map[a := b, c := d]
    ensures Filename(map[a := b + ['_'] + Hyphenated(c, d)]) == Filename(map[a := b, c := d])
  {
    Joined(c, '-', d);
    var v := b + ['_'] + Hyphenated(c, d);
    Joined(b, '_', Hyphenated(c, d));
    StringLessIsStrictTotalOrder();
    hide *;
    FilenameOfOne(a, v);
    FilenameOfTwo(a, b, c, d);
    RegroupUnderscore(a, b, c, d);
    assert c in map[a := b, c := d] && c !in map[a := v];
  }

  /** '-' and '_' in keywords: the boundary between two entries is lost inside a keyword. */
  lemma SeparatorsInKeywordCollide(a: string, b: string, c: string, d: string)
    requires Sanitary(a) && Sanitary(b) && Sanitary(c) && Sanitary(d) && StringLess(a, c)
    ensures map[Hyphenated(a, b) + ['_'] + c := d] != map[a := b, c := d]
    ensures Filename(map[Hyphenated(a, b) + ['_'] + c := d]) == Filename(map[a := b, c := d])
  {
    Joined(a, '-', b);
    Joined(Hyphenated(a, b), '_', c);
    var k := Hyphenated(a, b) + ['_'] + c;
    assert |k| > |c|;
    hide *;
    FilenameOfOne(k, d);
    FilenameOfTwo(a, b, c, d);
    RegroupUnderscore(a, b, c, d);
    assert c in map[a := b, c := d] && c !in map[k := d];
  }

  lemma RegroupMoved(a: string, b: string, c: string, d: string, e: string)
    ensures Hyphenated(a, b) + ['_'] + Hyphenated(c + ['_'] + d, e)
            == Hyphenated(a, b + ['_'] + c) + ['_'] + Hyphenated(d, e)
  {
  }

  /** '_' in keywords and in values: a stretch can belong to the value before or the keyword after. */
  lemma UnderscoreOnBothSidesCollides(a: string, b: string, c: string, d: string, e: string)
    requires Sanitary(a) && Sanitary(b) && Sanitary(c) && Sanitary(d) && Sanitary(e)
    requires StringLess(a, c + ['_'] + d) && StringLess(a, d)
    ensures map[a := b, c + ['_'] + d := e] != map[a := b + ['_'] + c, d := e]
    ensures Filename(map[a := b, c + ['_'] + d := e]) == Filename(map[a := b + ['_'] + c, d := e])
  {
    var cd, bc := c + ['_'] + d, b + ['_'] + c;
    Joined(c, '_', d);
    Joined(b, '_', c);
    assert |cd| > |d|;
    hide *;
    FilenameOfTwo(a, b, cd, e);
    FilenameOfTwo(a, bc, d, e);
    RegroupMoved(a, b, c, d, e);
    assert d in map[a := bc, d := e];
    assert d == a || d !in map[a := b, cd := e];
    StringLessIsStrictTotalOrder();
  }

  // ---- the exact condition ---------------------------------------------------------------

  lemma {:induction false} SameBody(k1: map<string, string>, k2: map<string, string>)
    requires Filename(k1) == Filename(k2)
    ensures Join('_', PartTexts(Items(k1))) == Join('_', PartTexts(Items(k2)))
  {
    var b1, b2 := Join('_', PartTexts(Items(k1))), Join('_', PartTexts(Items(k2)));
    assert |b1| == |b2|;
    assert b1 == Filename(k1)[..|b1|] && b2 == Filename(k2)[..|b2|];
  }

  /** Within a readable alphabet the file name determines the key. */
  lemma {:induction false} FilenameInjective(a: Alphabet, k1: map<string, string>, k2: map<string, string>)
    requires Readable(a) && Conforms(a, Items(k1)) && Conforms(a, Items(k2))
    requires Filename(k1) == Filename(k2)
    ensures k1 == k2
  {
    SameBody(k1, k2);
    ItemsRebuild(k1);
    ItemsRebuild(k2);
    hide Filename, Items, Join, PartTexts, Sanitary;
    if !a.dashInKeyword && !a.underscoreInValue {
      ForwardDetermines(Items(k1), Items(k2));
    } else {
      BackwardDetermines(Items(k1), Items(k2));
    }
  }

  lemma ConformsOne(a: Alphabet, k: string, v: string)
    requires Allowed(a, (k, v))
    ensures Conforms(a, Items(map[k := v]))
  {
    ItemsOfOne(k, v);
  }

  lemma ConformsTwo(a: Alphabet, k1: string, v1: string, k2: string, v2: string)
    requires Allowed(a, (k1, v1)) && Allowed(a, (k2, v2)) && StringLess(k1, k2)
    ensures Conforms(a, Items(map[k1 := v1, k2 := v2]))
  {
    ItemsOfTwo(k1, v1, k2, v2);
  }

  lemma NotInjective(a: Alphabet, k1: map<string, string>, k2: map<string, string>)
    requires Conforms(a, Items(k1)) && Conforms(a, Items(k2)) && Filename(k1) == Filename(k2) && k1 != k2
    ensures !Injective(a)
  {
  }

  /** A part every alphabet allows on either side. */
  predicate Plain(x: string) {
    Sanitary(x) && '-' !in x && '_' !in x
  }

  lemma RawKeywordsCollide(a: Alphabet, v: string)
    requires a.rawKeyword && Plain(v)
    ensures !Injective(a)
  {
    SanitizeEmpty();
    ConformsOne(a, "", v);
    ConformsOne(a, "empty", v);
    UnsanitaryKeywordCollides("", v);
    NotInjective(a, map["" := v], map["empty" := v]);
  }

  lemma RawValuesCollide(a: Alphabet, k: string)
    requires a.rawValue && Plain(k)
    ensures !Injective(a)
  {
    SanitizeEmpty();
    ConformsOne(a, k, "");
    ConformsOne(a, k, "empty");
    UnsanitaryCollides(k, "");
    NotInjective(a, map[k := ""], map[k := "empty"]);
  }

  lemma SanitizeEmpty()
    ensures Sanitize("") == "empty" && Plain("empty")
  {
    assert Strip(IsSpace, "") == "";
  }

  lemma DashesCollide(a: Alphabet, x: string, y: string, z: string)
    requires a.dashInKeyword && a.dashInValue && Plain(x) && Plain(y) && Plain(z)
    ensures !Injective(a)
  {
    var k, v := Hyphenated(x, y), Hyphenated(y, z);
    Joined(x, '-', y);
    Joined(y, '-', z);
    DashInKeywordCollides(x, y, z);
    hide Hyphenated, Sanitary, Filename, Injective;
    ConformsOne(a, k, z);
    ConformsOne(a, x, v);
    NotInjective(a, map[k := z], map[x := v]);
  }

  lemma ValueSeparatorsCollide(a: Alphabet, x: string, y: string, z: string, w: string)
    requires a.underscoreInValue && a.dashInValue && Plain(x) && Plain(y) && Plain(z) && Plain(w) && StringLess(x, z)
    ensures !Injective(a)
  {
    var v := y + ['_'] + Hyphenated(z, w);
    Joined(z, '-', w);
    Joined(y, '_', Hyphenated(z, w));
    SeparatorsInValueCollide(x, y, z, w);
    hide Hyphenated, Sanitary, Filename, Injective;
    ConformsOne(a, x, v);
    ConformsTwo(a, x, y, z, w);
    NotInjective(a, map[x := v], map[x := y, z := w]);
  }

  lemma KeywordSeparatorsCollide(a: Alphabet, x: string, y: string, z: string, w: string)
    requires a.dashInKeyword && a.underscoreInKeyword
    requires Plain(x) && Plain(y) && Plain(z) && Plain(w) && StringLess(x, z)
    ensures !Injective(a)
  {
    var k := Hyphenated(x, y) + ['_'] + z;
    Joined(x, '-', y);
    Joined(Hyphenated(x, y), '_', z);
    SeparatorsInKeywordCollide(x, y, z, w);
    hide Hyphenated, Sanitary, Filename, Injective;
    ConformsOne(a, k, w);
    ConformsTwo(a, x, y, z, w);
    NotInjective(a, map[k := w], map[x := y, z := w]);
  }

  lemma UnderscoresCollide(a: Alphabet, x: string, y: string, z: string, w: string, u: string)
    requires a.underscoreInKeyword && a.underscoreInValue && Plain(x) && Plain(y) && Plain(z) && Plain(w) && Plain(u)
    requires StringLess(x, z + ['_'] + w) && StringLess(x, w)
    ensures !Injective(a)
  {
    var k, v := z + ['_'] + w, y + ['_'] + z;
    Joined(z, '_', w);
    Joined(y, '_', z);
    UnderscoreOnBothSidesCollides(x, y, z, w, u);
    hide Hyphenated, Sanitary, Filename, Injective;
    ConformsTwo(a, x, y, k, u);
    ConformsTwo(a, x, v, w, u);
    NotInjective(a, map[x := y, k := u], map[x := v, w := u]);
  }

  /** Letters to build the colliding keys from. */
  lemma Letters()
    ensures Plain("a") && Plain("b") && Plain("c") && Plain("d") && Plain("e")
    ensures StringLess("a", "c") && StringLess("a", "d") && StringLess("a", "c" + ['_'] + "d")
  {
    assert ("c" + ['_'] + "d")[0] == 'c';
  }

  /**
   The file name determines the key exactly if every part is left alone by sanitising and either
   keywords are free of '-' and values of '_', or keywords are free of '_' and values of '-'.
   */
  lemma InjectiveIffReadable(a: Alphabet)
    ensures Injective(a) <==> Readable(a)
  {
    if Readable(a) {
      forall k1, k2 | Conforms(a, Items(k1)) && Conforms(a, Items(k2)) && Filename(k1) == Filename(k2)
        ensures k1 == k2
      {
        FilenameInjective(a, k1, k2);
      }
    } else {
      Letters();
      hide Injective, Plain, StringLess;
      if a.rawKeyword {
        RawKeywordsCollide(a, "a");
      } else if a.rawValue {
        RawValuesCollide(a, "a");
      } else if a.dashInKeyword && a.underscoreInKeyword {
        KeywordSeparatorsCollide(a, "a", "b", "c", "d");
      } else if a.dashInKeyword && a.dashInValue {
        DashesCollide(a, "a", "b", "c");
      } else if a.underscoreInValue && a.underscoreInKeyword {
        UnderscoresCollide(a, "a", "b", "c", "d", "e");
      } else {
        ValueSeparatorsCollide(a, "a", "b", "c", "d");
      }
    }
  }
}
