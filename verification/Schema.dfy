/** `dasi-schema`: flattening the printed, nested schema rules into lists of keywords, and the query template. */
module Schema {
  import opened Outcome
  import opened OrderedMap
  import opened Text
  import Keys

  // ---- the tool --------------------------------------------------------------------------

  /** `std::replace(.., '[', ',')`. */
  function OpenToComma(text: string): (r: string)
    ensures |r| == |text|
  {
    seq(|text|, i requires 0 <= i < |text| => if text[i] == '[' then ',' else text[i])
  }

  predicate IsMark(c: char) {
    c == ' ' || c == ']' || c == '?'
  }

  /** `std::regex_replace(.., "[ \\]\\?]", "")`. */
  function WithoutMarks(text: string): string {
    if text == "" then ""
    else WithoutMarks(text[..|text| - 1]) + if IsMark(text[|text| - 1]) then "" else [text[|text| - 1]]
  }

  /** One line of the dump, as `tokenizeRules` treats it. */
  function RuleTokens(line: string): seq<string> {
    var erased := if line == "" then "" else line[1..];
    GetlineTokens(',', WithoutMarks(OpenToComma(erased)))
  }

  /** The loop `while (std::getline(in, token, sep)) { push_back(token); }`. */
  method Getline(sep: char, text: string) returns (tokens: seq<string>)
    ensures tokens == GetlineTokens(sep, text)
  {
    tokens := [];
    var token := "";
    for i := 0 to |text|
      invariant Pieces(sep, text[..i]) == tokens + [token]
    {
      assert text[..i + 1] == text[..i] + [text[i]];
      PiecesSnoc(sep, text[..i], text[i]);
      hide Pieces;
      if text[i] == sep {
        tokens := tokens + [token];
        token := "";
      } else {
        token := token + [text[i]];
      }
    }
    assert text[..|text|] == text;
    if token != "" {
      tokens := tokens + [token];
    }
  }

  /** The list with a character added to its last piece, or with a new piece begun. */
  function Extended(pieces: seq<string>, sep: char, c: char): seq<string>
    requires pieces != []
  {
    if c == sep then pieces + [""]
    else pieces[..|pieces| - 1] + [pieces[|pieces| - 1] + [c]]
  }

  lemma ExtendedCons(first: char, rest: seq<string>, sep: char, c: char)
    requires rest != []
    ensures Extended([""] + rest, sep, c) == [""] + Extended(rest, sep, c)
    ensures var after := Extended(rest, sep, c);
            Extended([[first] + rest[0]] + rest[1..], sep, c) == [[first] + after[0]] + after[1..]
  {
    if |rest| == 1 {
      assert [first] + (rest[0] + [c]) == [first] + rest[0] + [c];
    }
  }

  /** What one more character does to the pieces. */
  lemma {:induction false} PiecesSnoc(sep: char, text: string, c: char)
    ensures Pieces(sep, text + [c]) == Extended(Pieces(sep, text), sep, c)
  {
    if text == "" {
      assert text + [c] == [c] && [c][1..] == "";
      assert Pieces(sep, "") == [""];
      assert "" + [c] == [c] + "";
    } else {
      assert (text + [c])[1..] == text[1..] + [c];
      PiecesSnoc(sep, text[1..], c);
      ExtendedCons(text[0], Pieces(sep, text[1..]), sep, c);
      hide Extended;
    }
  }

  /** `DASISchema::tokenizeRules` on the dumped schema. */
  method TokenizeRules(dump: string) returns (result: seq<seq<string>>)
    ensures |result| == |GetlineTokens('\n', dump)|
    ensures forall i :: 0 <= i < |result| ==> result[i] == RuleTokens(GetlineTokens('\n', dump)[i])
  {
    hide OpenToComma, WithoutMarks, GetlineTokens;
    var rules := Getline('\n', dump);
    result := [];
    for i := 0 to |rules|
      invariant |result| == i
      invariant forall j :: 0 <= j < i ==> result[j] == RuleTokens(rules[j])
    {
      var rule := rules[i];
      rule := if rule == "" then "" else rule[1..];
      rule := OpenToComma(rule);
      rule := WithoutMarks(rule);
      var tokens := Getline(',', rule);
      result := result + [tokens];
    }
  }

  // ---- printed rules ---------------------------------------------------------------------

  /** A keyword as printed: '?' marks it optional, and any number of spaces may stand around name and mark. */
  datatype Keyword = Keyword(before: nat, name: string, gap: nat, optional: bool, after: nat)

  /** A rule: its own keywords, then rules nested inside it, to any depth; spaces may follow the closing bracket. */
  datatype Rule = Rule(keywords: seq<Keyword>, nested: seq<Rule>, trailing: nat)

  function Spaces(n: nat): string {
    seq(n, _ => ' ')
  }

  function KeywordText(k: Keyword): string {
    Spaces(k.before) + k.name + Spaces(k.gap) + (if k.optional then "?" else "") + Spaces(k.after)
  }

  /** The comma-separated keywords of one level. */
  function LevelText(keywords: seq<Keyword>): string {
    if keywords == [] then ""
    else if |keywords| == 1 then KeywordText(keywords[0])
    else KeywordText(keywords[0]) + "," + LevelText(keywords[1..])
  }

  function RuleText(r: Rule): string
    decreases r
  {
    "[" + (LevelText(r.keywords) + (NestedText(r.nested) + ("]" + Spaces(r.trailing))))
  }

  function NestedText(rules: seq<Rule>): string
    decreases rules
  {
    if rules == [] then "" else RuleText(rules[0]) + NestedText(rules[1..])
  }

  /** Every level has keywords, and their names are not empty and free of the marks and separators. */
  predicate ProperName(name: string) {
    name != "" && '[' !in name && ',' !in name && '\n' !in name && forall c :: c in name ==> !IsMark(c)
  }

  predicate Proper(r: Rule)
    decreases r
  {
    && r.keywords != []
    && (forall i :: 0 <= i < |r.keywords| ==> ProperName(r.keywords[i].name))
    && forall i :: 0 <= i < |r.nested| ==> Proper(r.nested[i])
  }

  function LevelNames(keywords: seq<Keyword>): seq<string> {
    if keywords == [] then [] else [keywords[0].name] + LevelNames(keywords[1..])
  }

  /** The names of a rule in reading order, nested levels after their own. */
  function Names(r: Rule): seq<string>
    decreases r
  {
    LevelNames(r.keywords) + NestedNames(r.nested)
  }

  function NestedNames(rules: seq<Rule>): seq<string>
    decreases rules
  {
    if rules == [] then [] else Names(rules[0]) + NestedNames(rules[1..])
  }

  // ---- flattening ------------------------------------------------------------------------

  /** What the two rewriting steps do to a stretch of text. */
  function Rewritten(text: string): string {
    WithoutMarks(OpenToComma(text))
  }

  lemma {:induction false} WithoutMarksConcat(a: string, b: string)
    ensures WithoutMarks(a + b) == WithoutMarks(a) + WithoutMarks(b)
  {
    if b == "" {
      assert a + b == a;
    } else {
      var init := b[..|b| - 1];
      WithoutMarksConcat(a, init);
      assert (a + b)[..|a + b| - 1] == a + init;
    }
  }

  lemma RewrittenConcat(a: string, b: string)
    ensures Rewritten(a + b) == Rewritten(a) + Rewritten(b)
  {
    assert OpenToComma(a + b) == OpenToComma(a) + OpenToComma(b);
    WithoutMarksConcat(OpenToComma(a), OpenToComma(b));
  }

  lemma {:induction false} RewrittenName(name: string)
    requires '[' !in name && forall c :: c in name ==> !IsMark(c)
    ensures Rewritten(name) == name
  {
    assert OpenToComma(name) == name;
    if name != "" {
      var init := name[..|name| - 1];
      assert name == init + [name[|name| - 1]];
      RewrittenName(init);
      assert OpenToComma(init) == init;
    }
  }

  lemma {:induction false} RewrittenSpaces(n: nat)
    ensures Rewritten(Spaces(n)) == ""
  {
    assert OpenToComma(Spaces(n)) == Spaces(n);
    if n > 0 {
      RewrittenSpaces(n - 1);
      assert Spaces(n)[..n - 1] == Spaces(n - 1);
      assert OpenToComma(Spaces(n - 1)) == Spaces(n - 1);
    }
  }

  lemma RewrittenChar(c: char)
    ensures Rewritten([c]) == if c == '[' then "," else if IsMark(c) then "" else [c]
  {
    var r := OpenToComma([c]);
    assert r[..0] == "" && WithoutMarks("") == "";
    assert WithoutMarks(r) == WithoutMarks(r[..0]) + if IsMark(r[0]) then "" else [r[0]];
  }

  lemma RewrittenKeyword(k: Keyword)
    requires ProperName(k.name)
    ensures Rewritten(KeywordText(k)) == k.name
  {
    var mark := if k.optional then "?" else "";
    RewrittenSpaces(k.before);
    RewrittenSpaces(k.gap);
    RewrittenSpaces(k.after);
    RewrittenName(k.name);
    RewrittenChar('?');
    assert Rewritten(mark) == "";
    assert KeywordText(k) == Spaces(k.before) + k.name + Spaces(k.gap) + mark + Spaces(k.after);
    hide *;
    RewrittenConcat(Spaces(k.before), k.name);
    RewrittenConcat(Spaces(k.before) + k.name, Spaces(k.gap));
    RewrittenConcat(Spaces(k.before) + k.name + Spaces(k.gap), mark);
    RewrittenConcat(Spaces(k.before) + k.name + Spaces(k.gap) + mark, Spaces(k.after));
    Unpad(k.name);
  }

  lemma Unpad(name: string)
    ensures ((("" + name) + "") + "") + "" == name
  {
  }

  /** Every name with a comma in front of it. */
  function Led(names: seq<string>): string {
    if names == [] then "" else "," + (names[0] + Led(names[1..]))
  }

  lemma {:induction false} LedConcat(a: seq<string>, b: seq<string>)
    ensures Led(a + b) == Led(a) + Led(b)
  {
    if a == [] {
      assert a + b == b;
    } else {
      LedConcat(a[1..], b);
      assert (a + b)[1..] == a[1..] + b && (a + b)[0] == a[0];
      var rest, last := Led(a[1..]), Led(b);
      assert Led(a + b) == "," + (a[0] + (rest + last));
      hide Led;
      ConcatAssoc(a[0], rest, last);
      ConcatAssoc(",", a[0] + rest, last);
    }
  }

  lemma {:induction false} LedIsJoin(names: seq<string>)
    requires names != []
    ensures Led(names) == "," + Join(',', names)
  {
    if |names| == 1 {
      assert Led(names[1..]) == "";
    } else {
      LedIsJoin(names[1..]);
    }
  }

  lemma LedCons(name: string, names: seq<string>)
    ensures Led([name] + names) == "," + (name + Led(names))
  {
    assert ([name] + names)[1..] == names;
  }

  lemma {:induction false} RewrittenLevel(keywords: seq<Keyword>)
    requires keywords != [] && forall i :: 0 <= i < |keywords| ==> ProperName(keywords[i].name)
    ensures "," + Rewritten(LevelText(keywords)) == Led(LevelNames(keywords))
  {
    var name, names := keywords[0].name, LevelNames(keywords[1..]);
    RewrittenKeyword(keywords[0]);
    LedCons(name, names);
    hide Rewritten, KeywordText, ProperName;
    if |keywords| == 1 {
      assert Led(names) == "";
      Unpad(name);
    } else {
      RewrittenLevel(keywords[1..]);
      RewrittenCommaStep(KeywordText(keywords[0]), name, LevelText(keywords[1..]));
    }
  }

  lemma RewrittenCommaStep(text: string, name: string, rest: string)
    requires Rewritten(text) == name
    ensures "," + Rewritten(text + "," + rest) == "," + (name + ("," + Rewritten(rest)))
  {
    RewrittenChar(',');
    assert Rewritten(",") == ",";
    hide *;
    RewrittenConcat(text + ",", rest);
    RewrittenConcat(text, ",");
    ConcatAssoc(name, ",", Rewritten(rest));
  }

  lemma Assemble(level: string, nested: string)
    ensures "," + (level + (nested + ("" + ""))) == ("," + level) + nested
  {
    ConcatAssoc(",", level, nested);
    assert nested + ("" + "") == nested;
  }

  lemma {:induction false} RewrittenRule(r: Rule)
    requires Proper(r)
    ensures Rewritten(RuleText(r)) == Led(Names(r))
    decreases r
  {
    RewrittenLevel(r.keywords);
    RewrittenNested(r.nested);
    RewrittenSpaces(r.trailing);
    RewrittenChar('[');
    RewrittenChar(']');
    LedConcat(LevelNames(r.keywords), NestedNames(r.nested));
    assert RuleText(r) == "[" + (LevelText(r.keywords) + (NestedText(r.nested) + ("]" + Spaces(r.trailing))));
    assert Names(r) == LevelNames(r.keywords) + NestedNames(r.nested);
    hide *;
    RewrittenConcat("]", Spaces(r.trailing));
    RewrittenConcat(NestedText(r.nested), "]" + Spaces(r.trailing));
    RewrittenConcat(LevelText(r.keywords), NestedText(r.nested) + ("]" + Spaces(r.trailing)));
    RewrittenConcat("[", LevelText(r.keywords) + (NestedText(r.nested) + ("]" + Spaces(r.trailing))));
    Assemble(Rewritten(LevelText(r.keywords)), Rewritten(NestedText(r.nested)));
  }

  lemma {:induction false} RewrittenNested(rules: seq<Rule>)
    requires forall i :: 0 <= i < |rules| ==> Proper(rules[i])
    ensures Rewritten(NestedText(rules)) == Led(NestedNames(rules))
    decreases rules
  {
    if rules != [] {
      RewrittenRule(rules[0]);
      RewrittenNested(rules[1..]);
      LedConcat(Names(rules[0]), NestedNames(rules[1..]));
      RewrittenConcat(RuleText(rules[0]), NestedText(rules[1..]));
    }
  }

  lemma {:induction false} NamesAreProper(r: Rule)
    requires Proper(r)
    ensures Names(r) != [] && forall i :: 0 <= i < |Names(r)| ==> ProperName(Names(r)[i])
    decreases r
  {
    LevelNamesAreProper(r.keywords);
    NestedNamesAreProper(r.nested);
  }

  lemma {:induction false} LevelNamesAreProper(keywords: seq<Keyword>)
    requires forall i :: 0 <= i < |keywords| ==> ProperName(keywords[i].name)
    ensures |LevelNames(keywords)| == |keywords|
    ensures forall i :: 0 <= i < |LevelNames(keywords)| ==> ProperName(LevelNames(keywords)[i])
  {
    if keywords != [] {
      LevelNamesAreProper(keywords[1..]);
    }
  }

  lemma {:induction false} NestedNamesAreProper(rules: seq<Rule>)
    requires forall i :: 0 <= i < |rules| ==> Proper(rules[i])
    ensures forall i :: 0 <= i < |NestedNames(rules)| ==> ProperName(NestedNames(rules)[i])
    decreases rules
  {
    if rules != [] {
      NamesAreProper(rules[0]);
      NestedNamesAreProper(rules[1..]);
    }
  }

  /**
   Flattening a printed rule, however deep it nests and however it is spaced, gives its keyword
   names in reading order; no token is empty.
   */
  lemma FlattenPrintedRule(r: Rule)
    requires Proper(r)
    ensures RuleTokens(RuleText(r)) == Names(r) && "" !in RuleTokens(RuleText(r))
  {
    var names, inner := Names(r), RuleText(r)[1..];
    NamesAreProper(r);
    RewrittenRule(r);
    assert RuleText(r) == "[" + inner;
    assert Rewritten(inner) == Join(',', names) by {
      hide RuleText, Names;
      RewrittenConcat("[", inner);
      RewrittenChar('[');
      LedIsJoin(names);
      assert ("," + Rewritten(inner))[1..] == ("," + Join(',', names))[1..];
    }
    PiecesOfJoin(',', names);
  }

  /** The same for a whole dump, one rule on each line, whether or not the last line is ended too. */
  lemma FlattenDump(rules: seq<Rule>, ended: bool)
    requires rules != [] && forall i :: 0 <= i < |rules| ==> Proper(rules[i])
    ensures var dump := Join('\n', RuleTexts(rules)) + if ended then "\n" else "";
            var lines := GetlineTokens('\n', dump);
            |lines| == |rules| && forall i :: 0 <= i < |rules| ==> RuleTokens(lines[i]) == Names(rules[i])
  {
    var texts := RuleTexts(rules);
    var dump := Join('\n', texts);
    forall i | 0 <= i < |rules|
      ensures texts[i] != "" && '\n' !in texts[i] && RuleTokens(texts[i]) == Names(rules[i])
    {
      RuleTextOnOneLine(rules[i]);
      FlattenPrintedRule(rules[i]);
    }
    PiecesOfJoin('\n', texts);
    PiecesSnoc('\n', dump, '\n');
    assert dump + "" == dump;
  }

  function RuleTexts(rules: seq<Rule>): (texts: seq<string>)
    ensures |texts| == |rules|
    ensures forall i :: 0 <= i < |rules| ==> texts[i] == RuleText(rules[i])
  {
    seq(|rules|, i requires 0 <= i < |rules| => RuleText(rules[i]))
  }

  lemma {:induction false} RuleTextOnOneLine(r: Rule)
    requires Proper(r)
    ensures '\n' !in RuleText(r) && RuleText(r) != ""
    decreases r
  {
    LevelOnOneLine(r.keywords);
    NestedOnOneLine(r.nested);
  }

  lemma {:induction false} LevelOnOneLine(keywords: seq<Keyword>)
    requires forall i :: 0 <= i < |keywords| ==> ProperName(keywords[i].name)
    ensures '\n' !in LevelText(keywords)
  {
    if keywords != [] {
      LevelOnOneLine(keywords[1..]);
    }
  }

  lemma {:induction false} NestedOnOneLine(rules: seq<Rule>)
    requires forall i :: 0 <= i < |rules| ==> Proper(rules[i])
    ensures '\n' !in NestedText(rules)
    decreases rules
  {
    if rules != [] {
      RuleTextOnOneLine(rules[0]);
      NestedOnOneLine(rules[1..]);
    }
  }

  // ---- the query template ----------------------------------------------------------------

  /** The pairs a template shows: every keyword with a placeholder. */
  function Placeholders(tokens: seq<string>): (pairs: seq<Keys.Pair>)
    ensures |pairs| == |tokens|
    ensures forall i :: 0 <= i < |tokens| ==> pairs[i] == (tokens[i], "%s")
  {
    seq(|tokens|, i requires 0 <= i < |tokens| => (tokens[i], "%s"))
  }

  /** `DASISchema::query` for one rule: the separator is left out after the last keyword. */
  method QueryTemplate(tokens: seq<string>) returns (out: string)
    ensures out == "{" + Join(',', Keys.PairTexts(Placeholders(tokens))) + "}"
  {
    out := "{";
    ghost var pairs := Placeholders(tokens);
    ghost var texts := Keys.PairTexts(pairs);
    ghost var body := "";
    for i := 0 to |tokens|
      invariant out == "{" + body
      invariant body == Join(',', texts[..i]) + if 0 < i < |tokens| then "," else ""
    {
      var separator := ",";
      if i == |tokens| - 1 {
        separator := "";
      }
      out := out + (tokens[i] + "=%s") + separator;
      assert texts[i] == tokens[i] + "=%s" && texts[..i + 1] == texts[..i] + [texts[i]];
      JoinSnoc(',', texts[..i], texts[i]);
      hide *;
      ConcatAssoc("{", body, texts[i]);
      ConcatAssoc("{", body + texts[i], separator);
      TemplateStep(body, texts[..i], texts[i]);
      body := body + texts[i] + separator;
    }
    assert texts[..|tokens|] == texts;
    out := out + "}";
  }

  lemma TemplateStep(body: string, texts: seq<string>, text: string)
    requires body == Join(',', texts) + (if texts != [] then "," else "")
    requires Join(',', texts + [text]) == if texts == [] then text else Join(',', texts) + [','] + text
    ensures body + text == Join(',', texts + [text])
  {
    hide *;
    if texts == [] {
      assert Join(',', texts) == "" by {
        JoinNothing(',');
      }
    }
  }

  lemma JoinNothing(sep: char)
    ensures Join(sep, []) == ""
  {
  }

  /** Without its braces, a rule's template is a key text over exactly the rule's keywords. */
  lemma TemplateIsKeyText(keepEmpty: bool, tokens: seq<string>)
    requires tokens != []
    requires forall i :: 0 <= i < |tokens| ==> tokens[i] != "" && ',' !in tokens[i] && '=' !in tokens[i]
    ensures var parsed := Keys.ParseKey(keepEmpty, Join(',', Keys.PairTexts(Placeholders(tokens))));
            && parsed.Ok?
            && (forall k :: k in parsed.value <==> k in tokens)
            && forall k :: k in parsed.value ==> parsed.value[k] == "%s"
  {
    var pairs := Placeholders(tokens);
    forall i | 0 <= i < |pairs| ensures Keys.ParsePair(keepEmpty, Keys.PairText(pairs[i])) == Ok(pairs[i]) {
      Keys.ParsePrintedPair(keepEmpty, pairs[i]);
    }
    Keys.ParsePrintedPairs(keepEmpty, pairs);
    var m := EmplaceAll(pairs);
    forall k ensures k in m <==> k in tokens
      ensures k in m ==> m[k] == "%s"
    {
      if k in m {
        var i := EmplaceOrigin(pairs, k);
      }
      if k in tokens {
        var j :| 0 <= j < |tokens| && tokens[j] == k;
        var f := FirstOccurrence(pairs, j);
        EmplaceFirst(pairs, f);
      }
    }
  }
}
