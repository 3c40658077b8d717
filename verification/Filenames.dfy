/** How the Rucio backend turns a key into a file name: sanitised parts, sorted and joined. */
module Filenames {
  import opened OrderedMap
  import opened Text

  predicate IsSafeChar(c: char) {
    || 'A' <= c <= 'Z' || 'a' <= c <= 'z' || '0' <= c <= '9'
    || c == '.' || c == '_' || c == '-'
  }

  /** The characters `text.strip(".-_")` removes at both ends. */
  predicate IsEdgeChar(c: char) {
    c == '.' || c == '-' || c == '_'
  }

  /** What Python's argument-less `str.strip` removes. */
  predicate IsSpace(c: char) {
    var u := c as int;
    || 0x09 <= u <= 0x0d || 0x1c <= u <= 0x20 || u == 0x85 || u == 0xa0 || u == 0x1680
    || 0x2000 <= u <= 0x200a || u == 0x2028 || u == 0x2029 || u == 0x202f || u == 0x205f || u == 0x3000
  }

  function StripLeft(drop: char -> bool, text: string): string {
    if text != "" && drop(text[0]) then StripLeft(drop, text[1..]) else text
  }

  function StripRight(drop: char -> bool, text: string): string {
    if text != "" && drop(text[|text| - 1]) then StripRight(drop, text[..|text| - 1]) else text
  }

  function Strip(drop: char -> bool, text: string): string {
    StripRight(drop, StripLeft(drop, text))
  }

  /** Replacing every maximal run of unsafe characters by one '-'; `inRun` tells that the run was already replaced. */
  function ReplaceUnsafe(text: string, inRun: bool): string {
    if text == "" then ""
    else if IsSafeChar(text[0]) then [text[0]] + ReplaceUnsafe(text[1..], false)
    else (if inRun then "" else "-") + ReplaceUnsafe(text[1..], true)
  }

  function Sanitize(text: string): string {
    var trimmed := Strip(IsSpace, text);
    if trimmed == "" then "empty"
    else
      var cleaned := Strip(IsEdgeChar, ReplaceUnsafe(trimmed, false));
      if cleaned == "" then "empty" else cleaned
  }

  /** A part that is fit to stand in a file name. */
  predicate Sanitary(text: string) {
    && text != ""
    && (forall c :: c in text ==> IsSafeChar(c))
    && !IsEdgeChar(text[0]) && !IsEdgeChar(text[|text| - 1])
  }

  predicate AllDropped(drop: char -> bool, text: string) {
    forall c :: c in text ==> drop(c)
  }

  lemma {:induction false} StripLeftFacts(drop: char -> bool, text: string) returns (cut: string)
    ensures var s := StripLeft(drop, text);
            text == cut + s && AllDropped(drop, cut) && (s != "" ==> !drop(s[0]))
  {
    cut := "";
    if text != "" && drop(text[0]) {
      var rest := StripLeftFacts(drop, text[1..]);
      cut := [text[0]] + rest;
    }
  }

  lemma {:induction false} StripRightFacts(drop: char -> bool, text: string) returns (cut: string)
    ensures var s := StripRight(drop, text);
            text == s + cut && AllDropped(drop, cut) && (s != "" ==> !drop(s[|s| - 1]))
  {
    cut := "";
    if text != "" && drop(text[|text| - 1]) {
      var rest := StripRightFacts(drop, text[..|text| - 1]);
      cut := rest + [text[|text| - 1]];
    }
  }

  /** Stripping cuts only droppable characters, at both ends only, and all there are. */
  lemma StripFacts(drop: char -> bool, text: string) returns (left: string, right: string)
    ensures var s := Strip(drop, text);
            && text == left + s + right && AllDropped(drop, left) && AllDropped(drop, right)
            && (s != "" ==> !drop(s[0]) && !drop(s[|s| - 1]))
  {
    var inner := StripLeft(drop, text);
    left := StripLeftFacts(drop, text);
    right := StripRightFacts(drop, inner);
    var s := Strip(drop, text);
    if s != "" {
      assert inner[0] == s[0];
    }
  }

  lemma StripKeeps(drop: char -> bool, text: string)
    requires text != "" && !drop(text[0]) && !drop(text[|text| - 1])
    ensures Strip(drop, text) == text
  {
  }

  /** Where a text is cut in two, each part is replaced on its own, but for a run across the cut. */
  lemma {:induction false} ReplacedInParts(a: string, b: string, inRun: bool)
    ensures ReplaceUnsafe(a + b, inRun)
            == ReplaceUnsafe(a, inRun) + ReplaceUnsafe(b, if a == "" then inRun else !IsSafeChar(a[|a| - 1]))
  {
    if a == "" {
      assert a + b == b;
    } else {
      assert (a + b)[1..] == a[1..] + b;
      ReplacedInParts(a[1..], b, !IsSafeChar(a[0]));
      var rest := ReplaceUnsafe(b, if a == "" then inRun else !IsSafeChar(a[|a| - 1]));
      var head := if IsSafeChar(a[0]) then [a[0]] else if inRun then "" else "-";
      ConcatAssoc(head, ReplaceUnsafe(a[1..], !IsSafeChar(a[0])), rest);
    }
  }

  lemma {:induction false} RunAlone(run: string, b: string, inRun: bool)
    requires forall c :: c in run ==> !IsSafeChar(c)
    requires b == "" || IsSafeChar(b[0])
    ensures ReplaceUnsafe(run + b, inRun) == (if run == "" || inRun then "" else "-") + ReplaceUnsafe(b, false)
  {
    if run == "" {
      assert run + b == b;
    } else {
      assert (run + b)[1..] == run[1..] + b;
      RunAlone(run[1..], b, true);
    }
  }

  /** A maximal run of unsafe characters becomes one '-'; the text around it is treated on its own. */
  lemma RunBecomesDash(a: string, run: string, b: string, inRun: bool)
    requires run != "" && forall c :: c in run ==> !IsSafeChar(c)
    requires a == "" || IsSafeChar(a[|a| - 1])
    requires b == "" || IsSafeChar(b[0])
    ensures ReplaceUnsafe(a + run + b, inRun)
            == ReplaceUnsafe(a, inRun) + (if a == "" && inRun then "" else "-") + ReplaceUnsafe(b, false)
  {
    ReplacedInParts(a, run + b, inRun);
    RunAlone(run, b, a == "" && inRun);
    hide *;
    ConcatAssoc(a, run, b);
    ConcatAssoc(ReplaceUnsafe(a, inRun), if a == "" && inRun then "" else "-", ReplaceUnsafe(b, false));
  }

  lemma {:induction false} ReplacedIsSafe(text: string, inRun: bool)
    ensures forall c :: c in ReplaceUnsafe(text, inRun) ==> IsSafeChar(c)
  {
    if text != "" {
      ReplacedIsSafe(text[1..], !IsSafeChar(text[0]));
    }
  }

  lemma {:induction false} SafeIsKept(text: string, inRun: bool)
    requires forall c :: c in text ==> IsSafeChar(c)
    ensures ReplaceUnsafe(text, inRun) == text
  {
    if text != "" {
      SafeIsKept(text[1..], false);
    }
  }

  /** Every result is sanitary: never empty, only safe characters, none of ".-_" at the ends. */
  lemma SanitizeIsSanitary(text: string)
    ensures Sanitary(Sanitize(text))
  {
    var replaced := ReplaceUnsafe(Strip(IsSpace, text), false);
    ReplacedIsSafe(Strip(IsSpace, text), false);
    var left, right := StripFacts(IsEdgeChar, replaced);
    hide StripLeft, StripRight, Strip, ReplaceUnsafe;
  }

  /** Sanitising leaves exactly the sanitary parts alone; in particular doing it twice changes nothing more. */
  lemma SanitizeFixedPoints(text: string)
    ensures Sanitize(text) == text <==> Sanitary(text)
    ensures Sanitize(Sanitize(text)) == Sanitize(text)
  {
    SanitizeIsSanitary(text);
    SanitaryIsKept(Sanitize(text));
    if Sanitary(text) {
      SanitaryIsKept(text);
    }
  }

  lemma SanitaryIsKept(text: string)
    requires Sanitary(text)
    ensures Sanitize(text) == text
  {
    assert !IsSpace(text[0]) && !IsSpace(text[|text| - 1]) by {
      assert text[0] in text && text[|text| - 1] in text;
    }
    StripKeeps(IsSpace, text);
    SafeIsKept(text, false);
    StripKeeps(IsEdgeChar, text);
  }

  // ---- what sanitising does to any text --------------------------------------------------

  /** The characters that may begin and end a sanitised part. */
  predicate Alphanumeric(c: char) {
    'A' <= c <= 'Z' || 'a' <= c <= 'z' || '0' <= c <= '9'
  }

  predicate Outer(c: char) {
    !Alphanumeric(c)
  }

  /** Words and the runs of unsafe characters between them, put together. */
  function Woven(words: seq<string>, runs: seq<string>): string
    requires |words| == |runs| + 1
  {
    if runs == [] then words[0] else words[0] + runs[0] + Woven(words[1..], runs[1..])
  }

  /** Words of safe characters, the first beginning and the last ending with a letter or digit, and unsafe runs. */
  predicate Weave(words: seq<string>, runs: seq<string>) {
    && |words| == |runs| + 1
    && (forall i :: 0 <= i < |words| ==>
          words[i] != "" && forall c :: c in words[i] ==> Alphanumeric(c) || c == '.' || c == '_' || c == '-')
    && (forall i :: 0 <= i < |runs| ==>
          runs[i] != "" && forall c :: c in runs[i] ==> !Alphanumeric(c) && c != '.' && c != '_' && c != '-')
  }

  lemma CharacterSets(c: char)
    ensures IsSafeChar(c) <==> Alphanumeric(c) || c == '.' || c == '_' || c == '-'
    ensures Alphanumeric(c) ==> !IsSpace(c) && !IsEdgeChar(c)
  {
  }

  /** Outside letters and digits, replacing leaves only characters that are stripped afterwards. */
  lemma {:induction false} OuterBecomesEdge(text: string, inRun: bool)
    requires AllDropped(Outer, text)
    ensures AllDropped(IsEdgeChar, ReplaceUnsafe(text, inRun))
  {
    if text != "" {
      assert text[0] in text && Outer(text[0]);
      CharacterSets(text[0]);
      OuterBecomesEdge(text[1..], !IsSafeChar(text[0]));
    }
  }

  lemma {:induction false} StripLeftPast(drop: char -> bool, left: string, s: string)
    requires AllDropped(drop, left) && (s != "" ==> !drop(s[0]))
    ensures StripLeft(drop, left + s) == s
  {
    if left == "" {
      assert left + s == s;
    } else {
      assert (left + s)[1..] == left[1..] + s;
      StripLeftPast(drop, left[1..], s);
    }
  }

  lemma {:induction false} StripRightPast(drop: char -> bool, s: string, right: string)
    requires AllDropped(drop, right) && (s != "" ==> !drop(s[|s| - 1]))
    ensures StripRight(drop, s + right) == s
  {
    if right == "" {
      assert s + right == s;
    } else {
      var init := right[..|right| - 1];
      assert (s + right)[..|s + right| - 1] == s + init;
      StripRightPast(drop, s, init);
    }
  }

  /** Padding that is all to be dropped comes off both ends, and nothing else does. */
  lemma StripPadding(drop: char -> bool, left: string, s: string, right: string)
    requires AllDropped(drop, left) && AllDropped(drop, right)
    requires s != "" && !drop(s[0]) && !drop(s[|s| - 1])
    ensures Strip(drop, left + s + right) == s
  {
    ConcatAssoc(left, s, right);
    assert (s + right)[0] == s[0];
    StripLeftPast(drop, left, s + right);
    StripRightPast(drop, s, right);
  }

  /** Stripping white space takes something off the padding only. */
  lemma TrimPadding(left: string, core: string, right: string) returns (l: string, r: string)
    requires AllDropped(Outer, left) && AllDropped(Outer, right)
    requires core != "" && Alphanumeric(core[0]) && Alphanumeric(core[|core| - 1])
    ensures Strip(IsSpace, left + core + right) == l + core + r
    ensures AllDropped(Outer, l) && AllDropped(Outer, r)
  {
    var text := left + core + right;
    var cutL, cutR := StripFacts(IsSpace, text);
    var s := Strip(IsSpace, text);
    var n, m := |text|, |left| + |core|;
    hide *;
    CharacterSets(core[0]);
    CharacterSets(core[|core| - 1]);
    assert text[|left|] == core[0] && text[m - 1] == core[|core| - 1];
    assert text == cutL + (s + cutR) && text == (cutL + s) + cutR;
    KeptInside(IsSpace, text, cutL, s, cutR, |left|);
    KeptInside(IsSpace, text, cutL, s, cutR, m - 1);
    l, r := left[|cutL|..], right[..|right| - |cutR|];
    assert s == text[|cutL|..n - |cutR|];
    assert text[|cutL|..n - |cutR|] == l + core + r;
    DroppedPart(Outer, left, |cutL|, |left|);
    DroppedPart(Outer, right, 0, |right| - |cutR|);
  }

  lemma DroppedPart(drop: char -> bool, text: string, i: nat, j: nat)
    requires AllDropped(drop, text) && i <= j <= |text|
    ensures AllDropped(drop, text[i..j]) && text[i..|text|] == text[i..] && text[..j] == text[0..j]
  {
  }

  /** A character that is not dropped lies inside what is left. */
  lemma KeptInside(drop: char -> bool, text: string, cutL: string, s: string, cutR: string, i: nat)
    requires text == cutL + s + cutR && AllDropped(drop, cutL) && AllDropped(drop, cutR)
    requires i < |text| && !drop(text[i])
    ensures |cutL| <= i < |cutL| + |s|
  {
    assert forall j :: 0 <= j < |cutL| ==> text[j] == cutL[j] && cutL[j] in cutL;
    var m := |cutL| + |s|;
    assert forall j :: m <= j < |text| ==> text[j] == cutR[j - m] && cutR[j - m] in cutR;
  }

  /** Every run between two words becomes one '-'. */
  lemma {:induction false} WovenIsJoined(words: seq<string>, runs: seq<string>)
    requires Weave(words, runs)
    ensures ReplaceUnsafe(Woven(words, runs), false) == Join('-', words)
    ensures Woven(words, runs) != "" && Woven(words, runs)[0] == words[0][0]
    ensures var text, last := Woven(words, runs), words[|words| - 1]; text[|text| - 1] == last[|last| - 1]
    decreases |runs|
  {
    WordIsKept(words[0]);
    if runs != [] {
      WovenIsJoined(words[1..], runs[1..]);
      RunIsDashed(runs[0]);
      var rest := Woven(words[1..], runs[1..]);
      assert rest[0] == words[1][0] && words[1][0] in words[1];
      CharacterSets(rest[0]);
      assert words[0][|words[0]| - 1] in words[0];
      CharacterSets(words[0][|words[0]| - 1]);
      hide ReplaceUnsafe;
      RunBecomesDash(words[0], runs[0], rest, false);
    }
  }

  lemma WordIsKept(word: string)
    requires word != "" && forall c :: c in word ==> Alphanumeric(c) || c == '.' || c == '_' || c == '-'
    ensures ReplaceUnsafe(word, false) == word
  {
    SafeIsKept(word, false);
  }

  lemma RunIsDashed(run: string)
    requires run != "" && forall c :: c in run ==> !Alphanumeric(c) && c != '.' && c != '_' && c != '-'
    ensures forall c :: c in run ==> !IsSafeChar(c)
  {
  }

  /**
   What becomes of any text with a letter or digit in it: whatever surrounds the first and the last of these
   is dropped, white space and separators alike, and each run of unsafe characters in between becomes one '-'.
   */
  lemma SanitizeWoven(left: string, words: seq<string>, runs: seq<string>, right: string)
    requires AllDropped(Outer, left) && AllDropped(Outer, right) && Weave(words, runs)
    requires Alphanumeric(words[0][0])
    requires var last := words[|words| - 1]; Alphanumeric(last[|last| - 1])
    ensures Sanitize(left + Woven(words, runs) + right) == Join('-', words)
  {
    var core := Woven(words, runs);
    WovenIsJoined(words, runs);
    var l, r := TrimPadding(left, core, right);
    JoinEnds('-', words);
    SanitizeCore(left + core + right, l, core, r);
  }

  lemma {:induction false} JoinEnds(sep: char, words: seq<string>)
    requires words != [] && forall i :: 0 <= i < |words| ==> words[i] != ""
    ensures Join(sep, words) != "" && Join(sep, words)[0] == words[0][0]
    ensures var text, last := Join(sep, words), words[|words| - 1]; text[|text| - 1] == last[|last| - 1]
  {
    if |words| > 1 {
      JoinEnds(sep, words[1..]);
    }
  }

  lemma SanitizeCore(text: string, l: string, core: string, r: string)
    requires Strip(IsSpace, text) == l + core + r && AllDropped(Outer, l) && AllDropped(Outer, r)
    requires core != "" && Alphanumeric(core[0]) && Alphanumeric(core[|core| - 1])
    requires var kept := ReplaceUnsafe(core, false);
             kept != "" && Alphanumeric(kept[0]) && Alphanumeric(kept[|kept| - 1])
    ensures Sanitize(text) == ReplaceUnsafe(core, false)
  {
    var kept, flag := ReplaceUnsafe(core, false), l != "" && !IsSafeChar(l[|l| - 1]);
    assert ReplaceUnsafe(core, flag) == kept by {
      CharacterSets(core[0]);
    }
    CharacterSets(core[|core| - 1]);
    CharacterSets(kept[0]);
    CharacterSets(kept[|kept| - 1]);
    ReplacedInParts(l + core, r, false);
    ReplacedInParts(l, core, false);
    OuterBecomesEdge(l, false);
    OuterBecomesEdge(r, false);
    assert (l + core)[|l + core| - 1] == core[|core| - 1];
    hide ReplaceUnsafe, Strip, IsSafeChar, Alphanumeric, IsEdgeChar, IsSpace, AllDropped, Outer;
    StripPadding(IsEdgeChar, ReplaceUnsafe(l, false), kept, ReplaceUnsafe(r, false));
  }

  /** A text without a letter or digit becomes "empty". */
  lemma SanitizeNothing(text: string)
    requires AllDropped(Outer, text)
    ensures Sanitize(text) == "empty"
  {
    var trimmed := Strip(IsSpace, text);
    var cutL, cutR := StripFacts(IsSpace, text);
    assert AllDropped(Outer, trimmed) by {
      assert forall c :: c in trimmed ==> c in text;
    }
    var replaced := ReplaceUnsafe(trimmed, false);
    OuterBecomesEdge(trimmed, false);
    var left, right := StripFacts(IsEdgeChar, replaced);
    var cleaned := Strip(IsEdgeChar, replaced);
    assert forall c :: c in cleaned ==> c in replaced;
  }

  lemma {:induction false} WeaveFrom(text: string) returns (words: seq<string>, runs: seq<string>)
    requires text != "" && IsSafeChar(text[0]) && IsSafeChar(text[|text| - 1])
    ensures Weave(words, runs) && Woven(words, runs) == text
    decreases |text|
  {
    if |text| == 1 {
      return [text], [];
    }
    var n := 1;
    while !IsSafeChar(text[n])
      invariant 1 <= n < |text|
      invariant forall i :: 1 <= i < n ==> !IsSafeChar(text[i])
      decreases |text| - n
    {
      n := n + 1;
    }
    words, runs := WeaveFrom(text[n..]);
    if n == 1 {
      words := [[text[0]] + words[0]] + words[1..];
    } else {
      words, runs := [[text[0]]] + words, [text[1..n]] + runs;
    }
  }

  /** Every text is of one of the two kinds. */
  lemma EveryTextIsWoven(text: string)
      returns (left: string, words: seq<string>, runs: seq<string>, right: string)
    requires exists c :: c in text && Alphanumeric(c)
    ensures AllDropped(Outer, left) && AllDropped(Outer, right) && Weave(words, runs)
    ensures text == left + Woven(words, runs) + right
    ensures Alphanumeric(words[0][0])
    ensures var last := words[|words| - 1]; Alphanumeric(last[|last| - 1])
  {
    left, right := StripFacts(Outer, text);
    var core := Strip(Outer, text);
    words, runs := WeaveFrom(core);
    WovenIsJoined(words, runs);
  }

  // ---- the file name ---------------------------------------------------------------------

  function Hyphenated(k: string, v: string): string {
    k + "-" + v
  }

  function PartText(p: (string, string)): string {
    Hyphenated(Sanitize(p.0), Sanitize(p.1))
  }

  function PartTexts(items: seq<(string, string)>): (parts: seq<string>)
    ensures |parts| == |items|
    ensures forall i :: 0 <= i < |items| ==> parts[i] == PartText(items[i])
  {
    seq(|items|, i requires 0 <= i < |items| => PartText(items[i]))
  }

  function Filename(key: map<string, string>): string {
    Join('_', PartTexts(Items(key))) + ".data"
  }

  /** The name, part by part in keyword order, in front of its extension. */
  lemma NamedParts(key: map<string, string>, k: string, v: string)
    requires forall j :: j in key ==> StringLess(j, k)
    ensures Filename(map[]) == ".data"
    ensures |Filename(key)| >= 5
    ensures var body, part := Filename(key)[..|Filename(key)| - 5], Sanitize(k) + "-" + Sanitize(v);
            Filename(key[k := v]) == body + (if key == map[] then "" else "_") + part + ".data"
  {
    var parts, part := PartTexts(Items(key)), Sanitize(k) + "-" + Sanitize(v);
    var body := Join('_', parts);
    ItemsSnoc(key, k, v);
    ItemsListPairs(key);
    assert PartTexts(Items(key) + [(k, v)]) == parts + [part] by {
      hide Sanitize, Items;
    }
    JoinSnoc('_', parts, part);
    assert Filename(key) == body + ".data";
    assert Filename(map[]) == Join('_', []) + ".data";
    assert key == map[] ==> body == "";
    hide *;
    Truncated(body, ".data");
  }

  /** Joined to a directory, such a name denotes a direct child of it. */
  predicate SingleComponent(name: string) {
    name != "" && name != "." && name != ".." && '/' !in name && '\0' !in name
  }

  lemma PartIsSafe(p: (string, string))
    ensures forall c :: c in PartText(p) ==> IsSafeChar(c)
  {
    SanitizeIsSanitary(p.0);
    SanitizeIsSanitary(p.1);
  }

  /** For every key, the empty one included, the file name stays in its directory. */
  lemma FilenameIsSingleComponent(key: map<string, string>)
    ensures SingleComponent(Filename(key))
    ensures forall c :: c in Filename(key) ==> IsSafeChar(c)
  {
    var parts := PartTexts(Items(key));
    var body := Join('_', parts);
    assert Filename(key) == body + ".data" && IsSafeChar('_');
    forall c | c in body ensures IsSafeChar(c) {
      hide *;
      JoinMembers('_', parts, c);
      if c != '_' {
        var i :| 0 <= i < |parts| && c in parts[i];
        PartIsSafe(Items(key)[i]);
      }
    }
    assert forall c :: c in ".data" ==> IsSafeChar(c);
    hide Filename, Join, PartTexts, Items;
    assert Filename(key)[|body|] == '.' && Filename(key)[|body| + 1] == 'd';
  }
}
