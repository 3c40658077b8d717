/**
 The forecast example: four nested loops write one field per member, step, level and
 parameter, reusing one key object and accumulating the parameter values step by step.
 Values are real numbers; coordinates enter the key through a five-byte buffer.
 */
module Forecast {
  import opened Keys

  // ---- decimal text in a five-byte buffer ------------------------------------------------

  function Digit(d: nat): char
    requires d < 10
  {
    "0123456789"[d]
  }

  function Decimal(n: nat): (text: string)
    ensures text != ""
  {
    if n < 10 then [Digit(n)] else Decimal(n / 10) + [Digit(n % 10)]
  }

  /** `snprintf(sbuf, 5, "%d", n)`: at most four digits, the leading ones. */
  function Buffered(n: nat): string {
    var text := Decimal(n);
    if |text| <= 4 then text else text[..4]
  }

  /** The number a text of digits stands for. */
  function NumberOf(text: string): int {
    if text == "" then 0
    else 10 * NumberOf(text[..|text| - 1]) + (text[|text| - 1] as int - '0' as int)
  }

  /** The text of a number is its decimal notation: digits only, none of them a leading zero, with that value. */
  lemma {:induction false} DecimalNotation(n: nat)
    ensures NumberOf(Decimal(n)) == n
    ensures forall c :: c in Decimal(n) ==> '0' <= c <= '9'
    ensures n > 0 ==> Decimal(n)[0] != '0'
  {
    DigitValue(n % 10);
    if n < 10 {
      assert NumberOf("") == 0 && Decimal(n)[..0] == "";
    } else {
      DecimalNotation(n / 10);
      assert Decimal(n)[..|Decimal(n)| - 1] == Decimal(n / 10);
    }
  }

  lemma DigitValue(d: nat)
    requires d < 10
    ensures Digit(d) as int == '0' as int + d
  {
  }

  lemma DecimalInjective(m: nat, n: nat)
    requires Decimal(m) == Decimal(n)
    ensures m == n
  {
    DecimalNotation(m);
    DecimalNotation(n);
  }

  lemma {:induction false} DecimalLength(n: nat, digits: nat, bound: nat)
    requires digits > 0 && bound == Power10(digits)
    ensures |Decimal(n)| <= digits <==> n < bound
  {
    if digits == 1 {
      assert Power10(1) == 10 * Power10(0);
    } else if n >= 10 {
      DecimalLength(n / 10, digits - 1, Power10(digits - 1));
    } else {
      assert bound == 10 * Power10(digits - 1);
    }
  }

  function Power10(k: nat): (p: nat)
    ensures p > 0
  {
    if k == 0 then 1 else 10 * Power10(k - 1)
  }

  /** What the buffer holds: the whole text up to 9999, the leading four digits beyond. */
  lemma BufferedText(n: nat)
    ensures n < 10000 ==> Buffered(n) == Decimal(n) && NumberOf(Buffered(n)) == n
    ensures n >= 10000 ==> |Buffered(n)| == 4 && Buffered(n) < Decimal(n)
  {
    assert Power10(4) == 10000 by {
      assert Power10(1) == 10 && Power10(2) == 100 && Power10(3) == 1000;
    }
    DecimalLength(n, 4, 10000);
    DecimalNotation(n);
    hide Decimal, NumberOf;
  }

  /** Up to 9999 the buffer keeps numbers apart; the first number beyond already collides. */
  lemma BufferedFacts(m: nat, n: nat)
    ensures m < 10000 && n < 10000 && Buffered(m) == Buffered(n) ==> m == n
    ensures Buffered(10000) == Buffered(1000)
  {
    assert Decimal(10) == ['1', '0'] && Decimal(100) == ['1', '0', '0'];
    assert Decimal(1000) == ['1', '0', '0', '0'] && Decimal(10000) == ['1', '0', '0', '0', '0'];
    assert Buffered(10000) == Buffered(1000);
    hide *;
    BufferedText(m);
    BufferedText(n);
  }

  // ---- coordinates -----------------------------------------------------------------------

  datatype Coord = Coord(number: nat, step: nat, level: nat, par: nat)

  const PARAMS := 4

  function ParamName(par: nat): string
    requires par < PARAMS
  {
    ["p", "t", "u", "v"][par]
  }

  /** The order in which the loops visit, each list up to its own bound. */
  function Pars(number: nat, step: nat, level: nat, k: nat): seq<Coord> {
    if k == 0 then [] else Pars(number, step, level, k - 1) + [Coord(number, step, level, k - 1)]
  }

  function Levels(number: nat, step: nat, k: nat): seq<Coord> {
    if k == 0 then [] else Levels(number, step, k - 1) + Pars(number, step, k - 1, PARAMS)
  }

  function Steps(number: nat, levels: nat, k: nat): seq<Coord> {
    if k == 0 then [] else Steps(number, levels, k - 1) + Levels(number, k, levels)
  }

  function Members(steps: nat, levels: nat, k: nat): seq<Coord> {
    if k == 0 then [] else Members(steps, levels, k - 1) + Steps(k - 1, levels, steps)
  }

  /** Members first, then steps, then levels, then parameters. */
  predicate Earlier(c: Coord, d: Coord) {
    || c.number < d.number
    || (c.number == d.number && c.step < d.step)
    || (c.number == d.number && c.step == d.step && c.level < d.level)
    || (c.number == d.number && c.step == d.step && c.level == d.level && c.par < d.par)
  }

  ghost predicate InLoopOrder(coords: seq<Coord>) {
    forall i, j :: 0 <= i < j < |coords| ==> Earlier(coords[i], coords[j])
  }

  /** Exactly the coordinates in a box, in loop order and so without repetitions. */
  ghost predicate Lists(coords: seq<Coord>, box: Box) {
    InLoopOrder(coords) && forall c :: c in coords <==> InBox(c, box)
  }

  /** Half-open ranges of the four coordinates. */
  datatype Box = Box(number0: nat, number1: nat, step0: nat, step1: nat, level0: nat, level1: nat, par1: nat)

  predicate InBox(c: Coord, b: Box) {
    && b.number0 <= c.number < b.number1 && b.step0 <= c.step < b.step1
    && b.level0 <= c.level < b.level1 && c.par < b.par1
  }

  /** Two boxes that make up a third, all of the first before all of the second. */
  ghost predicate Stacked(lower: Box, upper: Box, whole: Box) {
    && (forall c :: InBox(c, whole) <==> InBox(c, lower) || InBox(c, upper))
    && forall c, d :: InBox(c, lower) && InBox(d, upper) ==> Earlier(c, d)
  }

  lemma Stack(a: seq<Coord>, lower: Box, b: seq<Coord>, upper: Box, whole: Box)
    requires Lists(a, lower) && Lists(b, upper) && Stacked(lower, upper, whole)
    ensures Lists(a + b, whole)
  {
    hide InBox, Earlier;
    forall i, j | 0 <= i < j < |a + b| ensures Earlier((a + b)[i], (a + b)[j]) {
      if i < |a| <= j {
        assert a[i] in a && b[j - |a|] in b;
      }
    }
  }

  lemma {:induction false} ParsList(number: nat, step: nat, level: nat, k: nat)
    ensures |Pars(number, step, level, k)| == k
    ensures Lists(Pars(number, step, level, k), Box(number, number + 1, step, step + 1, level, level + 1, k))
  {
    if k > 0 {
      ParsList(number, step, level, k - 1);
      var init := Pars(number, step, level, k - 1);
      assert forall i :: 0 <= i < |init| ==> init[i] in init;
    }
  }

  /** All parameters of one step's levels in a range. */
  function LevelBox(number: nat, step: nat, first: nat, end: nat): Box {
    Box(number, number + 1, step, step + 1, first, end, PARAMS)
  }

  lemma NoLevel(number: nat, step: nat)
    ensures Lists(Levels(number, step, 0), LevelBox(number, step, 0, 0))
    ensures Levels(number, step, 0) == []
  {
  }

  lemma LevelsStack(number: nat, step: nat, k: nat)
    ensures Stacked(LevelBox(number, step, 0, k), LevelBox(number, step, k, k + 1), LevelBox(number, step, 0, k + 1))
  {
  }

  lemma OneMoreLevel(number: nat, step: nat, k: nat)
    requires |Levels(number, step, k)| == PARAMS * k && Lists(Levels(number, step, k), LevelBox(number, step, 0, k))
    ensures |Levels(number, step, k + 1)| == PARAMS * (k + 1)
    ensures Lists(Levels(number, step, k + 1), LevelBox(number, step, 0, k + 1))
  {
    hide Lists, Stacked, InBox, Pars;
    LevelsStack(number, step, k);
    ParsList(number, step, k, PARAMS);
    Stack(Levels(number, step, k), LevelBox(number, step, 0, k),
          Pars(number, step, k, PARAMS), LevelBox(number, step, k, k + 1), LevelBox(number, step, 0, k + 1));
  }

  lemma {:induction false} LevelsList(number: nat, step: nat, k: nat)
    ensures |Levels(number, step, k)| == PARAMS * k
    ensures Lists(Levels(number, step, k), LevelBox(number, step, 0, k))
  {
    hide *;
    if k == 0 {
      NoLevel(number, step);
    } else {
      LevelsList(number, step, k - 1);
      OneMoreLevel(number, step, k - 1);
    }
  }

  /** All levels and parameters of one member's steps in a range. */
  function StepBox(number: nat, first: nat, end: nat, levels: nat): Box {
    Box(number, number + 1, first, end, 0, levels, PARAMS)
  }

  lemma NoStep(number: nat, levels: nat)
    ensures Lists(Steps(number, levels, 0), StepBox(number, 1, 1, levels))
  {
  }

  lemma StepsStack(number: nat, levels: nat, k: nat)
    ensures Stacked(StepBox(number, 1, k + 1, levels), StepBox(number, k + 1, k + 2, levels),
                    StepBox(number, 1, k + 2, levels))
    ensures StepBox(number, k + 1, k + 2, levels) == LevelBox(number, k + 1, 0, levels)
  {
  }

  lemma OneMoreStep(number: nat, levels: nat, k: nat)
    requires Lists(Steps(number, levels, k), StepBox(number, 1, k + 1, levels))
    ensures Lists(Steps(number, levels, k + 1), StepBox(number, 1, k + 2, levels))
  {
    assert Steps(number, levels, k + 1) == Steps(number, levels, k) + Levels(number, k + 1, levels);
    hide *;
    StepsStack(number, levels, k);
    LevelsList(number, k + 1, levels);
    Stack(Steps(number, levels, k), StepBox(number, 1, k + 1, levels),
          Levels(number, k + 1, levels), StepBox(number, k + 1, k + 2, levels), StepBox(number, 1, k + 2, levels));
  }

  lemma {:induction false} StepsList(number: nat, levels: nat, k: nat)
    ensures Lists(Steps(number, levels, k), StepBox(number, 1, k + 1, levels))
  {
    hide *;
    if k == 0 {
      NoStep(number, levels);
    } else {
      StepsList(number, levels, k - 1);
      OneMoreStep(number, levels, k - 1);
    }
  }

  /** All steps, levels and parameters of the members in a range. */
  function MemberBox(first: nat, end: nat, steps: nat, levels: nat): Box {
    Box(first, end, 1, steps + 1, 0, levels, PARAMS)
  }

  lemma NoMember(steps: nat, levels: nat)
    ensures Lists(Members(steps, levels, 0), MemberBox(0, 0, steps, levels))
  {
  }

  lemma MembersStack(steps: nat, levels: nat, k: nat)
    ensures Stacked(MemberBox(0, k, steps, levels), MemberBox(k, k + 1, steps, levels),
                    MemberBox(0, k + 1, steps, levels))
    ensures MemberBox(k, k + 1, steps, levels) == StepBox(k, 1, steps + 1, levels)
  {
  }

  lemma OneMoreMember(steps: nat, levels: nat, k: nat)
    requires Lists(Members(steps, levels, k), MemberBox(0, k, steps, levels))
    ensures Lists(Members(steps, levels, k + 1), MemberBox(0, k + 1, steps, levels))
  {
    assert Members(steps, levels, k + 1) == Members(steps, levels, k) + Steps(k, levels, steps);
    hide *;
    MembersStack(steps, levels, k);
    StepsList(k, levels, steps);
    Stack(Members(steps, levels, k), MemberBox(0, k, steps, levels),
          Steps(k, levels, steps), MemberBox(k, k + 1, steps, levels), MemberBox(0, k + 1, steps, levels));
  }

  /** The loops visit every coordinate in range exactly once, in the order of the loop nest. */
  lemma {:induction false} MembersList(steps: nat, levels: nat, k: nat)
    ensures Lists(Members(steps, levels, k), MemberBox(0, k, steps, levels))
  {
    hide *;
    if k == 0 {
      NoMember(steps, levels);
    } else {
      MembersList(steps, levels, k - 1);
      OneMoreMember(steps, levels, k - 1);
    }
  }

  lemma {:induction false} StepsCount(number: nat, levels: nat, k: nat, block: nat)
    requires block == PARAMS * levels
    ensures |Steps(number, levels, k)| == k * block
  {
    if k > 0 {
      StepsCount(number, levels, k - 1, block);
      LevelsList(number, k, levels);
      OneMore(k - 1, block);
    }
  }

  /** A run writes members * steps * levels * 4 fields. */
  lemma {:induction false} MembersCount(steps: nat, levels: nat, k: nat, block: nat)
    requires block == steps * (PARAMS * levels)
    ensures |Members(steps, levels, k)| == k * block
  {
    if k > 0 {
      MembersCount(steps, levels, k - 1, block);
      StepsCount(k - 1, levels, steps, PARAMS * levels);
      OneMore(k - 1, block);
    }
  }

  lemma OneMore(k: nat, x: nat)
    ensures k * x + x == (k + 1) * x
  {
  }

  // ---- keys and values -------------------------------------------------------------------

  /** What does not change over a run: the fixed key entries and the parameters' starting values and increments. */
  datatype Setup = Setup(base: map<string, string>, init: seq<real>, incr: seq<real>)

  ghost predicate ValidSetup(s: Setup) {
    && |s.init| == PARAMS && |s.incr| == PARAMS
    && s.base.Keys !! {"number", "step", "level", "param"}
  }

  function KeyAt(base: map<string, string>, c: Coord): map<string, string>
    requires c.par < PARAMS
  {
    base["number" := Buffered(c.number)]["step" := Buffered(c.step)]
        ["level" := Buffered(c.level)]["param" := ParamName(c.par)]
  }

  /** The closed form: one increment per member and per step after the first, one less per level. */
  function ValueAt(s: Setup, c: Coord): real
    requires ValidSetup(s) && c.par < PARAMS
  {
    s.init[c.par] + (c.number + c.step - 1 - c.level) as real * s.incr[c.par]
  }

  /** From the starting value at the first coordinates, one increment up per member or step, one down per level. */
  lemma ValueMoves(s: Setup, c: Coord)
    requires ValidSetup(s) && c.par < PARAMS
    ensures ValueAt(s, Coord(0, 1, 0, c.par)) == s.init[c.par]
    ensures ValueAt(s, c.(number := c.number + 1)) == ValueAt(s, c) + s.incr[c.par]
    ensures ValueAt(s, c.(step := c.step + 1)) == ValueAt(s, c) + s.incr[c.par]
    ensures ValueAt(s, c.(level := c.level + 1)) == ValueAt(s, c) - s.incr[c.par]
  {
    var init, incr, n := s.init[c.par], s.incr[c.par], c.number + c.step - 1 - c.level;
    NextStepValue(init, incr, n);
    NextStepValue(init, incr, n - 1);
  }

  datatype Field = Field(key: map<string, string>, value: real)

  lemma FieldNamesDiffer()
    ensures "number" != "step" && "number" != "level" && "number" != "param"
    ensures "step" != "level" && "step" != "param" && "level" != "param"
  {
    assert "level"[0] != "param"[0];
    assert |"number"| == 6 && |"step"| == 4 && |"level"| == 5 && |"param"| == 5;
  }

  lemma ParamNamesDiffer(a: nat, b: nat)
    requires a < PARAMS && b < PARAMS && a != b
    ensures ParamName(a) != ParamName(b)
  {
    assert ParamName(a)[0] != ParamName(b)[0];
  }

  /** Within the buffer's reach a key determines its coordinates. */
  lemma KeyAtInjective(base: map<string, string>, c: Coord, d: Coord)
    requires c.par < PARAMS && d.par < PARAMS
    requires c.number < 10000 && c.step < 10000 && c.level < 10000
    requires d.number < 10000 && d.step < 10000 && d.level < 10000
    requires KeyAt(base, c) == KeyAt(base, d)
    ensures c == d
  {
    FieldNamesDiffer();
    var k, l := KeyAt(base, c), KeyAt(base, d);
    assert k["number"] == l["number"] && k["step"] == l["step"] && k["level"] == l["level"] && k["param"] == l["param"];
    BufferedFacts(c.number, d.number);
    BufferedFacts(c.step, d.step);
    BufferedFacts(c.level, d.level);
    if c.par != d.par {
      ParamNamesDiffer(c.par, d.par);
    }
  }

  /** All fields of a run have pairwise different keys. */
  ghost predicate DistinctKeys(base: map<string, string>, coords: seq<Coord>)
    requires forall c :: c in coords ==> c.par < PARAMS
  {
    forall i, j :: 0 <= i < j < |coords| ==> KeyAt(base, coords[i]) != KeyAt(base, coords[j])
  }

  lemma SameKeyTwice(base: map<string, string>, coords: seq<Coord>, c: Coord, d: Coord)
    requires forall x :: x in coords ==> x.par < PARAMS
    requires c in coords && d in coords && c != d && KeyAt(base, c) == KeyAt(base, d)
    ensures !DistinctKeys(base, coords)
  {
    var i :| 0 <= i < |coords| && coords[i] == c;
    var j :| 0 <= j < |coords| && coords[j] == d;
    assert i < j || j < i;
  }

  /**
   No field overwrites another exactly within the bound the buffer sets: at most 10000 members
   and levels (counted from 0) and 9999 steps (counted from 1).
   */
  lemma KeysDistinctIffWithinBuffer(base: map<string, string>, members: nat, steps: nat, levels: nat)
    requires members > 0 && steps > 0 && levels > 0
    ensures forall c :: c in Members(steps, levels, members) ==> c.par < PARAMS
    ensures DistinctKeys(base, Members(steps, levels, members)) <==>
            members <= 10000 && steps <= 9999 && levels <= 10000
  {
    var coords := Members(steps, levels, members);
    MembersList(steps, levels, members);
    BufferedFacts(0, 0);
    if members > 10000 {
      SameKeyTwice(base, coords, Coord(1000, 1, 0, 0), Coord(10000, 1, 0, 0));
    } else if steps > 9999 {
      SameKeyTwice(base, coords, Coord(0, 1000, 0, 0), Coord(0, 10000, 0, 0));
    } else if levels > 10000 {
      SameKeyTwice(base, coords, Coord(0, 1, 1000, 0), Coord(0, 1, 10000, 0));
    } else {
      assert forall i :: 0 <= i < |coords| ==> InBox(coords[i], MemberBox(0, members, steps, levels));
      forall i, j | 0 <= i < j < |coords| ensures KeyAt(base, coords[i]) != KeyAt(base, coords[j]) {
        if KeyAt(base, coords[i]) == KeyAt(base, coords[j]) {
          KeyAtInjective(base, coords[i], coords[j]);
        }
      }
    }
  }

  // ---- the loops -------------------------------------------------------------------------

  function FieldAt(s: Setup, c: Coord): Field
    requires ValidSetup(s) && c.par < PARAMS
  {
    Field(KeyAt(s.base, c), ValueAt(s, c))
  }

  /** The archive so far is the fields of the coordinates so far. */
  ghost predicate Written(s: Setup, archive: seq<Field>, coords: seq<Coord>) {
    && ValidSetup(s)
    && |archive| == |coords|
    && forall i :: 0 <= i < |coords| ==> coords[i].par < PARAMS && archive[i] == FieldAt(s, coords[i])
  }

  lemma KeyEntries(base: map<string, string>, c: Coord)
    requires c.par < PARAMS && base.Keys !! {"number", "step", "level", "param"}
    ensures var key := KeyAt(base, c);
            && key.Keys == base.Keys + {"number", "step", "level", "param"}
            && (forall k :: k in base ==> key[k] == base[k])
            && key["number"] == Buffered(c.number) && key["step"] == Buffered(c.step)
            && key["level"] == Buffered(c.level) && key["param"] == ParamName(c.par)
  {
    FieldNamesDiffer();
    hide Buffered, ParamName;
  }

  lemma ParamNames(par: nat)
    requires par < PARAMS
    ensures par == 0 ==> ParamName(par) == "p"
    ensures par == 1 ==> ParamName(par) == "t"
    ensures par == 2 ==> ParamName(par) == "u"
    ensures par == 3 ==> ParamName(par) == "v"
  {
  }

  /**
   The key of one archived field, entry by entry: the fixed entries as given, the coordinates as numbers within the
   buffer's reach, the parameter by name.
   */
  lemma ArchivedField(s: Setup, archive: seq<Field>, coords: seq<Coord>, i: nat)
    requires Written(s, archive, coords) && i < |archive|
    ensures var key := archive[i].key;
            && key.Keys == s.base.Keys + {"number", "step", "level", "param"}
            && forall k :: k in s.base ==> key[k] == s.base[k]
    ensures var key, c := archive[i].key, coords[i];
            && (c.number < 10000 ==> NumberOf(key["number"]) == c.number)
            && (c.step < 10000 ==> NumberOf(key["step"]) == c.step)
            && (c.level < 10000 ==> NumberOf(key["level"]) == c.level)
    ensures var name, par := archive[i].key["param"], coords[i].par;
            && (par == 0 ==> name == "p") && (par == 1 ==> name == "t")
            && (par == 2 ==> name == "u") && (par == 3 ==> name == "v")
  {
    var c := coords[i];
    assert archive[i].key == KeyAt(s.base, c);
    assert s.base.Keys !! {"number", "step", "level", "param"};
    hide *;
    KeyEntries(s.base, c);
    ParamNames(c.par);
    BufferedText(c.number);
    BufferedText(c.step);
    BufferedText(c.level);
  }

  /** The parameter values at a given step of a member. */
  ghost predicate Accumulated(s: Setup, vals: seq<real>, number: nat, step: nat)
    requires ValidSetup(s) && |vals| == PARAMS
  {
    forall p :: 0 <= p < PARAMS ==> vals[p] == s.init[p] + (number + step - 1) as real * s.incr[p]
  }

  lemma LevelValue(init: real, incr: real, n: int, level: nat)
    ensures init + n as real * incr - level as real * incr == init + (n - level) as real * incr
  {
    assert (n - level) as real == n as real - level as real;
  }

  lemma NextStepValue(init: real, incr: real, n: int)
    ensures init + n as real * incr + incr == init + (n + 1) as real * incr
  {
    assert (n + 1) as real == n as real + 1.0;
  }

  const LOOP_FIELDS := {"number", "step", "level", "param"}

  /** Apart from what the loops set, the key object holds the fixed entries. */
  predicate Carries(base: map<string, string>, key: map<string, string>) {
    key - LOOP_FIELDS == base
  }

  predicate Has(key: map<string, string>, field: string, text: string) {
    field in key && key[field] == text
  }

  lemma SetField(base: map<string, string>, key: map<string, string>, field: string, text: string)
    requires Carries(base, key) && field in LOOP_FIELDS
    ensures Carries(base, key[field := text]) && Has(key[field := text], field, text)
    ensures forall other, value :: other != field && Has(key, other, value) ==> Has(key[field := text], other, value)
  {
    assert key[field := text] - LOOP_FIELDS == key - LOOP_FIELDS;
  }

  lemma FullKey(base: map<string, string>, key: map<string, string>, c: Coord)
    requires Carries(base, key) && c.par < PARAMS
    requires Has(key, "number", Buffered(c.number)) && Has(key, "step", Buffered(c.step))
    requires Has(key, "level", Buffered(c.level)) && Has(key, "param", ParamName(c.par))
    ensures key == KeyAt(base, c)
  {
    FieldNamesDiffer();
    var full := KeyAt(base, c);
    forall k ensures (k in key <==> k in full) && (k in key ==> key[k] == full[k]) {
      if k !in LOOP_FIELDS {
        assert k in key <==> k in key - LOOP_FIELDS;
      }
    }
  }

  lemma OneMoreWritten(s: Setup, archive: seq<Field>, coords: seq<Coord>, f: Field, c: Coord)
    requires Written(s, archive, coords) && c.par < PARAMS && f == FieldAt(s, c)
    ensures Written(s, archive + [f], coords + [c])
  {
  }

  /** The coordinates the key object currently stands at, apart from the parameter. */
  predicate At(base: map<string, string>, key: map<string, string>, number: nat, step: nat, level: nat) {
    && Carries(base, key)
    && Has(key, "number", Buffered(number)) && Has(key, "step", Buffered(step)) && Has(key, "level", Buffered(level))
  }

  /** One archived field: the key object gets the parameter's name, the value is taken down to the level. */
  lemma WriteOne(s: Setup, key: map<string, string>, vals: seq<real>, number: nat, step: nat, level: nat, par: nat,
                 archive: seq<Field>, coords: seq<Coord>) returns (next: map<string, string>, field: Field)
    requires ValidSetup(s) && |vals| == PARAMS && step > 0 && par < PARAMS
    requires Accumulated(s, vals, number, step) && At(s.base, key, number, step, level)
    requires Written(s, archive, coords + Pars(number, step, level, par))
    ensures next == key["param" := ParamName(par)] && At(s.base, next, number, step, level)
    ensures field == Field(next, vals[par] - level as real * s.incr[par])
    ensures Written(s, archive + [field], coords + Pars(number, step, level, par + 1))
  {
    var c := Coord(number, step, level, par);
    next := key["param" := ParamName(par)];
    field := Field(next, vals[par] - level as real * s.incr[par]);
    KeyHere(s.base, key, c);
    ValueHere(s, vals, c);
    assert field == FieldAt(s, c);
    assert Pars(number, step, level, par + 1) == Pars(number, step, level, par) + [c];
    hide *;
    OneMoreWritten(s, archive, coords + Pars(number, step, level, par), field, c);
    assert coords + Pars(number, step, level, par) + [c] == coords + Pars(number, step, level, par + 1);
  }

  lemma KeyHere(base: map<string, string>, key: map<string, string>, c: Coord)
    requires At(base, key, c.number, c.step, c.level) && c.par < PARAMS
    ensures var next := key["param" := ParamName(c.par)];
            At(base, next, c.number, c.step, c.level) && next == KeyAt(base, c)
  {
    FieldNamesDiffer();
    hide Buffered, ParamName, Carries;
    SetField(base, key, "param", ParamName(c.par));
    FullKey(base, key["param" := ParamName(c.par)], c);
  }

  lemma ValueHere(s: Setup, vals: seq<real>, c: Coord)
    requires ValidSetup(s) && |vals| == PARAMS && c.step > 0 && c.par < PARAMS
    requires Accumulated(s, vals, c.number, c.step)
    ensures vals[c.par] - c.level as real * s.incr[c.par] == ValueAt(s, c)
  {
    LevelValue(s.init[c.par], s.incr[c.par], c.number + c.step - 1, c.level);
  }

  /** The innermost loop: all parameters of one level, through the shared key object. */
  method WriteLevel(s: Setup, key: Key, vals: array<real>, number: nat, step: nat, level: nat,
                    before: seq<Field>, ghost coords: seq<Coord>) returns (archive: seq<Field>)
    requires ValidSetup(s) && vals.Length == PARAMS && step > 0
    requires Accumulated(s, vals[..], number, step)
    requires At(s.base, key.values, number, step, level) && Written(s, before, coords)
    modifies key
    ensures At(s.base, key.values, number, step, level)
    ensures Written(s, archive, coords + Pars(number, step, level, PARAMS))
  {
    archive := before;
    assert coords + Pars(number, step, level, 0) == coords;
    assert |s.incr| == PARAMS;
    hide At, Written, ParamName, Buffered, Accumulated, ValidSetup, Pars;
    for par := 0 to PARAMS
      invariant At(s.base, key.values, number, step, level)
      invariant Written(s, archive, coords + Pars(number, step, level, par))
    {
      ghost var next, field := WriteOne(s, key.values, vals[..], number, step, level, par, archive, coords);
      key.Set("param", ParamName(par));
      archive := archive + [Field(key.values, vals[par] - level as real * s.incr[par])];
    }
  }

  lemma AtAfterLevel(base: map<string, string>, key: map<string, string>, number: nat, step: nat, level: nat)
    requires Carries(base, key) && Has(key, "number", Buffered(number)) && Has(key, "step", Buffered(step))
    ensures At(base, key["level" := Buffered(level)], number, step, level)
  {
    FieldNamesDiffer();
    SetField(base, key, "level", Buffered(level));
  }

  /** All levels of one step. */
  method WriteStep(s: Setup, key: Key, vals: array<real>, number: nat, step: nat, levels: nat,
                   before: seq<Field>, ghost coords0: seq<Coord>) returns (archive: seq<Field>)
    requires ValidSetup(s) && vals.Length == PARAMS && step > 0
    requires Accumulated(s, vals[..], number, step)
    requires Carries(s.base, key.values)
    requires Has(key.values, "number", Buffered(number)) && Has(key.values, "step", Buffered(step))
    requires Written(s, before, coords0)
    modifies key
    ensures Carries(s.base, key.values) && Has(key.values, "number", Buffered(number))
    ensures Written(s, archive, coords0 + Levels(number, step, levels))
  {
    hide Written, Carries, Has, Buffered, Accumulated;
    archive := before;
    assert coords0 + Levels(number, step, 0) == coords0;
    for level := 0 to levels
      invariant Carries(s.base, key.values)
      invariant Has(key.values, "number", Buffered(number)) && Has(key.values, "step", Buffered(step))
      invariant Written(s, archive, coords0 + Levels(number, step, level))
    {
      AtAfterLevel(s.base, key.values, number, step, level);
      key.Set("level", Buffered(level));
      archive := WriteLevel(s, key, vals, number, step, level, archive, coords0 + Levels(number, step, level));
      assert coords0 + Levels(number, step, level) + Pars(number, step, level, PARAMS)
             == coords0 + Levels(number, step, level + 1);
    }
  }

  /** The values a member starts with. */
  method InitValues(s: Setup, vals: array<real>, number: nat)
    requires ValidSetup(s) && vals.Length == PARAMS
    modifies vals
    ensures Accumulated(s, vals[..], number, 1)
  {
    for par := 0 to PARAMS
      invariant forall p :: 0 <= p < par ==> vals[p] == s.init[p] + number as real * s.incr[p]
    {
      vals[par] := s.init[par] + number as real * s.incr[par];
    }
  }

  /** The increment after each step. */
  method AdvanceValues(s: Setup, vals: array<real>, ghost number: nat, ghost step: nat)
    requires ValidSetup(s) && vals.Length == PARAMS && step > 0
    requires Accumulated(s, vals[..], number, step)
    modifies vals
    ensures Accumulated(s, vals[..], number, step + 1)
  {
    for par := 0 to PARAMS
      invariant forall p :: 0 <= p < par ==> vals[p] == s.init[p] + (number + step) as real * s.incr[p]
      invariant forall p :: par <= p < PARAMS ==> vals[p] == s.init[p] + (number + step - 1) as real * s.incr[p]
    {
      NextStepValue(s.init[par], s.incr[par], number + step - 1);
      vals[par] := vals[par] + s.incr[par];
    }
  }

  lemma SetNumberOrStep(base: map<string, string>, key: map<string, string>, number: nat, step: nat)
    requires Carries(base, key)
    ensures var k := key["number" := Buffered(number)];
            Carries(base, k) && Has(k, "number", Buffered(number))
    ensures Has(key, "number", Buffered(number)) ==>
              var k := key["step" := Buffered(step)];
              Carries(base, k) && Has(k, "number", Buffered(number)) && Has(k, "step", Buffered(step))
  {
    FieldNamesDiffer();
    SetField(base, key, "number", Buffered(number));
    SetField(base, key, "step", Buffered(step));
  }

  /** How the lists of visited coordinates grow with the loop counters. */
  lemma LoopsUnfold(number: nat, steps: nat, levels: nat, step: nat, before: seq<Coord>)
    requires step > 0
    ensures before + Steps(number, levels, 0) == before
    ensures before + Steps(number, levels, step - 1) + Levels(number, step, levels)
            == before + Steps(number, levels, step)
    ensures Members(steps, levels, number + 1) == Members(steps, levels, number) + Steps(number, levels, steps)
  {
  }

  /**
   The whole run: for every member, step, level and parameter in loop order, one field under the
   key of its coordinates with the value of the closed form.
   */
  method Forecast(s: Setup, members: nat, steps: nat, levels: nat) returns (archive: seq<Field>)
    requires ValidSetup(s)
    ensures Written(s, archive, Members(steps, levels, members))
  {
    var vals := new real[PARAMS];
    var key := new Key.Copy(s.base);
    archive := [];
    assert s.base - LOOP_FIELDS == s.base;
    assert Written(s, [], Members(steps, levels, 0));
    hide Written, Carries, Has, Buffered, Accumulated, ValidSetup, Members, Steps, Levels;
    for number := 0 to members
      invariant Carries(s.base, key.values)
      invariant Written(s, archive, Members(steps, levels, number))
    {
      InitValues(s, vals, number);
      SetNumberOrStep(s.base, key.values, number, 0);
      key.Set("number", Buffered(number));
      ghost var before := Members(steps, levels, number);
      LoopsUnfold(number, steps, levels, 1, before);
      for step := 1 to steps + 1
        invariant Carries(s.base, key.values) && Has(key.values, "number", Buffered(number))
        invariant Accumulated(s, vals[..], number, step)
        invariant Written(s, archive, before + Steps(number, levels, step - 1))
      {
        SetNumberOrStep(s.base, key.values, number, step);
        key.Set("step", Buffered(step));
        archive := WriteStep(s, key, vals, number, step, levels, archive, before + Steps(number, levels, step - 1));
        LoopsUnfold(number, steps, levels, step, before);
        AdvanceValues(s, vals, number, step);
      }
    }
  }

  /** Within the buffer's bound the archived keys are all different, so every field can be read back. */
  lemma NothingOverwritten(s: Setup, archive: seq<Field>, members: nat, steps: nat, levels: nat, i: nat, j: nat)
    requires 0 < members <= 10000 && 0 < steps <= 9999 && 0 < levels <= 10000
    requires Written(s, archive, Members(steps, levels, members)) && i < j < |archive|
    ensures archive[i].key != archive[j].key
  {
    KeysDistinctIffWithinBuffer(s.base, members, steps, levels);
  }
}
