/**
 Access policies: `setPolicy` folds a request into one control action, `queryPolicy` reports
 each database's policies through a generator that reuses one element and one dictionary.
 */
module Policy {
  import opened Outcome
  import opened OrderedMap
  import opened Text
  import opened Backend
  import opened Generators

  datatype Identifier = List | Retrieve | Archive | Wipe

  datatype Action = Enable | Disable

  /** A database's status: its key and the enabled identifiers. */
  datatype StatusRow = StatusRow(pairs: seq<(string, string)>, enabled: set<Identifier>)

  datatype PolicyError = MixedActions | NotImplemented

  type Request = map<string, string> -> bool

  function KeyOf(row: StatusRow): map<string, string> {
    AssignAll(map[], row.pairs)
  }

  function IdName(id: Identifier): string {
    match id
    case List => "list"
    case Retrieve => "retrieve"
    case Archive => "archive"
    case Wipe => "wipe"
  }

  function PolicyName(id: Identifier): string {
    "access." + IdName(id)
  }

  lemma PolicyNamesDiffer(a: Identifier, b: Identifier)
    requires a != b
    ensures IdName(a) != IdName(b) && PolicyName(a) != PolicyName(b)
  {
    assert IdName(a)[0] != IdName(b)[0];
    assert PolicyName(a)[7] == IdName(a)[0] && PolicyName(b)[7] == IdName(b)[0];
  }

  // ---- the control and status services ---------------------------------------------------

  function Controlled(row: StatusRow, selects: Request, action: Action, ids: set<Identifier>): StatusRow {
    if !selects(KeyOf(row)) then row
    else row.(enabled := if action == Enable then row.enabled + ids else row.enabled - ids)
  }

  function ControlledRows(rows: seq<StatusRow>, selects: Request, action: Action, ids: set<Identifier>)
    : (after: seq<StatusRow>)
    ensures |after| == |rows|
  {
    seq(|rows|, i requires 0 <= i < |rows| => Controlled(rows[i], selects, action, ids))
  }

  function Selected(rows: seq<StatusRow>, selects: Request): seq<StatusRow> {
    if rows == [] then []
    else
      var last := rows[|rows| - 1];
      Selected(rows[..|rows| - 1], selects) + if selects(KeyOf(last)) then [last] else []
  }

  /** `picked` are exactly the rows the request holds of, in order: `places[j]` is where row j comes from. */
  ghost predicate Picks(picked: seq<StatusRow>, rows: seq<StatusRow>, selects: Request, places: seq<nat>) {
    && |places| == |picked|
    && (forall j :: 0 <= j < |places| ==>
          places[j] < |rows| && picked[j] == rows[places[j]] && selects(KeyOf(picked[j])))
    && (forall i, j :: 0 <= i < j < |places| ==> places[i] < places[j])
    && (forall i :: 0 <= i < |rows| && selects(KeyOf(rows[i])) ==> i in places)
  }

  lemma OneMorePicked(picked: seq<StatusRow>, rows: seq<StatusRow>, selects: Request, places: seq<nat>, row: StatusRow)
    requires Picks(picked, rows, selects, places)
    ensures !selects(KeyOf(row)) ==> Picks(picked, rows + [row], selects, places)
    ensures selects(KeyOf(row)) ==> Picks(picked + [row], rows + [row], selects, places + [|rows|])
  {
    hide KeyOf;
    assert (places + [|rows|])[|places|] == |rows|;
    assert forall i :: i in places ==> i in places + [|rows|];
  }

  lemma {:induction false} SelectedInOrder(rows: seq<StatusRow>, selects: Request) returns (places: seq<nat>)
    ensures Picks(Selected(rows, selects), rows, selects, places)
  {
    places := [];
    if rows != [] {
      var n := |rows| - 1;
      places := SelectedInOrder(rows[..n], selects);
      OneMorePicked(Selected(rows[..n], selects), rows[..n], selects, places, rows[n]);
      hide Picks, KeyOf;
      assert rows == rows[..n] + [rows[n]];
      if selects(KeyOf(rows[n])) {
        places := places + [n];
      }
    }
  }

  class Fdb {
    var rows: seq<StatusRow>

    method Control(selects: Request, action: Action, ids: set<Identifier>) returns (iter: Source<StatusRow>)
      modifies this
      ensures rows == ControlledRows(old(rows), selects, action, ids)
      ensures fresh(iter) && iter.pos == 0 && iter.elements == Selected(rows, selects)
    {
      rows := ControlledRows(rows, selects, action, ids);
      iter := new Source(Selected(rows, selects));
    }

    method Status(selects: Request) returns (iter: Source<StatusRow>)
      ensures fresh(iter) && iter.pos == 0 && iter.elements == Selected(rows, selects)
    {
      iter := new Source(Selected(rows, selects));
    }
  }

  // ---- the generator ---------------------------------------------------------------------

  /** Which policies a dotted name asks for. */
  predicate Wanted(specifiers: seq<string>, id: Identifier) {
    && (specifiers == [] || specifiers[0] == "access")
    && (|specifiers| < 2 || specifiers[1] == IdName(id))
  }

  /** If wanted, the policy is there with the row's own setting. */
  predicate ShowsPolicy(value: map<string, bool>, specifiers: seq<string>, row: StatusRow, id: Identifier) {
    Wanted(specifiers, id) ==> PolicyName(id) in value && value[PolicyName(id)] == (id in row.enabled)
  }

  /** A dictionary reused over rows may only ever hold wanted names. */
  ghost predicate OnlyWanted(value: map<string, bool>, specifiers: seq<string>) {
    forall name :: name in value ==> exists id :: Wanted(specifiers, id) && name == PolicyName(id)
  }

  /** The dictionary a row calls for: the wanted policies, each with the row's own setting, and nothing else. */
  ghost predicate Reports(value: map<string, bool>, specifiers: seq<string>, row: StatusRow) {
    (forall id :: ShowsPolicy(value, specifiers, row, id)) && OnlyWanted(value, specifiers)
  }

  /** So the dictionary is a function of the row and the specifiers. */
  lemma ReportIsDetermined(a: map<string, bool>, b: map<string, bool>, specifiers: seq<string>, row: StatusRow)
    requires Reports(a, specifiers, row) && Reports(b, specifiers, row)
    ensures a == b
  {
    assert forall id :: Wanted(specifiers, id) ==>
                          ShowsPolicy(a, specifiers, row, id) && ShowsPolicy(b, specifiers, row, id);
    assert forall name :: name in a <==> name in b;
    assert forall name :: name in a ==> a[name] == b[name];
  }

  /** Asked for, the entry of that name is there with the given setting; not asked for, it is not there. */
  predicate Tells(value: map<string, bool>, specifiers: seq<string>, last: string, enabled: bool) {
    var name := "access." + last;
    var asked := (specifiers == [] || specifiers[0] == "access") && (|specifiers| < 2 || specifiers[1] == last);
    (name in value <==> asked) && (asked ==> value[name] == enabled)
  }

  /** The dictionary by the names its reader uses. */
  ghost predicate TellsAll(value: map<string, bool>, specifiers: seq<string>, enabled: set<Identifier>) {
    && Tells(value, specifiers, "list", List in enabled)
    && Tells(value, specifiers, "retrieve", Retrieve in enabled)
    && Tells(value, specifiers, "archive", Archive in enabled)
    && Tells(value, specifiers, "wipe", Wipe in enabled)
    && value.Keys <= {"access.list", "access.retrieve", "access.archive", "access.wipe"}
  }

  lemma IdNames()
    ensures IdName(List) == "list" && IdName(Retrieve) == "retrieve"
    ensures IdName(Archive) == "archive" && IdName(Wipe) == "wipe"
    ensures forall id :: PolicyName(id) in {"access.list", "access.retrieve", "access.archive", "access.wipe"}
  {
    forall id ensures PolicyName(id) in {"access.list", "access.retrieve", "access.archive", "access.wipe"} {
      match id
      case List => assert "access." + "list" == "access.list";
      case Retrieve => assert "access." + "retrieve" == "access.retrieve";
      case Archive => assert "access." + "archive" == "access.archive";
      case Wipe => assert "access." + "wipe" == "access.wipe";
    }
  }

  lemma ReportTells(value: map<string, bool>, specifiers: seq<string>, row: StatusRow, id: Identifier)
    requires Reports(value, specifiers, row)
    ensures Tells(value, specifiers, IdName(id), id in row.enabled)
  {
    assert ShowsPolicy(value, specifiers, row, id);
    if PolicyName(id) in value {
      var other :| Wanted(specifiers, other) && PolicyName(id) == PolicyName(other);
      if other != id {
        PolicyNamesDiffer(other, id);
      }
    }
  }

  lemma ReportTellsAll(value: map<string, bool>, specifiers: seq<string>, row: StatusRow)
    requires Reports(value, specifiers, row)
    ensures TellsAll(value, specifiers, row.enabled)
  {
    IdNames();
    ReportTells(value, specifiers, row, List);
    ReportTells(value, specifiers, row, Retrieve);
    ReportTells(value, specifiers, row, Archive);
    ReportTells(value, specifiers, row, Wipe);
    hide IdName, PolicyName, Tells, Wanted;
  }

  class PolicyStatusGenerator {
    const source: Source<StatusRow>
    const specifiers: seq<string>
    var key: map<string, string>
    var value: map<string, bool>
    var done: bool

    ghost predicate Consistent()
      reads this, source
    {
      && source.pos <= |source.elements|
      && OnlyWanted(value, specifiers)
      && (source.pos > 0 ==>
            var row := source.elements[source.pos - 1];
            key == KeyOf(row) && Reports(value, specifiers, row))
      && (done ==> source.pos == |source.elements|)
    }

    ghost predicate Valid()
      reads this, source
    {
      Consistent() && (!done ==> source.pos > 0)
    }

    ghost function Position(): nat
      requires Valid()
      reads this, source
    {
      if done then |source.elements| else source.pos - 1
    }

    constructor (source: Source<StatusRow>, specifiers: seq<string>)
      requires source.pos == 0
      modifies source
      ensures Valid() && Position() == 0
      ensures this.source == source && this.specifiers == specifiers
    {
      this.source := source;
      this.specifiers := specifiers;
      key, value, done := map[], map[], false;
      new;
      Next();
    }

    /** Overwrites the wanted entries of the reused dictionary; it is never cleared. */
    method Next()
      requires Consistent()
      modifies this, source
      ensures Valid()
      ensures old(source.pos) == 0 && !old(done) ==> Position() == 0
      ensures old(Valid()) ==>
                Position() == Advanced(old(Position()), |source.elements|)
    {
      hide PolicyName, IdName, KeyOf;
      if !done {
        var next := source.Next();
        if next.Some? {
          var row := next.value;
          key := KeyOf(row);
          Update(row);
        } else {
          done := true;
        }
      }
    }

    /** The guarded block of `next` that fills the dictionary. */
    method Update(row: StatusRow)
      requires OnlyWanted(value, specifiers)
      modifies this`value
      ensures Reports(value, specifiers, row) && TellsAll(value, specifiers, row.enabled)
    {
      if specifiers == [] || specifiers[0] == "access" {
        Put(Retrieve, row);
        Put(Archive, row);
        Put(List, row);
        Put(Wipe, row);
      }
      hide OnlyWanted, PolicyName, IdName;
      forall id ensures ShowsPolicy(value, specifiers, row, id) {
        match id
        case List =>
        case Retrieve =>
        case Archive =>
        case Wipe =>
      }
      ReportTellsAll(value, specifiers, row);
    }

    /** One guarded `value.set(...)`. */
    method Put(id: Identifier, row: StatusRow)
      requires specifiers == [] || specifiers[0] == "access"
      requires OnlyWanted(value, specifiers)
      modifies this`value
      ensures OnlyWanted(value, specifiers) && ShowsPolicy(value, specifiers, row, id)
      ensures forall other ::
                ShowsPolicy(old(value), specifiers, row, other) ==> ShowsPolicy(value, specifiers, row, other)
    {
      if |specifiers| < 2 || specifiers[1] == IdName(id) {
        value := value[PolicyName(id) := id in row.enabled];
        forall other | ShowsPolicy(old(value), specifiers, row, other)
          ensures ShowsPolicy(value, specifiers, row, other)
        {
          if other != id {
            PolicyNamesDiffer(other, id);
          }
        }
      }
    }
  }

  /** Range-for over the generator, copying what it shows: every element reports its own row, none an earlier one. */
  method CollectPolicies(generator: PolicyStatusGenerator) returns (seen: seq<(map<string, string>, map<string, bool>)>)
    requires generator.Valid() && generator.Position() == 0
    modifies generator, generator.source
    ensures |seen| == |generator.source.elements|
    ensures forall i :: 0 <= i < |seen| ==>
              && seen[i].0 == KeyOf(generator.source.elements[i])
              && Reports(seen[i].1, generator.specifiers, generator.source.elements[i])
    ensures forall i :: 0 <= i < |seen| ==>
              && HoldsLastValues(seen[i].0, generator.source.elements[i].pairs)
              && TellsAll(seen[i].1, generator.specifiers, generator.source.elements[i].enabled)
  {
    hide TellsAll, Reports, HoldsLastValues;
    seen := [];
    while !generator.done
      invariant generator.Valid() && generator.Position() == |seen|
      invariant forall i :: 0 <= i < |seen| ==>
                  && seen[i].0 == KeyOf(generator.source.elements[i])
                  && Reports(seen[i].1, generator.specifiers, generator.source.elements[i])
      decreases |generator.source.elements| - |seen|, !generator.done
    {
      seen := seen + [(generator.key, generator.value)];
      generator.Next();
    }
    forall i | 0 <= i < |seen|
      ensures HoldsLastValues(seen[i].0, generator.source.elements[i].pairs)
      ensures TellsAll(seen[i].1, generator.specifiers, generator.source.elements[i].enabled)
    {
      AssigningHoldsLastValues(generator.source.elements[i].pairs);
      ReportTellsAll(seen[i].1, generator.specifiers, generator.source.elements[i]);
    }
  }

  // ---- setPolicy and queryPolicy ---------------------------------------------------------

  predicate Agreeing(access: seq<(string, bool)>) {
    forall i, j :: 0 <= i < j < |access| ==> access[i].1 == access[j].1
  }

  /** The action the first entry asks for. */
  function ActionOf(access: seq<(string, bool)>): Action
    requires access != []
  {
    if access[0].1 then Enable else Disable
  }

  function Recognised(access: seq<(string, bool)>): set<Identifier> {
    set id: Identifier | exists i :: 0 <= i < |access| && access[i].0 == IdName(id)
  }

  predicate Mentions(access: seq<(string, bool)>, name: string) {
    exists i :: 0 <= i < |access| && access[i].0 == name
  }

  /** The fold over the "access" section: one action for all entries, or a complaint. */
  method FoldAccess(access: seq<(string, bool)>) returns (r: Result<(Action, set<Identifier>), PolicyError>)
    requires access != []
    ensures r.Ok? <==> Agreeing(access)
    ensures r.Ok? ==> r.value == (ActionOf(access), Recognised(access))
    ensures r.Ok? ==> forall i :: 0 <= i < |access| ==> r.value.0 == if access[i].1 then Enable else Disable
    ensures r.Ok? ==> (List in r.value.1 <==> Mentions(access, "list"))
    ensures r.Ok? ==> (Retrieve in r.value.1 <==> Mentions(access, "retrieve"))
    ensures r.Ok? ==> (Archive in r.value.1 <==> Mentions(access, "archive"))
    ensures r.Ok? ==> (Wipe in r.value.1 <==> Mentions(access, "wipe"))
    ensures r.Err? ==> r.error == MixedActions
  {
    var foundAny := false;
    var identifiers: set<Identifier> := {};
    var action: Action :| true;
    for n := 0 to |access|
      invariant foundAny <==> n > 0
      invariant foundAny ==> action == ActionOf(access)
      invariant forall i :: 0 <= i < n ==> access[i].1 == access[0].1
      invariant forall id :: id in identifiers <==> exists i :: 0 <= i < n && access[i].0 == IdName(id)
    {
      var (key, value) := access[n];
      if key == "list" { identifiers := identifiers + {List}; }
      if key == "retrieve" { identifiers := identifiers + {Retrieve}; }
      if key == "archive" { identifiers := identifiers + {Archive}; }
      if key == "wipe" { identifiers := identifiers + {Wipe}; }
      var newAction := if value then Enable else Disable;
      if foundAny {
        if newAction != action {
          return Err(MixedActions);
        }
      }
      action := newAction;
      foundAny := true;
    }
    assert identifiers == Recognised(access);
    return Ok((action, identifiers));
  }

  /** `DasiImpl::setPolicy`; `access` is the section of that name, if the dictionary has one. */
  method SetPolicy(fdb: Fdb, selects: Request, access: Option<seq<(string, bool)>>)
    returns (r: Result<PolicyStatusGenerator, PolicyError>)
    requires access.Some? ==> access.value != []
    modifies fdb
    ensures r.Ok? <==> access.Some? && Agreeing(access.value)
    ensures r.Err? ==> fdb.rows == old(fdb.rows) && r.error == if access.None? then NotImplemented else MixedActions
    ensures r.Ok? ==>
              && fdb.rows == ControlledRows(old(fdb.rows), selects, ActionOf(access.value), Recognised(access.value))
              && fresh(r.value) && fresh(r.value.source) && r.value.Valid() && r.value.Position() == 0
              && r.value.source.elements == Selected(fdb.rows, selects) && r.value.specifiers == []
  {
    if access.None? {
      return Err(NotImplemented);
    }
    var folded := FoldAccess(access.value);
    if folded.Err? {
      return Err(folded.error);
    }
    var iter := fdb.Control(selects, folded.value.0, folded.value.1);
    var generator := new PolicyStatusGenerator(iter, []);
    return Ok(generator);
  }

  /** `DasiImpl::queryPolicy`. */
  method QueryPolicy(keepEmpty: bool, fdb: Fdb, selects: Request, name: string)
    returns (generator: PolicyStatusGenerator)
    ensures fresh(generator) && fresh(generator.source) && generator.Valid() && generator.Position() == 0
    ensures generator.source.elements == Selected(fdb.rows, selects)
    ensures generator.specifiers == Split(keepEmpty, '.', name)
  {
    var specifiers := Split(keepEmpty, '.', name);
    var iter := fdb.Status(selects);
    generator := new PolicyStatusGenerator(iter, specifiers);
  }

  /** A fully dotted name asks for exactly that policy. */
  lemma DottedNameSelectsOne(keepEmpty: bool, id: Identifier, other: Identifier)
    ensures Wanted(Split(keepEmpty, '.', PolicyName(id)), other) <==> other == id
  {
    var parts := ["access", IdName(id)];
    JoinTwo('.', "access", IdName(id));
    assert "access" + ['.'] + IdName(id) == PolicyName(id);
    SplitOfJoin(keepEmpty, '.', parts);
    if other != id {
      PolicyNamesDiffer(other, id);
    }
  }

  /** So what is reported under such a name is that entry alone. */
  lemma DottedNameReportsOne(keepEmpty: bool, value: map<string, bool>, enabled: set<Identifier>,
                             last: string, id: Identifier)
    requires (last, id) in [("list", List), ("retrieve", Retrieve), ("archive", Archive), ("wipe", Wipe)]
    requires TellsAll(value, Split(keepEmpty, '.', "access." + last), enabled)
    ensures value == map["access." + last := id in enabled]
  {
    NamesApart(last);
    SplitDottedName(keepEmpty, last, "access." + last);
    SingleEntry(value, enabled, last, id);
  }

  lemma SingleEntry(value: map<string, bool>, enabled: set<Identifier>, last: string, id: Identifier)
    requires (last, id) in [("list", List), ("retrieve", Retrieve), ("archive", Archive), ("wipe", Wipe)]
    requires TellsAll(value, ["access", last], enabled)
    ensures value == map["access." + last := id in enabled]
  {
    NamesApart(last);
    assert value.Keys == {"access." + last};
  }

  lemma NamesApart(last: string)
    requires last in ["list", "retrieve", "archive", "wipe"]
    ensures last != "" && '.' !in last
    ensures "access." + "list" == "access.list" && "access." + "retrieve" == "access.retrieve"
    ensures "access." + "archive" == "access.archive" && "access." + "wipe" == "access.wipe"
    ensures "list" != "retrieve" && "list" != "archive" && "list" != "wipe"
    ensures "retrieve" != "archive" && "retrieve" != "wipe" && "archive" != "wipe"
  {
    assert "list"[0] != "wipe"[0];
  }

  lemma SplitDottedName(keepEmpty: bool, last: string, name: string)
    requires name == "access." + last && last != "" && '.' !in last
    ensures Split(keepEmpty, '.', name) == ["access", last]
  {
    JoinTwo('.', "access", last);
    assert "access" + ['.'] + last == name;
    SplitOfJoin(keepEmpty, '.', ["access", last]);
  }

  /** The empty name asks for everything exactly when the tokenizer drops empty pieces. */
  lemma EmptyNameSelectsAll(keepEmpty: bool, id: Identifier)
    ensures Wanted(Split(keepEmpty, '.', ""), id) <==> !keepEmpty
  {
    assert Pieces('.', "") == [""];
    assert NonEmpty([""]) == NonEmpty([""][1..]);
  }

  /** Control changes no key, so a request selects the same databases before and after. */
  lemma {:induction false} SelectedAfterControl(
      rows: seq<StatusRow>, selects: Request, action: Action, ids: set<Identifier>, asked: Request)
    ensures Selected(ControlledRows(rows, selects, action, ids), asked)
            == ControlledRows(Selected(rows, asked), selects, action, ids)
  {
    if rows != [] {
      var init := rows[..|rows| - 1];
      SelectedAfterControl(init, selects, action, ids, asked);
      assert ControlledRows(rows, selects, action, ids)[..|init|] == ControlledRows(init, selects, action, ids);
    }
  }

  /** A report on a controlled row says about one policy what was set, and otherwise what held before. */
  predicate TellsNewOrOld(value: map<string, bool>, specifiers: seq<string>, before: StatusRow,
                          selects: Request, access: seq<(string, bool)>, last: string, enabledBefore: bool)
    requires access != []
  {
    Tells(value, specifiers, last,
          if selects(KeyOf(before)) && Mentions(access, last) then access[0].1 else enabledBefore)
  }

  /** The same for all four policies, by the names they are set and read under. */
  ghost predicate TellsAllNewOrOld(value: map<string, bool>, specifiers: seq<string>, before: StatusRow,
                                   selects: Request, access: seq<(string, bool)>)
    requires access != []
  {
    && TellsNewOrOld(value, specifiers, before, selects, access, "list", List in before.enabled)
    && TellsNewOrOld(value, specifiers, before, selects, access, "retrieve", Retrieve in before.enabled)
    && TellsNewOrOld(value, specifiers, before, selects, access, "archive", Archive in before.enabled)
    && TellsNewOrOld(value, specifiers, before, selects, access, "wipe", Wipe in before.enabled)
    && value.Keys <= {"access.list", "access.retrieve", "access.archive", "access.wipe"}
  }

  lemma ControlledSetting(before: StatusRow, selects: Request, access: seq<(string, bool)>, id: Identifier)
    requires access != []
    ensures id in Controlled(before, selects, ActionOf(access), Recognised(access)).enabled <==>
            if selects(KeyOf(before)) && Mentions(access, IdName(id)) then access[0].1 else id in before.enabled
  {
    assert id in Recognised(access) <==> Mentions(access, IdName(id));
  }

  lemma ReportAfterControl(value: map<string, bool>, specifiers: seq<string>, before: StatusRow,
                           selects: Request, access: seq<(string, bool)>)
    requires access != []
    requires Reports(value, specifiers,
                     Controlled(before, selects, ActionOf(access), Recognised(access)))
    ensures TellsAllNewOrOld(value, specifiers, before, selects, access)
  {
    ReportTellsAll(value, specifiers, Controlled(before, selects, ActionOf(access), Recognised(access)));
    IdNames();
    forall id {
      ControlledSetting(before, selects, access, id);
    }
    hide Controlled, Recognised, ActionOf, IdName, Tells, Mentions, KeyOf;
  }

  /**
   A policy once set is what a later query reports: for every database the query asks about, each
   wanted policy has the new value where it was set, and its old value everywhere else.
   */
  method SetThenQuery(
      keepEmpty: bool, fdb: Fdb, selects: Request, access: seq<(string, bool)>, asked: Request, name: string)
    returns (r: Result<seq<(map<string, string>, map<string, bool>)>, PolicyError>)
    requires access != []
    modifies fdb
    ensures r.Ok? <==> Agreeing(access)
    ensures r.Err? ==> fdb.rows == old(fdb.rows)
    ensures r.Ok? ==>
              var before := Selected(old(fdb.rows), asked);
              && |r.value| == |before|
              && (forall i :: 0 <= i < |before| ==> r.value[i].0 == KeyOf(before[i]))
              && forall i :: 0 <= i < |before| ==>
                   TellsAllNewOrOld(r.value[i].1, Split(keepEmpty, '.', name), before[i], selects, access)
  {
    hide Reports, TellsAllNewOrOld, Recognised, Agreeing, Split, Selected;
    var change := SetPolicy(fdb, selects, Some(access));
    if change.Err? {
      return Err(change.error);
    }
    ghost var action := ActionOf(access);
    SelectedAfterControl(old(fdb.rows), selects, action, Recognised(access), asked);
    var generator := QueryPolicy(keepEmpty, fdb, asked, name);
    var seen := CollectPolicies(generator);
    ghost var before := Selected(old(fdb.rows), asked);
    forall i | 0 <= i < |before|
      ensures TellsAllNewOrOld(seen[i].1, generator.specifiers, before[i], selects, access)
    {
      ReportAfterControl(seen[i].1, generator.specifiers, before[i], selects, access);
    }
    return Ok(seen);
  }
}
