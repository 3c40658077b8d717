/**
 The Rucio backend's `archive`: name the object after its key, upload, then attach one
 metadata attribute per key entry. The service behind it is a catalogue; what goes wrong in a
 call (the upload, its reply, single attributes) is part of that call.
 */
module Archive {
  import opened Outcome
  import opened OrderedMap
  import opened Filenames
  import opened Injectivity

  /** A Python dict: keywords distinct, in insertion order. */
  type Dict = pairs: seq<(string, string)> | DistinctKeywords(pairs)

  function Contents(key: Dict): map<string, string> {
    AssignAll(map[], key)
  }

  datatype Entry = Entry(data: seq<int>, metadata: map<string, string>)

  type Catalogue = map<string, Entry>

  /** A failure dict's two fields; "" stands for a missing or falsy field. */
  datatype Report = Report(error: string, exc: string)

  datatype ReplyItem = DictItem(report: Report) | OtherItem

  /** What the upload client may return. */
  datatype UploadReply =
    | NoReply
    | Flag(success: bool)
    | Single(report: Report)
    | Many(items: seq<ReplyItem>)
    | OtherReply

  /** How the upload client's call ends: `NoFilesUploaded`, any other exception, or a reply. */
  datatype UploadFate = NothingUploaded | Raises(text: string) | Replies(reply: UploadReply)

  /**
   One call: its arguments, and what the service does with it. `registers` tells whether an upload
   that fails has nevertheless registered the name; `faults` names the attributes that are rejected.
   */
  datatype Call = Call(key: Dict, data: seq<int>, upload: UploadFate, registers: bool, faults: map<string, string>)

  datatype ArchiveError =
    | UnsafeFilename
    | UploadFailed(text: string)
    | ReplyRejected(texts: seq<string>)
    | MetadataFailed(failed: seq<(string, string, string)>)

  datatype Returned = Returned | Raised(error: ArchiveError)

  // ---- the reply -------------------------------------------------------------------------

  function FirstTruthy(r: Report): string {
    if r.error != "" then r.error else r.exc
  }

  /** The failures a list reply reports, in order. */
  function Reported(items: seq<ReplyItem>): seq<string> {
    if items == [] then []
    else
      var last := items[|items| - 1];
      Reported(items[..|items| - 1])
      + if last.DictItem? && FirstTruthy(last.report) != "" then [FirstTruthy(last.report)] else []
  }

  /** A reply that reports no failure; an empty list counts as one. */
  predicate Accepted(reply: UploadReply) {
    match reply
    case NoReply => true
    case Flag(success) => success
    case Single(report) => report == Report("", "")
    case Many(items) =>
      items != [] && forall i :: 0 <= i < |items| ==> items[i].DictItem? ==> items[i].report == Report("", "")
    case OtherReply => true
  }

  /** What the error raised for a rejected reply names. */
  function Complaints(reply: UploadReply): seq<string> {
    match reply
    case Single(report) => [FirstTruthy(report)]
    case Many(items) => Reported(items)
    case _ => []
  }

  lemma {:induction false} NothingReported(items: seq<ReplyItem>)
    ensures Reported(items) == [] <==>
            forall i :: 0 <= i < |items| ==> items[i].DictItem? ==> items[i].report == Report("", "")
  {
    if items != [] {
      NothingReported(items[..|items| - 1]);
    }
  }

  /** A failure dict sets one of its fields. */
  predicate SetsField(item: ReplyItem) {
    item.DictItem? && (item.report.error != "" || item.report.exc != "")
  }

  /** The text a failure dict is quoted with: its "error", or its "exception" if only that is set. */
  predicate Quotes(text: string, r: Report) {
    (r.error != "" ==> text == r.error) && (r.error == "" ==> text == r.exc)
  }

  /** `places[j]` is the item complaint j is about: in list order, each once, every item with a field set. */
  ghost predicate QuotesInOrder(texts: seq<string>, items: seq<ReplyItem>, places: seq<nat>) {
    && |places| == |texts|
    && (forall j :: 0 <= j < |places| ==>
          places[j] < |items| && SetsField(items[places[j]]) && Quotes(texts[j], items[places[j]].report))
    && (forall i, j :: 0 <= i < j < |places| ==> places[i] < places[j])
    && (forall i :: 0 <= i < |items| && SetsField(items[i]) ==> i in places)
  }

  lemma OneMoreQuoted(texts: seq<string>, items: seq<ReplyItem>, places: seq<nat>, item: ReplyItem, text: string)
    requires QuotesInOrder(texts, items, places)
    ensures !SetsField(item) ==> QuotesInOrder(texts, items + [item], places)
    ensures SetsField(item) && Quotes(text, item.report) ==>
              QuotesInOrder(texts + [text], items + [item], places + [|items|])
  {
    hide SetsField, Quotes;
    assert (places + [|items|])[|places|] == |items|;
    assert forall i :: i in places ==> i in places + [|items|];
  }

  lemma {:induction false} ReportedInOrder(items: seq<ReplyItem>) returns (places: seq<nat>)
    ensures QuotesInOrder(Reported(items), items, places)
  {
    places := [];
    if items != [] {
      var n := |items| - 1;
      var before := ReportedInOrder(items[..n]);
      var text := if items[n].DictItem? then FirstTruthy(items[n].report) else "";
      OneMoreQuoted(Reported(items[..n]), items[..n], before, items[n], text);
      hide QuotesInOrder;
      assert items == items[..n] + [items[n]];
      places := if SetsField(items[n]) then before + [n] else before;
    }
  }

  /** `_validate_upload_result`. */
  method ValidateReply(reply: UploadReply) returns (r: Result<(), seq<string>>)
    ensures r == if Accepted(reply) then Ok(()) else Err(Complaints(reply))
    ensures match reply
            case NoReply => r.Ok?
            case Flag(success) => r.Ok? == success && (r.Err? ==> r.error == [])
            case Single(report) =>
              && (r.Err? <==> report.error != "" || report.exc != "")
              && (r.Err? ==> |r.error| == 1 && Quotes(r.error[0], report))
            case Many(items) =>
              && (r.Err? <==> items == [] || exists i :: 0 <= i < |items| && SetsField(items[i]))
              && (r.Err? ==> exists places :: QuotesInOrder(r.error, items, places))
            case OtherReply => r.Ok?
  {
    match reply
    case NoReply => return Ok(());
    case Flag(success) => return if success then Ok(()) else Err([]);
    case Single(report) =>
      var error := FirstTruthy(report);
      return if error != "" then Err([error]) else Ok(());
    case Many(items) =>
      if |items| == 0 {
        assert QuotesInOrder([], [], []);
        return Err([]);
      }
      var errors: seq<string> := [];
      for i := 0 to |items|
        invariant errors == Reported(items[..i])
      {
        assert items[..i + 1][..i] == items[..i];
        if items[i].DictItem? {
          var error := FirstTruthy(items[i].report);
          if error != "" {
            errors := errors + [error];
          }
        }
      }
      assert items[..|items|] == items;
      NothingReported(items);
      ghost var places := ReportedInOrder(items);
      hide Quotes, Reported;
      return if errors != [] then Err(errors) else Ok(());
    case OtherReply => return Ok(());
  }

  // ---- one call --------------------------------------------------------------------------

  /** The attributes that get attached: all but the rejected ones. */
  function Attached(key: Dict, faults: map<string, string>): map<string, string> {
    map k | k in Contents(key) && k !in faults :: Contents(key)[k]
  }

  /** The rejected entries, in key order. */
  function Rejected(key: seq<(string, string)>, faults: map<string, string>): seq<(string, string, string)> {
    if key == [] then []
    else
      var last := key[|key| - 1];
      Rejected(key[..|key| - 1], faults) + if last.0 in faults then [(last.0, last.1, faults[last.0])] else []
  }

  /** On a free name, the upload stage succeeds: the client replies and the reply is accepted. */
  predicate Uploads(call: Call) {
    call.upload.Replies? && Accepted(call.upload.reply)
  }

  /** What a call on a name not yet taken leaves in the catalogue, if anything. */
  function Stored(call: Call): Option<Entry> {
    if Uploads(call) then Some(Entry(call.data, Attached(call.key, call.faults)))
    else if call.registers && !call.upload.NothingUploaded? then Some(Entry(call.data, map[]))
    else None
  }

  /** How the upload ends: a taken name gets no reply, but other exceptions are raised for it just the same. */
  function FateOf(call: Call, taken: bool): UploadFate {
    if taken && call.upload.Replies? then NothingUploaded else call.upload
  }

  /** How the call ends for its caller. */
  function ReturnOf(call: Call, taken: bool): Returned {
    match FateOf(call, taken)
    case NothingUploaded => Returned
    case Raises(text) => Raised(UploadFailed(text))
    case Replies(reply) =>
      if !Accepted(reply) then Raised(ReplyRejected(Complaints(reply)))
      else if Rejected(call.key, call.faults) != [] then Raised(MetadataFailed(Rejected(call.key, call.faults)))
      else Returned
  }

  function CallName(call: Call): string {
    Filename(Contents(call.key))
  }

  /** A call seen from the catalogue: the name it is about, and what it stores there if the name is free. */
  datatype Effect = Effect(name: string, stored: Option<Entry>)

  function EffectOf(call: Call): Effect {
    Effect(CallName(call), Stored(call))
  }

  /** The catalogue after one call. */
  function After(catalogue: Catalogue, e: Effect): Catalogue {
    if e.name in catalogue || e.stored.None? then catalogue else catalogue[e.name := e.stored.value]
  }

  // ---- the same, case by case ---------------------------------------------------------------

  /** The replies that stand for a failed upload: False, a failure dict, an empty list, a list with such a dict. */
  predicate ReportsFailure(reply: UploadReply) {
    || reply == Flag(false)
    || (reply.Single? && (reply.report.error != "" || reply.report.exc != ""))
    || (reply.Many? && (reply.items == [] || exists i :: 0 <= i < |reply.items| && SetsField(reply.items[i])))
  }

  lemma AcceptedUnlessFailure(reply: UploadReply)
    ensures Accepted(reply) <==> !ReportsFailure(reply)
  {
  }

  /** The key's entries that are not rejected, and nothing else. */
  ghost predicate CarriesAccepted(metadata: map<string, string>, call: Call) {
    forall k, v :: k in metadata && metadata[k] == v <==> (k, v) in call.key && k !in call.faults
  }

  lemma AttachedIsAccepted(call: Call)
    ensures CarriesAccepted(Attached(call.key, call.faults), call)
  {
    ContentsOfDict(call.key);
  }

  /** At most the bare name is stored, without attributes. */
  predicate AttachesNothing(before: Catalogue, call: Call, after: Catalogue) {
    after == if call.registers then before[CallName(call) := Entry(call.data, map[])] else before
  }

  /** What one call does to the catalogue and how it ends, for every way the service can behave. */
  ghost predicate Proceeds(before: Catalogue, call: Call, after: Catalogue, r: Returned) {
    var name := CallName(call);
    if name in before then
      after == before && r == if call.upload.Raises? then Raised(UploadFailed(call.upload.text)) else Returned
    else
      match call.upload
      case NothingUploaded => after == before && r == Returned
      case Raises(text) => AttachesNothing(before, call, after) && r == Raised(UploadFailed(text))
      case Replies(reply) =>
        if ReportsFailure(reply) then
          AttachesNothing(before, call, after) && r.Raised? && r.error.ReplyRejected?
        else
          && name in after && after - {name} == before
          && after[name].data == call.data && CarriesAccepted(after[name].metadata, call)
          && (r.Raised? <==> exists p :: p in call.key && p.0 in call.faults)
          && (r.Raised? ==> r.error.MetadataFailed?)
  }

  lemma AnyRejected(key: seq<(string, string)>, faults: map<string, string>)
    ensures Rejected(key, faults) != [] <==> exists p :: p in key && p.0 in faults
  {
    RejectedEntries(key, faults);
    var rejected := Rejected(key, faults);
    hide Rejected;
    if rejected != [] {
      var f := rejected[0];
      assert f in rejected;
      assert (f.0, f.1) in key;
    }
    if p :| p in key && p.0 in faults {
      assert (p.0, p.1, faults[p.0]) in rejected;
    }
  }

  lemma AcceptedProceeds(catalogue: Catalogue, call: Call)
    requires CallName(call) !in catalogue && call.upload.Replies? && !ReportsFailure(call.upload.reply)
    ensures Proceeds(catalogue, call, After(catalogue, EffectOf(call)), ReturnOf(call, false))
  {
    AcceptedUnlessFailure(call.upload.reply);
    AttachedIsAccepted(call);
    AnyRejected(call.key, call.faults);
    hide Accepted, ReportsFailure, CarriesAccepted, Rejected, Attached, Complaints, CallName;
    var entry := Entry(call.data, Attached(call.key, call.faults));
    assert After(catalogue, EffectOf(call)) == catalogue[CallName(call) := entry];
  }

  lemma CallProceeds(catalogue: Catalogue, call: Call)
    ensures Proceeds(catalogue, call, After(catalogue, EffectOf(call)), ReturnOf(call, CallName(call) in catalogue))
  {
    if CallName(call) !in catalogue && call.upload.Replies? && !ReportsFailure(call.upload.reply) {
      AcceptedProceeds(catalogue, call);
    } else {
      if call.upload.Replies? {
        AcceptedUnlessFailure(call.upload.reply);
      }
      hide Accepted, ReportsFailure, CarriesAccepted, Rejected, Attached, Complaints, CallName;
    }
  }

  class Rucio {
    var catalogue: Catalogue

    constructor ()
      ensures catalogue == map[]
    {
      catalogue := map[];
    }

    /** The upload service: ends as `FateOf` says, and registers a free name if it stores anything. */
    method Upload(name: string, call: Call) returns (fate: UploadFate)
      modifies this
      ensures fate == FateOf(call, name in old(catalogue))
      ensures catalogue == if name in old(catalogue) || Stored(call).None? then old(catalogue)
                           else old(catalogue)[name := Entry(call.data, map[])]
    {
      var taken := name in catalogue;
      if !taken && (Uploads(call) || (call.registers && !call.upload.NothingUploaded?)) {
        catalogue := catalogue[name := Entry(call.data, map[])];
      }
      return if taken && call.upload.Replies? then NothingUploaded else call.upload;
    }

    /** The metadata service: attaches the attribute, or reports why not. */
    method SetMetadata(name: string, key: string, value: string, call: Call) returns (error: Option<string>)
      requires name in catalogue
      modifies this
      ensures error == if key in call.faults then Some(call.faults[key]) else None
      ensures error.Some? ==> catalogue == old(catalogue)
      ensures error.None? ==>
                var e := old(catalogue)[name];
                catalogue == old(catalogue)[name := e.(metadata := e.metadata[key := value])]
    {
      if key in call.faults {
        return Some(call.faults[key]);
      }
      var e := catalogue[name];
      catalogue := catalogue[name := e.(metadata := e.metadata[key := value])];
      return None;
    }

    /** The metadata loop: every entry is tried, failures are collected. */
    method AttachMetadata(name: string, call: Call) returns (errors: seq<(string, string, string)>)
      requires name in catalogue && catalogue[name].metadata == map[]
      modifies this
      ensures errors == Rejected(call.key, call.faults)
      ensures catalogue == old(catalogue)[name := Entry(old(catalogue)[name].data, Attached(call.key, call.faults))]
    {
      errors := [];
      ghost var data := catalogue[name].data;
      for i := 0 to |call.key|
        invariant errors == Rejected(call.key[..i], call.faults)
        invariant catalogue == old(catalogue)[name := Entry(data, Attached(call.key[..i], call.faults))]
      {
        AttachedStep(call.key, i, call.faults);
        assert call.key[..i + 1][..i] == call.key[..i];
        var (k, v) := call.key[i];
        var error := SetMetadata(name, k, v, call);
        if error.Some? {
          errors := errors + [(k, v, error.value)];
        }
      }
      assert call.key[..|call.key|] == call.key;
    }

    /** `Rucio.archive`. */
    method Archive(call: Call) returns (r: Returned)
      modifies this
      ensures catalogue == After(old(catalogue), EffectOf(call))
      ensures r == ReturnOf(call, CallName(call) in old(catalogue))
      ensures Proceeds(old(catalogue), call, catalogue, r)
    {
      CallProceeds(catalogue, call);
      var name := Filename(Contents(call.key));
      FilenameIsSingleComponent(Contents(call.key));
      hide Filename, Contents, Rejected, Attached, Reported, Accepted, Complaints, SingleComponent, Proceeds;
      if !SingleComponent(name) {
        return Raised(UnsafeFilename);
      }
      var fate := Upload(name, call);
      if fate.NothingUploaded? {
        return Returned;
      }
      if fate.Raises? {
        return Raised(UploadFailed(fate.text));
      }
      var valid := ValidateReply(fate.reply);
      if valid.Err? {
        return Raised(ReplyRejected(valid.error));
      }
      var errors := AttachMetadata(name, call);
      return if errors != [] then Raised(MetadataFailed(errors)) else Returned;
    }
  }

  lemma AttachedStep(key: Dict, i: nat, faults: map<string, string>)
    requires i < |key|
    ensures var init: Dict := key[..i];
            Attached(key[..i + 1], faults)
            == if key[i].0 in faults then Attached(init, faults) else Attached(init, faults)[key[i].0 := key[i].1]
  {
    assert key[..i + 1][..i] == key[..i];
  }

  /** `places[j]` is the entry error j is about: in key order, each once, every entry with a fault. */
  ghost predicate InOrder(key: seq<(string, string)>, faults: map<string, string>,
                          errors: seq<(string, string, string)>, places: seq<nat>) {
    && |places| == |errors|
    && (forall j :: 0 <= j < |places| ==>
          && places[j] < |key| && key[places[j]].0 in faults
          && errors[j] == (key[places[j]].0, key[places[j]].1, faults[key[places[j]].0]))
    && (forall i, j :: 0 <= i < j < |places| ==> places[i] < places[j])
    && (forall i :: 0 <= i < |key| && key[i].0 in faults ==> i in places)
  }

  lemma OneMoreInOrder(key: seq<(string, string)>, faults: map<string, string>,
                       errors: seq<(string, string, string)>, places: seq<nat>, p: (string, string))
    requires InOrder(key, faults, errors, places)
    ensures p.0 !in faults ==> InOrder(key + [p], faults, errors, places)
    ensures p.0 in faults ==> InOrder(key + [p], faults, errors + [(p.0, p.1, faults[p.0])], places + [|key|])
  {
    assert (places + [|key|])[|places|] == |key|;
    assert forall i :: i in places ==> i in places + [|key|];
  }

  /** The collected errors are the rejected entries in key order, each once. */
  lemma {:induction false} RejectedInOrder(key: seq<(string, string)>, faults: map<string, string>)
    returns (places: seq<nat>)
    ensures InOrder(key, faults, Rejected(key, faults), places)
  {
    places := [];
    if key != [] {
      var n := |key| - 1;
      places := RejectedInOrder(key[..n], faults);
      OneMoreInOrder(key[..n], faults, Rejected(key[..n], faults), places, key[n]);
      hide InOrder;
      assert key == key[..n] + [key[n]];
      if key[n].0 in faults {
        places := places + [n];
      }
    }
  }

  lemma RejectedEntries(key: seq<(string, string)>, faults: map<string, string>)
    ensures forall f :: f in Rejected(key, faults) <==> f.0 in faults && faults[f.0] == f.2 && (f.0, f.1) in key
  {
    var places := RejectedInOrder(key, faults);
    forall f: (string, string, string) | f.0 in faults && faults[f.0] == f.2 && (f.0, f.1) in key
      ensures f in Rejected(key, faults)
    {
      var i :| 0 <= i < |key| && key[i] == (f.0, f.1);
      var j :| 0 <= j < |places| && places[j] == i;
      assert Rejected(key, faults)[j] == f;
    }
  }

  lemma {:induction false} ContentsOfDict(key: Dict)
    ensures forall k, v :: (k, v) in key <==> k in Contents(key) && Contents(key)[k] == v
  {
    forall k, v ensures (k, v) in key <==> k in Contents(key) && Contents(key)[k] == v {
      if i :| 0 <= i < |key| && key[i].0 == k {
        AssignLast(map[], key, i);
      } else {
        AssignUntouched(map[], key, k);
      }
    }
  }

  /** Every entry is accounted for: attached with its value, or listed as rejected, never both. */
  lemma {:induction false} AttributesAccounted(key: Dict, faults: map<string, string>, k: string, v: string)
    requires (k, v) in key
    ensures k in Attached(key, faults) <==> !exists text :: (k, v, text) in Rejected(key, faults)
    ensures k in Attached(key, faults) ==> Attached(key, faults)[k] == v
  {
    ContentsOfDict(key);
    RejectedEntries(key, faults);
    assert k in faults ==> (k, v, faults[k]) in Rejected(key, faults);
  }

  /** No error is collected exactly when the full key is attached. */
  lemma NoneRejected(key: Dict, faults: map<string, string>)
    ensures Rejected(key, faults) == [] <==> Attached(key, faults) == Contents(key)
  {
    ContentsOfDict(key);
    RejectedEntries(key, faults);
    assert forall x :: x in faults && x in Contents(key) ==> (x, Contents(key)[x], faults[x]) in Rejected(key, faults);
    if Rejected(key, faults) != [] {
      var f := Rejected(key, faults)[0];
      assert f in Rejected(key, faults);
      assert f.0 in Contents(key) && f.0 !in Attached(key, faults);
    }
  }

  /**
   A call returns normally exactly if the client said that nothing was uploaded, or a free name was
   uploaded with the full key attached. Only the first leaves the caller in the dark.
   */
  lemma NormalReturn(catalogue: Catalogue, call: Call)
    ensures var taken := CallName(call) in catalogue;
            var after := After(catalogue, EffectOf(call));
            && (ReturnOf(call, taken) == Returned <==>
                  FateOf(call, taken) == NothingUploaded
                  || (!taken && Uploads(call) && Stored(call) == Some(Entry(call.data, Contents(call.key)))))
            && (ReturnOf(call, taken) == Returned ==> (CallName(call) in after <==> taken || Uploads(call)))
  {
    NoneRejected(call.key, call.faults);
    hide Contents, Filename, Rejected, Attached, Accepted, Complaints;
  }

  /** Data is lost without an error exactly if the client says that nothing was uploaded for a free name. */
  lemma SilentLoss(catalogue: Catalogue, call: Call)
    ensures var taken := CallName(call) in catalogue;
            (ReturnOf(call, taken) == Returned && CallName(call) !in After(catalogue, EffectOf(call)))
            <==> (!taken && call.upload == NothingUploaded)
  {
    NormalReturn(catalogue, call);
    hide Contents, Filename, Rejected, Attached, Accepted, Complaints;
  }

  // ---- histories -------------------------------------------------------------------------

  /** The catalogue after any sequence of calls, faulty ones included, from an empty one. */
  function AfterAll(effects: seq<Effect>): Catalogue {
    if effects == [] then map[] else After(AfterAll(effects[..|effects| - 1]), effects[|effects| - 1])
  }

  function Effects(calls: seq<Call>): (effects: seq<Effect>)
    ensures |effects| == |calls|
    ensures forall i :: 0 <= i < |calls| ==> effects[i] == EffectOf(calls[i])
  {
    seq(|calls|, i requires 0 <= i < |calls| => EffectOf(calls[i]))
  }

  /** Step i is the one that settles its name: it stores, and no earlier step on that name did. */
  predicate Settles(effects: seq<Effect>, i: nat)
    requires i < |effects|
  {
    && effects[i].stored.Some?
    && forall j :: 0 <= j < i && effects[j].name == effects[i].name ==> effects[j].stored.None?
  }

  /** What is once stored under a name is never touched again by any later calls. */
  lemma {:induction false} EntriesArePermanent(effects: seq<Effect>, i: nat, name: string)
    requires i <= |effects| && name in AfterAll(effects[..i])
    ensures name in AfterAll(effects) && AfterAll(effects)[name] == AfterAll(effects[..i])[name]
    decreases |effects|
  {
    if i == |effects| {
      assert effects[..i] == effects;
    } else {
      var init := effects[..|effects| - 1];
      assert init[..i] == effects[..i];
      EntriesArePermanent(init, i, name);
    }
  }

  /** Every entry of the catalogue goes back to the call that settled its name. */
  lemma {:induction false} EntryOrigin(effects: seq<Effect>, name: string) returns (i: nat)
    requires name in AfterAll(effects)
    ensures i < |effects| && effects[i].name == name && Settles(effects, i)
    ensures AfterAll(effects)[name] == effects[i].stored.value
  {
    var init, last := effects[..|effects| - 1], effects[|effects| - 1];
    if name in AfterAll(init) {
      i := EntryOrigin(init, name);
    } else {
      i := |init|;
      forall j | 0 <= j < i && effects[j].name == name ensures effects[j].stored.None? {
        if effects[j].stored.Some? {
          StoredIsPresent(init, j);
        }
      }
    }
  }

  lemma {:induction false} StoredIsPresent(effects: seq<Effect>, i: nat)
    requires i < |effects| && effects[i].stored.Some?
    ensures effects[i].name in AfterAll(effects)
  {
    if i < |effects| - 1 {
      StoredIsPresent(effects[..|effects| - 1], i);
    }
  }

  /**
   Over every history, faults included, each name holds the bytes and attached metadata of the
   first call that stored under it.
   */
  lemma {:induction false} FirstStoreWins(effects: seq<Effect>, i: nat)
    requires i < |effects| && Settles(effects, i)
    ensures effects[i].name in AfterAll(effects)
    ensures AfterAll(effects)[effects[i].name] == effects[i].stored.value
  {
    StoredIsPresent(effects, i);
    var k := EntryOrigin(effects, effects[i].name);
    assert k == i;
  }

  /**
   Repeating a call never completes what the first one left incomplete: once call i has settled a name,
   archiving the same key again changes nothing and returns normally unless the upload itself raises.
   The entry carries the full key exactly if call i was accepted and no attribute failed, or, where its
   upload registered the name and then failed, if there is nothing to attach.
   */
  lemma {:induction false} RetryDoesNotRepair(calls: seq<Call>, i: nat, again: Call)
    requires i < |calls| && Settles(Effects(calls), i)
    requires Contents(again.key) == Contents(calls[i].key)
    ensures var catalogue := AfterAll(Effects(calls));
            && CallName(again) in catalogue
            && After(catalogue, EffectOf(again)) == catalogue
            && (ReturnOf(again, true) == Returned <==> !again.upload.Raises?)
            && (catalogue[CallName(again)].metadata == Contents(again.key) <==>
                  if Uploads(calls[i]) then Rejected(calls[i].key, calls[i].faults) == []
                  else Contents(again.key) == map[])
  {
    FirstStoreWins(Effects(calls), i);
    NoneRejected(calls[i].key, calls[i].faults);
  }

  /** A call nothing goes wrong in, on a key within the alphabet. */
  predicate Faultless(a: Alphabet, call: Call) {
    Uploads(call) && call.faults == map[] && Conforms(a, Items(Contents(call.key)))
  }

  lemma FaultlessStores(a: Alphabet, call: Call)
    requires Faultless(a, call)
    ensures Stored(call) == Some(Entry(call.data, Contents(call.key)))
  {
    assert Attached(call.key, call.faults) == Contents(call.key);
  }

  lemma FaultlessNamesDiffer(a: Alphabet, c: Call, d: Call)
    requires Readable(a) && Faultless(a, c) && Faultless(a, d) && Contents(c.key) != Contents(d.key)
    ensures CallName(c) != CallName(d)
  {
    if CallName(c) == CallName(d) {
      FilenameInjective(a, Contents(c.key), Contents(d.key));
    }
  }

  /**
   Without faults and within a readable alphabet the catalogue is a faithful store: each key leads
   to the first bytes archived under exactly that key, with the full key as metadata.
   */
  lemma {:induction false} FaithfulStore(a: Alphabet, calls: seq<Call>, i: nat)
    requires Readable(a) && i < |calls|
    requires forall j :: 0 <= j < |calls| ==> Faultless(a, calls[j])
    requires forall j :: 0 <= j < i ==> Contents(calls[j].key) != Contents(calls[i].key)
    ensures var catalogue := AfterAll(Effects(calls));
            && CallName(calls[i]) in catalogue
            && catalogue[CallName(calls[i])] == Entry(calls[i].data, Contents(calls[i].key))
  {
    FaultlessStores(a, calls[i]);
    forall j | 0 <= j < i ensures CallName(calls[j]) != CallName(calls[i]) {
      FaultlessNamesDiffer(a, calls[j], calls[i]);
    }
    hide CallName, Stored, AfterAll, Contents, Faultless, Readable;
    FirstStoreWins(Effects(calls), i);
  }

  lemma AfterAllSnoc(effects: seq<Effect>, i: nat)
    requires i < |effects|
    ensures AfterAll(effects[..i + 1]) == After(AfterAll(effects[..i]), effects[i])
    ensures AfterAll([]) == map[]
  {
    assert effects[..i + 1][..i] == effects[..i];
  }

  /** A backend that has served a history of calls holds that history's catalogue. */
  method RunHistory(calls: seq<Call>) returns (rucio: Rucio)
    ensures fresh(rucio) && rucio.catalogue == AfterAll(Effects(calls))
  {
    ghost var effects := Effects(calls);
    rucio := new Rucio();
    for i := 0 to |calls|
      invariant fresh(rucio) && rucio.catalogue == AfterAll(effects[..i])
    {
      hide *;
      AfterAllSnoc(effects, i);
      var r := rucio.Archive(calls[i]);
    }
    assert effects[..|calls|] == effects;
  }
}
