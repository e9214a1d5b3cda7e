/** The client RPCs that create and edit leases, as edits of one lease held in memory. */
module ClientRpc {
  import opened Options
  import opened Identifiers
  import opened LabelSelectors
  import opened LeaseTimes
  import opened LeaseTypes
  import opened LeaseReconciler

  /** The fields of an update request; the time fields are the ones the caller gave. */
  datatype UpdateRequest = UpdateRequest(selector: seq<Requirement>, times: Times, client: Option<string>)

  datatype RpcError =
    | PermissionDenied
    | BadSelectorRequest(parse: ParseError)
    | BadTimes(times: TimeError)
    | AlreadyStarted
    | NotStarted
    | AlreadyEnded
    | BadClientIdentifier
    | OtherNamespace
    | ClientNotFound
    | LeaseNotFound
    | LeaseExists

  /** The time fields of the lease with the given ones replaced. */
  function EditedTimes(current: Times, asked: Times, desired: Times): Times {
    Times(if asked.begin.Some? then desired.begin else current.begin,
          if asked.end.Some? then desired.end else current.end,
          if asked.duration.Some? then desired.duration else current.duration)
  }

  /** Who the lease belongs to after the request, or why it cannot be handed over. */
  function TransferTo(l: LeaseRecord, clients: set<Key>, client: Option<string>): Result<string, RpcError> {
    if client.None? || client.value == "" then Ok(l.spec.clientRef)
    else if l.status.exporterRef.None? then Err(NotStarted)
    else if l.status.ended then Err(AlreadyEnded)
    else
      match ParseObjectIdentifier(client.value, "clients")
      case Err(_) => Err(BadClientIdentifier)
      case Ok(key) =>
        if key.namespace != l.key.namespace then Err(OtherNamespace)
        else if key !in clients then Err(ClientNotFound)
        else Ok(key.name)
  }

  /** The specification `UpdateLease` stores, or the error it returns. */
  function UpdatedSpec(l: LeaseRecord, caller: string, clients: set<Key>,
                       req: UpdateRequest): Result<LeaseSpec, RpcError>
  {
    if l.spec.clientRef != caller then Err(PermissionDenied)
    else match Translate(req.selector)
    case Err(e) => Err(BadSelectorRequest(e))
    case Ok(_) =>
      match Complete(req.times)
      case Err(e) => Err(BadTimes(e))
      case Ok(desired) =>
        if req.times.begin.Some? && l.status.exporterRef.Some?
            && l.spec.times.begin != desired.begin then Err(AlreadyStarted)
        else match TransferTo(l, clients, req.client)
        case Err(e) => Err(e)
        case Ok(owner) =>
          match Complete(EditedTimes(l.spec.times, req.times, desired))
          case Err(e) => Err(BadTimes(e))
          case Ok(times) => Ok(l.spec.(clientRef := owner, times := times))
  }

  /** The specification a `CreateLease` request asks for. */
  method LeaseFromProtobuf(selector: seq<Requirement>, times: Times, client: string)
      returns (r: Result<LeaseSpec, RpcError>)
    ensures r.Ok? <==> Translatable(selector) && Complete(times).Ok?
    ensures r.Ok? ==> AllSupported(selector)
    ensures r.Ok? ==> Complete(times) == Ok(r.value.times) && r.value.clientRef == client && !r.value.release
    ensures r.Ok? ==> forall labels :: Matches(r.value.selector, labels) <==> RequirementsMatch(selector, labels)
    ensures r.Err? && Translate(selector).Err? ==> r.error == BadSelectorRequest(Translate(selector).error)
    ensures r.Err? && Translate(selector).Ok? ==> Complete(times).Err? && r.error == BadTimes(Complete(times).error)
  {
    TranslateSucceeds(selector);
    var parsed := ParseLabelSelector(selector);
    if parsed.Err? {
      return Err(BadSelectorRequest(parsed.error));
    }
    var fields := new TimeFields(times);
    var error := fields.ReconcileLeaseTimeFields();
    if error.Some? {
      return Err(BadTimes(error.value));
    }
    r := Ok(LeaseSpec(client, fields.Value(), parsed.value, false));
  }

  /** Updates a lease held in memory: what success means, and what each refusal means. */
  method UpdateLease(lease: Lease, caller: string, clients: set<Key>, req: UpdateRequest)
      returns (error: Option<RpcError>)
    modifies lease`spec
    ensures error.None? ==> UpdatedSpec(old(lease.Record()), caller, clients, req) == Ok(lease.spec)
    ensures error.Some? ==> UpdatedSpec(old(lease.Record()), caller, clients, req) == Err(error.value)
    ensures error.None? ==> Granted(old(lease.Record()), caller, clients, req, lease.spec)
    ensures error.Some? ==> Refusal(old(lease.Record()), caller, clients, req, error.value)
  {
    UpdateAnswers(lease.Record(), caller, clients, req);
    error := EditLease(lease, caller, clients, req);
  }

  /** Edits the lease step by step, stopping at the first thing that is not allowed. */
  method EditLease(lease: Lease, caller: string, clients: set<Key>, req: UpdateRequest)
      returns (error: Option<RpcError>)
    modifies lease`spec
    ensures error.None? ==> UpdatedSpec(old(lease.Record()), caller, clients, req) == Ok(lease.spec)
    ensures error.Some? ==> UpdatedSpec(old(lease.Record()), caller, clients, req) == Err(error.value)
  {
    if lease.spec.clientRef != caller {
      return Some(PermissionDenied);
    }
    var desired := LeaseFromProtobuf(req.selector, req.times, caller);
    TranslateSucceeds(req.selector);
    if desired.Err? {
      return Some(desired.error);
    }
    if req.times.begin.Some? {
      if lease.status.exporterRef.Some? {
        if lease.spec.times.begin.None? || lease.spec.times.begin != desired.value.times.begin {
          return Some(AlreadyStarted);
        }
      }
      lease.spec := lease.spec.(times := lease.spec.times.(begin := desired.value.times.begin));
    }
    if req.times.duration.Some? {
      lease.spec := lease.spec.(times := lease.spec.times.(duration := desired.value.times.duration));
    }
    if req.times.end.Some? {
      lease.spec := lease.spec.(times := lease.spec.times.(end := desired.value.times.end));
    }
    if req.client.Some? && req.client.value != "" {
      if lease.status.exporterRef.None? {
        return Some(NotStarted);
      }
      if lease.status.ended {
        return Some(AlreadyEnded);
      }
      var newClientKey := ParseObjectIdentifier(req.client.value, "clients");
      if newClientKey.Err? {
        return Some(BadClientIdentifier);
      }
      if newClientKey.value.namespace != lease.key.namespace {
        return Some(OtherNamespace);
      }
      if newClientKey.value !in clients {
        return Some(ClientNotFound);
      }
      lease.spec := lease.spec.(clientRef := newClientKey.value.name);
    }
    var fields := new TimeFields(lease.spec.times);
    var timeError := fields.ReconcileLeaseTimeFields();
    lease.spec := lease.spec.(times := fields.Value());
    if timeError.Some? {
      return Some(BadTimes(timeError.value));
    }
    return None;
  }

  // ---------------------------------------------------------------- what an update answers

  /** The request names a client to hand the lease over to. */
  predicate HandsOver(req: UpdateRequest) {
    req.client.Some? && req.client.value != ""
  }

  /** The request gives a begin that is not that of an assigned lease. */
  predicate MovesBegin(l: LeaseRecord, req: UpdateRequest) {
    req.times.begin.Some? && l.status.exporterRef.Some? && l.spec.times.begin != req.times.begin
  }

  /** What a successful update means: the caller owned the lease; it now belongs to the existing client of the namespace
      that the request names, if it names one, and then the lease was running; selector and release are kept, and
      every time field the request gives is stored, but for a duration that is not positive. */
  predicate Granted(l: LeaseRecord, caller: string, clients: set<Key>, req: UpdateRequest, spec: LeaseSpec) {
    && l.spec.clientRef == caller && Translatable(req.selector) && !MovesBegin(l, req)
    && spec.selector == l.spec.selector && spec.release == l.spec.release
    && (!HandsOver(req) ==> spec.clientRef == caller)
    && (HandsOver(req) ==>
          && ParseObjectIdentifier(req.client.value, "clients") == Ok(Key(l.key.namespace, spec.clientRef))
          && Key(l.key.namespace, spec.clientRef) in clients
          && l.status.exporterRef.Some? && !l.status.ended)
    && (req.times.begin.Some? ==> spec.times.begin == req.times.begin)
    && (req.times.end.Some? ==> spec.times.end == req.times.end)
    && (Positive(req.times.duration) ==> spec.times.duration == req.times.duration)
    && (req.times.end.None? ==> spec.times.end == l.spec.times.end)
    && (req.times.begin.None? && l.spec.times.begin.Some? ==> spec.times.begin == l.spec.times.begin)
    && Complete(req.times).Ok? && Consistent(spec.times)
    && Complete(EditedTimes(l.spec.times, req.times, Complete(req.times).value)) == Ok(spec.times)
  }

  /** The request passes the checks before those of the hand-over. */
  predicate MayEdit(l: LeaseRecord, caller: string, req: UpdateRequest) {
    l.spec.clientRef == caller && Translatable(req.selector) && Complete(req.times).Ok? && !MovesBegin(l, req)
  }

  /** What each refusal means. */
  ghost predicate Refusal(l: LeaseRecord, caller: string, clients: set<Key>, req: UpdateRequest, error: RpcError) {
    var running := l.status.exporterRef.Some? && !l.status.ended;
    match error
    case PermissionDenied => l.spec.clientRef != caller
    case BadSelectorRequest(parse) =>
      l.spec.clientRef == caller && !Translatable(req.selector) && Justified(parse, req.selector)
    case AlreadyStarted =>
      l.spec.clientRef == caller && Translatable(req.selector) && Complete(req.times).Ok? && MovesBegin(l, req)
    case NotStarted => MayEdit(l, caller, req) && HandsOver(req) && l.status.exporterRef.None?
    case AlreadyEnded => MayEdit(l, caller, req) && HandsOver(req) && l.status.exporterRef.Some? && l.status.ended
    case BadClientIdentifier =>
      MayEdit(l, caller, req) && HandsOver(req) && running && ParseObjectIdentifier(req.client.value, "clients").Err?
    case OtherNamespace =>
      && MayEdit(l, caller, req) && HandsOver(req) && running
      && ParseObjectIdentifier(req.client.value, "clients").Ok?
      && ParseObjectIdentifier(req.client.value, "clients").value.namespace != l.key.namespace
    case ClientNotFound =>
      && MayEdit(l, caller, req) && HandsOver(req) && running
      && ParseObjectIdentifier(req.client.value, "clients").Ok?
      && ParseObjectIdentifier(req.client.value, "clients").value.namespace == l.key.namespace
      && ParseObjectIdentifier(req.client.value, "clients").value !in clients
    case BadTimes(times) =>
      && l.spec.clientRef == caller && Translatable(req.selector)
      && (Complete(req.times) == Err(times)
          || (MayEdit(l, caller, req)
              && Complete(EditedTimes(l.spec.times, req.times, Complete(req.times).value)) == Err(times)))
    case _ => false
  }

  lemma UpdateAnswers(l: LeaseRecord, caller: string, clients: set<Key>, req: UpdateRequest)
    ensures UpdatedSpec(l, caller, clients, req).Ok? ==>
              Granted(l, caller, clients, req, UpdatedSpec(l, caller, clients, req).value)
    ensures UpdatedSpec(l, caller, clients, req).Err? ==>
              Refusal(l, caller, clients, req, UpdatedSpec(l, caller, clients, req).error)
  {
    TranslateSucceeds(req.selector);
    if UpdatedSpec(l, caller, clients, req).Ok? {
      UpdateGranted(l, caller, clients, req);
    }
  }

  /** No request is both granted and refused, so each refusal has its condition exactly. */
  lemma AnswersExclusive(l: LeaseRecord, caller: string, clients: set<Key>, req: UpdateRequest, spec: LeaseSpec,
                         error: RpcError)
    requires Refusal(l, caller, clients, req, error)
    ensures !Granted(l, caller, clients, req, spec)
    ensures UpdatedSpec(l, caller, clients, req).Err?
  {
    UpdateAnswers(l, caller, clients, req);
    if UpdatedSpec(l, caller, clients, req).Ok? {
      GrantedNotRefused(l, caller, clients, req, UpdatedSpec(l, caller, clients, req).value, error);
    }
    if Granted(l, caller, clients, req, spec) {
      GrantedNotRefused(l, caller, clients, req, spec, error);
    }
  }

  lemma GrantedNotRefused(l: LeaseRecord, caller: string, clients: set<Key>, req: UpdateRequest, spec: LeaseSpec,
                          error: RpcError)
    requires Granted(l, caller, clients, req, spec)
    ensures !Refusal(l, caller, clients, req, error)
  {
  }

  lemma UpdateGranted(l: LeaseRecord, caller: string, clients: set<Key>, req: UpdateRequest)
    requires UpdatedSpec(l, caller, clients, req).Ok?
    ensures Granted(l, caller, clients, req, UpdatedSpec(l, caller, clients, req).value)
  {
    TranslateSucceeds(req.selector);
    var desired := Complete(req.times).value;
    CompleteConsistent(req.times);
    CompleteConsistent(EditedTimes(l.spec.times, req.times, desired));
  }

  /** Marks the lease for release; only its client may. */
  method DeleteLease(lease: Lease, caller: string) returns (error: Option<RpcError>)
    modifies lease`spec
    ensures error == if old(lease.spec).clientRef != caller then Some(PermissionDenied) else None
    ensures lease.spec == if error.None? then old(lease.spec).(release := true) else old(lease.spec)
  {
    if lease.spec.clientRef != caller {
      return Some(PermissionDenied);
    }
    lease.spec := lease.spec.(release := true);
    return None;
  }

  // ---------------------------------------------------------------- what the edits keep

  /** A specification that one of the two RPCs makes of a stored lease. */
  ghost predicate RpcEdit(l: LeaseRecord, spec: LeaseSpec) {
    || spec == l.spec.(release := true)
    || exists caller, clients, req :: UpdatedSpec(l, caller, clients, req) == Ok(spec)
  }

  /** The time fields agree after every successful update, whatever they were before; and a request that gives
      an end and nothing else is not successful, although the lease may hold what would complete it. */
  lemma UpdateConsistent(l: LeaseRecord, caller: string, clients: set<Key>, req: UpdateRequest)
    requires UpdatedSpec(l, caller, clients, req).Ok?
    ensures Consistent(UpdatedSpec(l, caller, clients, req).value.times)
    ensures !(req.times.end.Some? && req.times.begin.None? && req.times.duration.None?)
  {
    var desired := Complete(req.times).value;
    CompleteConsistent(EditedTimes(l.spec.times, req.times, desired));
  }

  /** An update keeps a requested begin, and cannot move it once an exporter is assigned; a requested end is kept
      as well. */
  lemma UpdateKeepsBegin(l: LeaseRecord, caller: string, clients: set<Key>, req: UpdateRequest)
    requires UpdatedSpec(l, caller, clients, req).Ok? && l.spec.times.begin.Some?
    ensures UpdatedSpec(l, caller, clients, req).value.times.begin.Some?
    ensures l.status.exporterRef.Some? ==> UpdatedSpec(l, caller, clients, req).value.times.begin == l.spec.times.begin
  {
  }

  lemma RpcEditKeeps(l: LeaseRecord, spec: LeaseSpec)
    requires RpcEdit(l, spec)
    ensures Consistent(l.spec.times) ==> Consistent(spec.times)
    ensures l.spec.times.begin.Some? ==> spec.times.begin.Some?
    ensures l.spec.times.begin.Some? && l.status.exporterRef.Some? ==> spec.times.begin == l.spec.times.begin
    ensures l.spec.times.end.Some? ==> spec.times.end.Some?
    ensures l.spec.release ==> spec.release
    ensures spec.times != l.spec.times ==> Consistent(spec.times)
  {
    if spec != l.spec.(release := true) {
      var caller, clients, req :| UpdatedSpec(l, caller, clients, req) == Ok(spec);
      UpdateConsistent(l, caller, clients, req);
      if l.spec.times.begin.Some? {
        UpdateKeepsBegin(l, caller, clients, req);
      }
    }
  }

  /** On a started lease without a requested begin, an update fills one in exactly when it gives an
      end; the filled-in begin may lie after the actual one. */
  lemma UpdateFillsBegin(l: LeaseRecord, caller: string, clients: set<Key>, req: UpdateRequest)
    requires UpdatedSpec(l, caller, clients, req).Ok?
    requires l.status.exporterRef.Some? && l.spec.times.begin.None? && l.spec.times.end.None?
    ensures var times := UpdatedSpec(l, caller, clients, req).value.times;
            && req.times.begin.None?
            && (times.begin.Some? <==> req.times.end.Some?)
            && (req.times.end.Some? ==> Positive(req.times.duration))
            && (req.times.end.Some? ==> times.begin == Some(req.times.end.value - req.times.duration.value))
  {
  }

  /** A request that moves begin and end without a duration succeeds exactly when it is the owner's, its selector
      can be translated, the begin of an assigned lease is not moved, the lease can be handed over as asked, the
      end lies after the begin, and the window keeps the length of a stored duration: that is not replaced by
      the one the request has on its own. */
  lemma MovedWindowExactlyWhen(l: LeaseRecord, caller: string, clients: set<Key>, req: UpdateRequest)
    requires req.times.begin.Some? && req.times.end.Some? && req.times.duration.None?
    ensures var length := Sub(req.times.end.value, req.times.begin.value);
            UpdatedSpec(l, caller, clients, req).Ok?
            <==> && l.spec.clientRef == caller && Translatable(req.selector)
                 && (l.status.exporterRef.Some? ==> l.spec.times.begin == req.times.begin)
                 && TransferTo(l, clients, req.client).Ok?
                 && length > 0
                 && (Positive(l.spec.times.duration) ==> l.spec.times.duration.value == length)
  {
    TranslateSucceeds(req.selector);
  }

  // ---------------------------------------------------------------- patches

  function Patched<T(==)>(read: T, edited: T, now: T): T {
    if edited == read then now else edited
  }

  /** A merge patch: the fields the edit changed are written over the lease as it is by then, unchecked. */
  function MergePatch(read: LeaseSpec, edited: LeaseSpec, now: LeaseSpec): LeaseSpec {
    LeaseSpec(Patched(read.clientRef, edited.clientRef, now.clientRef),
              PatchedTimes(read.times, edited.times, now.times),
              Patched(read.selector, edited.selector, now.selector),
              Patched(read.release, edited.release, now.release))
  }

  /** The edit changes no time field, or all three. */
  predicate ChangesNoneOrAll(read: Times, edited: Times) {
    || read == edited
    || (read.begin != edited.begin && read.end != edited.end && read.duration != edited.duration)
  }

  function PatchedTimes(read: Times, edited: Times, now: Times): Times {
    Times(Patched(read.begin, edited.begin, now.begin), Patched(read.end, edited.end, now.end),
          Patched(read.duration, edited.duration, now.duration))
  }

  /** Agreeing time fields for which the patch of an edit that changes one or two of them does harm. */
  function Spoiled(read: Times, edited: Times): Times {
    if read.begin == edited.begin && read.end != edited.end then Times(None, None, Some(1))
    else
      var begin := if edited.begin.Some? then edited.begin.value else 0;
      if read.duration != edited.duration && read.begin != edited.begin then
        Times(Some(begin - 1), Some(begin), Some(1))
      else if read.duration != edited.duration then
        var length := if edited.duration == Some(1) then 2 else 1;
        Times(Some(0), Some(length), Some(length))
      else if read.end != edited.end then Times(None, None, if edited.duration == Some(1) then Some(2) else Some(1))
      else Times(Some(begin + 1), Some(begin + 2), Some(1))
  }

  /** The patch of an update leaves agreeing time fields whatever agreeing fields it meets if and only if the
      update changed none of them or all three. */
  lemma PatchSafeExactlyWhen(l: LeaseRecord, caller: string, clients: set<Key>, req: UpdateRequest)
    requires UpdatedSpec(l, caller, clients, req).Ok?
    ensures var edited := UpdatedSpec(l, caller, clients, req).value.times;
            (forall now :: Consistent(now) ==> Consistent(PatchedTimes(l.spec.times, edited, now)))
            <==> ChangesNoneOrAll(l.spec.times, edited)
  {
    var read, edited := l.spec.times, UpdatedSpec(l, caller, clients, req).value.times;
    UpdateConsistent(l, caller, clients, req);
    RpcEditKeeps(l, UpdatedSpec(l, caller, clients, req).value);
    if !ChangesNoneOrAll(read, edited) {
      SpoiledDoesHarm(read, edited);
    }
  }

  lemma SpoiledDoesHarm(read: Times, edited: Times)
    requires Consistent(edited) && !ChangesNoneOrAll(read, edited)
    requires (read.begin.Some? ==> edited.begin.Some?) && (read.end.Some? ==> edited.end.Some?)
    ensures Consistent(Spoiled(read, edited)) && !Consistent(PatchedTimes(read, edited, Spoiled(read, edited)))
  {
  }

  /** What a patch does to the time fields: they agree after a patch of an update that changed none or all of
      them, and after one that meets the fields it was made for. */
  lemma SafePatchConsistent(read: LeaseRecord, edited: LeaseSpec, now: LeaseSpec)
    requires RpcEdit(read, edited) && Consistent(now.times)
    requires ChangesNoneOrAll(read.spec.times, edited.times) || now.times == read.spec.times
    ensures Consistent(MergePatch(read.spec, edited, now).times)
    ensures now.times == read.spec.times ==> MergePatch(read.spec, edited, now).times == edited.times
  {
    RpcEditKeeps(read, edited);
  }

  /** Two edits of one specification, patched one after the other in either order, come to the same exactly
      when they agree on every field both change. */
  lemma PatchesCommuteExactlyWhen(read: LeaseSpec, a: LeaseSpec, b: LeaseSpec)
    ensures MergePatch(read, b, MergePatch(read, a, read)) == MergePatch(read, a, MergePatch(read, b, read))
       <==> && (a.clientRef == read.clientRef || b.clientRef == read.clientRef || a.clientRef == b.clientRef)
            && (a.times.begin == read.times.begin || b.times.begin == read.times.begin
                || a.times.begin == b.times.begin)
            && (a.times.end == read.times.end || b.times.end == read.times.end || a.times.end == b.times.end)
            && (a.times.duration == read.times.duration || b.times.duration == read.times.duration
                || a.times.duration == b.times.duration)
            && (a.selector == read.selector || b.selector == read.selector || a.selector == b.selector)
  {
  }

  /** Two updates that read the same lease, each leaving agreeing time fields, can leave fields that contradict
      each other: one sets all three, the other a duration. The second changes one field of three, which
      `PatchSafeExactlyWhen` does not allow. */
  lemma InterleavedUpdatesClash(l: LeaseRecord)
    requires l.spec.clientRef == "me" && l.spec.times == Times(None, None, Some(10)) && l.status.exporterRef.None?
    ensures var a := UpdatedSpec(l, "me", {}, UpdateRequest([], Times(Some(0), Some(20), Some(20)), None));
            var b := UpdatedSpec(l, "me", {}, UpdateRequest([], Times(None, None, Some(5)), None));
            && a.Ok? && b.Ok? && Consistent(a.value.times) && Consistent(b.value.times)
            && MergePatch(l.spec, b.value, MergePatch(l.spec, a.value, l.spec)).times
                == Times(Some(0), Some(20), Some(5))
  {
  }
}
