/** Tenant deployment records: port allocation and image-digest pinning over every sequence of
    claims, with any read of any record failing at any time. The filesystem is a map from tenant slug
    to `deployment.json`; sockets in use, failing reads, registry answers and other failures are inputs. */
module Deployments {
  import opened Wrappers

  /** The fields of a record that later decisions read. */
  datatype Record = Record(apiPort: Option<int>, desiredVersion: Option<string>,
                           apiDigest: Option<string>, workerDigest: Option<string>)

  /** A `deployment.json` as a read finds it: unreadable (an I/O or JSON error, which the code catches), foreign (bytes
      that are not UTF-8, or JSON that is no object, on which it raises), or a record. */
  datatype File = Unreadable | Foreign | Object(record: Record)

  type Files = map<string, File>

  datatype Range = Range(start: int, end: int)

  datatype PortResult = Port(port: int) | Conflict | Exhausted | Raised

  const NO_RECORD := Record(None, None, None, None)

  // ----- Port allocation -----

  predicate InRange(port: int, range: Range) {
    range.start <= port <= range.end
  }

  /** A readable record claims `port` for `slug`. */
  predicate Claims(files: Files, slug: string, port: int) {
    slug in files && files[slug].Object? && files[slug].record.apiPort == Some(port)
  }

  predicate Reserved(files: Files, port: int) {
    exists slug :: slug in files && Claims(files, slug, port)
  }

  /** The tenant's own readable port, if it lies in the configured range. */
  function OwnPort(files: Files, slug: string, range: Range): Option<int> {
    if slug in files && files[slug].Object? && files[slug].record.apiPort.Some?
       && InRange(files[slug].record.apiPort.value, range)
    then files[slug].record.apiPort
    else None
  }

  predicate NoneForeign(files: Files) {
    forall slug :: slug in files ==> !files[slug].Foreign?
  }

  predicate SharedByOther(files: Files, slug: string, port: int) {
    exists other :: other in files && other != slug && Claims(files, other, port)
  }

  /** What a pass over the directory sees when some of its reads fail. */
  function Seen(files: Files, unread: set<string>): (seen: Files)
    ensures seen.Keys == files.Keys
    ensures forall slug, p :: Claims(seen, slug, p) <==> Claims(files, slug, p) && slug !in unread
  {
    map slug | slug in files :: if slug in unread then Unreadable else files[slug]
  }

  /** The reads of one allocation that fail: the tenant's own record, and those in the pass over the directory. */
  datatype Faults = Faults(own: bool, unread: set<string>)

  /** The tenant's own port as the allocator reads it. */
  function OwnRead(files: Files, slug: string, range: Range, faults: Faults): Option<int> {
    if faults.own then None else OwnPort(files, slug, range)
  }

  /** The lowest port in range that no record read holds and no socket is bound to. */
  ghost predicate FirstFree(seen: Files, range: Range, inUse: set<int>, p: int) {
    && InRange(p, range) && !Reserved(seen, p) && p !in inUse
    && forall q :: range.start <= q < p ==> Reserved(seen, q) || q in inUse
  }

  ghost predicate AllTaken(seen: Files, range: Range, inUse: set<int>) {
    forall q :: InRange(q, range) ==> Reserved(seen, q) || q in inUse
  }

  /** Neither the tenant's own record, if it is read, nor any that the pass reads is foreign. */
  predicate Clean(files: Files, slug: string, faults: Faults) {
    NoneForeign(Seen(files, faults.unread)) && (faults.own || slug !in files || !files[slug].Foreign?)
  }

  /** What the allocator promises about a result, whatever order it reads the directory in. */
  ghost predicate Allocates(files: Files, slug: string, range: Range, inUse: set<int>, faults: Faults, r: PortResult) {
    var own, seen := OwnRead(files, slug, range, faults), Seen(files, faults.unread);
    match r
    case Port(p) =>
      if own.Some? then p == own.value && !SharedByOther(seen, slug, p) && NoneForeign(seen)
      else Clean(files, slug, faults) && FirstFree(seen, range, inUse, p)
    case Conflict => own.Some? && SharedByOther(seen, slug, own.value)
    case Exhausted => own.None? && Clean(files, slug, faults) && AllTaken(seen, range, inUse)
    case Raised => if own.Some? then !NoneForeign(seen) else !Clean(files, slug, faults)
  }

  /** `allocated_ports`; the flag reports a foreign record. */
  method AllocatedPorts(files: Files) returns (reserved: set<int>, raised: bool)
    ensures raised ==> !NoneForeign(files)
    ensures !raised ==> NoneForeign(files) && forall p :: p in reserved <==> Reserved(files, p)
  {
    reserved, raised := {}, false;
    var rest := files.Keys;
    while rest != {}
      invariant rest <= files.Keys
      invariant forall slug :: slug in files && slug !in rest ==> !files[slug].Foreign?
      invariant forall p :: p in reserved <==> exists slug :: slug in files && slug !in rest && Claims(files, slug, p)
      decreases |rest|
    {
      var slug :| slug in rest;
      ghost var before, seen := reserved, rest;
      if files[slug].Foreign? {
        raised := true;
        return;
      }
      if files[slug].Object? && files[slug].record.apiPort.Some? {
        reserved := reserved + {files[slug].record.apiPort.value};
      }
      rest := rest - {slug};
      forall p
        ensures p in reserved <==> exists slug :: slug in files && slug !in rest && Claims(files, slug, p)
      {
        if p in reserved && p !in before {
          assert Claims(files, slug, p);
        }
        if other :| other in files && other !in rest && Claims(files, other, p) {
          assert other == slug || other !in seen;
        }
      }
    }
  }

  /** The scan of other tenants' records when a tenant already has a port. */
  method CheckOthers(files: Files, slug: string, port: int) returns (r: PortResult)
    ensures r == Port(port) || r == Conflict || r == Raised
    ensures r.Port? ==>
              && !SharedByOther(files, slug, port)
              && forall other :: other in files && other != slug ==> !files[other].Foreign?
    ensures r.Conflict? ==> SharedByOther(files, slug, port)
    ensures r.Raised? ==> !NoneForeign(files)
  {
    var rest := files.Keys - {slug};
    while rest != {}
      invariant rest <= files.Keys - {slug}
      invariant forall other :: other in files && other != slug && other !in rest ==>
                  !files[other].Foreign? && !Claims(files, other, port)
      decreases |rest|
    {
      var other :| other in rest;
      if files[other].Foreign? {
        return Raised;
      }
      if files[other].Object? && files[other].record.apiPort == Some(port) {
        assert Claims(files, other, port);
        return Conflict;
      }
      rest := rest - {other};
    }
    return Port(port);
  }

  method ChoosePort(files: Files, slug: string, range: Range, inUse: set<int>, faults: Faults) returns (r: PortResult)
    ensures Allocates(files, slug, range, inUse, faults, r)
  {
    var seen := Seen(files, faults.unread);
    if slug in files && !faults.own {
      if files[slug].Foreign? {
        return Raised;
      }
      if files[slug].Object? && files[slug].record.apiPort.Some? {
        var value := files[slug].record.apiPort.value;
        if InRange(value, range) {
          r := CheckOthers(seen, slug, value);
          return;
        }
      }
    }
    var reserved, raised := AllocatedPorts(seen);
    if raised {
      return Raised;
    }
    var port := range.start;
    while port <= range.end
      invariant range.start <= port
      invariant forall q :: range.start <= q < port ==> Reserved(seen, q) || q in inUse
    {
      if port !in reserved && port !in inUse {
        return Port(port);
      }
      port := port + 1;
    }
    return Exhausted;
  }

  /** What the state must hold for a claim to be given a port. */
  ghost predicate PortAvailable(files: Files, slug: string, range: Range, inUse: set<int>, faults: Faults) {
    var own, seen := OwnRead(files, slug, range, faults), Seen(files, faults.unread);
    if own.Some? then NoneForeign(seen) && !SharedByOther(seen, slug, own.value)
    else Clean(files, slug, faults) && !AllTaken(seen, range, inUse)
  }

  lemma PortGivenExactly(files: Files, slug: string, range: Range, inUse: set<int>, faults: Faults, r: PortResult)
    requires Allocates(files, slug, range, inUse, faults, r)
    ensures r.Port? <==> PortAvailable(files, slug, range, inUse, faults)
  {
    hide Seen, Reserved, SharedByOther, Clean, NoneForeign;
  }

  /** Whatever port is given lies in the configured range and is held by no other record read. It is the tenant's own
      recorded port, or else no socket is bound to it and every lower port of the range is taken. */
  lemma GivenPort(files: Files, slug: string, range: Range, inUse: set<int>, faults: Faults, p: int)
    requires Allocates(files, slug, range, inUse, faults, Port(p))
    ensures range.start <= p <= range.end
    ensures forall other :: other != slug && Claims(files, other, p) ==> other in faults.unread
    ensures || (!faults.own && Claims(files, slug, p))
            || (&& p !in inUse && (Claims(files, slug, p) ==> slug in faults.unread)
                && forall q :: range.start <= q < p ==>
                     q in inUse || exists holder :: holder !in faults.unread && Claims(files, holder, q))
  {
    var seen := Seen(files, faults.unread);
    forall other | Claims(seen, other, p)
      ensures Reserved(seen, p) && (other != slug ==> SharedByOther(seen, slug, p))
    {
    }
    if OwnRead(files, slug, range, faults).None? {
      forall q | range.start <= q < p && q !in inUse
        ensures exists holder :: holder !in faults.unread && Claims(files, holder, q)
      {
        var holder :| holder in seen && Claims(seen, holder, q);
      }
    }
  }

  /** The state and the reads that fail determine the result; only a tenant with its own port and a foreign record
      beside it can see either error, by the order of the directory. */
  lemma AllocationIsDetermined(files: Files, slug: string, range: Range, inUse: set<int>, faults: Faults,
                               r: PortResult, r': PortResult)
    requires OwnRead(files, slug, range, faults).None? || NoneForeign(Seen(files, faults.unread))
    requires Allocates(files, slug, range, inUse, faults, r) && Allocates(files, slug, range, inUse, faults, r')
    ensures r == r'
  {
    hide Seen, Reserved, SharedByOther, Clean, NoneForeign;
  }

  // ----- Claims -----

  datatype Compose = Compose(version: string, api: string, worker: string)

  datatype State = State(files: Files, composes: map<string, Compose>)

  /** Everything outside the agent's control during one claim: which sockets are bound, which reads of the allocation
      fail, whether writing the secrets fails, whether the record can be read before it is stamped and reads back
      after, what each tag resolves to, and whether the process dies before rendering compose. */
  datatype Oracle = Oracle(inUse: set<int>, faults: Faults, secretsFail: bool, recordFails: bool, readsBack: bool,
                           api: Option<string>, worker: Option<string>,
                           leaseLostEarly: bool, leaseLostLate: bool, dies: bool)

  datatype Outcome =
    | PortFailed(r: PortResult) | SecretsFailed | RecordRaised
    | ImageFailed | DigestChanged | LeaseLost | Died | Rendered

  /** Reading the record to stamp it raises. */
  predicate Raises(files: Files, slug: string, fails: bool) {
    slug in files && files[slug].Foreign? && !fails
  }

  /** `prepare_files`: the record keeps its other fields, or starts empty when it cannot be read. */
  function Prepared(files: Files, slug: string, port: int, desired: string, fails: bool): Record {
    var before := if slug in files && files[slug].Object? && !fails then files[slug].record else NO_RECORD;
    before.(apiPort := Some(port), desiredVersion := Some(desired))
  }

  /** `verify_release_digest_stability`. */
  predicate Stable(record: Record, desired: string, previous: Option<string>, resolved: string) {
    record.desiredVersion != Some(desired) || previous.None? || previous.value == "" || previous.value == resolved
  }

  /** Why the pinning loop stops, if it does: roles in order, each resolved, compared, lease-checked. */
  function PinFailure(read: Record, desired: string, o: Oracle): Option<Outcome> {
    if o.api.None? then Some(ImageFailed)
    else if !Stable(read, desired, read.apiDigest, o.api.value) then Some(DigestChanged)
    else if o.leaseLostEarly then Some(LeaseLost)
    else if o.worker.None? then Some(ImageFailed)
    else if !Stable(read, desired, read.workerDigest, o.worker.value) then Some(DigestChanged)
    else if o.leaseLostLate then Some(LeaseLost)
    else None
  }

  class Root {
    var files: Files
    var composes: map<string, Compose>

    function View(): State
      reads this
    {
      State(files, composes)
    }

    constructor ()
      ensures View() == State(map[], map[])
    {
      files, composes := map[], map[];
    }

    /** `process_claim` up to the rendered `compose.yaml`, in the source's order: the record is
        stamped with the desired version before it is read back and compared. */
    method ProcessClaim(slug: string, desired: string, range: Range, o: Oracle) returns (outcome: Outcome)
      modifies this
      ensures Claimed(old(View()), slug, desired, range, o, View(), outcome)
    {
      var chosen := ChoosePort(files, slug, range, o.inUse, o.faults);
      if !chosen.Port? {
        return PortFailed(chosen);
      }
      if o.secretsFail {
        return SecretsFailed;
      }
      if Raises(files, slug, o.recordFails) {
        return RecordRaised;
      }
      var prepared := Prepared(files, slug, chosen.port, desired, o.recordFails);
      files := files[slug := Object(prepared)];

      var deployment := if o.readsBack then prepared else NO_RECORD;
      if o.api.None? {
        return ImageFailed;
      }
      if !Stable(deployment, desired, deployment.apiDigest, o.api.value) {
        return DigestChanged;
      }
      deployment := deployment.(apiDigest := o.api);
      if o.leaseLostEarly {
        return LeaseLost;
      }
      if o.worker.None? {
        return ImageFailed;
      }
      if !Stable(deployment, desired, deployment.workerDigest, o.worker.value) {
        return DigestChanged;
      }
      deployment := deployment.(workerDigest := o.worker);
      if o.leaseLostLate {
        return LeaseLost;
      }
      files := files[slug := Object(deployment)];
      if o.dies {
        return Died;
      }
      composes := composes[slug := Compose(desired, o.api.value, o.worker.value)];
      return Rendered;
    }
  }

  /** The relation one claim establishes between the state before and after. */
  ghost predicate Claimed(s: State, slug: string, desired: string, range: Range, o: Oracle, s': State,
                          outcome: Outcome) {
    exists r: PortResult ::
      Allocates(s.files, slug, range, o.inUse, o.faults, r) && ClaimedWith(s, slug, desired, o, s', outcome, r)
  }

  ghost predicate ClaimedWith(s: State, slug: string, desired: string, o: Oracle, s': State, outcome: Outcome,
                              r: PortResult) {
    if !r.Port? then s' == s && outcome == PortFailed(r)
    else if o.secretsFail then s' == s && outcome == SecretsFailed
    else if Raises(s.files, slug, o.recordFails) then s' == s && outcome == RecordRaised
    else
      var prepared := Prepared(s.files, slug, r.port, desired, o.recordFails);
      var read := if o.readsBack then prepared else NO_RECORD;
      var failure := PinFailure(read, desired, o);
      if failure.Some? then
        && s' == s.(files := s.files[slug := Object(prepared)])
        && outcome == failure.value
      else
        && s'.files == s.files[slug := Object(read.(apiDigest := o.api, workerDigest := o.worker))]
        && s'.composes == (if o.dies then s.composes
                           else s.composes[slug := Compose(desired, o.api.value, o.worker.value)])
        && outcome == (if o.dies then Died else Rendered)
  }

  // ----- Every run -----

  datatype Event =
    | Claim(slug: string, desired: string, range: Range, o: Oracle)
    | Corrupt(slug: string, foreign: bool)

  ghost predicate Next(s: State, e: Event, s': State) {
    match e
    case Claim(slug, desired, range, o) => exists outcome: Outcome :: Claimed(s, slug, desired, range, o, s', outcome)
    case Corrupt(slug, foreign) =>
      s' == if slug in s.files then s.(files := s.files[slug := if foreign then Foreign else Unreadable]) else s
  }

  /** A run starts from an empty root and interleaves claims, under any configuration and with any reads failing, with
      records being damaged for good. */
  ghost predicate IsRun(states: seq<State>, events: seq<Event>) {
    && |states| == |events| + 1
    && states[0] == State(map[], map[])
    && forall k :: 0 <= k < |events| ==> Next(states[k], events[k], states[k + 1])
  }

  ghost predicate UniquePorts(files: Files) {
    forall a, b, p :: a != b && Claims(files, a, p) ==> !Claims(files, b, p)
  }

  /** The claim will write a port into the tenant's record that is not the tenant's own: the allocator is reached by no
      own port and no foreign record, nothing stops before the record is stamped, and the stamp is not overwritten by a
      record without a port. */
  predicate WritesNewPort(s: State, slug: string, desired: string, range: Range, o: Oracle) {
    && OwnRead(s.files, slug, range, o.faults).None? && Clean(s.files, slug, o.faults)
    && !o.secretsFail && !Raises(s.files, slug, o.recordFails)
    && (o.readsBack || PinFailure(NO_RECORD, desired, o).Some?)
  }

  /** Seen before the claim: it will take a port that it sees free and that a record it cannot read holds. */
  ghost predicate GivesAway(s: State, e: Event) {
    && e.Claim? && WritesNewPort(s, e.slug, e.desired, e.range, e.o)
    && exists other, p ::
         && other in e.o.faults.unread && other != e.slug && Claims(s.files, other, p)
         && FirstFree(Seen(s.files, e.o.faults.unread), e.range, e.o.inUse, p)
  }

  lemma OthersKeepPorts(s: State, slug: string, desired: string, o: Oracle, s': State, outcome: Outcome, r: PortResult)
    requires ClaimedWith(s, slug, desired, o, s', outcome, r)
    ensures forall other, p :: other != slug ==> (Claims(s'.files, other, p) <==> Claims(s.files, other, p))
  {
    hide PinFailure;
  }

  /** The port in the tenant's record afterwards is its old one, or the one it was given. */
  lemma WrittenPort(s: State, slug: string, desired: string, range: Range, o: Oracle, s': State, outcome: Outcome,
                    r: PortResult, p: int)
    requires Allocates(s.files, slug, range, o.inUse, o.faults, r) && ClaimedWith(s, slug, desired, o, s', outcome, r)
    ensures Claims(s'.files, slug, p) ==>
              Claims(s.files, slug, p) || (r == Port(p) && WritesNewPort(s, slug, desired, range, o))
    ensures r == Port(p) && WritesNewPort(s, slug, desired, range, o) ==> Claims(s'.files, slug, p)
  {
    hide Reserved, SharedByOther, Clean, Stable, Seen;
    var own := OwnPort(s.files, slug, range);
    assert own.Some? ==> Claims(s.files, slug, own.value);
    assert PinFailure(NO_RECORD, desired, o).None? ==> o.api.Some? && o.worker.Some?;
  }

  /** A claim that is given a port keeps ports unique, if and only if the condition above does not hold before it. */
  lemma ClaimKeepsPortsExactly(s: State, slug: string, desired: string, o: Oracle, s': State, outcome: Outcome,
                               r: PortResult, range: Range)
    requires UniquePorts(s.files) && Allocates(s.files, slug, range, o.inUse, o.faults, r)
    requires ClaimedWith(s, slug, desired, o, s', outcome, r)
    ensures UniquePorts(s'.files) <==> !GivesAway(s, Claim(slug, desired, range, o))
    ensures r != Conflict
  {
    hide PinFailure, WritesNewPort, Clean, ClaimedWith;
    OthersKeepPorts(s, slug, desired, o, s', outcome, r);
    var own, seen := OwnRead(s.files, slug, range, o.faults), Seen(s.files, o.faults.unread);
    assert own.Some? ==> Claims(s.files, slug, own.value);
    if GivesAway(s, Claim(slug, desired, range, o)) {
      var other, p :| other in o.faults.unread && other != slug && Claims(s.files, other, p)
                      && FirstFree(seen, range, o.inUse, p);
      GivenFirstFree(s, slug, desired, range, o, r, p);
      WrittenPort(s, slug, desired, range, o, s', outcome, r, p);
      assert Claims(s'.files, other, p);
    }
    if !UniquePorts(s'.files) {
      var a, b, p :| a != b && Claims(s'.files, a, p) && Claims(s'.files, b, p);
      var other := if a == slug then b else a;
      WrittenPort(s, slug, desired, range, o, s', outcome, r, p);
      TakenUnread(s, slug, desired, range, o, r, p, other);
    }
  }

  lemma GivenFirstFree(s: State, slug: string, desired: string, range: Range, o: Oracle, r: PortResult, p: int)
    requires Allocates(s.files, slug, range, o.inUse, o.faults, r) && WritesNewPort(s, slug, desired, range, o)
    requires FirstFree(Seen(s.files, o.faults.unread), range, o.inUse, p)
    ensures r == Port(p)
  {
    hide PinFailure, Reserved, Seen, NoneForeign;
  }

  lemma TakenUnread(s: State, slug: string, desired: string, range: Range, o: Oracle, r: PortResult, p: int,
                    other: string)
    requires Allocates(s.files, slug, range, o.inUse, o.faults, r) && WritesNewPort(s, slug, desired, range, o)
    requires r == Port(p) && other != slug && Claims(s.files, other, p)
    ensures GivesAway(s, Claim(slug, desired, range, o))
  {
    hide PinFailure, Clean;
    var seen := Seen(s.files, o.faults.unread);
    assert other !in o.faults.unread ==> Claims(seen, other, p);
  }

  lemma StepKeepsPortsExactly(s: State, e: Event, s': State)
    requires UniquePorts(s.files) && Next(s, e, s')
    ensures UniquePorts(s'.files) <==> !GivesAway(s, e)
  {
    if e.Claim? {
      hide GivesAway, UniquePorts, Allocates, ClaimedWith;
      var outcome :| Claimed(s, e.slug, e.desired, e.range, e.o, s', outcome);
      var r :| Allocates(s.files, e.slug, e.range, e.o.inUse, e.o.faults, r)
               && ClaimedWith(s, e.slug, e.desired, e.o, s', outcome, r);
      ClaimKeepsPortsExactly(s, e.slug, e.desired, e.o, s', outcome, r, e.range);
    } else if e.slug in s.files {
      forall a, p | Claims(s'.files, a, p)
        ensures Claims(s.files, a, p)
      {
      }
    }
  }

  /** In every state of a run no two records share a port, if and only if no claim of the run is about to take a port
      held by a record that it cannot read. */
  lemma {:induction false} PortsNeverShared(states: seq<State>, events: seq<Event>, n: nat)
    requires IsRun(states, events) && n < |states|
    ensures (forall m :: 0 <= m <= n ==> UniquePorts(states[m].files))
            <==> forall k :: 0 <= k < n ==> !GivesAway(states[k], events[k])
  {
    hide UniquePorts, GivesAway, Next;
    if n == 0 {
      NothingIsShared();
    } else {
      PortsNeverShared(states, events, n - 1);
      assert Next(states[n - 1], events[n - 1], states[n]);
      if UniquePorts(states[n - 1].files) {
        StepKeepsPortsExactly(states[n - 1], events[n - 1], states[n]);
      }
    }
  }

  lemma NothingIsShared()
    ensures UniquePorts(map[])
  {
  }

  /** It is enough that every tenant whose record cannot be read has its stack up on its port. */
  lemma RunningStacksKeepPorts(s: State, e: Event, s': State)
    requires UniquePorts(s.files) && Next(s, e, s') && e.Claim?
    requires forall other, p :: other in e.o.faults.unread && other != e.slug && Claims(s.files, other, p) ==>
               p in e.o.inUse
    ensures UniquePorts(s'.files) && !GivesAway(s, e)
  {
    hide Next, UniquePorts, WritesNewPort, Seen;
    StepKeepsPortsExactly(s, e, s');
  }

  /** Along every run a tenant whose own record is read and in range is given its port back, unless another record is
      seen to hold it or a foreign one is read. Without a port given away the conflict error is never raised. A tenant
      without a port is told that the pool is exhausted exactly when every port is seen taken. */
  lemma PortsAreKept(states: seq<State>, events: seq<Event>, n: nat, slug: string, range: Range, inUse: set<int>,
                     faults: Faults, r: PortResult)
    requires IsRun(states, events) && n < |states| && Allocates(states[n].files, slug, range, inUse, faults, r)
    ensures var files := states[n].files;
            var own, seen := OwnRead(files, slug, range, faults), Seen(files, faults.unread);
            && (own.Some? ==> || r == Port(own.value) || (r == Conflict && SharedByOther(files, slug, own.value))
                              || (r == Raised && !NoneForeign(seen)))
            && ((forall k :: 0 <= k < n ==> !GivesAway(states[k], events[k])) ==> r != Conflict)
            && (r.Exhausted? <==> own.None? && Clean(files, slug, faults) && AllTaken(seen, range, inUse))
  {
    hide GivesAway, IsRun, AllTaken, FirstFree, NoneForeign, Clean;
    var files := states[n].files;
    FreeIsNotTaken(Seen(files, faults.unread), range, inUse, r);
    PortsNeverShared(states, events, n);
    if r.Conflict? {
      var own := OwnRead(files, slug, range, faults).value;
      var other :| other in files && other != slug && Claims(Seen(files, faults.unread), other, own);
      assert Claims(files, other, own) && Claims(files, slug, own);
      assert !UniquePorts(files);
    }
  }

  lemma FreeIsNotTaken(seen: Files, range: Range, inUse: set<int>, r: PortResult)
    ensures r.Port? && FirstFree(seen, range, inUse, r.port) ==> !AllTaken(seen, range, inUse)
  {
  }

  const NO_FAULTS := Faults(false, {})

  function ExampleOracle(faults: Faults): Oracle {
    Oracle({}, faults, false, false, true, None, None, false, false, false)
  }

  /** A run in which ports do not stay unique: tenant `b` is deployed while the record of `a` cannot be read and its
      stack is down, so `b` is given the port of `a`. Once both records can be read, deploying `a` stops with a
      conflict. */
  lemma SharedPortRun() returns (states: seq<State>, events: seq<Event>)
    ensures IsRun(states, events) && |events| == 2 && !UniquePorts(states[2].files)
    ensures GivesAway(states[1], events[1])
    ensures Allocates(states[2].files, "a", Range(7000, 7001), {}, NO_FAULTS, Conflict)
  {
    var range := Range(7000, 7001);
    var record := Record(Some(7000), Some("v"), None, None);
    var first, second := ExampleOracle(NO_FAULTS), ExampleOracle(Faults(false, {"a"}));
    var s0 := State(map[], map[]);
    var s1 := State(map["a" := Object(record)], map[]);
    var s2 := State(map["a" := Object(record), "b" := Object(record)], map[]);
    states, events := [s0, s1, s2], [Claim("a", "v", range, first), Claim("b", "v", range, second)];
    assert "a" != "b" by {
      assert "a"[0] != "b"[0];
    }
    ExampleClaim(s0, "a", range, first, s1);
    assert s1.files["b" := Object(record)] == s2.files;
    ExampleClaim(s1, "b", range, second, s2);
    assert forall k :: 0 <= k < 2 ==> Next(states[k], events[k], states[k + 1]);
    assert Claims(s2.files, "a", 7000) && Claims(s2.files, "b", 7000);
    assert Claims(s1.files, "a", 7000);
    assert Claims(Seen(s2.files, {}), "b", 7000);
    StepKeepsPortsExactly(s1, events[1], s2);
  }

  lemma ExampleClaim(s: State, slug: string, range: Range, o: Oracle, s': State)
    requires range == Range(7000, 7001) && o == ExampleOracle(o.faults) && slug !in s.files
    requires NoneForeign(s.files) && forall other, p :: other !in o.faults.unread ==> !Claims(s.files, other, p)
    requires s' == s.(files := s.files[slug := Object(Record(Some(7000), Some("v"), None, None))])
    ensures Next(s, Claim(slug, "v", range, o), s')
  {
    var r := Port(7000);
    assert Allocates(s.files, slug, range, o.inUse, o.faults, r);
    assert ClaimedWith(s, slug, "v", o, s', ImageFailed, r);
    assert Claimed(s, slug, "v", range, o, s', ImageFailed);
  }

  // ----- Digests -----

  /** The event leaves the tenant's record readable (resolved references are never empty). */
  predicate Readable(e: Event, slug: string) {
    e.slug == slug ==> e.Claim? && !e.o.recordFails && e.o.readsBack && e.o.api != Some("") && e.o.worker != Some("")
  }

  ghost predicate Pinned(files: Files, slug: string, digests: (Option<string>, Option<string>)) {
    && slug in files && files[slug].Object?
    && (digests.0.Some? ==> files[slug].record.apiDigest == digests.0)
    && (digests.1.Some? ==> files[slug].record.workerDigest == digests.1)
  }

  /** Compose never runs anything but the recorded digests. */
  ghost predicate ComposeMatches(s: State, slug: string) {
    slug in s.composes ==>
      && s.composes[slug].api != "" && s.composes[slug].worker != ""
      && Pinned(s.files, slug, (Some(s.composes[slug].api), Some(s.composes[slug].worker)))
  }

  lemma StepKeepsDigests(s: State, e: Event, s': State, slug: string, digests: (Option<string>, Option<string>))
    requires Next(s, e, s') && Readable(e, slug) && Pinned(s.files, slug, digests)
    requires digests.0 != Some("") && digests.1 != Some("")
    ensures Pinned(s'.files, slug, digests)
  {
    hide Allocates;
    if e.Claim? {
      var outcome :| Claimed(s, e.slug, e.desired, e.range, e.o, s', outcome);
      var r :| Allocates(s.files, e.slug, e.range, e.o.inUse, e.o.faults, r)
               && ClaimedWith(s, e.slug, e.desired, e.o, s', outcome, r);
    }
  }

  /** Across any stretch of a run in which the tenant's record stays readable, a recorded digest
      never changes, whatever versions are claimed. */
  lemma {:induction false} DigestsNeverChange(states: seq<State>, events: seq<Event>, m: nat, n: nat, slug: string,
                                              digests: (Option<string>, Option<string>))
    requires IsRun(states, events) && m <= n < |states|
    requires forall k :: m <= k < n ==> Readable(events[k], slug)
    requires Pinned(states[m].files, slug, digests) && digests.0 != Some("") && digests.1 != Some("")
    ensures Pinned(states[n].files, slug, digests)
    decreases n
  {
    hide Next;
    if m < n {
      DigestsNeverChange(states, events, m, n - 1, slug, digests);
      assert Next(states[n - 1], events[n - 1], states[n]);
      StepKeepsDigests(states[n - 1], events[n - 1], states[n], slug, digests);
    }
  }

  lemma StepKeepsCompose(s: State, e: Event, s': State, slug: string)
    requires Next(s, e, s') && Readable(e, slug) && ComposeMatches(s, slug)
    ensures ComposeMatches(s', slug)
  {
    hide Allocates;
    if e.Claim? {
      var outcome :| Claimed(s, e.slug, e.desired, e.range, e.o, s', outcome);
      var r :| Allocates(s.files, e.slug, e.range, e.o.inUse, e.o.faults, r)
               && ClaimedWith(s, e.slug, e.desired, e.o, s', outcome, r);
    }
  }

  /** Every compose file ever rendered for the tenant therefore carries the same two digests. */
  lemma {:induction false} ComposeIsPinned(states: seq<State>, events: seq<Event>, n: nat, slug: string)
    requires IsRun(states, events) && n < |states|
    requires forall k :: 0 <= k < n ==> Readable(events[k], slug)
    ensures ComposeMatches(states[n], slug)
  {
    hide Next;
    if n > 0 {
      ComposeIsPinned(states, events, n - 1, slug);
      assert Next(states[n - 1], events[n - 1], states[n]);
      StepKeepsCompose(states[n - 1], events[n - 1], states[n], slug);
    }
  }

  lemma OneDigestPerTenant(states: seq<State>, events: seq<Event>, m: nat, n: nat, slug: string)
    requires IsRun(states, events) && m <= n < |states|
    requires forall k :: 0 <= k < n ==> Readable(events[k], slug)
    requires slug in states[m].composes && slug in states[n].composes
    ensures states[m].composes[slug].api == states[n].composes[slug].api
    ensures states[m].composes[slug].worker == states[n].composes[slug].worker
  {
    ComposeIsPinned(states, events, m, slug);
    ComposeIsPinned(states, events, n, slug);
    var c := states[m].composes[slug];
    DigestsNeverChange(states, events, m, n, slug, (Some(c.api), Some(c.worker)));
  }

  /** The role's image resolves, and to another digest than the recorded one. */
  predicate Changed(recorded: Option<string>, resolved: Option<string>) {
    recorded.Some? && recorded.value != "" && resolved.Some? && resolved != recorded
  }

  /** The guard is not limited to retries of one release: because the record is stamped before it is
      compared, claiming any version with another digest for either role always stops. The api role comes first; a
      changed worker digest alone is reached unless the api image does not resolve or the lease is lost between the
      roles. Whatever stops it, nothing is rendered, and the record names the new version with the old digests. */
  lemma NewVersionNewDigestStops(s: State, slug: string, desired: string, range: Range, o: Oracle, s': State,
                                 outcome: Outcome)
    requires Claimed(s, slug, desired, range, o, s', outcome)
    requires slug in s.files && s.files[slug].Object? && !o.recordFails && o.readsBack
    requires Changed(s.files[slug].record.apiDigest, o.api) || Changed(s.files[slug].record.workerDigest, o.worker)
    ensures s'.composes == s.composes
    ensures var record := s.files[slug].record;
            || ((outcome.PortFailed? || outcome == SecretsFailed) && s' == s)
            || (&& outcome == (if Changed(record.apiDigest, o.api) then DigestChanged
                               else if o.api.None? then ImageFailed
                               else if o.leaseLostEarly then LeaseLost
                               else DigestChanged)
                && slug in s'.files && s'.files[slug].Object?
                && s'.files[slug].record.desiredVersion == Some(desired)
                && s'.files[slug].record.apiDigest == record.apiDigest
                && s'.files[slug].record.workerDigest == record.workerDigest)
  {
    hide Allocates;
    var r :| Allocates(s.files, slug, range, o.inUse, o.faults, r) && ClaimedWith(s, slug, desired, o, s', outcome, r);
  }

  /** When a claim stops at the digest guard, whatever the tenant's record: exactly when the record it stamps and reads
      back names another digest for a role whose image resolves, the worker's only after the api role has passed. */
  lemma DigestGuardExactly(s: State, slug: string, desired: string, range: Range, o: Oracle, s': State,
                           outcome: Outcome)
    requires Claimed(s, slug, desired, range, o, s', outcome)
    ensures outcome == DigestChanged <==>
            && PortAvailable(s.files, slug, range, o.inUse, o.faults) && !o.secretsFail
            && slug in s.files && s.files[slug].Object? && !o.recordFails && o.readsBack
            && (|| Changed(s.files[slug].record.apiDigest, o.api)
                || (o.api.Some? && !o.leaseLostEarly && Changed(s.files[slug].record.workerDigest, o.worker)))
  {
    hide Allocates, PortAvailable;
    var r :| Allocates(s.files, slug, range, o.inUse, o.faults, r) && ClaimedWith(s, slug, desired, o, s', outcome, r);
    PortGivenExactly(s.files, slug, range, o.inUse, o.faults, r);
  }

  // ----- Every outcome -----

  /** The tenant's record as it is found, if it can be read. */
  function Found(s: State, slug: string, o: Oracle): Record {
    if slug in s.files && s.files[slug].Object? && !o.recordFails then s.files[slug].record else NO_RECORD
  }

  /** A role's image resolves to another digest than the one recorded, as far as the stamped record is read back. */
  predicate Differs(recorded: Option<string>, resolved: Option<string>, o: Oracle) {
    o.readsBack && Changed(recorded, resolved)
  }

  /** Nothing stops the claim before its record is stamped. */
  ghost predicate Stamps(s: State, slug: string, range: Range, o: Oracle) {
    && PortAvailable(s.files, slug, range, o.inUse, o.faults) && !o.secretsFail
    && !(slug in s.files && s.files[slug].Foreign? && !o.recordFails)
  }

  /** Both images resolve, no digest recorded differs, and the lease is held after each role. */
  predicate Pins(s: State, slug: string, o: Oracle) {
    && o.api.Some? && !Differs(Found(s, slug, o).apiDigest, o.api, o) && !o.leaseLostEarly
    && o.worker.Some? && !Differs(Found(s, slug, o).workerDigest, o.worker, o) && !o.leaseLostLate
  }

  /** How a claim ends, from the state before it and what happens around it: when each outcome is given, when a compose
      file is rendered and with what, and when digests are recorded and which. */
  lemma ClaimExactly(s: State, slug: string, desired: string, range: Range, o: Oracle, s': State, outcome: Outcome)
    requires Claimed(s, slug, desired, range, o, s', outcome)
    ensures var record, stamps := Found(s, slug, o), Stamps(s, slug, range, o);
            var apiHeld := o.api.Some? && !Differs(record.apiDigest, o.api, o) && !o.leaseLostEarly;
            && (outcome.PortFailed? <==> !PortAvailable(s.files, slug, range, o.inUse, o.faults))
            && (outcome.PortFailed? ==> Allocates(s.files, slug, range, o.inUse, o.faults, outcome.r))
            && (outcome == SecretsFailed <==>
                PortAvailable(s.files, slug, range, o.inUse, o.faults) && o.secretsFail)
            && (stamps <==> !outcome.PortFailed? && outcome != SecretsFailed && outcome != RecordRaised)
            && (outcome == ImageFailed <==> stamps && (o.api.None? || (apiHeld && o.worker.None?)))
            && (outcome == DigestChanged <==>
                stamps
                && (Differs(record.apiDigest, o.api, o) || (apiHeld && Differs(record.workerDigest, o.worker, o))))
            && (outcome == LeaseLost <==>
                && stamps && o.api.Some? && !Differs(record.apiDigest, o.api, o)
                && (|| o.leaseLostEarly
                    || (o.worker.Some? && !Differs(record.workerDigest, o.worker, o) && o.leaseLostLate)))
            && (outcome == Died <==> stamps && Pins(s, slug, o) && o.dies)
            && (outcome == Rendered <==> stamps && Pins(s, slug, o) && !o.dies)
  {
    hide Allocates, PortAvailable;
    var r :| Allocates(s.files, slug, range, o.inUse, o.faults, r) && ClaimedWith(s, slug, desired, o, s', outcome, r);
    PortGivenExactly(s.files, slug, range, o.inUse, o.faults, r);
  }

  /** What a claim changes: nothing before it stamps the record; then the version and the port, keeping the digests; and
      once both roles are pinned the digests, and with the process alive the compose file. */
  lemma ClaimChangesExactly(s: State, slug: string, desired: string, range: Range, o: Oracle, s': State,
                            outcome: Outcome)
    requires Claimed(s, slug, desired, range, o, s', outcome)
    ensures !Stamps(s, slug, range, o) ==> s' == s
    ensures Stamps(s, slug, range, o) ==>
              && slug in s'.files && s'.files[slug].Object? && s'.files == s.files[slug := s'.files[slug]]
              && var before, after := Found(s, slug, o), s'.files[slug].record;
                 if Pins(s, slug, o) then
                   && after.apiDigest == o.api && after.workerDigest == o.worker
                   && (if o.readsBack then after.desiredVersion == Some(desired) && after.apiPort.Some?
                       else after.desiredVersion.None? && after.apiPort.None?)
                 else
                   && after.apiDigest == before.apiDigest && after.workerDigest == before.workerDigest
                   && after.desiredVersion == Some(desired) && after.apiPort.Some?
    ensures s'.composes == if Stamps(s, slug, range, o) && Pins(s, slug, o) && !o.dies
                           then s.composes[slug := Compose(desired, o.api.value, o.worker.value)] else s.composes
    ensures forall p :: Stamps(s, slug, range, o) && s'.files[slug].record.apiPort == Some(p) ==>
              Allocates(s.files, slug, range, o.inUse, o.faults, Port(p))
  {
    hide Allocates, PortAvailable;
    var r :| Allocates(s.files, slug, range, o.inUse, o.faults, r) && ClaimedWith(s, slug, desired, o, s', outcome, r);
    PortGivenExactly(s.files, slug, range, o.inUse, o.faults, r);
  }
}
