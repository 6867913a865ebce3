/** Release receipts: `pending.json`, `current.json`, `previous.json` and the receipt files of a
    state directory, driven by commands that may die between any two durable writes. */
module Receipts {
  import opened Wrappers

  /** `copy2` is not atomic, so `previous.json` may be left half written. */
  datatype Copy = Missing | Torn | Whole(receipt: Receipt)

  datatype Entry = Entry(timestamp: string, status: string, detail: string)

  datatype Receipt = Receipt(
    service: string, releaseId: string, provenance: map<string, string>,
    phases: map<string, Entry>, rollbackResult: Option<Entry>, finalizedAt: Option<string>)

  datatype Files = Files(
    pending: Option<Receipt>, current: Option<Receipt>, previous: Copy, receipts: map<string, Receipt>)

  /** A command line, with the clock readings it takes. */
  datatype Command =
    | Pending(receipt: Receipt)
    | Phase(phase: string, entry: Entry)
    | Finalize(status: string, stampedAt: string, finalizedAt: string)
    | Rollback(releaseId: string, service: string, reason: string,
               phaseAt: string, resultAt: string, rolledBackAt: string)

  const EMPTY := Files(None, None, Missing, map[])

  /** The receipt `finalize` writes, from the pending one. */
  function Stamped(pending: Receipt, c: Command): Receipt
    requires c.Finalize?
  {
    pending.(phases := pending.phases["finalized" := Entry(c.stampedAt, c.status, "")],
             finalizedAt := Some(c.finalizedAt))
  }

  /** The failure receipt `rollback` writes; without a pending release, a minimal one. */
  function RolledBack(pending: Option<Receipt>, c: Command): Receipt
    requires c.Rollback?
  {
    var base := match pending
      case Some(p) => p
      case None => Receipt(if c.service == "" then "unknown" else c.service, c.releaseId, map[], map[], None, None);
    base.(phases := base.phases["rollback" := Entry(c.phaseAt, "rolled-back", c.reason)],
          rollbackResult := Some(Entry(c.resultAt, "rolled-back", c.reason)),
          finalizedAt := Some(c.rolledBackAt))
  }

  /** The directory after zero, one, two, ... durable steps of a command: where a crash can leave it. */
  function Points(f: Files, c: Command): (points: seq<Files>)
    ensures |points| > 0 && points[0] == f
  {
    match c
    case Pending(receipt) => [f, f.(pending := Some(receipt))]
    case Phase(phase, entry) =>
      if f.pending.None? then [f]
      else [f, f.(pending := Some(f.pending.value.(phases := f.pending.value.phases[phase := entry])))]
    case Finalize(_, _, _) =>
      if f.pending.None? then [f]
      else
        var receipt := Stamped(f.pending.value, c);
        var recorded := f.(receipts := f.receipts[receipt.releaseId := receipt]);
        var copied := if f.current.None? then recorded else recorded.(previous := Whole(f.current.value));
        var replaced := copied.(current := Some(receipt));
        (if f.current.None? then [f, recorded] else [f, recorded, recorded.(previous := Torn), copied])
        + [replaced, replaced.(pending := None)]
    case Rollback(_, _, _, _, _, _) =>
      var receipt := RolledBack(f.pending, c);
      var recorded := f.(receipts := f.receipts[receipt.releaseId := receipt]);
      [f, recorded, recorded.(pending := None)]
  }

  /** The number of durable steps of `finalize` up to and including the replacement of `current.json`. */
  function ReplaceStep(f: Files): nat {
    if f.current.None? then 2 else 4
  }

  function Done(f: Files, c: Command): Files {
    Points(f, c)[|Points(f, c)| - 1]
  }

  /** A command that dies after `steps` durable steps, or completes if it has no more. */
  function Dies(f: Files, c: Command, steps: nat): Files {
    if steps < |Points(f, c)| then Points(f, c)[steps] else Done(f, c)
  }

  // ----- The directory as the commands mutate it -----

  class Directory {
    var pending: Option<Receipt>
    var current: Option<Receipt>
    var previous: Copy
    var receipts: map<string, Receipt>

    function View(): Files
      reads this
    {
      Files(pending, current, previous, receipts)
    }

    constructor ()
      ensures View() == EMPTY
    {
      pending, current, previous, receipts := None, None, Missing, map[];
    }

    method WriteReceipt(releaseId: string, data: Receipt)
      modifies this`receipts
      ensures receipts == old(receipts)[releaseId := data]
    {
      receipts := receipts[releaseId := data];
    }

    method CmdPending(c: Command, steps: nat)
      requires c.Pending?
      modifies this
      ensures View() == Dies(old(View()), c, steps)
    {
      if steps == 0 { return; }
      pending := Some(c.receipt);
    }

    method CmdPhase(c: Command, steps: nat) returns (ok: bool)
      requires c.Phase?
      modifies this
      ensures ok == old(pending).Some?
      ensures View() == Dies(old(View()), c, steps)
    {
      ok := pending.Some?;
      if !ok || steps == 0 { return; }
      pending := Some(pending.value.(phases := pending.value.phases[c.phase := c.entry]));
    }

    /** `cmd_finalize`, write by write; `steps` durable steps happen before the process dies. */
    method CmdFinalize(c: Command, steps: nat) returns (ok: bool)
      requires c.Finalize?
      modifies this
      ensures ok == old(pending).Some?
      ensures View() == Dies(old(View()), c, steps)
    {
      ok := pending.Some?;
      if !ok || steps == 0 { return; }
      var receipt := Stamped(pending.value, c);
      WriteReceipt(receipt.releaseId, receipt);
      if steps == 1 { return; }
      var step := 1;
      if current.Some? {
        previous := Torn;
        if steps == 2 { return; }
        previous := Whole(current.value);
        if steps == 3 { return; }
        step := 3;
      }
      current := Some(receipt);
      if steps == step + 1 { return; }
      pending := None;
    }

    method CmdRollback(c: Command, steps: nat)
      requires c.Rollback?
      modifies this
      ensures View() == Dies(old(View()), c, steps)
      ensures current == old(current) && previous == old(previous)
    {
      if steps == 0 { return; }
      var receipt := RolledBack(pending, c);
      WriteReceipt(receipt.releaseId, receipt);
      if steps == 1 { return; }
      pending := None;
    }
  }

  // ----- Crash-free command sequences -----

  function RunAll(f: Files, commands: seq<Command>): Files {
    if commands == [] then f
    else Done(RunAll(f, commands[..|commands| - 1]), commands[|commands| - 1])
  }

  /** The receipt open after the commands, and the ones finalized, read off the command list alone. */
  function Outcome(commands: seq<Command>): (Option<Receipt>, seq<Receipt>) {
    if commands == [] then (None, [])
    else
      var (open, finalized) := Outcome(commands[..|commands| - 1]);
      var c := commands[|commands| - 1];
      match c
      case Pending(receipt) => (Some(receipt), finalized)
      case Phase(phase, entry) =>
        (if open.None? then None else Some(open.value.(phases := open.value.phases[phase := entry])), finalized)
      case Finalize(_, _, _) =>
        (None, if open.None? then finalized else finalized + [Stamped(open.value, c)])
      case Rollback(_, _, _, _, _, _) => (None, finalized)
  }

  /** Without crashes, `current` and `previous` are the last two finalized releases. */
  lemma {:induction false} LastTwoFinalized(commands: seq<Command>)
    ensures
      var f, (open, finalized) := RunAll(EMPTY, commands), Outcome(commands);
      var n := |finalized|;
      && f.pending == open
      && f.current == (if n == 0 then None else Some(finalized[n - 1]))
      && f.previous == (if n < 2 then Missing else Whole(finalized[n - 2]))
  {
    if commands != [] {
      LastTwoFinalized(commands[..|commands| - 1]);
    }
  }

  // ----- Runs with crashes -----

  /** A directory together with the receipts `current.json` has held, oldest first, and the steps made by the last
      finalize that got as far as copying `current.json`. */
  datatype World = World(files: Files, promoted: seq<Receipt>, copied: Option<nat>)

  function Crashing(w: World, c: Command, steps: nat): World {
    World(Dies(w.files, c, steps),
          if c.Finalize? && w.files.pending.Some? && steps >= ReplaceStep(w.files)
          then w.promoted + [Stamped(w.files.pending.value, c)] else w.promoted,
          if c.Finalize? && w.files.pending.Some? && w.files.current.Some? && steps >= 2 then Some(steps) else w.copied)
  }

  datatype Attempt = Attempt(command: Command, steps: nat)

  function RunCrashing(attempts: seq<Attempt>): World {
    if attempts == [] then World(EMPTY, [], None)
    else
      var last := attempts[|attempts| - 1];
      Crashing(RunCrashing(attempts[..|attempts| - 1]), last.command, last.steps)
  }

  /** What survives every crash: `current` is whole and is the newest promoted release, and its receipt file exists.
      `previous` is torn exactly when the last finalize to copy died in the copy, is `current` itself exactly when it
      died between the copy and the replacement, and is the predecessor when it got further. */
  ghost predicate Consistent(w: World) {
    var n := |w.promoted|;
    && w.files.current == (if n == 0 then None else Some(w.promoted[n - 1]))
    && (n > 0 ==> w.promoted[n - 1].releaseId in w.files.receipts)
    && match w.copied
       case None => n < 2 && w.files.previous == Missing
       case Some(steps) =>
         && n > 0 && steps >= 2
         && (steps == 2 ==> w.files.previous == Torn)
         && (steps == 3 ==> w.files.previous == Whole(w.promoted[n - 1]))
         && (steps > 3 ==> n > 1 && w.files.previous == Whole(w.promoted[n - 2]))
  }

  lemma {:induction false} FinalizeKeeps(w: World, c: Command, steps: nat)
    requires Consistent(w) && c.Finalize? && w.files.pending.Some?
    ensures Consistent(Crashing(w, c, steps))
  {
    var f, f' := w.files, Dies(w.files, c, steps);
    CurrentIsOldOrNew(f, c, steps);
    assert f'.previous == if f.current.None? || steps < 2 then f.previous
                          else if steps == 2 then Torn else Whole(f.current.value);
  }

  lemma {:induction false} OthersKeep(w: World, c: Command, steps: nat)
    requires Consistent(w) && !(c.Finalize? && w.files.pending.Some?)
    ensures Consistent(Crashing(w, c, steps))
  {
    var f' := Dies(w.files, c, steps);
    assert f'.current == w.files.current && f'.previous == w.files.previous;
    assert w.files.receipts.Keys <= f'.receipts.Keys;
  }

  lemma {:induction false} EveryRunConsistent(attempts: seq<Attempt>)
    ensures Consistent(RunCrashing(attempts))
  {
    if attempts != [] {
      var init, last := attempts[..|attempts| - 1], attempts[|attempts| - 1];
      EveryRunConsistent(init);
      if last.command.Finalize? && RunCrashing(init).files.pending.Some? {
        FinalizeKeeps(RunCrashing(init), last.command, last.steps);
      } else {
        OthersKeep(RunCrashing(init), last.command, last.steps);
      }
    }
  }

  /** Any completed finalize restores the exact pair, whatever crashes came before it. */
  lemma {:induction false} CompletedFinalizeRestores(attempts: seq<Attempt>, c: Command, steps: nat)
    requires c.Finalize? && RunCrashing(attempts).files.pending.Some? && steps > 4
    ensures
      var w, w' := RunCrashing(attempts), Crashing(RunCrashing(attempts), c, steps);
      var n := |w'.promoted|;
      && w'.promoted == w.promoted + [Stamped(w.files.pending.value, c)]
      && w'.files.pending.None?
      && w'.files.current == Some(w'.promoted[n - 1])
      && w'.files.previous == (if n < 2 then Missing else Whole(w'.promoted[n - 2]))
  {
    EveryRunConsistent(attempts);
  }

  /** At every crash point of a finalize `current` is wholly old or wholly new, and new only once
      the very same receipt is on disk. */
  lemma CurrentIsOldOrNew(f: Files, c: Command, steps: nat)
    requires c.Finalize? && f.pending.Some?
    ensures
      var f', receipt := Dies(f, c, steps), Stamped(f.pending.value, c);
      if steps < ReplaceStep(f) then f'.current == f.current && f'.pending == f.pending
      else f'.current == Some(receipt) && receipt.releaseId in f'.receipts && f'.receipts[receipt.releaseId] == receipt
  {
  }

  lemma RerunBeforeReplace(f: Files, c: Command, c': Command, steps: nat)
    requires c.Finalize? && c'.Finalize? && f.pending.Some?
    requires f.current.None? ==> f.previous == Missing
    requires steps < ReplaceStep(f)
    ensures Done(Dies(f, c, steps), c') == Done(f, c')
  {
    var id := f.pending.value.releaseId;
    var first, second := Stamped(f.pending.value, c), Stamped(f.pending.value, c');
    assert f.receipts[id := first][id := second] == f.receipts[id := second];
  }

  lemma RerunAfterReplace(f: Files, c: Command, c': Command)
    requires c.Finalize? && c'.Finalize? && f.pending.Some?
    requires f.current.None? ==> f.previous == Missing
    ensures var first, again := Stamped(f.pending.value, c), Done(Dies(f, c, ReplaceStep(f)), c');
            && again.previous == Whole(first)
            && (again == Done(f, c') <==> f.current == Some(first))
  {
    var id := f.pending.value.releaseId;
    var first, second := Stamped(f.pending.value, c), Stamped(f.pending.value, c');
    assert f.receipts[id := first][id := second] == f.receipts[id := second];
  }

  /** Re-running a finalize that died converges to the uncrashed result exactly when the crash came
      before `current.json` was replaced (or replaced it by itself); in the gap before the unlink the
      second run copies the new release over its predecessor. */
  lemma RerunConverges(f: Files, c: Command, c': Command, steps: nat)
    requires c.Finalize? && c'.Finalize? && f.pending.Some?
    requires f.current.None? ==> f.previous == Missing
    requires steps <= ReplaceStep(f)
    ensures Done(Dies(f, c, steps), c') == Done(f, c')
            <==> steps < ReplaceStep(f) || f.current == Some(Stamped(f.pending.value, c))
    ensures steps == ReplaceStep(f) ==>
              Done(Dies(f, c, steps), c').previous == Whole(Stamped(f.pending.value, c))
  {
    hide Done, Dies, Stamped;
    if steps < ReplaceStep(f) {
      RerunBeforeReplace(f, c, c', steps);
    } else {
      RerunAfterReplace(f, c, c');
    }
  }

  /** Nothing protects a promoted release's receipt file: a later rollback naming the same release
      overwrites it while `current` stays. */
  lemma RollbackOverwritesReceipt(f: Files, c: Command)
    requires c.Rollback? && f.pending.None? && f.current.Some? && f.current.value.releaseId == c.releaseId
    requires f.current.value.rollbackResult.None?
    ensures Done(f, c).current == f.current && Done(f, c).receipts[c.releaseId] != f.current.value
  {
  }

  // ----- Receipt files -----

  /** What a completed finalize files: the pending release under its own id, with its phases and provenance, the status
      and times of the command, and changes no other receipt. It is then the current one. */
  lemma FinalizeFiles(f: Files, c: Command)
    requires c.Finalize? && f.pending.Some?
    ensures var p, f' := f.pending.value, Done(f, c);
            && f'.receipts.Keys == f.receipts.Keys + {p.releaseId}
            && (forall id :: id in f.receipts && id != p.releaseId ==> f'.receipts[id] == f.receipts[id])
            && var r := f'.receipts[p.releaseId];
               && r.releaseId == p.releaseId && r.service == p.service && r.provenance == p.provenance
               && r.rollbackResult == p.rollbackResult
               && r.phases.Keys == p.phases.Keys + {"finalized"}
               && (forall phase :: phase in p.phases && phase != "finalized" ==> r.phases[phase] == p.phases[phase])
               && r.phases["finalized"] == Entry(c.stampedAt, c.status, "") && r.finalizedAt == Some(c.finalizedAt)
               && f'.current == Some(r) && f'.pending == None
  {
  }

  /** What a completed rollback files: the pending release under its own id with its phases kept, or without one a
      minimal receipt under the id given; marked as rolled back with the reason and times of the command. */
  lemma RollbackFiles(f: Files, c: Command)
    requires c.Rollback?
    ensures var id := if f.pending.Some? then f.pending.value.releaseId else c.releaseId;
            var f' := Done(f, c);
            && f'.receipts.Keys == f.receipts.Keys + {id} && f'.pending == None
            && (forall other :: other in f.receipts && other != id ==> f'.receipts[other] == f.receipts[other])
            && f'.current == f.current && f'.previous == f.previous
            && var r := f'.receipts[id];
               && r.releaseId == id
               && r.rollbackResult == Some(Entry(c.resultAt, "rolled-back", c.reason))
               && r.finalizedAt == Some(c.rolledBackAt)
               && "rollback" in r.phases && r.phases["rollback"] == Entry(c.phaseAt, "rolled-back", c.reason)
               && match f.pending
                  case Some(p) =>
                    && r.service == p.service && r.provenance == p.provenance
                    && r.phases.Keys == p.phases.Keys + {"rollback"}
                    && (forall phase :: phase in p.phases && phase != "rollback" ==> r.phases[phase] == p.phases[phase])
                  case None =>
                    && r.service == (if c.service == "" then "unknown" else c.service)
                    && r.provenance == map[] && r.phases.Keys == {"rollback"}
  {
  }

  /** The commands that file a receipt, as a list of what they file. */
  function Filed(commands: seq<Command>): seq<Receipt> {
    if commands == [] then []
    else
      var init, c := commands[..|commands| - 1], commands[|commands| - 1];
      var open := Outcome(init).0;
      match c
      case Finalize(_, _, _) => Filed(init) + if open.Some? then [Stamped(open.value, c)] else []
      case Rollback(_, _, _, _, _, _) => Filed(init) + [RolledBack(open, c)]
      case _ => Filed(init)
  }

  /** The last receipt of the list for a release stands at `k`. */
  ghost predicate LastFor(filed: seq<Receipt>, id: string, k: int) {
    0 <= k < |filed| && filed[k].releaseId == id && forall j :: k < j < |filed| ==> filed[j].releaseId != id
  }

  /** The files are those of the releases filed, each with what was filed for it last. */
  ghost predicate Holds(receipts: map<string, Receipt>, filed: seq<Receipt>) {
    && (forall id :: id in receipts <==> exists k :: LastFor(filed, id, k))
    && (forall id, k :: LastFor(filed, id, k) ==> receipts[id] == filed[k])
  }

  /** So it is after every run without crashes. */
  lemma {:induction false} ReceiptsAreFiled(commands: seq<Command>)
    ensures Holds(RunAll(EMPTY, commands).receipts, Filed(commands))
  {
    if commands == [] {
      assert RunAll(EMPTY, commands).receipts == map[];
    } else {
      var init, c := commands[..|commands| - 1], commands[|commands| - 1];
      ReceiptsAreFiled(init);
      LastTwoFinalized(init);
      hide Holds;
      var before, filed := RunAll(EMPTY, init), Filed(init);
      if c.Finalize? && before.pending.Some? {
        FiledNext(before.receipts, filed, Stamped(before.pending.value, c));
      } else if c.Rollback? {
        FiledNext(before.receipts, filed, RolledBack(before.pending, c));
      } else {
        assert filed + [] == filed;
      }
    }
  }

  lemma FiledNext(receipts: map<string, Receipt>, filed: seq<Receipt>, r: Receipt)
    requires Holds(receipts, filed)
    ensures Holds(receipts[r.releaseId := r], filed + [r])
  {
    var receipts', filed' := receipts[r.releaseId := r], filed + [r];
    assert LastFor(filed', r.releaseId, |filed|);
    forall id, k | id != r.releaseId
      ensures LastFor(filed', id, k) <==> LastFor(filed, id, k)
    {
      assert filed'[|filed|] == r && forall j :: 0 <= j < |filed| ==> filed'[j] == filed[j];
      if LastFor(filed', id, k) {
        assert forall j :: k < j < |filed| ==> filed'[j].releaseId != id;
      }
    }
  }
}
