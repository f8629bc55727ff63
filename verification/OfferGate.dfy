/**
 The gate on the browsers' offer (`offer_gate.rs`) between the session thread and the quit
 (`session.rs`), as a step system: one step is what one thread does without the other seeing between.
 */
module OfferGate {

  import opened Octets

  /** Which pairing's and which card's certificate is offered. */
  datatype Offered = Offered(pairId: nat, card: nat)

  /** A change the session thread runs through the gate; a removal may be followed by an install. */
  datatype Change = Remove(next: Option<Offered>) | Install(wanted: Offered)

  /** What `change` came to: it did not run, or it ran and succeeded or not. */
  datatype ChangeResult = Skipped | Ran(ok: bool)

  datatype SessionPhase =
    | Idle
    | Wants(change: Change)
    | Holds(change: Change)
    | Acted(change: Change, result: ChangeResult)
    | Left(change: Change, result: ChangeResult)

  datatype QuitPhase = NotQuitting | WantsClose | Closing | Removed | Closed

  datatype State = State(
    store: set<Offered>,
    offered: Option<Offered>,
    gateClosed: bool,
    session: SessionPhase,
    quit: QuitPhase,
    /** An earlier run's certificates have been removed. */
    purged: bool,
    removalFailed: bool)

  predicate GateIsFree(s: State) {
    !s.session.Holds? && !s.session.Acted? && !s.quit.Closing? && !s.quit.Removed?
  }

  datatype Action =
    | Withdraw
    | Sync(wanted: Option<Offered>)
    | Enter
    | Act(ok: bool)
    | Leave
    | Record
    | QuitStarts
    | QuitEnters
    | QuitRemoves(ok: bool)
    | QuitLeaves

  /** What `sync_offer` sets about, for the certificate the identity is offered on now. */
  function SyncPhase(offered: Option<Offered>, wanted: Option<Offered>): SessionPhase {
    match wanted
    case None => if offered.Some? then Wants(Remove(None)) else Idle
    case Some(w) =>
      if offered == Some(w) then Idle
      else if offered.Some? then Wants(Remove(Some(w)))
      else Wants(Install(w))
  }

  predicate Enabled(s: State, a: Action) {
    match a
    case Withdraw => s.session.Idle?
    case Sync(_) => s.session.Idle?
    case Enter => s.session.Wants? && GateIsFree(s)
    case Act(_) => s.session.Holds?
    case Leave => s.session.Acted?
    case Record => s.session.Left?
    case QuitStarts => s.quit.NotQuitting?
    case QuitEnters => s.quit.WantsClose? && GateIsFree(s)
    case QuitRemoves(_) => s.quit.Closing?
    case QuitLeaves => s.quit.Removed?
  }

  function Next(s: State, a: Action): State
    requires Enabled(s, a)
  {
    match a
    case Withdraw => s.(session := Wants(Remove(None)))
    case Sync(wanted) => s.(session := SyncPhase(s.offered, wanted))
    case Enter => s.(session := Holds(s.session.change))
    case Act(ok) => Acts(s, ok)
    case Leave => s.(session := Left(s.session.change, s.session.result))
    case Record => Records(s)
    case QuitStarts => s.(quit := WantsClose)
    case QuitEnters => s.(quit := Closing, gateClosed := true)
    case QuitRemoves(ok) =>
      s.(quit := Removed, store := if ok then {} else s.store, purged := s.purged || ok,
         removalFailed := s.removalFailed || !ok)
    case QuitLeaves => s.(quit := Closed)
  }

  /** Inside the gate: nothing once it is closed, else the removal or the install. */
  function Acts(s: State, ok: bool): State
    requires s.session.Holds?
  {
    var change := s.session.change;
    if s.gateClosed then s.(session := Acted(change, Skipped))
    else
      match change
      case Remove(_) =>
        s.(session := Acted(change, Ran(ok)), store := if ok then {} else s.store, purged := s.purged || ok,
           removalFailed := s.removalFailed || !ok)
      case Install(w) =>
        s.(session := Acted(change, Ran(ok)), store := if ok then s.store + {w} else s.store)
  }

  /** After the gate: what the session thread remembers as offered. */
  function Records(s: State): State
    requires s.session.Left?
  {
    match s.session.change
    case Remove(None) => s.(offered := None, session := Idle)
    case Remove(Some(w)) => s.(offered := None, session := Wants(Install(w)))
    case Install(w) => s.(offered := if s.session.result == Ran(true) then Some(w) else s.offered, session := Idle)
  }

  /** The session thread starts by withdrawing what an earlier run may have left. */
  predicate Initial(s: State) {
    && s.offered == None
    && !s.gateClosed
    && s.session == Wants(Remove(None))
    && s.quit == NotQuitting
    && !s.purged
    && !s.removalFailed
  }

  // ----- Runs -----

  /** The state after the steps, while each was enabled. */
  function After(s: State, actions: seq<Action>): Option<State> {
    if actions == [] then Some(s)
    else
      var before :- After(s, actions[..|actions| - 1]);
      if Enabled(before, actions[|actions| - 1]) then Some(Next(before, actions[|actions| - 1])) else None
  }

  function OfferedSet(offered: Option<Offered>): set<Offered> {
    if offered.Some? then {offered.value} else {}
  }

  /** What the store holds while the gate has not been closed, by where the session thread is. */
  predicate StoreFollows(s: State) {
    match s.session
    case Idle => s.store == OfferedSet(s.offered)
    case Wants(change) => s.store == OfferedSet(s.offered) && (change.Install? ==> s.offered == None)
    case Holds(change) => s.store == OfferedSet(s.offered) && (change.Install? ==> s.offered == None)
    case Acted(change, result) => ChangeDone(s, change, result)
    case Left(change, result) => ChangeDone(s, change, result)
  }

  predicate ChangeDone(s: State, change: Change, result: ChangeResult) {
    match change
    case Remove(_) => result == Ran(true) && s.store == {}
    case Install(w) =>
      s.offered == None && result != Skipped && s.store == if result == Ran(true) then {w} else {}
  }

  predicate Invariant(s: State) {
    && (s.session.Holds? || s.session.Acted? ==> !s.quit.Closing? && !s.quit.Removed?)
    && (s.gateClosed <==> s.quit.Closing? || s.quit.Removed? || s.quit.Closed?)
    && (!s.purged
        ==> && s.offered == None
            && (s.session == Wants(Remove(None)) || (s.session == Holds(Remove(None)) && !s.gateClosed)))
    && (s.purged && !s.gateClosed ==> StoreFollows(s))
    && (s.purged ==> |s.store| <= 1)
    && (s.quit.Removed? || s.quit.Closed? ==> s.purged && s.store == {})
  }

  lemma OfferedSetIsSmall(offered: Option<Offered>)
    ensures |OfferedSet(offered)| <= 1
  {
  }

  lemma InvariantHoldsAtFirst(s: State)
    requires Initial(s)
    ensures Invariant(s)
  {
  }

  lemma QuitKeepsInvariant(s: State, a: Action)
    requires Invariant(s) && Enabled(s, a) && !Next(s, a).removalFailed
    requires a.QuitStarts? || a.QuitEnters? || a.QuitRemoves? || a.QuitLeaves?
    ensures Invariant(Next(s, a))
  {
    OfferedSetIsSmall(s.offered);
  }

  lemma ActKeepsInvariant(s: State, ok: bool)
    requires Invariant(s) && s.session.Holds? && !Acts(s, ok).removalFailed
    ensures Invariant(Acts(s, ok))
  {
    if s.session.change.Install? && !s.gateClosed {
      assert s.purged ==> s.store == {};
      assert {} + {s.session.change.wanted} == {s.session.change.wanted};
    }
  }

  lemma SessionKeepsInvariant(s: State, a: Action)
    requires Invariant(s) && Enabled(s, a)
    requires a.Withdraw? || a.Sync? || a.Enter? || a.Leave? || a.Record?
    ensures Invariant(Next(s, a))
  {
    OfferedSetIsSmall(s.offered);
  }

  lemma InvariantIsKept(s: State, a: Action)
    requires Invariant(s) && Enabled(s, a) && !Next(s, a).removalFailed
    ensures Invariant(Next(s, a))
  {
    hide Invariant;
    match a {
      case Act(ok) => ActKeepsInvariant(s, ok);
      case QuitStarts => QuitKeepsInvariant(s, a);
      case QuitEnters => QuitKeepsInvariant(s, a);
      case QuitRemoves(_) => QuitKeepsInvariant(s, a);
      case QuitLeaves => QuitKeepsInvariant(s, a);
      case _ => SessionKeepsInvariant(s, a);
    }
  }

  /** In every run of session and quit in which no removal fails, every state keeps the invariant. */
  lemma {:induction false} EveryRunKeepsInvariant(s: State, actions: seq<Action>)
    requires Initial(s) && After(s, actions).Some? && !After(s, actions).value.removalFailed
    ensures Invariant(After(s, actions).value)
    decreases |actions|
  {
    if actions == [] {
      InvariantHoldsAtFirst(s);
    } else {
      var init, last := actions[..|actions| - 1], actions[|actions| - 1];
      var before := After(s, init).value;
      FailureSticks(before, last);
      EveryRunKeepsInvariant(s, init);
      InvariantIsKept(before, last);
    }
  }

  lemma FailureSticks(s: State, a: Action)
    requires Enabled(s, a)
    ensures s.removalFailed ==> Next(s, a).removalFailed
    ensures s.quit.Closed? ==> Next(s, a).quit.Closed?
  {
  }

  /** No thread is inside the gate, and the session thread has written down what its last change did. */
  predicate BetweenCriticalSections(s: State) {
    GateIsFree(s) && (s.session.Idle? || s.session.Wants?)
  }

  /**
   Between critical sections, once the first withdrawal is done and until the quit closes the gate, the
   browsers hold exactly the certificate the session thread has offered; never two at any time; and once
   the quit's close has returned they hold nothing.
   */
  lemma OfferMatchesStore(s: State, actions: seq<Action>)
    requires Initial(s) && After(s, actions).Some? && !After(s, actions).value.removalFailed
    ensures var now := After(s, actions).value;
      && (BetweenCriticalSections(now) && now.purged && !now.gateClosed ==> now.store == OfferedSet(now.offered))
      && (now.purged ==> |now.store| <= 1)
      && (now.quit.Closed? ==> now.store == {})
  {
    EveryRunKeepsInvariant(s, actions);
  }

  lemma {:induction false} AfterSplits(s: State, first: seq<Action>, rest: seq<Action>)
    requires After(s, first + rest).Some?
    ensures After(s, first).Some?
    ensures After(s, first).value.quit.Closed? ==> After(s, first + rest).value.quit.Closed?
    decreases |rest|
  {
    if rest == [] {
      assert first + rest == first;
    } else {
      var init := rest[..|rest| - 1];
      assert (first + rest)[..|first + rest| - 1] == first + init;
      AfterSplits(s, first, init);
      FailureSticks(After(s, first + init).value, rest[|rest| - 1]);
    }
  }

  /** Whatever runs after the quit's close returned, the store stays empty. */
  lemma EmptyForever(s: State, first: seq<Action>, rest: seq<Action>)
    requires Initial(s) && After(s, first + rest).Some? && !After(s, first + rest).value.removalFailed
    requires After(s, first).Some? && After(s, first).value.quit.Closed?
    ensures After(s, first + rest).value.store == {}
  {
    AfterSplits(s, first, rest);
    OfferMatchesStore(s, first + rest);
  }

  // ----- Whatever fails -----

  predicate QuitHasActed(s: State) {
    s.gateClosed && (s.quit.Removed? || s.quit.Closed?)
  }

  lemma ClosedGateKeepsStore(s: State, a: Action)
    requires QuitHasActed(s) && Enabled(s, a)
    ensures QuitHasActed(Next(s, a)) && Next(s, a).store == s.store
  {
  }

  lemma {:induction false} StoreIsFinal(s: State, first: seq<Action>, rest: seq<Action>)
    requires After(s, first + rest).Some?
    ensures After(s, first).Some?
    ensures QuitHasActed(After(s, first).value)
      ==> QuitHasActed(After(s, first + rest).value)
          && After(s, first + rest).value.store == After(s, first).value.store
    decreases |rest|
  {
    if rest == [] {
      assert first + rest == first;
    } else {
      var init := rest[..|rest| - 1];
      assert (first + rest)[..|first + rest| - 1] == first + init;
      StoreIsFinal(s, first, init);
      if QuitHasActed(After(s, first).value) {
        ClosedGateKeepsStore(After(s, first + init).value, rest[|rest| - 1]);
      }
    }
  }

  lemma {:induction false} ClosingIsClosed(s: State, actions: seq<Action>)
    requires Initial(s) && After(s, actions).Some?
    ensures !After(s, actions).value.quit.NotQuitting? && !After(s, actions).value.quit.WantsClose?
      ==> After(s, actions).value.gateClosed
    decreases |actions|
  {
    if actions != [] {
      ClosingIsClosed(s, actions[..|actions| - 1]);
    }
  }

  /**
   In every run, failed removals or not, the quit's own removal decides: behind it the store is empty for
   good exactly when that removal succeeded or there was nothing to remove.
   */
  lemma QuitDecides(s: State, first: seq<Action>, ok: bool, rest: seq<Action>)
    requires Initial(s) && After(s, first + [QuitRemoves(ok)] + rest).Some?
    ensures After(s, first).Some?
    ensures After(s, first + [QuitRemoves(ok)] + rest).value.store == {}
      <==> ok || After(s, first).value.store == {}
  {
    var removed := first + [QuitRemoves(ok)];
    StoreIsFinal(s, removed, rest);
    assert removed[..|removed| - 1] == first && removed[|removed| - 1] == QuitRemoves(ok);
    ClosingIsClosed(s, first);
  }

  /** What the session thread has offered is in the store, by where it is. */
  predicate OfferStands(s: State) {
    match s.session
    case Idle => OfferedSet(s.offered) <= s.store
    case Wants(change) => OfferedSet(s.offered) <= s.store && (change.Install? ==> s.offered == None)
    case Holds(change) => OfferedSet(s.offered) <= s.store && (change.Install? ==> s.offered == None)
    case Acted(change, result) => ChangeStands(s, change, result)
    case Left(change, result) => ChangeStands(s, change, result)
  }

  predicate ChangeStands(s: State, change: Change, result: ChangeResult) {
    change.Install? ==> s.offered == None && (result == Ran(true) ==> change.wanted in s.store)
  }

  lemma OfferStandsIsKept(s: State, a: Action)
    requires Enabled(s, a) && (!s.gateClosed ==> OfferStands(s))
    requires s.quit.Closing? ==> s.gateClosed
    ensures !Next(s, a).gateClosed ==> OfferStands(Next(s, a))
  {
  }

  /** In every run, failed removals or not, the certificate offered is in the store until the gate closes. */
  lemma {:induction false} OfferedIsHeld(s: State, actions: seq<Action>)
    requires Initial(s) && After(s, actions).Some?
    ensures var now := After(s, actions).value;
      && (!now.gateClosed ==> OfferStands(now))
      && (BetweenCriticalSections(now) && !now.gateClosed ==> OfferedSet(now.offered) <= now.store)
    decreases |actions|
  {
    if actions != [] {
      var init := actions[..|actions| - 1];
      OfferedIsHeld(s, init);
      ClosingIsClosed(s, init);
      OfferStandsIsKept(After(s, init).value, actions[|actions| - 1]);
    }
  }

  /** The certificate that step `k` of a run puts into the store. */
  function InstallsAt(s: State, actions: seq<Action>, k: nat): Option<Offered>
    requires k < |actions|
  {
    var before :- After(s, actions[..k]);
    if actions[k] == Act(true) && before.session.Holds? && !before.gateClosed && before.session.change.Install?
    then Some(before.session.change.wanted) else None
  }

  /** Step `k` of a run is a removal that succeeds. */
  predicate RemovesAt(s: State, actions: seq<Action>, k: nat)
    requires k < |actions|
  {
    var before := After(s, actions[..k]);
    && before.Some?
    && (actions[k] == QuitRemoves(true)
        || (&& actions[k] == Act(true)
            && before.value.session.Holds?
            && !before.value.gateClosed
            && before.value.session.change.Remove?))
  }

  function LastRemoval(s: State, actions: seq<Action>): (k: Option<nat>)
    ensures k.Some? ==> k.value < |actions|
  {
    if actions == [] then None
    else if RemovesAt(s, actions, |actions| - 1) then Some(|actions| - 1)
    else LastRemoval(s, actions[..|actions| - 1])
  }

  lemma {:induction false} LastRemovalIsLast(s: State, actions: seq<Action>, k: nat)
    requires k < |actions|
    ensures RemovesAt(s, actions, k) ==> LastRemoval(s, actions).Some? && k <= LastRemoval(s, actions).value
    ensures LastRemoval(s, actions).Some? ==> RemovesAt(s, actions, LastRemoval(s, actions).value)
  {
    var init := actions[..|actions| - 1];
    if !RemovesAt(s, actions, |actions| - 1) && init != [] {
      assert forall m :: 0 <= m < |init| ==> init[..m] == actions[..m];
      LastRemovalIsLast(s, init, if k < |init| then k else 0);
    }
  }

  /** The certificates put into the store behind step `m`. */
  function InstalledSince(s: State, actions: seq<Action>, m: nat): set<Offered> {
    set k | m < k < |actions| && InstallsAt(s, actions, k).Some? :: InstallsAt(s, actions, k).value
  }

  lemma SinceStep(s: State, init: seq<Action>, a: Action, m: nat)
    requires m < |init|
    ensures InstalledSince(s, init + [a], m)
      == InstalledSince(s, init, m) + OfferedSet(InstallsAt(s, init + [a], |init|))
  {
    var actions := init + [a];
    assert forall k :: 0 <= k <= |init| ==> actions[..k] == init[..k];
    assert forall k :: 0 <= k < |init| ==> InstallsAt(s, actions, k) == InstallsAt(s, init, k);
    forall w | w in InstalledSince(s, init, m) + OfferedSet(InstallsAt(s, actions, |init|))
      ensures w in InstalledSince(s, actions, m)
    {
      if w in InstalledSince(s, init, m) {
        var k :| m < k < |init| && InstallsAt(s, init, k) == Some(w);
        assert InstallsAt(s, actions, k) == Some(w);
      } else {
        assert InstallsAt(s, actions, |init|) == Some(w);
      }
    }
  }

  /**
   In every run, failed removals or not: once a removal has succeeded, the store is exactly the
   certificates installed since the last one that did.
   */
  lemma {:induction false} StoreSinceLastRemoval(s: State, actions: seq<Action>)
    requires Initial(s) && After(s, actions).Some?
    ensures var now := After(s, actions).value;
      && (now.purged <==> LastRemoval(s, actions).Some?)
      && (now.purged ==> now.store == InstalledSince(s, actions, LastRemoval(s, actions).value))
    decreases |actions|
  {
    if actions != [] {
      var init, last := actions[..|actions| - 1], actions[|actions| - 1];
      StoreSinceLastRemoval(s, init);
      assert actions == init + [last];
      var before := After(s, init).value;
      if !RemovesAt(s, actions, |init|) && LastRemoval(s, init).Some? {
        SinceStep(s, init, last, LastRemoval(s, init).value);
      }
      StepStores(before, last);
    }
  }

  /** What one step does to the store. */
  lemma StepStores(before: State, a: Action)
    requires Enabled(before, a)
    ensures var next := Next(before, a);
      if a == QuitRemoves(true) then next.store == {} && next.purged
      else if a == Act(true) && !before.gateClosed then
        match before.session.change
        case Remove(_) => next.store == {} && next.purged
        case Install(w) => next.store == before.store + {w} && next.purged == before.purged
      else next.store == before.store && next.purged == before.purged
  {
  }

  /** Two certificates are held exactly when two have been installed since the last successful removal. */
  lemma TwoAreHeldExactly(s: State, actions: seq<Action>)
    requires Initial(s) && After(s, actions).Some? && After(s, actions).value.purged
    ensures LastRemoval(s, actions).Some?
    ensures |After(s, actions).value.store| >= 2
      <==> exists i, j :: && LastRemoval(s, actions).value < i < j < |actions|
                          && InstallsAt(s, actions, i).Some?
                          && InstallsAt(s, actions, j).Some?
                          && InstallsAt(s, actions, i) != InstallsAt(s, actions, j)
  {
    hide *;
    StoreSinceLastRemoval(s, actions);
    var m, store := LastRemoval(s, actions).value, After(s, actions).value.store;
    if |store| >= 2 {
      var v :| v in store;
      var w := OtherMember(store, v);
      var i := InstallOf(s, actions, m, v);
      var j := InstallOf(s, actions, m, w);
      assert i < j || j < i;
    }
    forall i, j | m < i < j < |actions| && InstallsAt(s, actions, i).Some? && InstallsAt(s, actions, j).Some?
                  && InstallsAt(s, actions, i) != InstallsAt(s, actions, j)
      ensures |store| >= 2
    {
      InstalledIsIn(s, actions, m, i);
      InstalledIsIn(s, actions, m, j);
      TwoMembers(store, InstallsAt(s, actions, i).value, InstallsAt(s, actions, j).value);
    }
  }

  lemma InstallOf(s: State, actions: seq<Action>, m: nat, w: Offered) returns (k: nat)
    requires w in InstalledSince(s, actions, m)
    ensures m < k < |actions| && InstallsAt(s, actions, k) == Some(w)
  {
    hide InstallsAt;
    k :| m < k < |actions| && InstallsAt(s, actions, k) == Some(w);
  }

  lemma InstalledIsIn(s: State, actions: seq<Action>, m: nat, k: nat)
    requires m < k < |actions| && InstallsAt(s, actions, k).Some?
    ensures InstallsAt(s, actions, k).value in InstalledSince(s, actions, m)
  {
    hide InstallsAt;
  }

  lemma OtherMember(store: set<Offered>, v: Offered) returns (w: Offered)
    requires v in store && |store| >= 2
    ensures w in store && w != v
  {
    assert |store - {v}| >= 1;
    w :| w in store - {v};
  }

  lemma TwoMembers(store: set<Offered>, v: Offered, w: Offered)
    requires v in store && w in store && v != w
    ensures |store| >= 2
  {
    assert {v, w} <= store;
    assert |store - {v, w}| == |store| - |{v, w}|;
  }

  lemma AfterStep(s: State, actions: seq<Action>, a: Action)
    requires After(s, actions).Some? && Enabled(After(s, actions).value, a)
    ensures After(s, actions + [a]) == Some(Next(After(s, actions).value, a))
  {
    assert (actions + [a])[..|actions|] == actions;
  }

  /**
   Without the assumption: a removal that fails is only reported, so the next card's certificate is
   installed beside the old one, and the browsers hold two.
   */
  lemma FailedRemovalLeavesTwo(s: State, old_: Offered, other: Offered)
    requires Initial(s) && s.store == {} && old_ != other
    ensures exists actions ::
      && After(s, actions).Some?
      && BetweenCriticalSections(After(s, actions).value)
      && After(s, actions).value.store == {old_, other}
      && After(s, actions).value.offered == Some(other)
  {
    var purge := ChangeSteps(s, [], true);
    AfterStep(s, purge, Sync(Some(old_)));
    var installed := ChangeSteps(s, purge + [Sync(Some(old_))], true);
    AfterStep(s, installed, Sync(Some(other)));
    var kept := ChangeSteps(s, installed + [Sync(Some(other))], false);
    var both := ChangeSteps(s, kept, true);
    assert After(s, both).value.store == {old_} + {other} == {old_, other};
  }

  /** A wanted change taken through the gate undisturbed. */
  lemma ChangeSteps(s: State, actions: seq<Action>, ok: bool) returns (longer: seq<Action>)
    requires After(s, actions).Some?
    requires After(s, actions).value.session.Wants? && GateIsFree(After(s, actions).value)
    ensures var now := After(s, actions).value;
      After(s, longer)
      == Some(Records(Acts(now.(session := Holds(now.session.change)), ok)
                      .(session := Left(now.session.change, if now.gateClosed then Skipped else Ran(ok)))))
  {
    AfterStep(s, actions, Enter);
    AfterStep(s, actions + [Enter], Act(ok));
    AfterStep(s, actions + [Enter] + [Act(ok)], Leave);
    AfterStep(s, actions + [Enter] + [Act(ok)] + [Leave], Record);
    longer := actions + [Enter] + [Act(ok)] + [Leave] + [Record];
  }
}
