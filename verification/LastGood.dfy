/** The usage dashboard's state: the last good snapshot survives failed refreshes, and
    Claude quota windows survive a response without any, until their own reset. */
module LastGood {
  import opened Text

  type Date = real

  datatype Window = Window(name: string, resetsAt: Option<Date>)
  datatype Group = Group(key: Option<string>, title: string, semantics: Option<string>, windows: seq<Window>,
                         runout: Option<string>)
  datatype Account = Account(status: Option<string>, authenticated: Option<bool>)
  datatype Profile = Profile(windows: seq<Window>, groups: seq<Group>, observation: Option<string>)
  datatype QuotaSource = QuotaSource(kind: Option<string>, canonical: Option<bool>, title: Option<string>,
                                     warning: Option<string>)

  /** One provider; blocks the state never looks into are kept as text. */
  datatype Provider = Provider(
    quotaSource: Option<QuotaSource>,
    account: Option<Account>,
    windows: seq<Window>,
    groups: seq<Group>,
    resetCredits: seq<string>,
    runout: Option<string>,
    history: Option<string>,
    costs: Option<string>,
    activeSessions: Option<string>,
    breakdowns: Option<string>,
    errors: seq<string>,
    observedAt: Option<Date>,
    observation: Option<string>,
    profiles: seq<Profile>)

  datatype Snapshot = Snapshot(
    staleAfter: Option<Date>,
    refresh: Option<string>,
    providers: map<string, Provider>,
    errors: seq<string>)

  const CLAUDE := "claude"
  const RETAINED := "claude_quota_windows_retained_last_good"
  const NO_CURRENT := "stale_last_good_no_current_windows"
  const WARNING :=
    "Showing bounded last-good Claude quota until its recorded reset; current quota windows are unavailable."

  function LowerChar(c: char): char {
    if 'A' <= c <= 'Z' then c - 'A' + 'a' else c
  }

  /** Lower case, for the ASCII words the states are compared with. */
  function Lower(s: string): string {
    seq(|s|, k requires 0 <= k < |s| => LowerChar(s[k]))
  }

  function Word(s: Option<string>): string {
    if s.Some? then Lower(s.value) else ""
  }

  // ---- What a snapshot says ------------------------------------------------

  predicate StaleProfile(p: Profile) {
    Word(p.observation) in {"stale", "stale_last_good", NO_CURRENT, "quota_observation_expired",
                            "quota_observation_unavailable", "unavailable"}
  }

  predicate HasStaleQuota(p: Provider) {
    || Word(p.observation) in {"stale", "stale_last_good", NO_CURRENT, "quota_observation_expired",
                               "quota_observation_unavailable"}
    || exists q :: q in p.profiles && StaleProfile(q)
  }

  predicate HasMeaningfulData(p: Provider) {
    || p.account.Some? || p.windows != [] || p.groups != [] || p.resetCredits != [] || p.runout.Some?
    || p.history.Some? || p.costs.Some? || p.activeSessions.Some? || p.breakdowns.Some?
    || p.observedAt.Some? || p.profiles != []
  }

  predicate IsMeaningful(s: Snapshot) {
    && Word(s.refresh) !in {"error", "unavailable"}
    && exists k :: k in s.providers && HasMeaningfulData(s.providers[k])
  }

  predicate IsProducerStale(s: Snapshot, now: Date) {
    || Word(s.refresh) in {"stale", "stale_refreshing"}
    || (s.staleAfter.Some? && s.staleAfter.value <= now)
    || exists k :: k in s.providers && HasStaleQuota(s.providers[k])
  }

  predicate AnyWindows(groups: seq<Group>) {
    exists g :: g in groups && g.windows != []
  }

  predicate HasQuotaWindows(p: Provider) {
    p.windows != [] || AnyWindows(p.groups)
    || exists q :: q in p.profiles && (q.windows != [] || AnyWindows(q.groups))
  }

  predicate ClearsQuota(p: Provider) {
    var status := if p.account.Some? then Word(p.account.value.status) else "";
    Word(p.observation) in {"expired", "quota_observation_expired"}
    || ContainsText(status, "expired") || ContainsText(status, "sign_out") || ContainsText(status, "signed_out")
  }

  // ---- Retaining bounded quota ---------------------------------------------

  predicate OpenAt(w: Window, date: Date) {
    w.resetsAt.Some? && w.resetsAt.value > date
  }

  function StillOpen(ws: seq<Window>, date: Date): (r: seq<Window>)
    ensures forall w :: w in r <==> w in ws && OpenAt(w, date)
  {
    if ws == [] then []
    else (if OpenAt(ws[0], date) then [ws[0]] else []) + StillOpen(ws[1..], date)
  }

  /** The memberwise initialiser keeps at most eight windows. */
  function Capped(ws: seq<Window>): (r: seq<Window>)
    ensures r <= ws
  {
    if |ws| <= 8 then ws else ws[..8]
  }

  function OpenGroups(groups: seq<Group>, date: Date): (r: seq<Group>)
    ensures forall g :: g in r ==>
              exists h :: h in groups && StillOpen(h.windows, date) != []
                          && g == Group(h.key, h.title, h.semantics, Capped(StillOpen(h.windows, date)), None)
  {
    if groups == [] then [] else
    var rest := OpenGroups(groups[1..], date);
    var g := groups[0];
    var windows := StillOpen(g.windows, date);
    if windows == [] then rest else [Group(g.key, g.title, g.semantics, Capped(windows), None)] + rest
  }

  function WithCode(errors: seq<string>): seq<string> {
    if RETAINED in errors then errors else errors + [RETAINED]
  }

  /** Whether a response lacks quota that an earlier snapshot may stand in for. */
  predicate Lacks(s: Snapshot) {
    CLAUDE in s.providers
    && var p := s.providers[CLAUDE];
       p.account.Some? && p.account.value.authenticated == Some(true) && !HasQuotaWindows(p) && !ClearsQuota(p)
  }

  function PriorWindows(prior: Snapshot): seq<Window> {
    if CLAUDE in prior.providers then prior.providers[CLAUDE].windows else []
  }

  function PriorGroups(prior: Snapshot): seq<Group> {
    if CLAUDE in prior.providers then prior.providers[CLAUDE].groups else []
  }

  /** `retainingBoundedClaudeQuota(from:at:)` */
  function Retaining(s: Snapshot, prior: Option<Snapshot>, date: Date): Snapshot {
    if prior.None? || !Lacks(s) then s
    else
      var windows := StillOpen(PriorWindows(prior.value), date);
      var groups := OpenGroups(PriorGroups(prior.value), date);
      if groups == [] && windows == [] then s
      else
        var current := s.providers[CLAUDE];
        var was := if CLAUDE in prior.value.providers then prior.value.providers[CLAUDE].quotaSource else None;
        var source := QuotaSource(if was.Some? then was.value.kind else None, Some(false),
                                  if was.Some? then was.value.title else None, Some(WARNING));
        var retained := current.(quotaSource := Some(source), windows := windows, groups := groups,
                                 errors := WithCode(current.errors), observation := Some(NO_CURRENT));
        s.(providers := s.providers[CLAUDE := retained], errors := WithCode(s.errors))
  }

  // ---- The state -----------------------------------------------------------

  datatype State = State(snapshot: Option<Snapshot>, stale: bool, refreshing: bool, error: Option<string>,
                         lastGoodAt: Option<Date>)

  const EMPTY := State(None, false, false, None, None)

  function Success(s: Snapshot, date: Date, now: Date): State {
    State(Some(s), IsProducerStale(s, now), s.refresh == Some("stale_refreshing"), None, Some(date))
  }

  function Preserving(current: State, error: string, date: Date, grace: real): State {
    if current.snapshot.None? then State(None, true, false, Some(error), None)
    else
      var late := current.lastGoodAt.None? || date - current.lastGoodAt.value > grace;
      current.(refreshing := !late, stale := late, error := if late then Some(error) else None)
  }

  const NOTHING := "Usage refresh returned no meaningful provider data."

  function Accepting(s: Snapshot, current: State, date: Date, now: Date, grace: real): State {
    var accepted := Retaining(s, current.snapshot, date);
    if IsMeaningful(accepted) then Success(accepted, date, now) else Preserving(current, NOTHING, date, grace)
  }

  /** A refresh ends in a response or in an error. */
  datatype Event = Response(snapshot: Snapshot, at: Date, now: Date) | Failure(message: string, at: Date)

  function Next(st: State, e: Event, grace: real): State {
    match e
    case Response(s, at, now) => Accepting(s, st, at, now, grace)
    case Failure(message, at) => Preserving(st, message, at, grace)
  }

  /** After `n` refreshes, from the empty state. */
  function Run(es: seq<Event>, n: nat, grace: real): State
    requires n <= |es|
  {
    if n == 0 then EMPTY else Next(Run(es, n - 1, grace), es[n - 1], grace)
  }

  predicate Accepted(es: seq<Event>, k: nat, grace: real)
    requires k < |es|
  {
    es[k].Response? && IsMeaningful(Retaining(es[k].snapshot, Run(es, k, grace).snapshot, es[k].at))
  }

  // ---- Laws of every run ---------------------------------------------------

  /** `w` came with response `k`, as a top-level window or in group `key`. */
  predicate DeliveredTop(es: seq<Event>, k: nat, w: Window)
    requires k < |es|
  {
    es[k].Response? && w in PriorWindows(es[k].snapshot)
  }

  predicate DeliveredInGroup(es: seq<Event>, k: nat, key: Option<string>, w: Window)
    requires k < |es|
  {
    es[k].Response? && exists g :: g in PriorGroups(es[k].snapshot) && g.key == key && w in g.windows
  }

  /** Every response accepted since number `j` lacked quota, and `w` was still open when it
      was accepted. */
  ghost predicate Bridged(es: seq<Event>, j: nat, last: nat, grace: real, w: Window)
    requires last < |es|
  {
    forall m :: j < m <= last && Accepted(es, m, grace) ==> Lacks(es[m].snapshot) && OpenAt(w, es[m].at)
  }

  /** `w` came with an accepted response and was retained ever since, up to `last`. */
  ghost predicate TopSourced(es: seq<Event>, last: nat, grace: real, w: Window)
    requires last < |es|
  {
    exists j :: 0 <= j <= last && Accepted(es, j, grace) && DeliveredTop(es, j, w) && Bridged(es, j, last, grace, w)
  }

  ghost predicate GroupSourced(es: seq<Event>, last: nat, grace: real, key: Option<string>, w: Window)
    requires last < |es|
  {
    exists j :: 0 <= j <= last && Accepted(es, j, grace) && DeliveredInGroup(es, j, key, w)
      && Bridged(es, j, last, grace, w)
  }

  /** Every stored Claude window came with the response accepted as number `last`, or
      with an earlier accepted one and has been retained since. */
  ghost predicate Sourced(es: seq<Event>, last: nat, grace: real, s: Snapshot)
    requires last < |es|
  {
    && (forall w :: w in PriorWindows(s) ==> TopSourced(es, last, grace, w))
    && (forall g, w :: g in PriorGroups(s) && w in g.windows ==> GroupSourced(es, last, grace, g.key, w))
  }

  /** What is stored after `n` refreshes, if response `last` is the last one accepted. */
  ghost predicate Stored(es: seq<Event>, n: nat, last: nat, grace: real)
    requires n <= |es|
  {
    && last < n && Accepted(es, last, grace)
    && (forall k :: last < k < n ==> !Accepted(es, k, grace))
    && var st := Run(es, n, grace);
       st.snapshot == Some(Retaining(es[last].snapshot, Run(es, last, grace).snapshot, es[last].at))
       && st.lastGoodAt == Some(es[last].at)
  }

  /** One refresh: either the response is accepted, or the snapshot and its date stay. */
  lemma RunStep(es: seq<Event>, n: nat, grace: real)
    requires 0 < n <= |es|
    ensures var before, st, e := Run(es, n - 1, grace), Run(es, n, grace), es[n - 1];
            if Accepted(es, n - 1, grace) then
              st == Success(Retaining(e.snapshot, before.snapshot, e.at), e.at, e.now)
            else
              st == Preserving(before, if e.Response? then NOTHING else e.message, e.at, grace)
              && st.snapshot == before.snapshot && (before.snapshot.Some? ==> st.lastGoodAt == before.lastGoodAt)
  {
  }

  lemma StoredStays(es: seq<Event>, n: nat, last: nat, grace: real)
    requires 0 < n <= |es| && Stored(es, n - 1, last, grace) && !Accepted(es, n - 1, grace)
    ensures Stored(es, n, last, grace)
  {
    RunStep(es, n, grace);
  }

  lemma JustStored(es: seq<Event>, n: nat, grace: real)
    requires 0 < n <= |es| && Accepted(es, n - 1, grace)
    ensures Stored(es, n, n - 1, grace)
  {
    RunStep(es, n, grace);
  }

  lemma SnapshotStep(es: seq<Event>, n: nat, grace: real)
    requires 0 < n <= |es|
    ensures if Accepted(es, n - 1, grace) then Run(es, n, grace).snapshot.Some?
            else Run(es, n, grace).snapshot == Run(es, n - 1, grace).snapshot
  {
    RunStep(es, n, grace);
  }

  lemma {:induction false} AcceptedIsStored(es: seq<Event>, n: nat, k: nat, grace: real)
    requires k < n <= |es| && Accepted(es, k, grace)
    ensures Run(es, n, grace).snapshot.Some?
  {
    SnapshotStep(es, n, grace);
    if k < n - 1 { AcceptedIsStored(es, n - 1, k, grace); }
  }

  lemma {:induction false} SomeIsStored(es: seq<Event>, n: nat, grace: real)
    requires n <= |es| && Run(es, n, grace).snapshot.Some?
    ensures exists last :: Stored(es, n, last, grace)
  {
    if n == 0 {
    } else if Accepted(es, n - 1, grace) {
      JustStored(es, n, grace);
    } else {
      SnapshotStep(es, n, grace);
      SomeIsStored(es, n - 1, grace);
      var last :| Stored(es, n - 1, last, grace);
      StoredStays(es, n, last, grace);
    }
  }

  /** A snapshot is stored exactly when some response was accepted, and it is the last
      accepted one: failures neither lose nor replace it. */
  lemma StoredIsLastAccepted(es: seq<Event>, n: nat, grace: real)
    requires n <= |es|
    ensures Run(es, n, grace).snapshot.Some? <==> exists k :: 0 <= k < n && Accepted(es, k, grace)
    ensures Run(es, n, grace).snapshot.Some? ==> exists last :: Stored(es, n, last, grace)
  {
    if Run(es, n, grace).snapshot.Some? {
      SomeIsStored(es, n, grace);
    } else if k :| 0 <= k < n && Accepted(es, k, grace) {
      AcceptedIsStored(es, n, k, grace);
    }
  }

  /** Retention takes windows only from the prior snapshot, and only open ones. */
  lemma RetainingSources(s: Snapshot, prior: Option<Snapshot>, date: Date)
    ensures var r := Retaining(s, prior, date);
            && (r != s ==> Lacks(s))
            && (forall w :: w in PriorWindows(r) ==>
                  w in PriorWindows(s) || (prior.Some? && OpenAt(w, date) && w in PriorWindows(prior.value)))
            && (forall g, w :: g in PriorGroups(r) && w in g.windows ==>
                  g in PriorGroups(s)
                  || (prior.Some? && OpenAt(w, date)
                      && exists h :: h in PriorGroups(prior.value) && h.key == g.key && w in h.windows))
  {
    var r := Retaining(s, prior, date);
    if r != s {
      var groups := OpenGroups(PriorGroups(prior.value), date);
      forall g, w | g in groups && w in g.windows
        ensures OpenAt(w, date) && exists h :: h in PriorGroups(prior.value) && h.key == g.key && w in h.windows
      {
        var h :| h in PriorGroups(prior.value) && StillOpen(h.windows, date) != []
                 && g == Group(h.key, h.title, h.semantics, Capped(StillOpen(h.windows, date)), None);
        assert w in StillOpen(h.windows, date);
      }
    }
  }

  /** In any run, no Claude quota window outlives its reset beyond an acceptance, nor a
      response that has quota of its own, clears it or is not authenticated: each window
      stored is current, or was delivered earlier and retained at every acceptance since. */
  lemma {:induction false} EveryWindowIsSourced(es: seq<Event>, n: nat, last: nat, grace: real)
    requires n <= |es| && Stored(es, n, last, grace)
    ensures Sourced(es, last, grace, Run(es, n, grace).snapshot.value)
    decreases n
  {
    var prior := Run(es, last, grace).snapshot;
    if prior.Some? {
      StoredIsLastAccepted(es, last, grace);
      var before :| Stored(es, last, before, grace);
      EveryWindowIsSourced(es, last, before, grace);
      RetainedIsSourced(es, last, before, grace, prior.value);
    } else {
      FirstIsSourced(es, last, grace);
    }
  }

  lemma BridgedLater(es: seq<Event>, j: nat, before: nat, last: nat, grace: real, w: Window)
    requires j <= before < last < |es| && Bridged(es, j, before, grace, w)
    requires forall k :: before < k < last ==> !Accepted(es, k, grace)
    requires es[last].Response? && Lacks(es[last].snapshot) && OpenAt(w, es[last].at)
    ensures Bridged(es, j, last, grace, w)
  {
  }

  lemma LaterTop(es: seq<Event>, last: nat, before: nat, grace: real, w: Window)
    requires last < |es| && Stored(es, last, before, grace) && Accepted(es, last, grace)
    requires TopSourced(es, before, grace, w) && OpenAt(w, es[last].at) && Lacks(es[last].snapshot)
    ensures TopSourced(es, last, grace, w)
  {
    var j :| 0 <= j <= before && Accepted(es, j, grace) && DeliveredTop(es, j, w) && Bridged(es, j, before, grace, w);
    BridgedLater(es, j, before, last, grace, w);
  }

  lemma LaterGroup(es: seq<Event>, last: nat, before: nat, grace: real, key: Option<string>, w: Window)
    requires last < |es| && Stored(es, last, before, grace) && Accepted(es, last, grace)
    requires GroupSourced(es, before, grace, key, w) && OpenAt(w, es[last].at) && Lacks(es[last].snapshot)
    ensures GroupSourced(es, last, grace, key, w)
  {
    var j :| 0 <= j <= before && Accepted(es, j, grace) && DeliveredInGroup(es, j, key, w)
      && Bridged(es, j, before, grace, w);
    BridgedLater(es, j, before, last, grace, w);
  }

  lemma DeliveredNow(es: seq<Event>, last: nat, grace: real, w: Window)
    requires last < |es| && Accepted(es, last, grace)
    ensures Bridged(es, last, last, grace, w)
    ensures DeliveredTop(es, last, w) ==> TopSourced(es, last, grace, w)
    ensures forall key :: DeliveredInGroup(es, last, key, w) ==> GroupSourced(es, last, grace, key, w)
  {
  }

  lemma RetainedIsSourced(es: seq<Event>, last: nat, before: nat, grace: real, prior: Snapshot)
    requires last < |es| && Stored(es, last, before, grace) && Accepted(es, last, grace)
             && Sourced(es, before, grace, prior)
    ensures Sourced(es, last, grace, Retaining(es[last].snapshot, Some(prior), es[last].at))
  {
    var s, date := es[last].snapshot, es[last].at;
    var r := Retaining(s, Some(prior), date);
    RetainingSources(s, Some(prior), date);
    forall w | w in PriorWindows(r) ensures TopSourced(es, last, grace, w) {
      DeliveredNow(es, last, grace, w);
      if w !in PriorWindows(s) { LaterTop(es, last, before, grace, w); }
    }
    forall g, w | g in PriorGroups(r) && w in g.windows ensures GroupSourced(es, last, grace, g.key, w) {
      DeliveredNow(es, last, grace, w);
      if g !in PriorGroups(s) {
        var h :| h in PriorGroups(prior) && h.key == g.key && w in h.windows;
        LaterGroup(es, last, before, grace, g.key, w);
      }
    }
  }

  lemma FirstIsSourced(es: seq<Event>, last: nat, grace: real)
    requires last < |es| && Accepted(es, last, grace)
    ensures Sourced(es, last, grace, Retaining(es[last].snapshot, None, es[last].at))
  {
    forall w { DeliveredNow(es, last, grace, w); }
  }

  /** Quota that a response cleared, or replaced by its own, is never shown again: what
      is stored later was delivered with that response or after it. */
  lemma ClearedQuotaStaysGone(es: seq<Event>, n: nat, last: nat, grace: real, m: nat, w: Window)
    requires n <= |es| && Stored(es, n, last, grace) && m <= last && Accepted(es, m, grace) && !Lacks(es[m].snapshot)
    ensures var s := Run(es, n, grace).snapshot.value;
            && (w in PriorWindows(s) ==> exists j :: m <= j <= last && Accepted(es, j, grace) && DeliveredTop(es, j, w))
            && forall g :: g in PriorGroups(s) && w in g.windows ==>
                 exists j :: m <= j <= last && Accepted(es, j, grace) && DeliveredInGroup(es, j, g.key, w)
  {
    EveryWindowIsSourced(es, n, last, grace);
    var s := Run(es, n, grace).snapshot.value;
    if w in PriorWindows(s) {
      var j :| 0 <= j <= last && Accepted(es, j, grace) && DeliveredTop(es, j, w) && Bridged(es, j, last, grace, w);
      assert m <= j;
    }
    forall g | g in PriorGroups(s) && w in g.windows
      ensures exists j :: m <= j <= last && Accepted(es, j, grace) && DeliveredInGroup(es, j, g.key, w)
    {
      var j :| 0 <= j <= last && Accepted(es, j, grace) && DeliveredInGroup(es, j, g.key, w)
        && Bridged(es, j, last, grace, w);
      assert m <= j;
    }
  }

  /** What is stored always has meaningful provider data. */
  lemma StoredIsMeaningful(es: seq<Event>, n: nat, grace: real)
    requires n <= |es| && Run(es, n, grace).snapshot.Some?
    ensures IsMeaningful(Run(es, n, grace).snapshot.value)
  {
    StoredIsLastAccepted(es, n, grace);
    var last :| Stored(es, n, last, grace);
  }

  lemma {:induction false} StillOpenLength(ws: seq<Window>, date: Date)
    ensures |StillOpen(ws, date)| <= |ws|
  {
    if ws == [] {
    } else {
      StillOpenLength(ws[1..], date);
    }
  }

  lemma {:induction false} OpenGroupIsKept(groups: seq<Group>, date: Date, h: Group, w: Window)
    requires h in groups && |h.windows| <= 8 && w in h.windows && OpenAt(w, date)
    ensures exists g :: g in OpenGroups(groups, date) && g.key == h.key && w in g.windows
  {
    var rest := OpenGroups(groups[1..], date);
    if groups[0] == h {
      StillOpenLength(h.windows, date);
      var g := Group(h.key, h.title, h.semantics, Capped(StillOpen(h.windows, date)), None);
      assert OpenGroups(groups, date)[0] == g;
    } else {
      OpenGroupIsKept(groups[1..], date, h, w);
      var g :| g in rest && g.key == h.key && w in g.windows;
      assert g in OpenGroups(groups, date);
    }
  }

  /** When a response lacks quota, nothing that is still open is lost. */
  lemma OpenWindowsAreKept(s: Snapshot, prior: Snapshot, date: Date)
    requires Lacks(s)
    requires forall g :: g in PriorGroups(prior) ==> |g.windows| <= 8
    ensures var r := Retaining(s, Some(prior), date);
            && (forall w :: w in PriorWindows(prior) && OpenAt(w, date) ==> w in PriorWindows(r))
            && (forall h, w :: h in PriorGroups(prior) && w in h.windows && OpenAt(w, date) ==>
                  exists g :: g in PriorGroups(r) && g.key == h.key && w in g.windows)
  {
    var windows, groups := StillOpen(PriorWindows(prior), date), OpenGroups(PriorGroups(prior), date);
    forall h, w | h in PriorGroups(prior) && w in h.windows && OpenAt(w, date)
      ensures exists g :: g in groups && g.key == h.key && w in g.windows
    {
      OpenGroupIsKept(PriorGroups(prior), date, h, w);
    }
  }

  /** Retention replaces nothing a response delivered: the other providers, all that is
      known of Claude besides its quota, and every error stay. */
  lemma OnlyQuotaIsReplaced(s: Snapshot, prior: Option<Snapshot>, date: Date)
    ensures var r := Retaining(s, prior, date);
            && r.staleAfter == s.staleAfter && r.refresh == s.refresh && s.errors <= r.errors
            && r.providers.Keys == s.providers.Keys
            && (forall name :: name in s.providers && name != CLAUDE ==> r.providers[name] == s.providers[name])
            && (CLAUDE in s.providers ==>
                  var p, q := s.providers[CLAUDE], r.providers[CLAUDE];
                  && q.(quotaSource := p.quotaSource, windows := p.windows, groups := p.groups,
                        errors := p.errors, observation := p.observation) == p
                  && p.errors <= q.errors
                  && (PriorWindows(s) != [] || AnyWindows(PriorGroups(s)) ==> q == p))
  {
  }

  /** Retained quota is never shown as current: the state is stale right away, the
      provider carries the error code, and the quota source is not canonical. */
  lemma RetainedQuotaIsFlagged(s: Snapshot, current: State, date: Date, now: Date, grace: real)
    requires var r := Retaining(s, current.snapshot, date); r != s && IsMeaningful(r)
    ensures var st := Accepting(s, current, date, now, grace);
            && st.stale && st.snapshot.Some? && CLAUDE in st.snapshot.value.providers
            && var p := st.snapshot.value.providers[CLAUDE];
               RETAINED in p.errors && RETAINED in st.snapshot.value.errors
               && p.quotaSource.Some? && p.quotaSource.value.canonical == Some(false)
               && HasStaleQuota(p)
  {
    var r := Retaining(s, current.snapshot, date);
    assert Lower(NO_CURRENT) == NO_CURRENT by { LowerWord(); }
    assert HasStaleQuota(r.providers[CLAUDE]);
  }

  lemma LowerWord()
    ensures Lower(NO_CURRENT) == NO_CURRENT
  {
  }

  /** Between acceptances the snapshot stands still, and the flags say how old it is:
      within the grace period it is refreshing, after it stale with the error. */
  lemma FailuresOnlyAge(es: seq<Event>, n: nat, last: nat, grace: real)
    requires 0 < n <= |es| && Stored(es, n - 1, last, grace) && !Accepted(es, n - 1, grace)
    ensures Stored(es, n, last, grace)
    ensures var st, late := Run(es, n, grace), es[n - 1].at - es[last].at > grace;
            st.snapshot == Run(es, n - 1, grace).snapshot
            && st.stale == late && st.refreshing == !late && (st.error.Some? <==> late)
  {
    RunStep(es, n, grace);
    StoredStays(es, n, last, grace);
  }
}
