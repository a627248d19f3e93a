/** What the dashboard's rules come to in the fields of a snapshot: when a response is
    worth keeping, when it counts as stale, and when earlier quota stands in for it. */
module LastGoodRules {
  import opened Text
  import opened LastGood

  // ---- States written in words ---------------------------------------------

  /** The word `w`, which is in lower case, in any case. */
  predicate Says(a: Option<string>, w: string) {
    a.Some? && |a.value| == |w|
    && forall k :: 0 <= k < |w| ==> a.value[k] == w[k] || ('a' <= w[k] <= 'z' && a.value[k] == w[k] - 'a' + 'A')
  }

  predicate SaysOneOf(a: Option<string>, words: seq<string>) {
    exists k :: 0 <= k < |words| && Says(a, words[k])
  }

  predicate InLowerCase(w: string) {
    w != "" && forall k :: 0 <= k < |w| ==> !('A' <= w[k] <= 'Z')
  }

  lemma SaysIff(a: Option<string>, w: string)
    requires InLowerCase(w)
    ensures Says(a, w) <==> Word(a) == w
  {
    if a.Some? && Says(a, w) { assert Lower(a.value) == w; }
    if a.Some? && Lower(a.value) == w {
      forall k | 0 <= k < |w| ensures a.value[k] == w[k] || ('a' <= w[k] <= 'z' && a.value[k] == w[k] - 'a' + 'A') {
        assert Lower(a.value)[k] == w[k];
      }
    }
  }

  lemma SaysOneOfIff(a: Option<string>, words: seq<string>)
    requires forall k :: 0 <= k < |words| ==> InLowerCase(words[k])
    ensures SaysOneOf(a, words) <==> Word(a) in words
  {
    forall k | 0 <= k < |words| ensures Says(a, words[k]) <==> Word(a) == words[k] { SaysIff(a, words[k]); }
  }

  // ---- Worth keeping -------------------------------------------------------

  /** A provider that carries no data: at most where its quota is from, errors and an
      observation. */
  ghost predicate SaysNothing(p: Provider) {
    p == Provider(p.quotaSource, None, [], [], [], None, None, None, None, None, p.errors, None, p.observation, [])
  }

  /** A response is worth keeping when it is no error envelope and some provider carries
      data. */
  lemma MeaningfulIff(s: Snapshot)
    ensures IsMeaningful(s)
       <==> !SaysOneOf(s.refresh, ["error", "unavailable"])
            && exists name :: name in s.providers && !SaysNothing(s.providers[name])
  {
    SaysOneOfIff(s.refresh, ["error", "unavailable"]);
    forall name | name in s.providers
      ensures HasMeaningfulData(s.providers[name]) <==> !SaysNothing(s.providers[name])
    {
    }
  }

  // ---- Stale ---------------------------------------------------------------

  /** The observations of a provider that make a snapshot stale. */
  const STALE: seq<string> :=
    ["stale", "stale_last_good", "stale_last_good_no_current_windows", "quota_observation_expired",
     "quota_observation_unavailable"]

  lemma StaleWords()
    ensures forall k :: 0 <= k < |STALE| ==> InLowerCase(STALE[k])
    ensures InLowerCase("unavailable") && InLowerCase("stale_refreshing") && InLowerCase("stale")
  {
    ShortWords();
    LongWords();
    forall k | 0 <= k < |STALE| ensures InLowerCase(STALE[k]) {
      if k == 0 || k == 1 { } else if k == 2 { } else { assert k == 3 || k == 4; }
    }
  }

  lemma ShortWords()
    ensures InLowerCase("unavailable") && InLowerCase("stale_refreshing") && InLowerCase("stale")
    ensures InLowerCase("stale_last_good")
  {
  }

  lemma LongWords()
    ensures InLowerCase("stale_last_good_no_current_windows") && InLowerCase("quota_observation_expired")
    ensures InLowerCase("quota_observation_unavailable")
  {
  }

  ghost predicate ProviderIsStale(p: Provider) {
    || SaysOneOf(p.observation, STALE)
    || exists q :: q in p.profiles && (SaysOneOf(q.observation, STALE) || Says(q.observation, "unavailable"))
  }

  lemma ProviderIsStaleIff(p: Provider)
    ensures HasStaleQuota(p) <==> ProviderIsStale(p)
  {
    StaleWords();
    SaysOneOfIff(p.observation, STALE);
    forall q | q in p.profiles
      ensures StaleProfile(q) <==> SaysOneOf(q.observation, STALE) || Says(q.observation, "unavailable")
    {
      SaysOneOfIff(q.observation, STALE);
      SaysIff(q.observation, "unavailable");
    }
  }

  /** A snapshot is stale when its producer says so, its time is up, or an observation of
      some provider or account is. */
  lemma StaleIff(s: Snapshot, now: Date)
    ensures IsProducerStale(s, now)
       <==> SaysOneOf(s.refresh, ["stale", "stale_refreshing"]) || (s.staleAfter.Some? && s.staleAfter.value <= now)
            || exists name :: name in s.providers && ProviderIsStale(s.providers[name])
  {
    StaleWords();
    SaysOneOfIff(s.refresh, ["stale", "stale_refreshing"]);
    forall name | name in s.providers
      ensures HasStaleQuota(s.providers[name]) <==> ProviderIsStale(s.providers[name])
    {
      ProviderIsStaleIff(s.providers[name]);
    }
  }

  /** The state behind an accepted response, read off the snapshot that is stored. */
  lemma AcceptedState(es: seq<Event>, n: nat, grace: real)
    requires 0 < n <= |es| && Accepted(es, n - 1, grace)
    ensures var st, e := Run(es, n, grace), es[n - 1];
            && st.snapshot.Some? && st.error == None && st.lastGoodAt == Some(e.at)
            && var s := st.snapshot.value;
               && (st.refreshing <==> s.refresh == Some("stale_refreshing"))
               && (st.stale <==>
                     SaysOneOf(s.refresh, ["stale", "stale_refreshing"])
                     || (s.staleAfter.Some? && s.staleAfter.value <= e.now)
                     || exists name :: name in s.providers && ProviderIsStale(s.providers[name]))
  {
    RunStep(es, n, grace);
    StaleIff(Run(es, n, grace).snapshot.value, es[n - 1].now);
  }

  /** The state behind a refresh that brought nothing: what is stored stays, and what went
      wrong is said once it is too old, or if nothing is stored. */
  lemma FailedState(es: seq<Event>, n: nat, grace: real)
    requires 0 < n <= |es| && !Accepted(es, n - 1, grace)
    ensures var before, st, e := Run(es, n - 1, grace), Run(es, n, grace), es[n - 1];
            var message := if e.Failure? then e.message else "Usage refresh returned no meaningful provider data.";
            var late := before.lastGoodAt.None? || e.at - before.lastGoodAt.value > grace;
            if before.snapshot.None? then st == State(None, true, false, Some(message), None)
            else st == State(before.snapshot, late, !late, if late then Some(message) else None, before.lastGoodAt)
  {
    RunStep(es, n, grace);
  }

  // ---- Standing in ---------------------------------------------------------

  /** No quota window, of its own, in a group or of an account. */
  ghost predicate NoWindows(p: Provider) {
    && p.windows == [] && (forall g :: g in p.groups ==> g.windows == [])
    && forall q :: q in p.profiles ==> q.windows == [] && forall g :: g in q.groups ==> g.windows == []
  }

  /** The quota is gone for a reason. */
  ghost predicate Cleared(p: Provider) {
    || SaysOneOf(p.observation, ["expired", "quota_observation_expired"])
    || (p.account.Some? && p.account.value.status.Some?
        && var status := Lower(p.account.value.status.value);
           Contains(status, "expired") || Contains(status, "sign_out") || Contains(status, "signed_out"))
  }

  ghost predicate HasOpenWindow(prior: Snapshot, date: Date) {
    && "claude" in prior.providers
    && var p := prior.providers["claude"];
       || (exists w :: w in p.windows && w.resetsAt.Some? && w.resetsAt.value > date)
       || exists g, w :: g in p.groups && w in g.windows && w.resetsAt.Some? && w.resetsAt.value > date
  }

  lemma LacksIff(s: Snapshot)
    ensures Lacks(s)
       <==> "claude" in s.providers && s.providers["claude"].account.Some?
            && s.providers["claude"].account.value.authenticated == Some(true)
            && NoWindows(s.providers["claude"]) && !Cleared(s.providers["claude"])
  {
    if "claude" in s.providers {
      var p := s.providers["claude"];
      assert InLowerCase("expired") && InLowerCase("quota_observation_expired");
      SaysOneOfIff(p.observation, ["expired", "quota_observation_expired"]);
      NothingInNothing();
      assert HasQuotaWindows(p) <==> !NoWindows(p);
      assert ClearsQuota(p) <==> Cleared(p);
    }
  }

  lemma NothingInNothing()
    ensures !Contains("", "expired") && !Contains("", "sign_out") && !Contains("", "signed_out")
  {
  }

  /** Earlier quota stands in for a response exactly when that is signed in, has no window
      at all and no reason for it, and an earlier window is still open. */
  lemma RetainsIff(s: Snapshot, prior: Option<Snapshot>, date: Date)
    ensures Retaining(s, prior, date) != s
       <==> prior.Some? && HasOpenWindow(prior.value, date)
            && "claude" in s.providers && s.providers["claude"].account.Some?
            && s.providers["claude"].account.value.authenticated == Some(true)
            && NoWindows(s.providers["claude"]) && !Cleared(s.providers["claude"])
  {
    LacksIff(s);
    if prior.Some? && Lacks(s) {
      OpenIff(prior.value, date);
      Differs(s, prior.value, date);
    }
  }

  lemma {:induction false} OpenGroupsIff(groups: seq<Group>, date: Date)
    ensures OpenGroups(groups, date) != [] <==> exists g, w :: g in groups && w in g.windows && OpenAt(w, date)
    ensures forall g :: g in OpenGroups(groups, date) ==> g.windows != []
  {
    if groups == [] {
    } else {
      OpenGroupsIff(groups[1..], date);
      assert groups == [groups[0]] + groups[1..];
      var open := StillOpen(groups[0].windows, date);
      if open != [] { assert open[0] in groups[0].windows && OpenAt(open[0], date); }
    }
  }

  lemma OpenIff(prior: Snapshot, date: Date)
    ensures StillOpen(PriorWindows(prior), date) != [] || OpenGroups(PriorGroups(prior), date) != []
       <==> HasOpenWindow(prior, date)
  {
    StillOpenIff(PriorWindows(prior), date);
    OpenGroupsIff(PriorGroups(prior), date);
    if w :| w in PriorWindows(prior) && OpenAt(w, date) { assert HasOpenWindow(prior, date); }
    if g, w :| g in PriorGroups(prior) && w in g.windows && OpenAt(w, date) { assert HasOpenWindow(prior, date); }
    if HasOpenWindow(prior, date) {
      var p := prior.providers["claude"];
      if w :| w in p.windows && w.resetsAt.Some? && w.resetsAt.value > date {
        assert w in PriorWindows(prior) && OpenAt(w, date);
      } else {
        var g, w :| g in p.groups && w in g.windows && w.resetsAt.Some? && w.resetsAt.value > date;
        assert g in PriorGroups(prior) && OpenAt(w, date);
      }
    }
  }

  lemma StillOpenIff(ws: seq<Window>, date: Date)
    ensures StillOpen(ws, date) != [] <==> exists w :: w in ws && OpenAt(w, date)
  {
    var open := StillOpen(ws, date);
    if open != [] { assert open[0] in open; }
    if w :| w in ws && OpenAt(w, date) { assert w in open; }
  }

  lemma Differs(s: Snapshot, prior: Snapshot, date: Date)
    requires Lacks(s)
    ensures StillOpen(PriorWindows(prior), date) != [] || OpenGroups(PriorGroups(prior), date) != []
       <==> Retaining(s, Some(prior), date) != s
  {
    var windows, groups := StillOpen(PriorWindows(prior), date), OpenGroups(PriorGroups(prior), date);
    OpenGroupsIff(PriorGroups(prior), date);
    if windows != [] || groups != [] {
      var p := Retaining(s, Some(prior), date).providers[CLAUDE];
      assert p.windows == windows && p.groups == groups;
      if groups != [] { assert groups[0] in groups && groups[0].windows != []; }
    }
  }

  // ---- What stands in ------------------------------------------------------

  /** Filtering goes window by window and keeps the order. */
  lemma {:induction false} StillOpenOfParts(a: seq<Window>, b: seq<Window>, date: Date)
    ensures StillOpen(a + b, date) == StillOpen(a, date) + StillOpen(b, date)
  {
    if a == [] {
      assert a + b == b;
    } else {
      StillOpenOfParts(a[1..], b, date);
      assert (a + b)[1..] == a[1..] + b;
      Regroup(if OpenAt(a[0], date) then [a[0]] else [], StillOpen(a[1..], date), StillOpen(b, date));
    }
  }

  lemma StillOpenOfOne(w: Window, date: Date)
    ensures StillOpen([w], date) == if w.resetsAt.Some? && w.resetsAt.value > date then [w] else []
  {
  }

  /** One group: its open windows, at most eight, under the same name and without a
      forecast; and none if no window is open. */
  lemma {:induction false} OpenGroupsOfParts(a: seq<Group>, b: seq<Group>, date: Date)
    ensures OpenGroups(a + b, date) == OpenGroups(a, date) + OpenGroups(b, date)
  {
    if a == [] {
      assert a + b == b;
    } else {
      var open := StillOpen(a[0].windows, date);
      var shown := Group(a[0].key, a[0].title, a[0].semantics, Capped(open), None);
      OpenGroupsOfParts(a[1..], b, date);
      assert (a + b)[1..] == a[1..] + b;
      Regroup([shown], OpenGroups(a[1..], date), OpenGroups(b, date));
    }
  }

  lemma OpenGroupsOfOne(g: Group, date: Date)
    ensures var open := StillOpen(g.windows, date);
            var shown := Group(g.key, g.title, g.semantics, if |open| > 8 then open[..8] else open, None);
            OpenGroups([g], date) == if open == [] then [] else [shown]
  {
  }

  /** The entry under which earlier quota stands in: all of the response's own, but for the
      windows, groups, the source they are from, the observation and one more error. */
  lemma RetainedEntry(s: Snapshot, prior: Snapshot, date: Date)
    requires Retaining(s, Some(prior), date) != s
    ensures var r, code := Retaining(s, Some(prior), date), "claude_quota_windows_retained_last_good";
            && "claude" in s.providers && "claude" in prior.providers
            && var p, was := s.providers["claude"], prior.providers["claude"];
               var source := QuotaSource(
                 if was.quotaSource.Some? then was.quotaSource.value.kind else None, Some(false),
                 if was.quotaSource.Some? then was.quotaSource.value.title else None,
                 Some(WARNING));
               && r.providers == s.providers["claude" := p.(
                    quotaSource := Some(source), windows := StillOpen(was.windows, date),
                    groups := OpenGroups(was.groups, date),
                    errors := if code in p.errors then p.errors else p.errors + [code],
                    observation := Some("stale_last_good_no_current_windows"))]
               && r.errors == if code in s.errors then s.errors else s.errors + [code]
  {
  }
}
