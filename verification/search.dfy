/** One domain search (`find_valid_emails`): build the candidate set, probe
    every candidate, and report the first probe, in completion order, that
    found a deliverable address. The probes' environment is a function from
    address to MX resolution; the completion order is an input. */
module Search {
  import opened PyStr
  import opened Sequences
  import opened ScoutConfig
  import opened Candidates
  import opened Smtp

  const NotFoundMessage: string := "No valid email found"

  /** A probe result that ends the search. */
  predicate Found(r: ProbeResult)
  {
    r.status == Valid || r.status == Risky
  }

  /** The result returned when no probe found an address. */
  function Sentinel(domain: string): (r: ProbeResult)
    ensures !Found(r) && r.email == None && r.domain == domain
  {
    ProbeResult(None, Invalid, false, NotFoundMessage, "", domain, "", 0, 0)
  }

  /** The reference selection: the first found result, or the sentinel. It
      never makes up a result. */
  function SelectResult(results: seq<ProbeResult>, domain: string): (r: ProbeResult)
    ensures r in results || r == Sentinel(domain)
    decreases |results|
  {
    if results == [] then Sentinel(domain)
    else if Found(results[0]) then results[0]
    else SelectResult(results[1..], domain)
  }

  /** The selection is found exactly when some result is; it is then the
      first found result, and otherwise the sentinel. */
  lemma {:induction false} SelectResultFacts(results: seq<ProbeResult>, domain: string)
    ensures var r := SelectResult(results, domain);
            && (Found(r) <==> exists i :: 0 <= i < |results| && Found(results[i]))
            && (!Found(r) ==> r == Sentinel(domain))
            && (Found(r) ==> exists k :: 0 <= k < |results| && r == results[k]
                                         && forall j :: 0 <= j < k ==> !Found(results[j]))
    decreases |results|
  {
    if results != [] && !Found(results[0]) {
      var tail := results[1..];
      SelectResultFacts(tail, domain);
      var r := SelectResult(tail, domain);
      assert forall i :: 1 <= i < |results| ==> results[i] == tail[i - 1];
      if Found(r) {
        var k :| 0 <= k < |tail| && r == tail[k] && forall j :: 0 <= j < k ==> !Found(tail[j]);
        assert r == results[k + 1];
      }
    }
  }

  /** Every address holds an `@`, so `check_smtp` can take its domain. */
  predicate Probeable(addresses: seq<string>)
  {
    forall i :: 0 <= i < |addresses| ==> HasDomain(addresses[i])
  }

  /** The probe results in completion order. */
  function Results(cfg: Config, world: string -> Resolution, order: seq<string>): (r: seq<ProbeResult>)
    requires Probeable(order)
    ensures |r| == |order|
    ensures forall i :: 0 <= i < |order| ==> r[i] == CheckSmtp(cfg, order[i], world(order[i]))
  {
    seq(|order|, i requires 0 <= i < |order| => CheckSmtp(cfg, order[i], world(order[i])))
  }

  /** Every candidate of a search holds an `@`. */
  lemma CandidatesProbeable(cfg: Config, domain: string, names: Names)
    requires CandidateSet(cfg, domain, names).Ok?
    ensures Probeable(CandidateSet(cfg, domain, names).value)
  {
    var c := CandidateSet(cfg, domain, names).value;
    forall i | 0 <= i < |c| ensures HasDomain(c[i]) {
      var e := c[i];
      assert EndsWith(e, "@" + domain);
      assert e[|e| - |domain| - 1] == ("@" + domain)[0];
      SplitSeveral(e, '@');
    }
  }

  /** Whatever order the probes complete in, every address in it can be
      probed. */
  lemma CompletionOrderProbeable(cfg: Config, domain: string, names: Names, order: seq<string>)
    requires CandidateSet(cfg, domain, names).Ok?
    requires IsCompletionOrder(order, CandidateSet(cfg, domain, names).value)
    ensures Probeable(CandidateSet(cfg, domain, names).value) && Probeable(order)
  {
    CandidatesProbeable(cfg, domain, names);
    OrderProbeable(order, CandidateSet(cfg, domain, names).value);
  }

  /** Probing a candidate `local@domain` reports that domain and the local
      part as display name. */
  lemma ProbeOfAddress(cfg: Config, local: string, domain: string, dns: Resolution)
    requires '@' !in local && '@' !in domain
    ensures HasDomain(Address(local, domain))
    ensures var r := CheckSmtp(cfg, Address(local, domain), dns);
            r.domain == domain && r.userName == Title(ReplaceChar(local, '.', ' '))
  {
    AddressSplits(local, domain);
  }

  /** A completion order is a permutation of the candidates: every future
      completes exactly once. */
  predicate IsCompletionOrder(order: seq<string>, candidates: seq<string>)
  {
    multiset(order) == multiset(candidates)
  }

  /** `find_valid_emails(domain, names)`: `IndexError` from the pattern
      builder propagates; otherwise the first found probe in completion
      order, else the sentinel. Every completion order of the candidates is
      probeable (`CompletionOrderProbeable`); what the selection means for
      the candidates is `SearchOverCandidates`. */
  method FindValidEmails(cfg: Config, domain: string, names: Names, world: string -> Resolution, order: seq<string>)
    returns (r: Outcome<ProbeResult>)
    requires CandidateSet(cfg, domain, names).Ok? ==> IsCompletionOrder(order, CandidateSet(cfg, domain, names).value)
    ensures r.IndexError? <==> CandidateSet(cfg, domain, names).IndexError?
    ensures r.Ok? ==> Probeable(order) && r.value == SelectResult(Results(cfg, world, order), domain)
  {
    var cands := CandidateSet(cfg, domain, names);
    if cands.IndexError? {
      return IndexError;
    }
    CompletionOrderProbeable(cfg, domain, names, order);
    var found := FirstFound(cfg, domain, world, order);
    r := Ok(found);
  }

  /** The consuming loop over completed probes: stop at the first found
      result. */
  method FirstFound(cfg: Config, domain: string, world: string -> Resolution, order: seq<string>)
    returns (r: ProbeResult)
    requires Probeable(order)
    ensures r == SelectResult(Results(cfg, world, order), domain)
  {
    var results := Results(cfg, world, order);
    var i := 0;
    while i < |order|
      invariant 0 <= i <= |order|
      invariant SelectResult(results, domain) == SelectResult(results[i..], domain)
    {
      var probe := CheckSmtp(cfg, order[i], world(order[i]));
      if Found(probe) {
        assert results[i..][0] == probe;
        return probe;
      }
      assert results[i..][1..] == results[i + 1..];
      i := i + 1;
    }
    return Sentinel(domain);
  }

  /** Over the candidates of a search, whatever the completion order: the
      search finds an address exactly when some candidate's probe is valid
      or risky, and then returns that candidate's own probe; otherwise the
      sentinel. */
  lemma SearchOverCandidates(cfg: Config, domain: string, names: Names, world: string -> Resolution, order: seq<string>)
    requires CandidateSet(cfg, domain, names).Ok?
    requires IsCompletionOrder(order, CandidateSet(cfg, domain, names).value)
    ensures Probeable(order)
    ensures var c := CandidateSet(cfg, domain, names).value;
            var r := SelectResult(Results(cfg, world, order), domain);
            && (Found(r) <==> exists e :: e in c && HasDomain(e) && Found(CheckSmtp(cfg, e, world(e))))
            && (Found(r) ==> exists e :: e in c && HasDomain(e) && r == CheckSmtp(cfg, e, world(e)) && r.email == Some(e))
            && (!Found(r) ==> r == Sentinel(domain))
  {
    CompletionOrderProbeable(cfg, domain, names, order);
    SelectionOverCandidates(cfg, domain, world, order, CandidateSet(cfg, domain, names).value);
  }

  /** The selection over a permutation of some addresses, in their terms. */
  lemma SelectionOverCandidates(cfg: Config, domain: string, world: string -> Resolution,
                                order: seq<string>, candidates: seq<string>)
    requires Probeable(order) && IsCompletionOrder(order, candidates)
    ensures var r := SelectResult(Results(cfg, world, order), domain);
            && (Found(r) <==> exists e :: e in candidates && HasDomain(e) && Found(CheckSmtp(cfg, e, world(e))))
            && (Found(r) ==> exists e :: e in candidates && HasDomain(e)
                                         && r == CheckSmtp(cfg, e, world(e)) && r.email == Some(e))
            && (!Found(r) ==> r == Sentinel(domain))
  {
    var results := Results(cfg, world, order);
    var r := SelectResult(results, domain);
    SelectResultFacts(results, domain);
    OrderCoversCandidates(cfg, world, order, candidates);
    if Found(r) {
      var k :| 0 <= k < |results| && r == results[k] && forall j :: 0 <= j < k ==> !Found(results[j]);
      FoundInCandidates(cfg, world, order, candidates, k);
    }
  }

  /** A completion order holds only candidates, so every entry can be
      probed. */
  lemma OrderProbeable(order: seq<string>, candidates: seq<string>)
    requires Probeable(candidates)
    requires IsCompletionOrder(order, candidates)
    ensures Probeable(order)
  {
    forall i | 0 <= i < |order| ensures HasDomain(order[i]) {
      assert order[i] in multiset(candidates);
    }
  }

  /** A found probe in the order is a found probe of some candidate. */
  lemma FoundInCandidates(cfg: Config, world: string -> Resolution, order: seq<string>, candidates: seq<string>, i: nat)
    requires IsCompletionOrder(order, candidates) && Probeable(order)
    requires i < |order| && Found(CheckSmtp(cfg, order[i], world(order[i])))
    ensures var e := order[i];
            && e in candidates && HasDomain(e) && Found(CheckSmtp(cfg, e, world(e)))
            && CheckSmtp(cfg, e, world(e)).email == Some(e)
  {
    assert order[i] in multiset(candidates);
  }

  /** Over a permutation of the candidates, some probe is found exactly when
      some candidate's probe is found, whatever the order. */
  lemma OrderCoversCandidates(cfg: Config, world: string -> Resolution, order: seq<string>, candidates: seq<string>)
    requires IsCompletionOrder(order, candidates) && Probeable(order)
    ensures (exists i :: 0 <= i < |order| && Found(CheckSmtp(cfg, order[i], world(order[i]))))
        <==> (exists e :: e in candidates && HasDomain(e) && Found(CheckSmtp(cfg, e, world(e))))
  {
    if exists e :: e in candidates && HasDomain(e) && Found(CheckSmtp(cfg, e, world(e))) {
      var e :| e in candidates && HasDomain(e) && Found(CheckSmtp(cfg, e, world(e)));
      assert e in multiset(order);
      var i :| 0 <= i < |order| && order[i] == e;
    }
    if exists i :: 0 <= i < |order| && Found(CheckSmtp(cfg, order[i], world(order[i]))) {
      var i :| 0 <= i < |order| && Found(CheckSmtp(cfg, order[i], world(order[i])));
      assert order[i] in multiset(candidates);
    }
  }
}
