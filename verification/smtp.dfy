/** The SMTP probe of one address (`check_smtp`) and the catch-all detector
    (`is_catch_all`), over abstract outcomes: the MX lookup and every SMTP
    dialogue are inputs, so the model is the decision logic and the
    counters, not the transport. */
module Smtp {
  import opened PyStr
  import opened ScoutConfig

  datatype Option<T> = None | Some(value: T)

  datatype Status = Valid | Risky | Invalid

  /** The text of an RCPT reply, or reply bytes that `decode()` rejects. */
  datatype ReplyText = Text(text: string) | Undecodable

  /** How the dialogue with one MX host ended. */
  datatype Dialogue =
    | Unreachable                        // opening the connection raised
    | DroppedBeforeMail                  // connected; EHLO or MAIL raised
    | DroppedAtRcpt                      // MAIL accepted; RCPT raised
    | Replied(code: int, text: ReplyText) // RCPT answered

  /** The catch-all detector's own dialogue with the host: the RCPT code
      for a made-up user, or any failure on the way. */
  datatype CatchAllProbe = ProbeReplied(code: int) | ProbeFailed

  /** One MX record as resolved, with what its dialogues will do. */
  datatype MxRecord = MxRecord(exchange: string, dialogue: Dialogue, probe: CatchAllProbe)

  /** The MX lookup: an error (its text as `str(e)`) or the records in order. */
  datatype Resolution = DnsFailed(error: string) | Resolved(records: seq<MxRecord>)

  /** The result dictionary, without `time_exec`. */
  datatype ProbeResult = ProbeResult(
    email: Option<string>,
    status: Status,
    catchAll: bool,
    message: string,
    userName: string,
    domain: string,
    mx: string,
    connections: nat,
    verOps: nat)

  const AllFailedMessage: string := "SMTP failed for all MX records & ports"
  const RejectedPrefix: string := "Rejected: "
  const CatchAllMessage: string := "Catch-All"

  /** `is_catch_all`: the server accepts a made-up recipient; any failure
      counts as "not catch-all". */
  function IsCatchAll(p: CatchAllProbe): (r: bool)
    ensures r <==> p == ProbeReplied(250)
  {
    match p
    case ProbeReplied(code) => code == 250
    case ProbeFailed => false
  }

  /** The host name of an MX record: the exchange without trailing dots. */
  function HostName(exchange: string): (r: string)
    ensures !EndsWith(r, ".")
    ensures StartsWith(exchange, r)
  {
    var r := RStrip(exchange, {'.'});
    assert r == exchange[..|r|];
    r
  }

  /** The display name: the local part with dots as spaces, title-cased. */
  function UserName(email: string): (r: string)
    ensures |r| == |Split(email, '@')[0]|
  {
    Title(ReplaceChar(Split(email, '@')[0], '.', ' '))
  }

  /** Whether `email.split('@')[1]` exists, that is, the address holds an
      `@` (see `PyStr.SplitSeveral`). */
  predicate HasDomain(email: string)
  {
    |Split(email, '@')| >= 2
  }

  /** Each letter of `u` is upper-case exactly when the letter at the same
      place of `local` starts a word, that is, follows a non-letter or
      nothing. */
  predicate WordCapitals(local: string, u: string)
    requires |u| == |local|
  {
    forall i :: 0 <= i < |local| && IsCased(local[i]) ==> (IsUpper(u[i]) <==> i == 0 || !IsCased(local[i - 1]))
  }

  /** The display name keeps the local part's layout: each dot becomes a
      space, other non-letters stay, and a letter is upper-case exactly when
      it starts a word. */
  lemma UserNameWords(email: string)
    ensures '.' !in UserName(email)
    ensures var local := Split(email, '@')[0];
            forall i :: 0 <= i < |local| && local[i] == '.' ==> UserName(email)[i] == ' '
    ensures var local := Split(email, '@')[0];
            forall i :: 0 <= i < |local| && local[i] != '.' && !IsCased(local[i]) ==> UserName(email)[i] == local[i]
    ensures WordCapitals(Split(email, '@')[0], UserName(email))
  {
    DotsToWords(Split(email, '@')[0], UserName(email));
  }

  /** The display name keeps the local part's letters: apart from the dots,
      each character is the local part's own up to case. */
  lemma UserNameLetters(email: string)
    ensures var local := Split(email, '@')[0];
            forall i :: 0 <= i < |local| && local[i] != '.' ==> LowerChar(UserName(email)[i]) == LowerChar(local[i])
  {
    var local := Split(email, '@')[0];
    var spaced := ReplaceChar(local, '.', ' ');
    var u := UserName(email);
    assert u == Title(spaced);
    forall i | 0 <= i < |local| && local[i] != '.'
      ensures LowerChar(u[i]) == LowerChar(local[i])
    {
      assert spaced[i] == local[i];
    }
  }

  lemma DotsToWords(local: string, r: string)
    requires r == Title(ReplaceChar(local, '.', ' '))
    ensures && '.' !in r
            && (forall i :: 0 <= i < |local| && local[i] == '.' ==> r[i] == ' ')
            && (forall i :: 0 <= i < |local| && local[i] != '.' && !IsCased(local[i]) ==> r[i] == local[i])
            && WordCapitals(local, r)
  {
    var spaced := ReplaceChar(local, '.', ' ');
    forall i | 0 <= i < |local| && IsCased(local[i])
      ensures IsUpper(r[i]) <==> i == 0 || !IsCased(local[i - 1])
    {
      assert IsCased(spaced[i]);
      if i > 0 { assert IsCased(spaced[i - 1]) == IsCased(local[i - 1]); }
    }
    forall i | 0 <= i < |r| ensures r[i] != '.' {
      if !IsCased(spaced[i]) { assert r[i] == spaced[i]; }
    }
  }

  /** The domain part `email.split('@')[1]`. */
  function DomainOf(email: string): (r: string)
    requires HasDomain(email)
    ensures '@' !in r
  {
    SplitPiecesFree(email, '@');
    Split(email, '@')[1]
  }

  /** Whether this host's dialogue produces the result: a reply whose message
      can be built, that is, a catch-all verdict (no decoding needed) or a
      decodable reply text. */
  predicate Decisive(cfg: Config, h: MxRecord)
  {
    h.dialogue.Replied?
    && ((h.dialogue.code == 250 && cfg.checkCatchAll && IsCatchAll(h.probe)) || h.dialogue.text.Text?)
  }

  /** `connections` added by a host that does not decide: the handler adds
      one more to the one counted on connecting, if it connected. */
  function FailedConnections(d: Dialogue): nat
  {
    if d.Unreachable? then 1 else 2
  }

  /** `ver_ops` added by a host that does not decide: one after MAIL, one
      after RCPT. */
  function FailedVerOps(d: Dialogue): nat
  {
    match d
    case Unreachable => 0
    case DroppedBeforeMail => 0
    case DroppedAtRcpt => 1
    case Replied(_, _) => 2
  }

  /** Total counters over hosts that did not decide. */
  function SumConnections(hosts: seq<MxRecord>): nat
  {
    if hosts == [] then 0 else FailedConnections(hosts[0].dialogue) + SumConnections(hosts[1..])
  }

  function SumVerOps(hosts: seq<MxRecord>): nat
  {
    if hosts == [] then 0 else FailedVerOps(hosts[0].dialogue) + SumVerOps(hosts[1..])
  }

  /** The result a decisive host gives, with the counters reached before it:
      its own connection and its MAIL and RCPT steps are added. */
  function Decision(cfg: Config, email: string, domain: string, h: MxRecord, connections: nat, verOps: nat)
    : (r: ProbeResult)
    requires Decisive(cfg, h)
    ensures r.connections == connections + 1 && r.verOps == verOps + 2
    ensures r.domain == domain && r.userName == UserName(email)
  {
    var code := h.dialogue.code;
    var catchAll := code == 250 && cfg.checkCatchAll && IsCatchAll(h.probe);
    var status := if code != 250 then Invalid else if catchAll then Risky else Valid;
    var message := if catchAll then CatchAllMessage else IntToString(code) + " " + h.dialogue.text.text;
    ProbeResult(Some(email), status, catchAll, message, UserName(email), domain,
                HostName(h.exchange), connections + 1, verOps + 2)
  }

  /** A decisive host's verdict: 250 is risky exactly when catch-all
      checking is on and the detector says so, and valid otherwise; any
      other code is invalid; the message is "Catch-All" or the code and the
      reply text, never the all-failed message. */
  lemma DecisionFacts(cfg: Config, email: string, domain: string, h: MxRecord, connections: nat, verOps: nat)
    requires Decisive(cfg, h)
    ensures var r := Decision(cfg, email, domain, h, connections, verOps);
            var code := h.dialogue.code;
            && r.email == Some(email) && r.mx == HostName(h.exchange)
            && (r.status == Risky <==> (code == 250 && cfg.checkCatchAll && IsCatchAll(h.probe)))
            && (r.status == Valid <==> (code == 250 && !(cfg.checkCatchAll && IsCatchAll(h.probe))))
            && (r.status == Invalid <==> code != 250)
            && (r.catchAll || (h.dialogue.text.Text? && r.message == IntToString(code) + " " + h.dialogue.text.text))
            && (r.catchAll <==> r.status == Risky)
            && (r.catchAll ==> r.message == CatchAllMessage)
            && r.message != AllFailedMessage
  {
    var r := Decision(cfg, email, domain, h, connections, verOps);
    assert r.message[0] != AllFailedMessage[0];
  }

  /** The result when the MX lookup raised: invalid, with no host and no
      counters, and the error's text after "Rejected: ". */
  function Rejected(email: string, domain: string, error: string): (r: ProbeResult)
    ensures r.email == Some(email) && r.status == Invalid && !r.catchAll && r.mx == ""
    ensures r.connections == 0 && r.verOps == 0
    ensures StartsWith(r.message, RejectedPrefix) && r.message[|RejectedPrefix|..] == error
  {
    ProbeResult(Some(email), Invalid, false, RejectedPrefix + error, UserName(email), domain, "", 0, 0)
  }

  /** The result when every host failed: invalid, with no host, the
      all-failed message and the counters reached. */
  function AllFailed(email: string, domain: string, connections: nat, verOps: nat): (r: ProbeResult)
    ensures r.email == Some(email) && r.status == Invalid && !r.catchAll && r.mx == ""
    ensures r.message == AllFailedMessage && r.connections == connections && r.verOps == verOps
  {
    ProbeResult(Some(email), Invalid, false, AllFailedMessage, UserName(email), domain, "", connections, verOps)
  }

  /** The `for mx in mx_hosts` loop from the counters reached so far. */
  function ProbeHosts(cfg: Config, email: string, domain: string, hosts: seq<MxRecord>, connections: nat, verOps: nat)
    : (r: ProbeResult)
    ensures r.email == Some(email) && r.domain == domain && r.userName == UserName(email)
    ensures r.status == Risky <==> r.catchAll
    ensures r.catchAll ==> cfg.checkCatchAll && r.message == CatchAllMessage
    ensures r.connections >= connections && r.verOps >= verOps
    ensures r.verOps - verOps <= 2 * (r.connections - connections)
    ensures hosts != [] ==> r.connections > connections
    decreases |hosts|
  {
    if hosts == [] then AllFailed(email, domain, connections, verOps)
    else
      var h := hosts[0];
      match h.dialogue
      case Unreachable => ProbeHosts(cfg, email, domain, hosts[1..], connections + 1, verOps)
      case DroppedBeforeMail => ProbeHosts(cfg, email, domain, hosts[1..], connections + 2, verOps)
      case DroppedAtRcpt => ProbeHosts(cfg, email, domain, hosts[1..], connections + 2, verOps + 1)
      case Replied(code, text) =>
        if Decisive(cfg, h) then Decision(cfg, email, domain, h, connections, verOps)
        else ProbeHosts(cfg, email, domain, hosts[1..], connections + 2, verOps + 2)
  }

  /** `check_smtp(email)`; the source needs an `@` in the address, since it
      takes the domain before its `try`. */
  function CheckSmtp(cfg: Config, email: string, dns: Resolution): (r: ProbeResult)
    requires HasDomain(email)
    ensures r.email == Some(email) && r.domain == DomainOf(email) && r.userName == UserName(email)
    ensures r.status == Risky <==> r.catchAll
    ensures r.verOps <= 2 * r.connections
  {
    match dns
    case DnsFailed(e) => Rejected(email, DomainOf(email), e)
    case Resolved(records) => ProbeHosts(cfg, email, DomainOf(email), records, 0, 0)
  }

  // ---------------------------------------------------------------------
  // The loop against a reference: the first decisive host decides
  // ---------------------------------------------------------------------

  /** A host that does not decide only adds its counters. */
  lemma FailedHostStep(cfg: Config, email: string, domain: string,
                       hosts: seq<MxRecord>, connections: nat, verOps: nat)
    requires hosts != [] && !Decisive(cfg, hosts[0])
    ensures ProbeHosts(cfg, email, domain, hosts, connections, verOps)
         == ProbeHosts(cfg, email, domain, hosts[1..],
                       connections + FailedConnections(hosts[0].dialogue), verOps + FailedVerOps(hosts[0].dialogue))
  {
  }

  /** The counters of a prefix: its first host's plus the rest's. */
  lemma SumPrefixStep(hosts: seq<MxRecord>, k: nat)
    requires 0 < k <= |hosts|
    ensures SumConnections(hosts[..k]) == FailedConnections(hosts[0].dialogue) + SumConnections(hosts[1..][..k - 1])
    ensures SumVerOps(hosts[..k]) == FailedVerOps(hosts[0].dialogue) + SumVerOps(hosts[1..][..k - 1])
  {
    assert hosts[..k][1..] == hosts[1..][..k - 1];
  }

  /** Hosts that do not decide are skipped, adding only their counters. */
  lemma {:induction false} SkipFailedHosts(cfg: Config, email: string, domain: string,
                                           hosts: seq<MxRecord>, connections: nat, verOps: nat, k: nat)
    requires k <= |hosts|
    requires forall j :: 0 <= j < k ==> !Decisive(cfg, hosts[j])
    ensures ProbeHosts(cfg, email, domain, hosts, connections, verOps)
         == ProbeHosts(cfg, email, domain, hosts[k..],
                       connections + SumConnections(hosts[..k]), verOps + SumVerOps(hosts[..k]))
    decreases k
  {
    if k > 0 {
      var h := hosts[0];
      FailedHostStep(cfg, email, domain, hosts, connections, verOps);
      forall j | 0 <= j < k - 1 ensures !Decisive(cfg, hosts[1..][j]) {
        assert hosts[1..][j] == hosts[j + 1];
      }
      var c1, v1 := connections + FailedConnections(h.dialogue), verOps + FailedVerOps(h.dialogue);
      SkipFailedHosts(cfg, email, domain, hosts[1..], c1, v1, k - 1);
      assert hosts[1..][k - 1..] == hosts[k..];
      SumPrefixStep(hosts, k);
      assert c1 + SumConnections(hosts[1..][..k - 1]) == connections + SumConnections(hosts[..k]);
      assert v1 + SumVerOps(hosts[1..][..k - 1]) == verOps + SumVerOps(hosts[..k]);
    } else {
      assert hosts[..0] == [] && hosts[0..] == hosts;
    }
  }

  /** Hosts before the first decisive one only add to the counters; that
      host's reply is the result. */
  lemma FirstDecisiveHostDecides(cfg: Config, email: string, domain: string,
                                 hosts: seq<MxRecord>, connections: nat, verOps: nat, k: nat)
    requires k < |hosts| && Decisive(cfg, hosts[k])
    requires forall j :: 0 <= j < k ==> !Decisive(cfg, hosts[j])
    ensures ProbeHosts(cfg, email, domain, hosts, connections, verOps)
         == Decision(cfg, email, domain, hosts[k],
                     connections + SumConnections(hosts[..k]), verOps + SumVerOps(hosts[..k]))
  {
    SkipFailedHosts(cfg, email, domain, hosts, connections, verOps, k);
    assert hosts[k..][0] == hosts[k];
  }

  /** `FirstDecisiveHostDecides` with the decisive host's counters named. */
  lemma DecidesWith(cfg: Config, email: string, domain: string,
                    hosts: seq<MxRecord>, connections: nat, verOps: nat, k: nat, c: nat, v: nat)
    requires k < |hosts| && Decisive(cfg, hosts[k])
    requires forall j :: 0 <= j < k ==> !Decisive(cfg, hosts[j])
    requires c == connections + SumConnections(hosts[..k]) && v == verOps + SumVerOps(hosts[..k])
    ensures ProbeHosts(cfg, email, domain, hosts, connections, verOps) == Decision(cfg, email, domain, hosts[k], c, v)
  {
    FirstDecisiveHostDecides(cfg, email, domain, hosts, connections, verOps, k);
  }

  /** With no decisive host, every host is tried and the loop falls through
      to the all-failed result. */
  lemma NoDecisiveHostFails(cfg: Config, email: string, domain: string,
                            hosts: seq<MxRecord>, connections: nat, verOps: nat)
    requires forall j :: 0 <= j < |hosts| ==> !Decisive(cfg, hosts[j])
    ensures ProbeHosts(cfg, email, domain, hosts, connections, verOps)
         == AllFailed(email, domain, connections + SumConnections(hosts), verOps + SumVerOps(hosts))
  {
    SkipFailedHosts(cfg, email, domain, hosts, connections, verOps, |hosts|);
    assert hosts[..|hosts|] == hosts && hosts[|hosts|..] == [];
  }

  /** Every failed host costs at least one connection and at most two
      verification steps per connection. */
  lemma {:induction false} FailedHostCounters(hosts: seq<MxRecord>)
    ensures SumConnections(hosts) >= |hosts|
    ensures SumVerOps(hosts) <= 2 * SumConnections(hosts)
    decreases |hosts|
  {
    if hosts != [] {
      FailedHostCounters(hosts[1..]);
    }
  }

  // ---------------------------------------------------------------------
  // check_smtp's outcomes
  // ---------------------------------------------------------------------

  /** No host decides, host by host. */
  predicate NoneDecisive(cfg: Config, hosts: seq<MxRecord>)
    decreases |hosts|
  {
    hosts == [] || (!Decisive(cfg, hosts[0]) && NoneDecisive(cfg, hosts[1..]))
  }

  /** `NoneDecisive` says that every host fails to decide. */
  lemma {:induction false} NoneDecisiveAll(cfg: Config, hosts: seq<MxRecord>)
    ensures NoneDecisive(cfg, hosts) <==> forall j :: 0 <= j < |hosts| ==> !Decisive(cfg, hosts[j])
    decreases |hosts|
  {
    if hosts != [] {
      NoneDecisiveAll(cfg, hosts[1..]);
      assert forall j :: 1 <= j < |hosts| ==> hosts[j] == hosts[1..][j - 1];
    }
  }

  /** A successful lookup runs the host loop from zero counters. */
  lemma ResolvedProbesHosts(cfg: Config, email: string, records: seq<MxRecord>)
    requires HasDomain(email)
    ensures CheckSmtp(cfg, email, Resolved(records)) == ProbeHosts(cfg, email, DomainOf(email), records, 0, 0)
  {
  }

  /** `FirstDecisiveHostDecides` for the whole probe. */
  lemma CheckSmtpDecided(cfg: Config, email: string, records: seq<MxRecord>, k: nat)
    requires HasDomain(email)
    requires k < |records| && Decisive(cfg, records[k])
    requires forall j :: 0 <= j < k ==> !Decisive(cfg, records[j])
    ensures CheckSmtp(cfg, email, Resolved(records))
         == Decision(cfg, email, DomainOf(email), records[k], SumConnections(records[..k]), SumVerOps(records[..k]))
  {
    DecidedFromZero(cfg, email, DomainOf(email), records, k);
    ResolvedProbesHosts(cfg, email, records);
  }

  lemma DecidedFromZero(cfg: Config, email: string, domain: string, records: seq<MxRecord>, k: nat)
    requires k < |records| && Decisive(cfg, records[k])
    requires forall j :: 0 <= j < k ==> !Decisive(cfg, records[j])
    ensures ProbeHosts(cfg, email, domain, records, 0, 0)
         == Decision(cfg, email, domain, records[k], SumConnections(records[..k]), SumVerOps(records[..k]))
  {
    DecidesWith(cfg, email, domain, records, 0, 0, k, SumConnections(records[..k]), SumVerOps(records[..k]));
  }

  /** `NoDecisiveHostFails` for the whole probe. */
  lemma CheckSmtpFailed(cfg: Config, email: string, records: seq<MxRecord>)
    requires HasDomain(email)
    requires NoneDecisive(cfg, records)
    ensures CheckSmtp(cfg, email, Resolved(records))
         == AllFailed(email, DomainOf(email), SumConnections(records), SumVerOps(records))
  {
    NoneDecisiveAll(cfg, records);
    FailedFromZero(cfg, email, DomainOf(email), records);
    ResolvedProbesHosts(cfg, email, records);
  }

  lemma FailedFromZero(cfg: Config, email: string, domain: string, records: seq<MxRecord>)
    requires forall j :: 0 <= j < |records| ==> !Decisive(cfg, records[j])
    ensures ProbeHosts(cfg, email, domain, records, 0, 0)
         == AllFailed(email, domain, SumConnections(records), SumVerOps(records))
  {
    NoDecisiveHostFails(cfg, email, domain, records, 0, 0);
  }

  /** A failed MX lookup: invalid, nothing counted, no host, and the
      error's text after "Rejected: ". */
  lemma DnsFailureRejects(cfg: Config, email: string, error: string)
    requires HasDomain(email)
    ensures var r := CheckSmtp(cfg, email, DnsFailed(error));
            && r.status == Invalid && !r.catchAll && r.mx == ""
            && r.connections == 0 && r.verOps == 0
            && StartsWith(r.message, RejectedPrefix) && r.message[|RejectedPrefix|..] == error
  {
  }

  /** The first decisive MX host decides the verdict: a 250 is risky exactly
      when catch-all checking is on and the detector says so, otherwise
      valid; any other code is invalid. Every host up to it was tried. */
  lemma FirstReplyDecides(cfg: Config, email: string, records: seq<MxRecord>, k: nat)
    requires HasDomain(email)
    requires k < |records| && Decisive(cfg, records[k])
    requires forall j :: 0 <= j < k ==> !Decisive(cfg, records[j])
    ensures var r := CheckSmtp(cfg, email, Resolved(records));
            var code := records[k].dialogue.code;
            && r.mx == HostName(records[k].exchange)
            && (r.status == Risky <==> code == 250 && cfg.checkCatchAll && IsCatchAll(records[k].probe))
            && (r.status == Valid <==> code == 250 && !(cfg.checkCatchAll && IsCatchAll(records[k].probe)))
            && (r.status == Invalid <==> code != 250)
            && r.connections == SumConnections(records[..k]) + 1
            && r.connections >= k + 1
            && r.verOps == SumVerOps(records[..k]) + 2
  {
    CheckSmtpDecided(cfg, email, records, k);
    DecisionFacts(cfg, email, DomainOf(email), records[k], SumConnections(records[..k]), SumVerOps(records[..k]));
    FailedHostCounters(records[..k]);
  }

  /** When no host decides, the probe is invalid with the all-failed
      message, after trying every host. */
  lemma AllHostsFail(cfg: Config, email: string, records: seq<MxRecord>)
    requires HasDomain(email)
    requires NoneDecisive(cfg, records)
    ensures var r := CheckSmtp(cfg, email, Resolved(records));
            && r.status == Invalid && !r.catchAll && r.mx == ""
            && r.message == AllFailedMessage
            && r.connections == SumConnections(records) && r.connections >= |records|
            && r.verOps == SumVerOps(records)
  {
    CheckSmtpFailed(cfg, email, records);
    FailedHostCounters(records);
  }

  /** The all-failed message appears exactly when the lookup succeeded and no
      host decided, or the lookup error's text makes the whole rejection
      message equal to it (which "Rejected: " rules out). */
  lemma AllFailedExactly(cfg: Config, email: string, dns: Resolution)
    requires HasDomain(email)
    ensures CheckSmtp(cfg, email, dns).message == AllFailedMessage
        <==> dns.Resolved? && forall j :: 0 <= j < |dns.records| ==> !Decisive(cfg, dns.records[j])
  {
    match dns
    case DnsFailed(e) =>
      assert (RejectedPrefix + e)[0] != AllFailedMessage[0];
    case Resolved(records) =>
      if exists k :: 0 <= k < |records| && Decisive(cfg, records[k]) {
        var k := FirstDecisive(cfg, records);
        CheckSmtpDecided(cfg, email, records, k);
        DecisionFacts(cfg, email, DomainOf(email), records[k], SumConnections(records[..k]), SumVerOps(records[..k]));
      } else {
        NoneDecisiveAll(cfg, records);
        CheckSmtpFailed(cfg, email, records);
      }
  }

  /** The index of the first decisive host. */
  function FirstDecisive(cfg: Config, records: seq<MxRecord>): (k: nat)
    requires exists k :: 0 <= k < |records| && Decisive(cfg, records[k])
    ensures k < |records| && Decisive(cfg, records[k])
    ensures forall j :: 0 <= j < k ==> !Decisive(cfg, records[j])
    decreases |records|
  {
    if Decisive(cfg, records[0]) then 0
    else
      assert exists k :: 0 <= k < |records[1..]| && Decisive(cfg, records[1..][k]) by {
        var k :| 0 <= k < |records| && Decisive(cfg, records[k]);
        assert records[1..][k - 1] == records[k];
      }
      var k := FirstDecisive(cfg, records[1..]);
      assert forall j :: 1 <= j <= k ==> records[j] == records[1..][j - 1];
      k + 1
  }
}
