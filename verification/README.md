# Scout: candidate addresses, SMTP probing and result selection

This project models the core of the `Scout` class of mailscout
(`mailscout-main/EmailPulsify/scout.py`) and proves properties of the model.
For one domain, `Scout` guesses mailbox addresses and asks the domain's mail
servers whether they would accept each one. The core has three parts.

- **Candidate generation** (module `Candidates`). It covers
  `generate_prefixes`, `split_list_data` and `generate_email_variants` with
  its optional normalisation. It also covers the policy at the start of
  `find_valid_emails` that picks between name-based variants and the seven
  role addresses, then de-duplicates them.
- **The SMTP probe** (module `Smtp`). `check_smtp` is a fold over the
  domain's MX records, and `is_catch_all` is its catch-all detector. The MX
  lookup and every SMTP dialogue are *inputs*. The lookup fails with an error
  text or yields records in order. Each record carries how its dialogue ends:
  unreachable, dropped before MAIL, dropped at RCPT, or an RCPT reply whose
  text may not decode. It also carries what the catch-all probe would answer.
  The model is the decision logic and the two counters (`connections`,
  `ver_ops`), not the transport.
- **Result selection** (module `Search`). `find_valid_emails` probes every
  candidate and returns the first probe, in completion order, that is valid
  or risky. Otherwise it returns the "No valid email found" sentinel. The
  completion order is an input: any permutation of the candidate list.
  The world is an input too: a function from address to MX resolution.

Supporting modules:

- `PyStr` holds the Python string operations the core relies on, with
  CPython's ASCII behaviour: `lower`, `strip`, `rstrip`, `title`,
  `replace`, `split(sep)` (empty pieces kept), `repr` of a string, and
  `str(int)`.
- `Sequences` holds `NoDup` and `Dedup`. `Dedup` stands for `list(set(...))`.
- `ScoutConfig` holds the constructor's options and their defaults.

What the probe's counters and messages are, as the code computes them:

- `ver_ops` grows once after MAIL and once after RCPT, so a completed
  dialogue counts two;
- when every host fails, the message is "SMTP failed for all MX records &
  ports";
- a host that connects and then raises counts two connections: one on
  connecting, one more in the handler;
- reply bytes that do not decode raise inside the per-host `try`, so the
  loop moves on to the next host.

With a single token, line 190 binds `first` to the token and `last` to the
tuple `('', token)`, because the conditional expression covers only the
second element of the tuple. The model keeps this as written: `last` renders
as the tuple's text, and `last[0]` is the empty string.

Line 189 filters on `if n` before it strips, so a token of whitespace only
(such as `" "`) is kept and becomes `""`. As the first or last token it
makes `first[0]` or `last[0]` raise `IndexError`; the model keeps this too.

## Model

| member | source | states |
|---|---|---|
| Sequences.Dedup | mailscout-main/EmailPulsify/scout.py:141 | the de-duplicated list has no repeats and holds exactly the input's elements, no more than the input has |
| Sequences.DedupOfNoDup | mailscout-main/EmailPulsify/scout.py:204 | de-duplicating a list without repeats returns it unchanged |
| PyStr.Lower | mailscout-main/EmailPulsify/scout.py:189 | `lower()` keeps the length and lower-cases each character in place |
| PyStr.CaseMapsKeepCased | mailscout-main/EmailPulsify/scout.py:189 | case mapping keeps letters letters; lower and upper are idempotent and absorb each other |
| PyStr.LStrip | mailscout-main/EmailPulsify/scout.py:189 | the result is a suffix of the input; what was removed is all in the strip set, and the result does not start with a strip character |
| PyStr.RStrip | mailscout-main/EmailPulsify/scout.py:40 | the result is a prefix of the input; what was removed is all in the strip set, and the result does not end with a strip character |
| PyStr.Strip | mailscout-main/EmailPulsify/scout.py:189 | `strip()` returns a contiguous slice whose two ends are outside the strip set, and everything removed on either side is in it |
| PyStr.StripUnchanged | mailscout-main/EmailPulsify/scout.py:189 | a string whose ends are outside the set is returned unchanged |
| PyStr.ReplaceChar | mailscout-main/EmailPulsify/scout.py:69 | `replace('.', ' ')` keeps the length, substitutes every occurrence and leaves every other character alone |
| PyStr.TitleFrom | mailscout-main/EmailPulsify/scout.py:69 | each character is lower-cased after a letter and upper-cased otherwise |
| PyStr.Title | mailscout-main/EmailPulsify/scout.py:69 | `title()` keeps length and letter positions and leaves non-letters alone; every letter stays the same letter up to case, and it is upper case exactly when it starts a word |
| PyStr.TitleIdempotent | mailscout-main/EmailPulsify/scout.py:69 | title-casing twice is title-casing once |
| PyStr.Split | mailscout-main/EmailPulsify/scout.py:184 | `split(sep)` has at least one piece; what the pieces are is stated by the lemmas below |
| PyStr.SplitPiecesFree | mailscout-main/EmailPulsify/scout.py:184 | no piece of `split(sep)` contains the separator |
| PyStr.JoinSplit | mailscout-main/EmailPulsify/scout.py:184 | joining the pieces of `split(sep)` with the separator rebuilds the string |
| PyStr.SplitJoin | mailscout-main/EmailPulsify/scout.py:184 | splitting a join of separator-free pieces gives back the pieces, empty pieces included |
| PyStr.SplitNoSep | mailscout-main/EmailPulsify/scout.py:184 | a string without the separator splits into itself alone |
| PyStr.SplitSeveral | mailscout-main/EmailPulsify/scout.py:31 | there are two or more pieces exactly when the separator occurs, which is when `split('@')[1]` exists |
| PyStr.SplitCons | mailscout-main/EmailPulsify/scout.py:184 | one step of splitting: a separator opens a new empty piece, any other character extends the first piece |
| PyStr.SplitConcat | mailscout-main/EmailPulsify/scout.py:184 | splitting `a + sep + b` is splitting `a` followed by splitting `b` |
| PyStr.EscapePlain | mailscout-main/EmailPulsify/scout.py:190-203 | quote escaping leaves printable text without quotes or backslashes unchanged |
| PyStr.ReprPlain | mailscout-main/EmailPulsify/scout.py:190-203 | the `repr` of such text is the text in single quotes |
| PyStr.Repr | mailscout-main/EmailPulsify/scout.py:190-203 | `repr` of a string is its text, escaped for the chosen quote, between two equal quotes, double quotes exactly when the text holds a single quote and no double quote |
| PyStr.EscapeConcat | mailscout-main/EmailPulsify/scout.py:190-203 | `repr` escapes character by character: the escape of a concatenation is the concatenation of the escapes |
| PyStr.NatToString | mailscout-main/EmailPulsify/scout.py:58 | decimal rendering gives digits only, with no leading zero: 0 is written as the single digit `0` |
| PyStr.ParseNatToString | mailscout-main/EmailPulsify/scout.py:58 | reading the decimal rendering back gives the number |
| PyStr.IntToString | mailscout-main/EmailPulsify/scout.py:61 | `str(code)` is digits, with a leading minus exactly for negative codes, no leading zero unless the magnitude is 0 written as `0`, and the digits after the minus read back as the magnitude of the code |
| Candidates.AddressEndsWithDomain | mailscout-main/EmailPulsify/scout.py:192-202 | an address `local@domain` ends with `@domain` |
| Candidates.AddressSplits | mailscout-main/EmailPulsify/scout.py:31 | an address from an `@`-free local part and domain splits on `@` into exactly those two |
| Candidates.AddressInjective | mailscout-main/EmailPulsify/scout.py:192-202 | two addresses on one domain are equal only when their local parts are |
| Candidates.GeneratePrefixes | mailscout-main/EmailPulsify/scout.py:206-208 | seven addresses, the i-th being the i-th role prefix at the domain, all distinct |
| Candidates.PrefixesSplit | mailscout-main/EmailPulsify/scout.py:206-208 | with an `@`-free domain each role address splits into its prefix and the domain |
| Candidates.SplitListData | mailscout-main/EmailPulsify/scout.py:181-185 | the flattened list is at least as long as the input and no token contains a space |
| Candidates.SplitListDataIsSplitOfJoin | mailscout-main/EmailPulsify/scout.py:181-185 | flattening equals splitting the space-joined input on spaces |
| Candidates.SplitListDataRebuilds | mailscout-main/EmailPulsify/scout.py:181-185 | the flattened tokens joined with spaces rebuild the space-joined input |
| Candidates.SplitListDataOfSpaceFree | mailscout-main/EmailPulsify/scout.py:181-185 | tokens without spaces pass through unchanged |
| Candidates.NormalizeToken | mailscout-main/EmailPulsify/scout.py:189 | a lowered, stripped token has no upper-case letter and no surrounding whitespace |
| Candidates.Kept | mailscout-main/EmailPulsify/scout.py:189 | the `if n` filter keeps one normal token for a non-empty input and nothing for an empty one |
| Candidates.Normalize | mailscout-main/EmailPulsify/scout.py:189 | normalising never lengthens the list, loses no token when none is empty, and every kept token is normal |
| Candidates.NormalizeTokenwise | mailscout-main/EmailPulsify/scout.py:189 | with no empty token, nothing is dropped and the i-th result is the i-th token lowered and stripped |
| Candidates.NormalizeSingle | mailscout-main/EmailPulsify/scout.py:189 | one token normalises to nothing when empty and to its lowered, stripped self otherwise |
| Candidates.NormalizeConcat | mailscout-main/EmailPulsify/scout.py:189 | normalising a concatenation is concatenating the normalised parts, so the list is normalised token by token in order |
| Candidates.BlankTokenNormalizesToEmpty | mailscout-main/EmailPulsify/scout.py:189 | a token of whitespace only strips to the empty string |
| Candidates.BlankLastTokenRaises | mailscout-main/EmailPulsify/scout.py:189-203 | a non-empty whitespace-only last token passes the `if n` filter, reaches the patterns as `""`, and makes the variants raise `IndexError` |
| Candidates.JohnBlankRaises | mailscout-main/EmailPulsify/scout.py:189-203 | the names `["john", " "]` raise `IndexError` with normalisation on |
| Candidates.NormalizeOfNormal | mailscout-main/EmailPulsify/scout.py:189 | normalising non-empty normal tokens changes nothing |
| Candidates.Inputs | mailscout-main/EmailPulsify/scout.py:190 | first is the first token; last is the last token when there are two or more, else the tuple text with an empty initial |
| Candidates.LocalParts | mailscout-main/EmailPulsify/scout.py:191-203 | there are eleven local parts, one per pattern; their values are stated by `Candidates.JohnSmithLocalParts` and `Candidates.VariantMembers` |
| Candidates.Addresses | mailscout-main/EmailPulsify/scout.py:191-203 | one address per local part, in order, each the local part followed by `@` and the domain |
| Candidates.GenerateEmailVariants | mailscout-main/EmailPulsify/scout.py:187-204 | raises `IndexError` exactly when the token list is empty or its first or last token is empty; otherwise 1 to 11 distinct addresses, all at the domain |
| Candidates.VariantsOfNormalized | mailscout-main/EmailPulsify/scout.py:188-189 | normalising inside equals normalising first and then building without it |
| Candidates.MiddleTokensIgnored | mailscout-main/EmailPulsify/scout.py:190 | with two or more tokens only the first and last matter |
| Candidates.InputsAtFree | mailscout-main/EmailPulsify/scout.py:190-203 | `@`-free tokens give `@`-free local parts, tuple text included |
| Candidates.VariantsSplitAtDomain | mailscout-main/EmailPulsify/scout.py:31 | every variant built from `@`-free tokens splits on `@` into its local part and the domain |
| Candidates.VariantMembers | mailscout-main/EmailPulsify/scout.py:191-204 | whatever order `list(set(...))` gives, when the patterns do not raise an address is a variant exactly when it is one of the eleven pattern addresses |
| Candidates.AddressesNoDup | mailscout-main/EmailPulsify/scout.py:191-204 | distinct local parts give distinct addresses |
| Candidates.JohnSmithLocalParts | mailscout-main/EmailPulsify/scout.py:191-203 | for `john`/`smith` with initials `j`/`s`, the eleven local parts are the listed strings, in pattern order |
| Candidates.PlainPairRepr | mailscout-main/EmailPulsify/scout.py:190 | `str(('', t))` for a plain token `t` is `('', 't')`, the text the single-token patterns see as `last` |
| Candidates.TwoTokenVariants | mailscout-main/EmailPulsify/scout.py:190-204 | unfolding for two non-empty tokens: the patterns are fed the tokens and their first characters as initials |
| Candidates.JohnSmithVariants | mailscout-main/EmailPulsify/scout.py:191-204 | for `john smith` there are eleven variants, exactly the eleven listed addresses in some order |
| Candidates.CapitalisedJohnSmithVariants | mailscout-main/EmailPulsify/scout.py:188-189 | with normalisation `John Smith` gives the same variants as `john smith` |
| Candidates.TupleTextPatterns | mailscout-main/EmailPulsify/scout.py:190-203 | with the tuple as `last`, the tuple text and the bare initial are candidates, while the doubled token is not |
| Candidates.SingleTokenVariants | mailscout-main/EmailPulsify/scout.py:190-203 | for one plain token `t` the variants include `('', 't')@domain` and the initial, and `tt@domain` is missing |
| Candidates.SplitEach | mailscout-main/EmailPulsify/scout.py:131-132 | each person's token list is flattened in place |
| Candidates.NestedVariants | mailscout-main/EmailPulsify/scout.py:131-133 | the `extend` over people gives addresses at the domain only |
| Candidates.NestedVariantsRaise | mailscout-main/EmailPulsify/scout.py:131-133 | the nested loop raises exactly when some person's patterns raise |
| Candidates.NestedVariantsUnion | mailscout-main/EmailPulsify/scout.py:131-133 | an address is in the extended list exactly when it is among some person's variants |
| Candidates.VariantBranch | mailscout-main/EmailPulsify/scout.py:127-136 | re-binding `names` keeps its truthiness; with variants disabled or names falsy there are no variants and `names` is untouched |
| Candidates.CandidateSet | mailscout-main/EmailPulsify/scout.py:124-141 | the candidates are distinct and all at the domain; falsy names give exactly the seven role addresses (or nothing when prefixes are off); truthy names with variants off give nothing |
| Candidates.DefaultSearchWithoutNames | mailscout-main/EmailPulsify/scout.py:12-28 | with the constructor's default arguments and no names, the candidates are exactly the seven role addresses |
| Candidates.CandidatesAreUnionOfVariants | mailscout-main/EmailPulsify/scout.py:127-141 | with variants on and names given, the search raises exactly when some person raises, and the candidates are exactly the union of every person's variants, with no role address |
| Candidates.CandidatesOfTruthy | mailscout-main/EmailPulsify/scout.py:138-141 | once names are given, the prefix branch adds nothing |
| Candidates.OnePersonCandidates | mailscout-main/EmailPulsify/scout.py:128-136 | a string or a flat list is one person whose variants are the candidates |
| Candidates.NestedCandidates | mailscout-main/EmailPulsify/scout.py:130-133 | a list of lists gives the union of every person's variants |
| Smtp.IsCatchAll | mailscout-main/EmailPulsify/scout.py:109-121 | catch-all exactly when the made-up recipient gets 250; any failure means not catch-all |
| Smtp.HostName | mailscout-main/EmailPulsify/scout.py:40 | `rstrip('.')` gives a prefix of the exchange name with no trailing dot |
| Smtp.UserName | mailscout-main/EmailPulsify/scout.py:69 | the display name is as long as the local part |
| Smtp.UserNameWords | mailscout-main/EmailPulsify/scout.py:69 | dots become spaces, other non-letters stay, and a letter is capitalised exactly when it starts a word |
| Smtp.UserNameLetters | mailscout-main/EmailPulsify/scout.py:69 | apart from the dots, each character of the display name is the local part's own character up to case |
| Smtp.DomainOf | mailscout-main/EmailPulsify/scout.py:31 | `split('@')[1]` holds no `@` |
| Smtp.Decision | mailscout-main/EmailPulsify/scout.py:52-75 | the decisive host adds its own connection and its two `ver_ops` to the counters reached before it, and names the domain and the display name |
| Smtp.AllFailed | mailscout-main/EmailPulsify/scout.py:80-92 | the all-failed result: invalid, not catch-all, no host, the all-failed message and the counters reached |
| Smtp.Rejected | mailscout-main/EmailPulsify/scout.py:94-107 | the rejected result: invalid, not catch-all, no host, zero counters, and "Rejected: " followed by the error text |
| Smtp.DecisionFacts | mailscout-main/EmailPulsify/scout.py:52-75 | a decisive reply of 250 is risky exactly when catch-all checking is on and the detector agrees, else valid; any other code is invalid; `catch_all` is set exactly when the verdict is risky, and then the message is "Catch-All"; otherwise the message is the code and decoded text; never the all-failed text |
| Smtp.ProbeHosts | mailscout-main/EmailPulsify/scout.py:42-92 | the loop's result names the address, the domain and the display name; risky exactly when catch-all, which needs checking on and says "Catch-All"; counters only grow, by at most two `ver_ops` per connection and by at least one connection when any host is tried |
| Smtp.CheckSmtp | mailscout-main/EmailPulsify/scout.py:30-107 | every outcome names the address, `split('@')[1]` and the display name; risky exactly when catch-all; `ver_ops` at most twice `connections` |
| Smtp.SkipFailedHosts | mailscout-main/EmailPulsify/scout.py:42-78 | hosts that do not decide are skipped and only add their counters |
| Smtp.FirstDecisiveHostDecides | mailscout-main/EmailPulsify/scout.py:42-78 | the first decisive host returns its reply, with the counters of every host before it |
| Smtp.NoDecisiveHostFails | mailscout-main/EmailPulsify/scout.py:42-92 | with no decisive host, every host is tried and the all-failed result carries the summed counters |
| Smtp.FailedHostCounters | mailscout-main/EmailPulsify/scout.py:45-77 | every failed host costs at least one connection and at most two `ver_ops` per connection |
| Smtp.CheckSmtpDecided | mailscout-main/EmailPulsify/scout.py:38-75 | after a lookup, the first decisive record decides the probe from zero counters |
| Smtp.CheckSmtpFailed | mailscout-main/EmailPulsify/scout.py:38-92 | after a lookup where no record decides, the probe is the all-failed result |
| Smtp.DnsFailureRejects | mailscout-main/EmailPulsify/scout.py:94-107 | a failed lookup is invalid and not catch-all, with no host and zero counters, and its message is "Rejected: " followed by the error text |
| Smtp.FirstReplyDecides | mailscout-main/EmailPulsify/scout.py:42-75 | the first decisive record fixes the host and the status by the 250/catch-all rule; connections are one more than the failures before it and at least its position plus one; `ver_ops` are two more |
| Smtp.NoneDecisiveAll | mailscout-main/EmailPulsify/scout.py:42-78 | the host-by-host "no host decides" predicate holds exactly when every host fails to decide |
| Smtp.AllHostsFail | mailscout-main/EmailPulsify/scout.py:76-92 | with no decisive record: invalid, not catch-all, no host, the all-failed message, and at least one connection per record |
| Smtp.AllFailedExactly | mailscout-main/EmailPulsify/scout.py:80-107 | the all-failed message appears exactly when the lookup succeeded and no record decided |
| Smtp.FirstDecisive | mailscout-main/EmailPulsify/scout.py:42-75 | when some record decides, this is the position of the first one |
| Search.Sentinel | mailscout-main/EmailPulsify/scout.py:153-164 | the not-found result is neither valid nor risky, has no address, and names the domain |
| Search.SelectResult | mailscout-main/EmailPulsify/scout.py:145-164 | the selection is one of the completed results or the not-found sentinel, never anything else |
| Search.SelectResultFacts | mailscout-main/EmailPulsify/scout.py:145-164 | the reference selection is found exactly when some completed result is valid or risky; it is then the first such result, and otherwise the sentinel |
| Search.CandidatesProbeable | mailscout-main/EmailPulsify/scout.py:141-144 | every candidate holds an `@`, so `check_smtp` can take its domain |
| Search.CompletionOrderProbeable | mailscout-main/EmailPulsify/scout.py:143-146 | every address in any completion order of the candidates holds an `@` |
| Search.ProbeOfAddress | mailscout-main/EmailPulsify/scout.py:69 | probing `local@domain` reports that domain and the title-cased local part as the display name |
| Search.FindValidEmails | mailscout-main/EmailPulsify/scout.py:123-164 | `IndexError` exactly when candidate generation raises; otherwise every address in the completion order can be probed and the result is the reference selection over their probes |
| Search.FirstFound | mailscout-main/EmailPulsify/scout.py:145-164 | the consuming loop returns the reference selection over the completed results |
| Search.SearchOverCandidates | mailscout-main/EmailPulsify/scout.py:141-164 | whatever the completion order, the search finds an address exactly when some candidate's probe is valid or risky, and then returns that candidate's own probe naming it; otherwise the sentinel |
| Search.SelectionOverCandidates | mailscout-main/EmailPulsify/scout.py:143-164 | the same over any permutation of a list of addresses |
| Search.FoundInCandidates | mailscout-main/EmailPulsify/scout.py:145-150 | a found probe in the completion order is a candidate's own probe, naming that address |
| Search.OrderCoversCandidates | mailscout-main/EmailPulsify/scout.py:143-150 | over any completion order, some probe is found exactly when some candidate's probe is found |

## Left out

- The transport is not modelled: DNS resolution, `smtplib` connections, EHLO, MAIL, RCPT, timeouts. Every lookup and dialogue outcome is an input.
- QUIT on leaving the `with` block is not modelled. A non-221 reply to QUIT would raise after the result was built, and the handler would count a connection and move on. The model takes QUIT as harmless. This matters for `catch_all`: the flag is set before the loop (scout.py:34) and only re-set on a 250 reply (scout.py:56), so if QUIT raised after a catch-all verdict, a later host's non-250 reply would return `invalid` with `catch_all` still true (scout.py:60-67). "Risky exactly when catch-all" (`Smtp.ProbeHosts`, `Smtp.CheckSmtp`) holds only under this assumption.
- The `port` parameter and the fixed HELO and sender names are not modelled. They only affect the transport.
- The catch-all detector's random 12-letter user is not modelled. The detector's reply is an input of each record.
- `time_exec` and `time.time()` are not modelled, and neither is the random sleep between probes. Timing does not affect any returned field except `time_exec`.
- Threads are not modelled: both thread pools, `as_completed`, and cancelling pending futures. The completion order is an input, any permutation of the candidates.
- `find_valid_emails_bulk` is not modelled. It is a thread-pool map of `find_valid_emails` over the input dictionaries, returned in completion order.
- `unidecode` is modelled as the identity. `lower`, `strip`, `title` and whitespace follow CPython for ASCII only. Non-ASCII case mapping, whitespace and transliteration are not modelled.
- A `names` list that mixes strings and lists is not modelled. When the first element is a list, each later string is iterated character by character. When the first element is a string, `split_list_data` calls `split` on the later list, which raises `AttributeError`.
- The arbitrary order of `list(set(...))` is not modelled. `Dedup` keeps first occurrences. Every property stated over candidates and variants is about membership, count or distinctness, so it holds for any order. `Candidates.JohnSmithLocalParts` and `Candidates.LocalParts` are about the pattern list before `set`, whose order the source fixes.
- Smtp.HostName: only states the trailing-dot removal and the prefix relation. Exactly which dots were removed is stated on `PyStr.RStrip`.
- Smtp.UserName: states only the length. The word-by-word content is stated on `Smtp.UserNameWords` and `Smtp.UserNameLetters`.
- Smtp.CheckSmtp: requires the address to hold an `@`. Without one, line 31 raises `IndexError` before the `try`, and the model does not cover that path. Every candidate holds an `@` (`Search.CandidatesProbeable`), so no search reaches it.
- Candidates.Normalize: states the length and the shape of the kept tokens only. Which tokens are kept, in what order and how each is normalised is stated by `Candidates.NormalizeSingle`, `Candidates.NormalizeConcat` and `Candidates.NormalizeTokenwise`.
- Candidates.LocalParts: states only that there are eleven parts. The parts themselves are stated by `Candidates.JohnSmithLocalParts` and `Candidates.VariantMembers`.
- PyStr.Repr: escaping is stated character by character (`PyStr.EscapeChar`, `PyStr.EscapeConcat`). The text between the quotes is shown to be the input itself only for printable text with no quote or backslash (`PyStr.ReprPlain`, `PyStr.EscapePlain`). No unescaping round trip is proved. Characters above ASCII are copied unchanged, so `repr`'s `\x`/`\u` escapes of non-printable non-ASCII characters (such as U+00A0, U+0085 or U+00AD) are not modelled.
- PyStr.Split: states only that there is at least one piece. Its meaning is stated by `PyStr.JoinSplit`, `PyStr.SplitJoin`, `PyStr.SplitPiecesFree` and `PyStr.SplitSeveral`.
- Smtp.ProbeHosts: states lower bounds on the counters only. Their exact values are stated by `Smtp.FirstDecisiveHostDecides` and `Smtp.NoDecisiveHostFails`.
