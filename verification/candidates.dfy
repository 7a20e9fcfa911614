/** Candidate generation: the role-prefix list, the splitting of name
    tokens, the eleven local-part patterns built from a person's first and
    last token, and the policy that decides which of the two sources feeds
    one domain search. */
module Candidates {
  import opened PyStr
  import opened Sequences
  import opened ScoutConfig

  /** A call either returns a value or raises `IndexError` (indexing an
      empty list or an empty string). */
  datatype Outcome<T> = Ok(value: T) | IndexError

  /** The shapes the `names` argument arrives in: `None`, one string, a list
      of tokens, or a list of token lists (one per person). */
  datatype Names =
    | NoNames
    | Str(text: string)
    | Flat(tokens: seq<string>)
    | Nested(people: seq<seq<string>>)

  /** Python truthiness of `names`: `None`, `""` and `[]` are false. */
  predicate Truthy(names: Names)
  {
    match names
    case NoNames => false
    case Str(t) => t != ""
    case Flat(ts) => ts != []
    case Nested(ps) => ps != []
  }

  function Address(local: string, domain: string): string
  {
    local + "@" + domain
  }

  lemma AddressEndsWithDomain(local: string, domain: string)
    ensures EndsWith(Address(local, domain), "@" + domain)
  {
    var a := Address(local, domain);
    assert a[|a| - |"@" + domain|..] == "@" + domain;
  }

  /** An address built from an `@`-free local part and domain splits on `@`
      back into exactly those two parts. */
  lemma AddressSplits(local: string, domain: string)
    requires '@' !in local && '@' !in domain
    ensures Split(Address(local, domain), '@') == [local, domain]
  {
    var parts := [local, domain];
    assert Join(parts, '@') == Address(local, domain) by {
      assert parts[1..] == [domain];
    }
    SplitJoin(parts, '@');
  }

  // ---------------------------------------------------------------------
  // generate_prefixes
  // ---------------------------------------------------------------------

  const RolePrefixes: seq<string> := ["admin", "contact", "hello", "team", "support", "info", "mail"]

  /** The seven role addresses, in the fixed order of `RolePrefixes`. */
  function GeneratePrefixes(domain: string): (r: seq<string>)
    ensures |r| == 7
    ensures forall i :: 0 <= i < 7 ==> r[i] == RolePrefixes[i] + "@" + domain
    ensures NoDup(r)
  {
    var r := seq(|RolePrefixes|, i requires 0 <= i < |RolePrefixes| => Address(RolePrefixes[i], domain));
    assert forall i :: 0 <= i < 7 ==> r[i][0] == RolePrefixes[i][0];
    r
  }

  /** Every role address splits on `@` into its prefix and the domain. */
  lemma PrefixesSplit(domain: string)
    requires '@' !in domain
    ensures forall i :: 0 <= i < 7 ==> Split(GeneratePrefixes(domain)[i], '@') == [RolePrefixes[i], domain]
  {
    forall i | 0 <= i < 7
      ensures Split(GeneratePrefixes(domain)[i], '@') == [RolePrefixes[i], domain]
    {
      assert '@' !in RolePrefixes[i];
      AddressSplits(RolePrefixes[i], domain);
    }
  }

  // ---------------------------------------------------------------------
  // split_list_data
  // ---------------------------------------------------------------------

  /** Every element split on `" "`, the pieces concatenated in order. */
  function SplitListData(target: seq<string>): (r: seq<string>)
    ensures |r| >= |target|
    ensures forall i :: 0 <= i < |r| ==> ' ' !in r[i]
    decreases |target|
  {
    if target == [] then []
    else
      SplitPiecesFree(target[0], ' ');
      Split(target[0], ' ') + SplitListData(target[1..])
  }

  /** Flattening a list is splitting its space-join. */
  lemma {:induction false} SplitListDataIsSplitOfJoin(target: seq<string>)
    requires target != []
    ensures SplitListData(target) == Split(Join(target, ' '), ' ')
    decreases |target|
  {
    if |target| > 1 {
      SplitListDataIsSplitOfJoin(target[1..]);
      SplitConcat(target[0], Join(target[1..], ' '), ' ');
    } else {
      assert target[1..] == [];
    }
  }

  /** Joining the pieces with `" "` rebuilds the space-join of the input. */
  lemma SplitListDataRebuilds(target: seq<string>)
    requires target != []
    ensures Join(SplitListData(target), ' ') == Join(target, ' ')
  {
    SplitListDataIsSplitOfJoin(target);
    JoinSplit(Join(target, ' '), ' ');
  }

  /** Tokens without spaces pass through unchanged; so the operation is idempotent. */
  lemma {:induction false} SplitListDataOfSpaceFree(target: seq<string>)
    requires forall i :: 0 <= i < |target| ==> ' ' !in target[i]
    ensures SplitListData(target) == target
    decreases |target|
  {
    if target != [] {
      SplitNoSep(target[0], ' ');
      SplitListDataOfSpaceFree(target[1..]);
      assert target == [target[0]] + target[1..];
    }
  }

  // ---------------------------------------------------------------------
  // Token normalisation
  // ---------------------------------------------------------------------

  /** A token as normalisation leaves it: no upper-case letter and no
      whitespace at either end. */
  predicate IsNormalToken(t: string)
  {
    && (forall i :: 0 <= i < |t| ==> !IsUpper(t[i]))
    && (t == [] || (t[0] !in Whitespace && t[|t| - 1] !in Whitespace))
  }

  /** `unidecode(n).lower().strip()`, with `unidecode` the identity. */
  function NormalizeToken(n: string): (r: string)
    ensures IsNormalToken(r)
  {
    LowerHasNoUpper(n);
    StripOfNoUpper(Lower(n));
    Strip(Lower(n), Whitespace)
  }

  lemma LowerHasNoUpper(s: string)
    ensures forall k :: 0 <= k < |s| ==> !IsUpper(Lower(s)[k])
  {
  }

  lemma StripOfNoUpper(s: string)
    requires forall k :: 0 <= k < |s| ==> !IsUpper(s[k])
    ensures IsNormalToken(Strip(s, Whitespace))
  {
    StripKeepsNoUpper(s, Whitespace);
  }

  lemma StripKeepsNoUpper(s: string, cs: set<char>)
    requires forall k :: 0 <= k < |s| ==> !IsUpper(s[k])
    ensures forall k :: 0 <= k < |Strip(s, cs)| ==> !IsUpper(Strip(s, cs)[k])
  {
    var r := Strip(s, cs);
    var i := |s| - |LStrip(s, cs)|;
    assert r == s[i..i + |r|];
    forall k | 0 <= k < |r| ensures !IsUpper(r[k]) {
      assert r[k] == s[i + k];
    }
  }

  /** `[unidecode(n).lower().strip() for n in names if n]`: the filter
      tests each token before it is stripped, so a token of blanks only is
      kept and becomes `""`. */
  function Normalize(names: seq<string>): (r: seq<string>)
    ensures |r| <= |names|
    ensures (forall i :: 0 <= i < |names| ==> names[i] != "") ==> |r| == |names|
    ensures forall i :: 0 <= i < |r| ==> IsNormalToken(r[i])
    decreases |names|
  {
    if names == [] then [] else Kept(names[0]) + Normalize(names[1..])
  }

  /** What the comprehension keeps of one token. */
  function Kept(n: string): (r: seq<string>)
    ensures |r| <= 1 && (|r| == 1 <==> n != "")
    ensures forall i :: 0 <= i < |r| ==> IsNormalToken(r[i])
  {
    if n == "" then [] else [NormalizeToken(n)]
  }

  /** One step of the comprehension. */
  lemma NormalizeStep(names: seq<string>)
    requires names != []
    ensures Normalize(names) == Kept(names[0]) + Normalize(names[1..])
  {
  }

  /** With no empty token, nothing is dropped and each token is normalised
      in place. */
  lemma {:induction false} NormalizeTokenwise(names: seq<string>)
    requires forall i :: 0 <= i < |names| ==> names[i] != ""
    ensures |Normalize(names)| == |names|
    ensures forall i :: 0 <= i < |names| ==> Normalize(names)[i] == NormalizeToken(names[i])
    decreases |names|
  {
    if names != [] {
      var rest := names[1..];
      assert forall i :: 0 <= i < |rest| ==> rest[i] == names[i + 1];
      NormalizeTokenwise(rest);
      NormalizeStep(names);
      var head, tail := NormalizeToken(names[0]), Normalize(rest);
      assert Kept(names[0]) == [head];
      MapCons(names, Normalize(names), head, tail, NormalizeToken);
    }
  }

  /** A list that starts with `f` of the first element and continues with
      `f` of the others is `f` applied element by element. */
  lemma MapCons<T>(xs: seq<T>, r: seq<T>, head: T, tail: seq<T>, f: T -> T)
    requires xs != [] && head == f(xs[0]) && r == [head] + tail
    requires |tail| == |xs| - 1 && forall i :: 0 <= i < |tail| ==> tail[i] == f(xs[i + 1])
    ensures |r| == |xs| && forall i :: 0 <= i < |xs| ==> r[i] == f(xs[i])
  {
    forall i | 0 <= i < |xs| ensures r[i] == f(xs[i]) {
      if i > 0 {
        assert r[i] == tail[i - 1];
      }
    }
  }

  /** Normalisation goes token by token: an empty token is dropped and any
      other is normalised on its own, so a list normalises piecewise. */
  lemma NormalizeSingle(n: string)
    ensures Normalize([n]) == if n == "" then [] else [NormalizeToken(n)]
  {
    assert [n][1..] == [];
  }

  lemma {:induction false} NormalizeConcat(a: seq<string>, b: seq<string>)
    ensures Normalize(a + b) == Normalize(a) + Normalize(b)
    decreases |a|
  {
    if a == [] {
      assert a + b == b;
    } else {
      var head, tail := Kept(a[0]), a[1..];
      assert (a + b)[0] == a[0];
      assert (a + b)[1..] == tail + b;
      calc {
        Normalize(a + b);
        { NormalizeStep(a + b); }
        head + Normalize(tail + b);
        { NormalizeConcat(tail, b); }
        head + (Normalize(tail) + Normalize(b));
        (head + Normalize(tail)) + Normalize(b);
        { NormalizeStep(a); }
        Normalize(a) + Normalize(b);
      }
    }
  }

  /** A token of ASCII whitespace only. */
  predicate IsBlank(t: string)
  {
    forall i :: 0 <= i < |t| ==> t[i] in Whitespace
  }

  /** A token of blanks only survives the `if n` filter and strips to `""`. */
  lemma BlankTokenNormalizesToEmpty(t: string)
    requires IsBlank(t)
    ensures NormalizeToken(t) == ""
  {
    assert Lower(t) == t;
    assert LeadingIn(t, Whitespace) == |t|;
    assert LStrip(t, Whitespace) == [];
  }

  /** So a blank last token reaches the patterns as `""`, and `last[0]`
      (or `first[0]`, when it is the only token) raises `IndexError`. */
  lemma {:induction false} BlankLastTokenRaises(names: seq<string>, domain: string)
    requires names != [] && names[|names| - 1] != "" && IsBlank(names[|names| - 1])
    ensures var r := Normalize(names); |r| >= 1 && r[|r| - 1] == ""
    ensures GenerateEmailVariants(names, domain, true).IndexError?
  {
    var init, t := names[..|names| - 1], names[|names| - 1];
    assert names == init + [t];
    NormalizeConcat(init, [t]);
    NormalizeSingle(t);
    BlankTokenNormalizesToEmpty(t);
  }

  /** The example: `["john", " "]` raises. */
  lemma JohnBlankRaises(domain: string)
    ensures GenerateEmailVariants(["john", " "], domain, true).IndexError?
  {
    BlankLastTokenRaises(["john", " "], domain);
  }

  /** Normalising tokens that are already normal and non-empty changes nothing. */
  lemma {:induction false} NormalizeOfNormal(names: seq<string>)
    requires forall i :: 0 <= i < |names| ==> names[i] != "" && IsNormalToken(names[i])
    ensures Normalize(names) == names
    decreases |names|
  {
    if names != [] {
      var t := names[0];
      assert Lower(t) == t;
      StripUnchanged(t, Whitespace);
      NormalizeOfNormal(names[1..]);
      assert names == [t] + names[1..];
    }
  }

  // ---------------------------------------------------------------------
  // generate_email_variants
  // ---------------------------------------------------------------------

  /** What the f-strings receive: the first token, the text `last` renders
      as, and the texts of `first[0]` and `last[0]`. */
  datatype PatternInputs = PatternInputs(first: string, last: string, firstInitial: string, lastInitial: string)

  /** The eleven local parts, in the order of the source's pattern list. */
  function LocalParts(p: PatternInputs): (r: seq<string>)
    ensures |r| == 11
  {
    [ p.first, p.first + p.last, p.first + "." + p.last, p.first + "_" + p.last, p.last + "." + p.first,
      p.firstInitial + p.last, p.firstInitial + "." + p.last, p.first + p.lastInitial,
      p.firstInitial + p.lastInitial, p.last + p.first, p.last ]
  }

  /** Each local part followed by `@domain`. */
  function Addresses(parts: seq<string>, domain: string): (r: seq<string>)
    ensures |r| == |parts|
    ensures forall i :: 0 <= i < |r| ==> r[i] == Address(parts[i], domain)
  {
    seq(|parts|, i requires 0 <= i < |parts| => Address(parts[i], domain))
  }

  lemma AddressesEndWithDomain(parts: seq<string>, domain: string)
    ensures forall i :: 0 <= i < |parts| ==> EndsWith(Addresses(parts, domain)[i], "@" + domain)
  {
    forall i | 0 <= i < |parts| ensures EndsWith(Addresses(parts, domain)[i], "@" + domain) {
      AddressEndsWithDomain(parts[i], domain);
    }
  }

  lemma DedupKeepsSuffix(s: seq<string>, suffix: string)
    requires forall i :: 0 <= i < |s| ==> EndsWith(s[i], suffix)
    ensures forall i :: 0 <= i < |Dedup(s)| ==> EndsWith(Dedup(s)[i], suffix)
  {
    var r := Dedup(s);
    forall i | 0 <= i < |r| ensures EndsWith(r[i], suffix) {
      var k :| 0 <= k < |s| && s[k] == r[i];
    }
  }

  /** What an f-string renders for the tuple `("", t)`. */
  function PairRepr(t: string): string
  {
    "(" + Repr("") + ", " + Repr(t) + ")"
  }

  /** The tokens the pattern list sees. */
  function Tokens(names: seq<string>, normalize: bool): seq<string>
  {
    if normalize then Normalize(names) else names
  }

  /** When building the patterns raises `IndexError`: no token at all
      (`names[0]`), an empty first token (`first[0]`), or, with two or more
      tokens, an empty last token (`last[0]`). */
  predicate RaisesIndexError(tokens: seq<string>)
  {
    |tokens| == 0 || tokens[0] == "" || (|tokens| > 1 && tokens[|tokens| - 1] == "")
  }

  /** With two or more tokens `first` and `last` are the end tokens. With
      exactly one, the conditional expression binds only `last`, which
      becomes the tuple `("", token)`: it renders as that tuple's repr and
      its `[0]` is `""`. */
  function Inputs(tokens: seq<string>): (p: PatternInputs)
    requires !RaisesIndexError(tokens)
    ensures p.first == tokens[0] && p.firstInitial == [tokens[0][0]]
    ensures |tokens| > 1 ==> p.last == tokens[|tokens| - 1] && p.lastInitial == [p.last[0]]
    ensures |tokens| == 1 ==> p.last == PairRepr(tokens[0]) && p.lastInitial == ""
  {
    var first := tokens[0];
    if |tokens| > 1 then
      var last := tokens[|tokens| - 1];
      PatternInputs(first, last, first[..1], last[..1])
    else
      PatternInputs(first, PairRepr(first), first[..1], "")
  }

  /** The de-duplicated patterns for one person, or `IndexError`. */
  function GenerateEmailVariants(names: seq<string>, domain: string, normalize: bool): (r: Outcome<seq<string>>)
    ensures r.IndexError? <==> RaisesIndexError(Tokens(names, normalize))
    ensures r.Ok? ==> NoDup(r.value) && 1 <= |r.value| <= 11
    ensures r.Ok? ==> forall i :: 0 <= i < |r.value| ==> EndsWith(r.value[i], "@" + domain)
  {
    var toks := Tokens(names, normalize);
    if RaisesIndexError(toks) then IndexError
    else
      var p := Addresses(LocalParts(Inputs(toks)), domain);
      AddressesEndWithDomain(LocalParts(Inputs(toks)), domain);
      DedupKeepsSuffix(p, "@" + domain);
      assert p[0] in Dedup(p);
      Ok(Dedup(p))
  }

  /** With normalisation on, the variants are those of the normalised tokens. */
  lemma VariantsOfNormalized(names: seq<string>, domain: string)
    ensures GenerateEmailVariants(names, domain, true) == GenerateEmailVariants(Normalize(names), domain, false)
  {
  }

  /** Middle tokens play no part: only the first and last token matter. */
  lemma MiddleTokensIgnored(names: seq<string>, domain: string, normalize: bool)
    requires |Tokens(names, normalize)| >= 2
    ensures var t := Tokens(names, normalize);
            GenerateEmailVariants(names, domain, normalize)
            == GenerateEmailVariants([t[0], t[|t| - 1]], domain, false)
  {
  }

  lemma {:induction false} EscapeKeepsAt(s: string, q: char)
    requires '@' !in s && q != '@'
    ensures '@' !in Escape(s, q)
    decreases |s|
  {
    if s != [] {
      EscapeKeepsAt(s[1..], q);
      EscapeCharKeepsAt(s[0], q);
    }
  }

  lemma EscapeCharKeepsAt(c: char, q: char)
    requires c != '@' && q != '@'
    ensures '@' !in EscapeChar(c, q)
  {
    if c < ' ' || c == '\U{7F}' {
      assert forall n :: 0 <= n < 16 ==> HexDigit(n) != '@';
    }
  }

  /** Local parts glued from `@`-free inputs are `@`-free. */
  lemma LocalPartsAtFree(p: PatternInputs)
    requires '@' !in p.first && '@' !in p.last && '@' !in p.firstInitial && '@' !in p.lastInitial
    ensures forall k :: 0 <= k < 11 ==> '@' !in LocalParts(p)[k]
  {
  }

  /** The pattern inputs of `@`-free tokens are `@`-free. */
  lemma InputsAtFree(tokens: seq<string>)
    requires !RaisesIndexError(tokens)
    requires forall i :: 0 <= i < |tokens| ==> '@' !in tokens[i]
    ensures forall k :: 0 <= k < 11 ==> '@' !in LocalParts(Inputs(tokens))[k]
  {
    var p := Inputs(tokens);
    if |tokens| == 1 {
      EscapeKeepsAt(tokens[0], ReprQuote(tokens[0]));
      EscapeKeepsAt("", ReprQuote(""));
    }
    assert '@' !in p.first && '@' !in p.last && '@' !in p.firstInitial && '@' !in p.lastInitial;
    LocalPartsAtFree(p);
  }

  /** With `@`-free tokens and domain, every variant holds exactly one `@`
      and what follows it is the domain. */
  lemma VariantsSplitAtDomain(names: seq<string>, domain: string, normalize: bool)
    requires '@' !in domain
    requires forall i :: 0 <= i < |Tokens(names, normalize)| ==> '@' !in Tokens(names, normalize)[i]
    requires GenerateEmailVariants(names, domain, normalize).Ok?
    ensures var v := GenerateEmailVariants(names, domain, normalize).value;
            forall i :: 0 <= i < |v| ==> Split(v[i], '@') == [Split(v[i], '@')[0], domain]
  {
    var toks := Tokens(names, normalize);
    var parts := LocalParts(Inputs(toks));
    InputsAtFree(toks);
    var p := Addresses(parts, domain);
    var v := GenerateEmailVariants(names, domain, normalize).value;
    assert v == Dedup(p);
    forall i | 0 <= i < |v|
      ensures Split(v[i], '@') == [Split(v[i], '@')[0], domain]
    {
      var k :| 0 <= k < |p| && p[k] == v[i];
      AddressSplits(parts[k], domain);
    }
  }

  lemma NormalizePair(a: string, b: string)
    requires a != "" && b != ""
    ensures Normalize([a, b]) == [NormalizeToken(a), NormalizeToken(b)]
  {
    assert [a, b][1..] == [b];
    assert [b][1..] == [];
  }

  lemma NormalizeTokenOfLowered(a: string, b: string)
    requires Lower(a) == b && IsNormalToken(b)
    ensures NormalizeToken(a) == b
  {
    StripUnchanged(b, Whitespace);
  }

  lemma LowerJohnSmith()
    ensures Lower("John") == "john" && Lower("Smith") == "smith"
  {
    var l1 := Lower("John");
    assert l1[0] == 'j' && l1[1] == 'o' && l1[2] == 'h' && l1[3] == 'n';
    var l2 := Lower("Smith");
    assert l2[0] == 's' && l2[1] == 'm' && l2[2] == 'i' && l2[3] == 't' && l2[4] == 'h';
  }

  lemma NormalizeJohnSmith()
    ensures Normalize(["John", "Smith"]) == ["john", "smith"]
  {
    LowerJohnSmith();
    assert IsNormalToken("john") && IsNormalToken("smith");
    NormalizeTokenOfLowered("John", "john");
    NormalizeTokenOfLowered("Smith", "smith");
    NormalizePair("John", "Smith");
  }

  /** Distinct local parts give distinct addresses at one domain. */
  lemma AddressesNoDup(parts: seq<string>, domain: string)
    requires NoDup(parts)
    ensures NoDup(Addresses(parts, domain))
  {
    var r := Addresses(parts, domain);
    forall i, j | 0 <= i < j < |r| ensures r[i] != r[j] {
      AddressInjective(parts[i], parts[j], domain);
    }
  }

  /** At one domain, the address determines the local part. */
  lemma AddressInjective(a: string, b: string, domain: string)
    ensures Address(a, domain) == Address(b, domain) ==> a == b
  {
    if Address(a, domain) == Address(b, domain) {
      assert |a| == |b|;
      assert a == Address(a, domain)[..|a|];
      assert b == Address(b, domain)[..|b|];
    }
  }

  /** Whatever order `list(set(...))` gives, the variants of tokens that do
      not raise are exactly the eleven pattern addresses. */
  lemma VariantMembers(names: seq<string>, domain: string, normalize: bool, e: string)
    requires !RaisesIndexError(Tokens(names, normalize))
    ensures var v := GenerateEmailVariants(names, domain, normalize);
            var parts := LocalParts(Inputs(Tokens(names, normalize)));
            && v.Ok?
            && (e in v.value <==> exists k :: 0 <= k < 11 && e == Address(parts[k], domain))
  {
    var parts := LocalParts(Inputs(Tokens(names, normalize)));
    var p := Addresses(parts, domain);
    var v := GenerateEmailVariants(names, domain, normalize).value;
    assert v == Dedup(p);
    if e in v {
      var k :| 0 <= k < |p| && p[k] == e;
      assert e == Address(parts[k], domain);
    }
    if exists k :: 0 <= k < 11 && e == Address(parts[k], domain) {
      var k :| 0 <= k < 11 && e == Address(parts[k], domain);
      assert p[k] == e;
    }
  }

  lemma JohnSmithLocalParts()
    ensures LocalParts(PatternInputs("john", "smith", "j", "s")) == [ "john", "johnsmith", "john.smith", "john_smith",
                                      "smith.john", "jsmith", "j.smith", "johns",
                                      "js", "smithjohn", "smith" ]
  {
    var parts := LocalParts(PatternInputs("john", "smith", "j", "s"));
    assert parts[0] == "john" && parts[1] == "johnsmith" && parts[2] == "john.smith";
    assert parts[3] == "john_smith" && parts[4] == "smith.john" && parts[5] == "jsmith";
    assert parts[6] == "j.smith" && parts[7] == "johns" && parts[8] == "js";
    assert parts[9] == "smithjohn" && parts[10] == "smith";
  }

  /** Two non-empty tokens: the patterns use both tokens and their initials. */
  lemma TwoTokenVariants(a: string, b: string, domain: string)
    requires a != "" && b != ""
    ensures GenerateEmailVariants([a, b], domain, false)
            == Ok(Dedup(Addresses(LocalParts(PatternInputs(a, b, a[..1], b[..1])), domain)))
  {
    assert !RaisesIndexError([a, b]);
    assert Inputs([a, b]) == PatternInputs(a, b, a[..1], b[..1]);
  }

  lemma JohnSmithPatterns(domain: string)
    ensures GenerateEmailVariants(["john", "smith"], domain, false)
            == Ok(Dedup(Addresses(LocalParts(PatternInputs("john", "smith", "j", "s")), domain)))
  {
    TwoTokenVariants("john", "smith", domain);
    assert "john"[..1] == "j" && "smith"[..1] == "s";
  }

  lemma JohnSmithAddressesDistinct(parts: seq<string>, domain: string)
    requires parts == [ "john", "johnsmith", "john.smith", "john_smith",
                      "smith.john", "jsmith", "j.smith", "johns",
                      "js", "smithjohn", "smith" ]
    ensures NoDup(Addresses(parts, domain))
  {
    assert NoDup(parts);
    AddressesNoDup(parts, domain);
  }

  /** The example: `john` and `smith` give eleven distinct addresses, one
      per pattern. */
  lemma JohnSmithVariants(domain: string)
    ensures var v := GenerateEmailVariants(["john", "smith"], domain, false);
            var expected := Addresses([ "john", "johnsmith", "john.smith", "john_smith",
                                        "smith.john", "jsmith", "j.smith", "johns",
                                        "js", "smithjohn", "smith" ], domain);
            && v.Ok? && |v.value| == 11
            && forall e :: e in v.value <==> e in expected
  {
    JohnSmithPatterns(domain);
    JohnSmithLocalParts();
    var parts := LocalParts(PatternInputs("john", "smith", "j", "s"));
    JohnSmithAddressesDistinct(parts, domain);
    DedupOfNoDup(Addresses(parts, domain));
  }

  /** Normalisation lower-cases the capitalised spelling to the same result. */
  lemma CapitalisedJohnSmithVariants(domain: string)
    ensures GenerateEmailVariants(["John", "Smith"], domain, true)
            == GenerateEmailVariants(["john", "smith"], domain, false)
  {
    NormalizeJohnSmith();
    VariantsOfNormalized(["John", "Smith"], domain);
  }

  /** The patterns when `last` is a text `pr` holding a quote that the
      token `t` lacks, and `last[0]` is empty. */
  lemma TupleTextPatterns(t: string, pr: string, domain: string)
    requires t != "" && '\'' !in t && '\'' in pr
    ensures var v := Dedup(Addresses(LocalParts(PatternInputs(t, pr, t[..1], "")), domain));
            && Address(pr, domain) in v
            && Address(t[..1], domain) in v
            && Address(t + t, domain) !in v
  {
    var parts := LocalParts(PatternInputs(t, pr, t[..1], ""));
    var p := Addresses(parts, domain);
    assert p[10] == Address(pr, domain);
    assert parts[8] == t[..1];
    assert p[8] == Address(t[..1], domain);
    assert '\'' !in t + t;
    forall k | 0 <= k < |p| ensures p[k] != Address(t + t, domain) {
      AddressInjective(parts[k], t + t, domain);
      if k == 0 || k == 7 || k == 8 {
        assert |parts[k]| < |t + t|;
      } else {
        assert '\'' in parts[k];
      }
    }
  }

  /** A single token does not make `first == last`: `last` is the text of
      the tuple `("", t)` and `last[0]` is empty, so the tuple text stands
      alone as one local part, the initial stands alone as another, and the
      doubled token `t + t` that `first == last` would give never appears. */
  lemma SingleTokenVariants(t: string, domain: string)
    requires t != ""
    requires forall i :: 0 <= i < |t| ==> IsPlainReprChar(t[i])
    ensures GenerateEmailVariants([t], domain, false).Ok?
    ensures var v := GenerateEmailVariants([t], domain, false).value;
            && Address("('', '" + t + "')", domain) in v
            && Address(t[..1], domain) in v
            && Address(t + t, domain) !in v
  {
    var pr := PairRepr(t);
    PlainPairRepr(t);
    assert Inputs([t]) == PatternInputs(t, pr, t[..1], "");
    assert '\'' !in t;
    TupleTextPatterns(t, pr, domain);
  }

  /** The tuple text for a plain token is the token in single quotes after
      an empty quoted string. */
  lemma PlainPairRepr(t: string)
    requires forall i :: 0 <= i < |t| ==> IsPlainReprChar(t[i])
    ensures PairRepr(t) == "('', '" + t + "')" && PairRepr(t)[1] == '\''
  {
    ReprPlain(t);
    ReprPlain("");
  }

  // ---------------------------------------------------------------------
  // The candidate policy of find_valid_emails
  // ---------------------------------------------------------------------

  /** `split_list_data` applied to each person of a nested list. */
  function SplitEach(ps: seq<seq<string>>): (r: seq<seq<string>>)
    ensures |r| == |ps|
    ensures forall i :: 0 <= i < |ps| ==> r[i] == SplitListData(ps[i])
  {
    seq(|ps|, i requires 0 <= i < |ps| => SplitListData(ps[i]))
  }

  /** Some person's patterns raise `IndexError`. */
  predicate SomeRaise(people: seq<seq<string>>, domain: string, normalize: bool)
  {
    exists i :: 0 <= i < |people| && GenerateEmailVariants(people[i], domain, normalize).IndexError?
  }

  /** `e` is among the variants of some person. */
  predicate InSomeVariants(people: seq<seq<string>>, domain: string, normalize: bool, e: string)
  {
    exists i :: 0 <= i < |people| && GenerateEmailVariants(people[i], domain, normalize).Ok?
                && e in GenerateEmailVariants(people[i], domain, normalize).value
  }

  /** `extend` over each person's variants; the first person whose
      patterns raise makes the whole call raise. */
  function NestedVariants(people: seq<seq<string>>, domain: string, normalize: bool): (r: Outcome<seq<string>>)
    ensures r.Ok? ==> forall i :: 0 <= i < |r.value| ==> EndsWith(r.value[i], "@" + domain)
    decreases |people|
  {
    if people == [] then Ok([])
    else
      match GenerateEmailVariants(people[0], domain, normalize)
      case IndexError => IndexError
      case Ok(v) =>
        match NestedVariants(people[1..], domain, normalize)
        case IndexError => IndexError
        case Ok(w) => Ok(v + w)
  }

  /** Some person raises: the first one, or one of the rest. */
  lemma SomeRaiseCons(people: seq<seq<string>>, domain: string, normalize: bool)
    requires people != []
    ensures SomeRaise(people, domain, normalize)
        <==> GenerateEmailVariants(people[0], domain, normalize).IndexError? || SomeRaise(people[1..], domain, normalize)
  {
    if SomeRaise(people, domain, normalize) {
      var i :| 0 <= i < |people| && GenerateEmailVariants(people[i], domain, normalize).IndexError?;
      if i > 0 { assert people[1..][i - 1] == people[i]; }
    }
    if SomeRaise(people[1..], domain, normalize) {
      var i :| 0 <= i < |people[1..]| && GenerateEmailVariants(people[1..][i], domain, normalize).IndexError?;
      assert people[1..][i] == people[i + 1];
    }
  }

  /** `e` is some person's variant: the first one's, or one of the rest's. */
  lemma InSomeVariantsCons(people: seq<seq<string>>, domain: string, normalize: bool, e: string)
    requires people != []
    ensures var v := GenerateEmailVariants(people[0], domain, normalize);
            (InSomeVariants(people, domain, normalize, e)
             <==> (v.Ok? && e in v.value) || InSomeVariants(people[1..], domain, normalize, e))
  {
    if InSomeVariants(people, domain, normalize, e) {
      var i :| 0 <= i < |people| && GenerateEmailVariants(people[i], domain, normalize).Ok?
                && e in GenerateEmailVariants(people[i], domain, normalize).value;
      if i > 0 { assert people[1..][i - 1] == people[i]; }
    }
    if InSomeVariants(people[1..], domain, normalize, e) {
      var i :| 0 <= i < |people[1..]| && GenerateEmailVariants(people[1..][i], domain, normalize).Ok?
                && e in GenerateEmailVariants(people[1..][i], domain, normalize).value;
      assert people[1..][i] == people[i + 1];
    }
  }

  /** The nested call raises exactly when some person's patterns raise. */
  lemma {:induction false} NestedVariantsRaise(people: seq<seq<string>>, domain: string, normalize: bool)
    ensures NestedVariants(people, domain, normalize).IndexError? <==> SomeRaise(people, domain, normalize)
    decreases |people|
  {
    if people != [] {
      NestedVariantsRaise(people[1..], domain, normalize);
      SomeRaiseCons(people, domain, normalize);
    }
  }

  /** The nested variants are the union of every person's variants. */
  lemma {:induction false} NestedVariantsUnion(people: seq<seq<string>>, domain: string, normalize: bool, e: string)
    requires NestedVariants(people, domain, normalize).Ok?
    ensures e in NestedVariants(people, domain, normalize).value <==> InSomeVariants(people, domain, normalize, e)
    decreases |people|
  {
    if people != [] {
      NestedVariantsUnion(people[1..], domain, normalize, e);
      InSomeVariantsCons(people, domain, normalize, e);
    }
  }

  /** The variant branch (when enabled and `names` is truthy) together with
      the value `names` holds after it: a string is split on spaces and a
      flat list flattened, both re-bound to `names`. */
  datatype VariantStep = VariantStep(variants: Outcome<seq<string>>, names: Names)

  function VariantBranch(cfg: Config, domain: string, names: Names): (r: VariantStep)
    ensures Truthy(r.names) == Truthy(names)
    ensures !(cfg.checkVariants && Truthy(names)) ==> r == VariantStep(Ok([]), names)
  {
    match names
    case NoNames => VariantStep(Ok([]), names)
    case Str(t) =>
      if cfg.checkVariants && t != "" then
        var toks := SplitListData(Split(t, ' '));
        VariantStep(GenerateEmailVariants(toks, domain, cfg.normalize), Flat(toks))
      else VariantStep(Ok([]), names)
    case Flat(ts) =>
      if cfg.checkVariants && ts != [] then
        var toks := SplitListData(ts);
        VariantStep(GenerateEmailVariants(toks, domain, cfg.normalize), Flat(toks))
      else VariantStep(Ok([]), names)
    case Nested(ps) =>
      if cfg.checkVariants && ps != [] then VariantStep(NestedVariants(SplitEach(ps), domain, cfg.normalize), names)
      else VariantStep(Ok([]), names)
  }

  /** `list(set(email_variants + generated_mails))`, where prefixes are
      generated only when enabled and `names` (as re-bound) is falsy. */
  function CandidateSet(cfg: Config, domain: string, names: Names): (r: Outcome<seq<string>>)
    ensures r.Ok? ==> NoDup(r.value)
    ensures r.Ok? ==> forall i :: 0 <= i < |r.value| ==> EndsWith(r.value[i], "@" + domain)
    ensures !Truthy(names) ==> r.Ok? && |r.value| == (if cfg.checkPrefixes then 7 else 0)
    ensures !Truthy(names) && r.Ok? ==> forall e :: e in r.value <==> cfg.checkPrefixes && e in GeneratePrefixes(domain)
    ensures Truthy(names) && !cfg.checkVariants ==> r == Ok([])
  {
    var step := VariantBranch(cfg, domain, names);
    match step.variants
    case IndexError => IndexError
    case Ok(variants) =>
      var generated := if cfg.checkPrefixes && !Truthy(step.names) then GeneratePrefixes(domain) else [];
      var all := variants + generated;
      var r := Dedup(all);
      PrefixesEndWithDomain(domain);
      ConcatDedupKeepsSuffix(variants, generated, "@" + domain);
      if !Truthy(names) then
        assert all == generated;
        DedupOfNoDup(generated);
        Ok(r)
      else Ok(r)
  }

  /** `Scout()` with its default arguments, asked for a domain with no
      names, probes the seven role addresses. */
  lemma DefaultSearchWithoutNames(domain: string)
    ensures var r := CandidateSet(DefaultConfig, domain, NoNames);
            && r.Ok? && |r.value| == 7
            && forall e :: e in r.value <==> e in GeneratePrefixes(domain)
  {
  }

  /** Every role address ends with `@domain`. */
  lemma PrefixesEndWithDomain(domain: string)
    ensures forall i :: 0 <= i < 7 ==> EndsWith(GeneratePrefixes(domain)[i], "@" + domain)
  {
    forall i | 0 <= i < 7 ensures EndsWith(GeneratePrefixes(domain)[i], "@" + domain) {
      AddressEndsWithDomain(RolePrefixes[i], domain);
    }
  }

  /** De-duplicating two lists whose entries share a suffix keeps it. */
  lemma ConcatDedupKeepsSuffix(a: seq<string>, b: seq<string>, suffix: string)
    requires forall i :: 0 <= i < |a| ==> EndsWith(a[i], suffix)
    requires forall i :: 0 <= i < |b| ==> EndsWith(b[i], suffix)
    ensures forall i :: 0 <= i < |Dedup(a + b)| ==> EndsWith(Dedup(a + b)[i], suffix)
  {
    assert forall i :: 0 <= i < |a + b| ==> EndsWith((a + b)[i], suffix) by {
      forall i | 0 <= i < |a + b| ensures EndsWith((a + b)[i], suffix) {
        if i >= |a| { assert (a + b)[i] == b[i - |a|]; }
      }
    }
    DedupKeepsSuffix(a + b, suffix);
  }

  /** The people a truthy `names` stands for, each as the token list handed
      to the pattern builder. */
  function People(names: Names): seq<seq<string>>
  {
    match names
    case NoNames => []
    case Str(t) => [SplitListData(Split(t, ' '))]
    case Flat(ts) => [SplitListData(ts)]
    case Nested(ps) => SplitEach(ps)
  }

  /** With variants enabled and names given, the candidates are exactly the
      union of every person's variants (no role prefix is added), and the
      call raises exactly when some person's patterns raise. */
  lemma CandidatesAreUnionOfVariants(cfg: Config, domain: string, names: Names)
    requires cfg.checkVariants && Truthy(names)
    ensures var r := CandidateSet(cfg, domain, names);
            && (r.IndexError? <==> SomeRaise(People(names), domain, cfg.normalize))
            && (r.Ok? ==> forall e :: e in r.value <==> InSomeVariants(People(names), domain, cfg.normalize, e))
  {
    match names
    case Str(t) =>
      OnePersonCandidates(cfg, domain, names, SplitListData(Split(t, ' ')));
    case Flat(ts) =>
      OnePersonCandidates(cfg, domain, names, SplitListData(ts));
    case Nested(ps) =>
      NestedCandidates(cfg, domain, ps);
  }

  /** With names given, the prefix branch adds nothing: the candidates are
      the de-duplicated variants. */
  lemma CandidatesOfTruthy(cfg: Config, domain: string, names: Names)
    requires Truthy(names)
    ensures var v := VariantBranch(cfg, domain, names).variants;
            CandidateSet(cfg, domain, names) == (if v.IndexError? then IndexError else Ok(Dedup(v.value)))
  {
    var v := VariantBranch(cfg, domain, names).variants;
    if v.Ok? {
      assert v.value + [] == v.value;
    }
  }

  /** A single person raises, or holds `e`, exactly when their own
      patterns do. */
  lemma SinglePerson(tokens: seq<string>, domain: string, normalize: bool)
    ensures var v := GenerateEmailVariants(tokens, domain, normalize);
            && (SomeRaise([tokens], domain, normalize) <==> v.IndexError?)
            && forall e :: InSomeVariants([tokens], domain, normalize, e) <==> (v.Ok? && e in v.value)
  {
    assert [tokens][0] == tokens;
  }

  /** The string and flat-list shapes: one person, whose variants are the
      candidates. */
  lemma OnePersonCandidates(cfg: Config, domain: string, names: Names, tokens: seq<string>)
    requires cfg.checkVariants && Truthy(names)
    requires VariantBranch(cfg, domain, names).variants == GenerateEmailVariants(tokens, domain, cfg.normalize)
    requires People(names) == [tokens]
    ensures var r := CandidateSet(cfg, domain, names);
            && (r.IndexError? <==> SomeRaise(People(names), domain, cfg.normalize))
            && (r.Ok? ==> forall e :: e in r.value <==> InSomeVariants(People(names), domain, cfg.normalize, e))
  {
    var v := GenerateEmailVariants(tokens, domain, cfg.normalize);
    CandidatesOfTruthy(cfg, domain, names);
    SinglePerson(tokens, domain, cfg.normalize);
    if v.Ok? {
      DedupOfNoDup(v.value);
    }
  }

  /** The nested-list shape: the candidates are the de-duplicated `extend`
      of every person's variants. */
  lemma NestedCandidates(cfg: Config, domain: string, ps: seq<seq<string>>)
    requires cfg.checkVariants && ps != []
    ensures var r := CandidateSet(cfg, domain, Nested(ps));
            && (r.IndexError? <==> SomeRaise(SplitEach(ps), domain, cfg.normalize))
            && (r.Ok? ==> forall e :: e in r.value <==> InSomeVariants(SplitEach(ps), domain, cfg.normalize, e))
  {
    var people := SplitEach(ps);
    var n := NestedVariants(people, domain, cfg.normalize);
    assert VariantBranch(cfg, domain, Nested(ps)).variants == n;
    CandidatesOfTruthy(cfg, domain, Nested(ps));
    NestedVariantsRaise(people, domain, cfg.normalize);
    if n.Ok? {
      forall e ensures e in n.value <==> InSomeVariants(people, domain, cfg.normalize, e) {
        NestedVariantsUnion(people, domain, cfg.normalize, e);
      }
    }
  }
}
