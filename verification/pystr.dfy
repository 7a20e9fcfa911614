/** Models of the Python `str` operations the scout relies on: `lower`,
    `strip`/`rstrip`, `split`/`join` on one separator, `replace` of one
    character, `title`, `repr` and the decimal rendering of an `int`.
    Case mapping and whitespace follow CPython on ASCII characters; every
    other character is treated as uncased and non-blank. */
module PyStr {

  // ---------------------------------------------------------------------
  // Characters
  // ---------------------------------------------------------------------

  predicate IsUpper(c: char) { 'A' <= c <= 'Z' }
  predicate IsLower(c: char) { 'a' <= c <= 'z' }

  /** The characters `str.title` treats as letters (ASCII only here). */
  predicate IsCased(c: char) { IsUpper(c) || IsLower(c) }

  function LowerChar(c: char): char
  {
    if IsUpper(c) then (c as int + 32) as char else c
  }

  function UpperChar(c: char): char
  {
    if IsLower(c) then (c as int - 32) as char else c
  }

  lemma CaseMapsKeepCased(c: char)
    ensures IsCased(LowerChar(c)) == IsCased(c)
    ensures IsCased(UpperChar(c)) == IsCased(c)
    ensures !IsUpper(LowerChar(c)) && !IsLower(UpperChar(c))
    ensures LowerChar(LowerChar(c)) == LowerChar(c) && LowerChar(UpperChar(c)) == LowerChar(c)
    ensures UpperChar(UpperChar(c)) == UpperChar(c) && UpperChar(LowerChar(c)) == UpperChar(c)
  {
  }

  /** The characters for which CPython's `str.isspace` holds, within ASCII. */
  const Whitespace: set<char> :=
    {' ', '\t', '\n', '\U{B}', '\U{C}', '\r', '\U{1C}', '\U{1D}', '\U{1E}', '\U{1F}'}

  predicate StartsWith(s: string, prefix: string)
  {
    |prefix| <= |s| && s[..|prefix|] == prefix
  }

  predicate EndsWith(s: string, suffix: string)
  {
    |suffix| <= |s| && s[|s| - |suffix|..] == suffix
  }

  // ---------------------------------------------------------------------
  // lower, strip, rstrip, replace
  // ---------------------------------------------------------------------

  /** `s.lower()` */
  function Lower(s: string): (r: string)
    ensures |r| == |s|
    ensures forall i :: 0 <= i < |s| ==> r[i] == LowerChar(s[i])
  {
    seq(|s|, i requires 0 <= i < |s| => LowerChar(s[i]))
  }

  /** How many leading characters of `s` belong to `cs`. */
  function LeadingIn(s: string, cs: set<char>): (n: nat)
    ensures n <= |s|
    ensures forall k :: 0 <= k < n ==> s[k] in cs
    ensures n == |s| || s[n] !in cs
    decreases |s|
  {
    if s != [] && s[0] in cs then
      var n := LeadingIn(s[1..], cs);
      assert forall k :: 1 <= k < n + 1 ==> s[k] == s[1..][k - 1];
      n + 1
    else 0
  }

  /** How many trailing characters of `s` belong to `cs`. */
  function TrailingIn(s: string, cs: set<char>): (n: nat)
    ensures n <= |s|
    ensures forall k :: |s| - n <= k < |s| ==> s[k] in cs
    ensures n == |s| || s[|s| - n - 1] !in cs
    decreases |s|
  {
    if s != [] && s[|s| - 1] in cs then
      var n := TrailingIn(s[..|s| - 1], cs);
      assert forall k :: |s| - n - 1 <= k < |s| - 1 ==> s[k] == s[..|s| - 1][k];
      n + 1
    else 0
  }

  /** `s.lstrip(chars)`: `s` without its leading run of `cs`. */
  function LStrip(s: string, cs: set<char>): (r: string)
    ensures |r| <= |s| && r == s[|s| - |r|..]
    ensures r == [] || r[0] !in cs
    ensures forall i :: 0 <= i < |s| - |r| ==> s[i] in cs
  {
    s[LeadingIn(s, cs)..]
  }

  /** `s.rstrip(chars)`: `s` without its trailing run of `cs`. */
  function RStrip(s: string, cs: set<char>): (r: string)
    ensures |r| <= |s| && r == s[..|r|]
    ensures r == [] || r[|r| - 1] !in cs
    ensures forall i :: |r| <= i < |s| ==> s[i] in cs
  {
    s[..|s| - TrailingIn(s, cs)]
  }

  /** `s.strip(chars)`: `s` with its leading and trailing runs of `cs`
      removed; what is left starts at the index where `lstrip` stops. */
  function Strip(s: string, cs: set<char>): (r: string)
    ensures r == [] || (r[0] !in cs && r[|r| - 1] !in cs)
    ensures var i := |s| - |LStrip(s, cs)|;
            && i + |r| <= |s| && r == s[i..i + |r|]
            && (forall k :: 0 <= k < i ==> s[k] in cs)
            && (forall k :: i + |r| <= k < |s| ==> s[k] in cs)
  {
    var l := LStrip(s, cs);
    var r := RStrip(l, cs);
    StripInside(s, l, r);
    StripEnds(l, r, cs);
    StripTrailing(s, l, r, cs);
    r
  }

  /** A prefix of a suffix is a slice. */
  lemma StripInside(s: string, l: string, r: string)
    requires |l| <= |s| && l == s[|s| - |l|..]
    requires |r| <= |l| && r == l[..|r|]
    ensures var i := |s| - |l|; i + |r| <= |s| && r == s[i..i + |r|]
  {
  }

  lemma StripEnds(l: string, r: string, cs: set<char>)
    requires l == [] || l[0] !in cs
    requires |r| <= |l| && r == l[..|r|]
    requires r == [] || r[|r| - 1] !in cs
    ensures r == [] || (r[0] !in cs && r[|r| - 1] !in cs)
  {
    if r != [] {
      assert r[0] == l[0];
    }
  }

  lemma StripTrailing(s: string, l: string, r: string, cs: set<char>)
    requires |l| <= |s| && l == s[|s| - |l|..]
    requires |r| <= |l| && forall k :: |r| <= k < |l| ==> l[k] in cs
    ensures forall k :: |s| - |l| + |r| <= k < |s| ==> s[k] in cs
  {
    forall k | |s| - |l| + |r| <= k < |s|
      ensures s[k] in cs
    {
      assert s[k] == l[k - (|s| - |l|)];
    }
  }

  /** Stripping a string whose ends are already outside `cs` changes nothing. */
  lemma StripUnchanged(s: string, cs: set<char>)
    requires s == [] || (s[0] !in cs && s[|s| - 1] !in cs)
    ensures Strip(s, cs) == s
  {
    assert LStrip(s, cs) == s;
  }

  /** `s.replace(a, b)` for single characters `a` and `b`. */
  function ReplaceChar(s: string, a: char, b: char): (r: string)
    ensures |r| == |s|
    ensures forall i :: 0 <= i < |s| ==> r[i] == (if s[i] == a then b else s[i])
  {
    seq(|s|, i requires 0 <= i < |s| => if s[i] == a then b else s[i])
  }

  // ---------------------------------------------------------------------
  // title
  // ---------------------------------------------------------------------

  /** CPython's `str.title` loop: a letter is upper-cased when the character
      before it is not a letter and lower-cased when it is; `prevCased` says
      whether the character before `s` was a letter. */
  function TitleFrom(s: string, prevCased: bool): (r: string)
    ensures |r| == |s|
    ensures forall i :: 0 <= i < |s| ==>
              r[i] == (if (if i == 0 then prevCased else IsCased(s[i - 1]))
                       then LowerChar(s[i]) else UpperChar(s[i]))
    decreases |s|
  {
    if s == [] then []
    else [if prevCased then LowerChar(s[0]) else UpperChar(s[0])] + TitleFrom(s[1..], IsCased(s[0]))
  }

  /** `s.title()` */
  function Title(s: string): (r: string)
    ensures |r| == |s|
    ensures forall i :: 0 <= i < |s| ==> IsCased(r[i]) == IsCased(s[i])
    ensures forall i :: 0 <= i < |s| && !IsCased(s[i]) ==> r[i] == s[i]
    ensures forall i :: 0 <= i < |s| && IsCased(s[i]) ==>
              (IsUpper(r[i]) <==> i == 0 || !IsCased(s[i - 1]))
    ensures forall i :: 0 <= i < |s| ==> LowerChar(r[i]) == LowerChar(s[i])
  {
    var r := TitleFrom(s, false);
    TitleChars(s, r);
    r
  }

  lemma TitleChars(s: string, r: string)
    requires r == TitleFrom(s, false)
    ensures |r| == |s|
    ensures forall i :: 0 <= i < |s| ==> IsCased(r[i]) == IsCased(s[i])
    ensures forall i :: 0 <= i < |s| && !IsCased(s[i]) ==> r[i] == s[i]
    ensures forall i :: 0 <= i < |s| && IsCased(s[i]) ==>
              (IsUpper(r[i]) <==> i == 0 || !IsCased(s[i - 1]))
    ensures forall i :: 0 <= i < |s| ==> LowerChar(r[i]) == LowerChar(s[i])
  {
    forall i | 0 <= i < |s|
      ensures IsCased(r[i]) == IsCased(s[i])
      ensures !IsCased(s[i]) ==> r[i] == s[i]
      ensures IsCased(s[i]) ==> (IsUpper(r[i]) <==> i == 0 || !IsCased(s[i - 1]))
      ensures LowerChar(r[i]) == LowerChar(s[i])
    {
      CaseMapsKeepCased(s[i]);
      var lowered := i > 0 && IsCased(s[i - 1]);
      assert r[i] == (if lowered then LowerChar(s[i]) else UpperChar(s[i]));
    }
  }

  /** Title-casing is idempotent. */
  lemma TitleIdempotent(s: string)
    ensures Title(Title(s)) == Title(s)
  {
    var t := Title(s);
    var tt := Title(t);
    forall i | 0 <= i < |s|
      ensures tt[i] == t[i]
    {
      CaseMapsKeepCased(s[i]);
      if i > 0 { CaseMapsKeepCased(s[i - 1]); }
      assert TitleFrom(t, false)[i] == tt[i];
      assert TitleFrom(s, false)[i] == t[i];
    }
  }

  // ---------------------------------------------------------------------
  // split and join on one separator character
  // ---------------------------------------------------------------------

  /** `s.split(sep)` with an explicit one-character separator: the pieces
      between consecutive separators, empty pieces included. */
  function Split(s: string, sep: char): (r: seq<string>)
    ensures |r| >= 1
    decreases |s|
  {
    if s == [] then [""]
    else
      var rest := Split(s[1..], sep);
      if s[0] == sep then [""] + rest
      else [[s[0]] + rest[0]] + rest[1..]
  }

  /** No piece of a split holds the separator. */
  lemma {:induction false} SplitPiecesFree(s: string, sep: char)
    ensures forall i :: 0 <= i < |Split(s, sep)| ==> sep !in Split(s, sep)[i]
    decreases |s|
  {
    if s != [] {
      SplitPiecesFree(s[1..], sep);
      var rest := Split(s[1..], sep);
      if s[0] != sep {
        assert sep !in [s[0]] + rest[0];
        assert forall i :: 1 <= i < |Split(s, sep)| ==> Split(s, sep)[i] == rest[i];
      } else {
        assert forall i :: 1 <= i < |Split(s, sep)| ==> Split(s, sep)[i] == rest[i - 1];
      }
    }
  }

  /** `sep.join(parts)`, the reference the flattening of name tokens is
      compared against (`JoinSplit`, `SplitJoin`). */
  function Join(parts: seq<string>, sep: char): string
    decreases |parts|
  {
    if |parts| == 0 then ""
    else if |parts| == 1 then parts[0]
    else parts[0] + [sep] + Join(parts[1..], sep)
  }

  /** Joining the pieces of a split rebuilds the string. */
  lemma {:induction false} JoinSplit(s: string, sep: char)
    ensures Join(Split(s, sep), sep) == s
    decreases |s|
  {
    if s != [] {
      var rest := Split(s[1..], sep);
      JoinSplit(s[1..], sep);
      if s[0] == sep {
        assert Split(s, sep) == [""] + rest;
        assert ([""] + rest)[1..] == rest;
      } else if |rest| == 1 {
        assert Split(s, sep) == [[s[0]] + rest[0]];
      } else {
        var parts := Split(s, sep);
        assert parts == [[s[0]] + rest[0]] + rest[1..];
        assert parts[1..] == rest[1..];
        assert Join(rest, sep) == rest[0] + [sep] + Join(rest[1..], sep);
        assert s == [s[0]] + s[1..];
      }
    }
  }

  /** Splitting a string without the separator gives the string itself. */
  lemma {:induction false} SplitNoSep(s: string, sep: char)
    requires sep !in s
    ensures Split(s, sep) == [s]
    decreases |s|
  {
    if s != [] {
      SplitNoSep(s[1..], sep);
      assert s == [s[0]] + s[1..];
    }
  }

  /** A split has more than one piece exactly when the separator occurs. */
  lemma {:induction false} SplitSeveral(s: string, sep: char)
    ensures |Split(s, sep)| >= 2 <==> sep in s
    decreases |s|
  {
    if s != [] {
      SplitSeveral(s[1..], sep);
      assert sep in s <==> s[0] == sep || sep in s[1..];
    }
  }

  /** One step of `Split`: the first character either ends the first piece
      or joins it. */
  lemma SplitCons(c: char, t: string, sep: char)
    ensures Split([c] + t, sep)
         == if c == sep then [""] + Split(t, sep) else [[c] + Split(t, sep)[0]] + Split(t, sep)[1..]
  {
    assert ([c] + t)[1..] == t;
  }

  /** Splitting distributes over a separator occurrence. */
  lemma {:induction false} SplitConcat(a: string, b: string, sep: char)
    ensures Split(a + [sep] + b, sep) == Split(a, sep) + Split(b, sep)
    decreases |a|
  {
    if a == [] {
      assert a + [sep] + b == [sep] + b;
      SplitCons(sep, b, sep);
    } else {
      SplitConcat(a[1..], b, sep);
      SplitConcatStep(a, b, sep);
    }
  }

  /** The inductive step of `SplitConcat`, for a non-empty `a`. */
  lemma SplitConcatStep(a: string, b: string, sep: char)
    requires a != []
    requires Split(a[1..] + [sep] + b, sep) == Split(a[1..], sep) + Split(b, sep)
    ensures Split(a + [sep] + b, sep) == Split(a, sep) + Split(b, sep)
  {
    var t := a[1..] + [sep] + b;
    assert a + [sep] + b == [a[0]] + t;
    assert a == [a[0]] + a[1..];
    SplitCons(a[0], t, sep);
    SplitCons(a[0], a[1..], sep);
    ConsPieces(a[0], sep, Split(a[1..], sep), Split(b, sep));
  }

  /** The list algebra behind `SplitConcatStep`: adding a character to the
      front of the first piece commutes with appending more pieces. */
  lemma ConsPieces(c: char, sep: char, ra: seq<string>, rb: seq<string>)
    requires |ra| >= 1
    ensures (if c == sep then [""] + (ra + rb) else [[c] + (ra + rb)[0]] + (ra + rb)[1..])
         == (if c == sep then [""] + ra else [[c] + ra[0]] + ra[1..]) + rb
  {
    if c == sep {
      assert [""] + (ra + rb) == ([""] + ra) + rb;
    } else {
      var head := [c] + ra[0];
      assert (ra + rb)[0] == ra[0];
      assert (ra + rb)[1..] == ra[1..] + rb;
      assert [head] + (ra[1..] + rb) == ([head] + ra[1..]) + rb;
    }
  }

  /** Splitting the join of separator-free pieces gives the pieces back. */
  lemma {:induction false} SplitJoin(parts: seq<string>, sep: char)
    requires |parts| >= 1
    requires forall i :: 0 <= i < |parts| ==> sep !in parts[i]
    ensures Split(Join(parts, sep), sep) == parts
    decreases |parts|
  {
    SplitNoSep(parts[0], sep);
    if |parts| > 1 {
      SplitJoin(parts[1..], sep);
      SplitConcat(parts[0], Join(parts[1..], sep), sep);
      assert parts == [parts[0]] + parts[1..];
    }
  }

  // ---------------------------------------------------------------------
  // repr and str(int)
  // ---------------------------------------------------------------------

  function HexDigit(n: int): char
    requires 0 <= n < 16
  {
    "0123456789abcdef"[n]
  }

  /** The quote CPython's `repr` chooses: double quotes only when the text
      holds a single quote and no double quote. */
  function ReprQuote(s: string): char
  {
    if '\'' in s && '"' !in s then '"' else '\''
  }

  /** How `repr` writes one character inside quotes `q` (ASCII rules;
      characters above ASCII are copied). */
  function EscapeChar(c: char, q: char): string
  {
    if c == '\\' then "\\\\"
    else if c == q then ['\\', q]
    else if c == '\t' then "\\t"
    else if c == '\n' then "\\n"
    else if c == '\r' then "\\r"
    else if c < ' ' || c == '\U{7F}' then "\\x" + [HexDigit(c as int / 16), HexDigit(c as int % 16)]
    else [c]
  }

  function Escape(s: string, q: char): string
    decreases |s|
  {
    if s == [] then "" else EscapeChar(s[0], q) + Escape(s[1..], q)
  }

  /** Escaping works character by character: the escape of a concatenation
      is the concatenation of the escapes. */
  lemma {:induction false} EscapeConcat(a: string, b: string, q: char)
    ensures Escape(a + b, q) == Escape(a, q) + Escape(b, q)
    decreases |a|
  {
    if a != [] {
      EscapeConcat(a[1..], b, q);
      assert (a + b)[0] == a[0];
      assert (a + b)[1..] == a[1..] + b;
      calc {
        Escape(a + b, q);
        EscapeChar(a[0], q) + Escape(a[1..] + b, q);
        EscapeChar(a[0], q) + (Escape(a[1..], q) + Escape(b, q));
        (EscapeChar(a[0], q) + Escape(a[1..], q)) + Escape(b, q);
      }
    } else {
      assert a + b == b;
    }
  }

  /** `repr(s)` for a `str`: the text between two equal quotes, double
      ones exactly when `s` holds a single quote and no double quote. */
  function Repr(s: string): (r: string)
    ensures |r| >= 2 && r[0] == r[|r| - 1]
    ensures r[0] == '"' <==> '\'' in s && '"' !in s
    ensures r[0] == '\'' || r[0] == '"'
    ensures r[1..|r| - 1] == Escape(s, r[0])
  {
    var q := ReprQuote(s);
    [q] + Escape(s, q) + [q]
  }

  /** Characters `repr` copies unchanged inside single quotes. */
  predicate IsPlainReprChar(c: char)
  {
    c >= ' ' && c != '\U{7F}' && c != '\'' && c != '\\'
  }

  lemma {:induction false} EscapePlain(s: string)
    requires forall i :: 0 <= i < |s| ==> IsPlainReprChar(s[i])
    ensures Escape(s, '\'') == s
    decreases |s|
  {
    if s != [] {
      EscapePlain(s[1..]);
      assert s == [s[0]] + s[1..];
    }
  }

  /** A string of plain characters is written as itself between single quotes. */
  lemma ReprPlain(s: string)
    requires forall i :: 0 <= i < |s| ==> IsPlainReprChar(s[i])
    ensures Repr(s) == "'" + s + "'"
  {
    assert '\'' !in s;
    EscapePlain(s);
  }

  function DigitChar(d: int): char
    requires 0 <= d < 10
  {
    "0123456789"[d]
  }

  function DigitValue(c: char): int
  {
    c as int - '0' as int
  }

  /** `str(n)` for a non-negative integer. */
  function NatToString(n: nat): (r: string)
    ensures |r| >= 1
    ensures forall i :: 0 <= i < |r| ==> '0' <= r[i] <= '9'
    ensures r[0] == '0' ==> n == 0 && |r| == 1
    decreases n
  {
    if n < 10 then [DigitChar(n)] else NatToString(n / 10) + [DigitChar(n % 10)]
  }

  /** The value a string of decimal digits denotes. */
  function ParseDigits(s: string): int
    decreases |s|
  {
    if s == [] then 0 else 10 * ParseDigits(s[..|s| - 1]) + DigitValue(s[|s| - 1])
  }

  /** Reading back the decimal rendering gives the number. */
  lemma {:induction false} ParseNatToString(n: nat)
    ensures ParseDigits(NatToString(n)) == n
    decreases n
  {
    if n < 10 {
      DigitRoundTrip(n);
    } else {
      var q, d := n / 10, n % 10;
      ParseNatToString(q);
      DigitRoundTrip(d);
      var s := NatToString(n);
      assert s == NatToString(q) + [DigitChar(d)];
      assert s[..|s| - 1] == NatToString(q);
      assert ParseDigits(s) == 10 * q + d;
    }
  }

  lemma DigitRoundTrip(d: int)
    requires 0 <= d < 10
    ensures DigitValue(DigitChar(d)) == d
  {
  }

  /** `str(i)` for any integer: the digits after the optional minus denote
      the magnitude. */
  function IntToString(i: int): (r: string)
    ensures |r| >= 1
    ensures (r[0] == '-') <==> i < 0
    ensures forall k :: 0 <= k < |r| ==> ('0' <= r[k] <= '9' || (k == 0 && r[k] == '-'))
    ensures ParseDigits(if i < 0 then r[1..] else r) == (if i < 0 then -i else i)
    ensures var d := if i < 0 then r[1..] else r; |d| >= 1 && (d[0] == '0' ==> |d| == 1)
  {
    if i < 0 then
      MinusDigits(-i);
      "-" + NatToString(-i)
    else
      ParseNatToString(i);
      NatToString(i)
  }

  /** The digits after a leading minus read back as the magnitude. */
  lemma MinusDigits(n: nat)
    ensures ("-" + NatToString(n))[1..] == NatToString(n)
    ensures ParseDigits(NatToString(n)) == n
  {
    ParseNatToString(n);
  }
}
