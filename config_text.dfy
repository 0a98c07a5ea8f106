/** The text form of an electron configuration, as the orbital viewer writes it:
    a header naming the atomic number, then one `sub^count ` token per filled
    subshell in fill order, each followed by a single space. Numbers are written
    in decimal, as a template literal renders an integer. A parser for the token
    list shows that the text loses nothing. */
module ConfigText {
  import opened Aufbau

  predicate IsDigit(c: char)
  {
    '0' <= c <= '9'
  }

  predicate AllDigits(s: string)
  {
    forall i :: 0 <= i < |s| ==> IsDigit(s[i])
  }

  /** Decimal rendering of a natural number, without leading zeros. */
  function Decimal(n: nat): (s: string)
    ensures |s| >= 1 && AllDigits(s)
    ensures s[0] == '0' ==> n == 0 && |s| == 1
  {
    if n < 10 then [('0' as int + n) as char]
    else Decimal(n / 10) + [('0' as int + n % 10) as char]
  }

  /** The value of a string of decimal digits. */
  function ParseDecimal(s: string): nat
    requires AllDigits(s)
  {
    if s == [] then 0 else 10 * ParseDecimal(s[..|s| - 1]) + (s[|s| - 1] as int - '0' as int)
  }

  /** Reading back a rendered number gives the number. */
  lemma {:induction false} DecimalRoundTrip(n: nat)
    ensures ParseDecimal(Decimal(n)) == n
  {
    if n >= 10 {
      var s := Decimal(n);
      assert s[..|s| - 1] == Decimal(n / 10);
      DecimalRoundTrip(n / 10);
    }
  }

  /** The first line of the configuration text. */
  function Header(z: nat): (h: string)
    ensures |h| >= 32 && h[..29] == "Electron Configuration for Z=" && h[|h| - 2..] == ":\n"
    ensures AllDigits(h[29..|h| - 2]) && ParseDecimal(h[29..|h| - 2]) == z
  {
    var digits := Decimal(z);
    DecimalRoundTrip(z);
    var h := "Electron Configuration for Z=" + digits + ":\n";
    assert h[29..|h| - 2] == digits;
    h
  }

  /** One token: the subshell label, a caret, the electron count and a space. */
  function Token(f: Filled): string
  {
    f.sub + "^" + Decimal(f.count) + " "
  }

  /** The tokens of a fill, concatenated in fill order. */
  function ConfigBody(fills: seq<Filled>): (b: string)
    ensures b == "" <==> fills == []
    ensures fills != [] ==> b[|b| - 1] == ' '
  {
    if fills == [] then "" else ConfigBody(fills[..|fills| - 1]) + Token(fills[|fills| - 1])
  }

  lemma ConfigBodyAppend(fills: seq<Filled>, f: Filled)
    ensures ConfigBody(fills + [f]) == ConfigBody(fills) + Token(f)
  {
    assert (fills + [f])[..|fills|] == fills;
  }

  /** A label the token syntax can carry: it holds neither the caret nor the space. */
  predicate PlainLabel(sub: string)
  {
    '^' !in sub && ' ' !in sub
  }

  /** The part of s before the first c and the part after it. */
  function SplitAt(s: string, c: char): (r: Option<(string, string)>)
    ensures r.None? <==> c !in s
    ensures r.Some? ==> s == r.value.0 + [c] + r.value.1 && c !in r.value.0
  {
    if s == [] then None
    else if s[0] == c then Some(([], s[1..]))
    else match SplitAt(s[1..], c)
      case None => None
      case Some((before, after)) => Some(([s[0]] + before, after))
  }

  /** Reads `label^digits ` tokens back into (label, count) pairs; None when the
      text is not a token list. */
  function ParseBody(s: string): Option<seq<(string, nat)>>
    decreases |s|
  {
    if s == [] then Some([])
    else match SplitAt(s, '^')
      case None => None
      case Some((sub, rest)) =>
        match SplitAt(rest, ' ')
        case None => None
        case Some((digits, tail)) =>
          if digits == [] || !AllDigits(digits) then None
          else match ParseBody(tail)
            case None => None
            case Some(more) => Some([(sub, ParseDecimal(digits))] + more)
  }

  /** The (label, count) pairs a fill's text should carry. */
  function Pairs(fills: seq<Filled>): seq<(string, nat)>
  {
    seq(|fills|, i requires 0 <= i < |fills| => (fills[i].sub, fills[i].count))
  }

  lemma PairsCons(fills: seq<Filled>)
    requires fills != []
    ensures Pairs(fills) == [(fills[0].sub, fills[0].count)] + Pairs(fills[1..])
  {
  }

  lemma {:induction false} SplitAtFirst(a: string, c: char, b: string)
    requires c !in a
    ensures SplitAt(a + [c] + b, c) == Some((a, b))
  {
    if a != [] {
      var s := a + [c] + b;
      assert s[0] == a[0] && s[0] != c;
      assert s[1..] == a[1..] + [c] + b;
      SplitAtFirst(a[1..], c, b);
      assert [a[0]] + a[1..] == a;
    }
  }

  /** The body read from the front: first token, then the rest. */
  lemma {:induction false} ConfigBodyCons(fills: seq<Filled>)
    requires fills != []
    ensures ConfigBody(fills) == Token(fills[0]) + ConfigBody(fills[1..])
  {
    if |fills| > 1 {
      var init := fills[..|fills| - 1];
      ConfigBodyCons(init);
      assert init[1..] == fills[1..][..|fills[1..]| - 1];
    } else {
      assert fills[1..] == [];
    }
  }

  /** One token followed by any text parses as that token's pair in front of
      whatever the text parses as. */
  lemma ParseBodyToken(sub: string, digits: string, rest: string)
    requires PlainLabel(sub) && digits != [] && AllDigits(digits)
    ensures ParseBody(sub + "^" + digits + " " + rest) ==
      match ParseBody(rest)
      case None => None
      case Some(more) => Some([(sub, ParseDecimal(digits))] + more)
  {
    var s := sub + "^" + digits + " " + rest;
    assert s == sub + ['^'] + (digits + [' '] + rest);
    SplitAtFirst(sub, '^', digits + [' '] + rest);
    SplitAtFirst(digits, ' ', rest);
  }

  /** The token text of a greedy fill over a well-formed table whose labels
      fit the token syntax parses back to the fill's (label, count) pairs. */
  lemma FillTextRoundTrip(z: int, table: seq<Subshell>)
    requires WellFormed(table)
    requires forall i :: 0 <= i < |table| ==> PlainLabel(table[i].name)
    ensures ParseBody(ConfigBody(GreedyFill(z, table))) == Some(Pairs(GreedyFill(z, table)))
  {
    GreedyFillShape(z, table);
    ConfigBodyRoundTrip(GreedyFill(z, table));
  }

  /** The configuration text loses nothing: parsing the body gives back every
      subshell label and electron count, in fill order. */
  lemma {:induction false} ConfigBodyRoundTrip(fills: seq<Filled>)
    requires forall i :: 0 <= i < |fills| ==> PlainLabel(fills[i].sub)
    ensures ParseBody(ConfigBody(fills)) == Some(Pairs(fills))
    decreases |fills|
  {
    if fills != [] {
      var f, rest := fills[0], ConfigBody(fills[1..]);
      ConfigBodyCons(fills);
      assert ConfigBody(fills) == f.sub + "^" + Decimal(f.count) + " " + rest;
      ParseBodyToken(f.sub, Decimal(f.count), rest);
      DecimalRoundTrip(f.count);
      ConfigBodyRoundTrip(fills[1..]);
      assert ParseBody(ConfigBody(fills)) == Some([(f.sub, f.count)] + Pairs(fills[1..]));
      PairsCons(fills);
    } else {
      assert Pairs(fills) == [];
    }
  }
}
