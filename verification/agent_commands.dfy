/** The `enable` and `disable` commands: pick an agent by registry index or by shortcode,
    then update the disabled list. */
module AgentCommands {
  import opened Wrappers
  import opened Strings
  import opened Registry
  import opened ConfigService

  // ---------------------------------------------------------------------------
  // parseInt
  // ---------------------------------------------------------------------------

  /** The value of `c` as a digit in base `radix` (letters of either case from 10 on). */
  function DigitValue(c: char, radix: nat): (d: Option<nat>)
    ensures d.Some? ==> d.value < radix
  {
    var v: int :=
      if '0' <= c <= '9' then c as int - '0' as int
      else if 'a' <= c <= 'z' then c as int - 'a' as int + 10
      else if 'A' <= c <= 'Z' then c as int - 'A' as int + 10
      else radix;
    if v < radix then Some(v) else None
  }

  /** Length of the run of base-`radix` digits at the start of `s`. */
  function DigitRun(s: string, radix: nat): (n: nat)
    ensures n <= |s|
    ensures forall k :: 0 <= k < n ==> DigitValue(s[k], radix).Some?
    ensures n < |s| ==> DigitValue(s[n], radix).None?
    decreases |s|
  {
    if |s| == 0 || DigitValue(s[0], radix).None? then 0 else 1 + DigitRun(s[1..], radix)
  }

  /** The number a string of digits denotes, most significant digit first. */
  function DigitsValue(s: string, radix: nat): nat
    requires forall k :: 0 <= k < |s| ==> DigitValue(s[k], radix).Some?
    decreases |s|
  {
    if |s| == 0 then 0
    else
      var init := s[..|s| - 1];
      assert forall k :: 0 <= k < |init| ==> init[k] == s[k];
      Shift(DigitsValue(init, radix), radix, DigitValue(s[|s| - 1], radix).value)
  }

  /** `v` with the digit `d` appended in base `radix`. */
  function Shift(v: nat, radix: nat, d: nat): nat {
    v * radix + d
  }

  /** `parseInt(s)` with no radix argument: leading whitespace is skipped, one sign is
      read, a `0x`/`0X` prefix selects base 16, and the longest run of digits that follows
      is the number; no digits at all gives `NaN` (here `None`). */
  function ParseInt(s: string): (r: Option<int>)
  {
    ParseSigned(s[LeadingWhitespace(s)..])
  }

  /** An optional sign, then the magnitude. */
  function ParseSigned(t: string): (r: Option<int>)
  {
    var u := if |t| > 0 && (t[0] == '-' || t[0] == '+') then t[1..] else t;
    match ParseMagnitude(u)
    case None => None
    case Some(m) => if |t| > 0 && t[0] == '-' then Some(-(m as int)) else Some(m as int)
  }

  /** A hex prefix selects base 16; otherwise the digits are decimal. */
  function ParseMagnitude(u: string): (r: Option<nat>)
  {
    if |u| >= 2 && u[0] == '0' && (u[1] == 'x' || u[1] == 'X') then LeadingNumber(u[2..], 16)
    else LeadingNumber(u, 10)
  }

  /** The value of the leading run of digits, if there is one. */
  function LeadingNumber(v: string, radix: nat): (r: Option<nat>)
    ensures r.Some? <==> DigitRun(v, radix) > 0
  {
    var n := DigitRun(v, radix);
    if n == 0 then None else Some(DigitsValue(v[..n], radix))
  }

  predicate AllDecimal(s: string) {
    forall k :: 0 <= k < |s| ==> '0' <= s[k] <= '9'
  }

  /** A run of decimal digits reads as its value, whatever non-digit text follows it
      (`parseInt("1abc")` is 1); only `0` directly followed by `x` switches to base 16. */
  lemma ParseIntDigits(s: string, t: string)
    requires |s| > 0 && AllDecimal(s)
    requires |t| == 0 || DigitValue(t[0], 10).None?
    requires !(s == "0" && |t| > 0 && (t[0] == 'x' || t[0] == 'X'))
    ensures forall k :: 0 <= k < |s| ==> DigitValue(s[k], 10).Some?
    ensures ParseInt(s + t) == Some(DigitsValue(s, 10))
  {
    var w := s + t;
    assert w[0] == s[0];
    assert !(|w| >= 2 && w[0] == '0' && (w[1] == 'x' || w[1] == 'X')) by {
      if |s| >= 2 { assert w[1] == s[1]; } else { assert |t| > 0 ==> w[1] == t[0]; }
    }
    DigitRunPrefix(s, t);
    assert w[..|s|] == s;
    ParseIntUnsigned(w);
  }

  /** `parseInt` of text that starts with a decimal digit and no hex prefix is the value
      of its leading run of decimal digits. */
  lemma ParseIntUnsigned(w: string)
    requires |w| > 0 && '0' <= w[0] <= '9'
    requires !(|w| >= 2 && w[0] == '0' && (w[1] == 'x' || w[1] == 'X'))
    ensures ParseInt(w) == LeadingNumber(w, 10)
  {
    assert !IsWhitespace(w[0]);
    assert LeadingWhitespace(w) == 0;
    assert w[0..] == w;
  }

  /** Decimal digits followed by a non-digit, or by nothing, form a run of exactly their
      own length. */
  lemma {:induction false} DigitRunPrefix(s: string, t: string)
    requires AllDecimal(s)
    requires |t| == 0 || DigitValue(t[0], 10).None?
    ensures DigitRun(s + t, 10) == |s|
    decreases |s|
  {
    if |s| == 0 {
      assert s + t == t;
    } else {
      assert (s + t)[0] == s[0] && (s + t)[1..] == s[1..] + t;
      DigitRunPrefix(s[1..], t);
    }
  }

  /** A string starting with a letter other than a hex prefix is not a number. */
  lemma ParseIntLetter(s: string)
    requires |s| > 0 && 'a' <= s[0] <= 'z'
    ensures ParseInt(s).None?
  {
    assert !IsWhitespace(s[0]);
    assert LeadingWhitespace(s) == 0;
    assert s[0..] == s;
    assert DigitValue(s[0], 10).None?;
  }

  /** The decimal numeral of `k`. */
  function DecimalString(k: nat): (s: string)
    ensures |s| >= 1 && AllDecimal(s)
    ensures k >= 10 ==> s[0] != '0'
  {
    if k < 10 then [('0' as int + k) as char]
    else DecimalString(k / 10) + [('0' as int + k % 10) as char]
  }

  lemma {:induction false} DecimalValue(k: nat)
    ensures forall i :: 0 <= i < |DecimalString(k)| ==> DigitValue(DecimalString(k)[i], 10).Some?
    ensures DigitsValue(DecimalString(k), 10) == k
    decreases k
  {
    var s := DecimalString(k);
    if k >= 10 {
      DecimalValue(k / 10);
      assert s[..|s| - 1] == DecimalString(k / 10);
    } else {
      assert s[..0] == [];
    }
  }

  /** A numeral reads back as its number. */
  lemma ParseIntDecimal(k: nat)
    ensures ParseInt(DecimalString(k)) == Some(k)
  {
    var s := DecimalString(k);
    DecimalValue(k);
    ParseIntDigits(s, "");
    assert s + "" == s;
  }

  // ---------------------------------------------------------------------------
  // picking an agent
  // ---------------------------------------------------------------------------

  /** An identifier that parses to an integer inside the table picks by position; any
      other identifier is looked up as a shortcode. */
  function ResolveRule(agents: seq<Agent>, identifier: string): (r: Option<Agent>)
    ensures r.Some? ==> r.value in agents
    ensures (var n := ParseInt(identifier); n.Some? && 0 <= n.value < |agents|) ==>
              r == Some(agents[ParseInt(identifier).value])
    ensures !(var n := ParseInt(identifier); n.Some? && 0 <= n.value < |agents|) ==>
              r == FindByShortcode(agents, identifier)
  {
    var n := ParseInt(identifier);
    if n.Some? && 0 <= n.value < |agents| then Some(agents[n.value]) else FindByShortcode(agents, identifier)
  }

  /** `3` picks the fourth agent. */
  lemma ResolveByIndex(k: nat)
    requires k < |AGENTS|
    ensures ResolveRule(AGENTS, DecimalString(k)) == Some(AGENTS[k])
  {
    ParseIntDecimal(k);
  }

  /** Every agent is found by its own shortcode (none of them reads as a number). */
  lemma ResolveByShortcode(k: nat)
    requires k < |AGENTS|
    ensures ResolveRule(AGENTS, AGENTS[k].shortcode) == Some(AGENTS[k])
  {
    ShortcodesStartWithLetter();
    ParseIntLetter(AGENTS[k].shortcode);
    GetRuleByOwnShortcode(k);
  }

  lemma ParseIntMinusOne()
    ensures ParseInt("-1") == Some(-1)
  {
    var s := "-1";
    assert !IsWhitespace(s[0]);
    assert LeadingWhitespace(s) == 0;
    assert s[0..] == s && s[1..] == "1";
    assert DigitRun("1", 10) == 1 by { assert "1"[1..] == []; }
    assert "1"[..1] == "1" && "1"[..0] == [];
  }

  /** `-1` is a number, but outside the table, so it is looked up as a shortcode and found
      nowhere. */
  lemma MinusOneIsNotFound()
    ensures ResolveRule(AGENTS, "-1") == None
  {
    ParseIntMinusOne();
    ShortcodesStartWithLetter();
    assert forall k :: 0 <= k < |AGENTS| ==> AGENTS[k].shortcode != "-1";
  }

  // ---------------------------------------------------------------------------
  // the commands
  // ---------------------------------------------------------------------------

  /** A command's exit code and the configuration it leaves behind. */
  datatype Outcome = Outcome(code: int, config: Config)

  /** `EnableCommand.execute`. */
  function Enable(c: Config, identifier: string): (o: Outcome)
    ensures ResolveRule(AGENTS, identifier).None? ==> o == Outcome(1, c)
    ensures ResolveRule(AGENTS, identifier).Some? ==>
              var sc := ResolveRule(AGENTS, identifier).value.shortcode;
              && o.code == 0
              && sc !in GetDisabledRules(o.config)
              && (forall x :: x != sc ==> (x in GetDisabledRules(o.config) <==> x in GetDisabledRules(c)))
              && (sc !in GetDisabledRules(c) ==> o.config == c)
  {
    match ResolveRule(AGENTS, identifier)
    case None => Outcome(1, c)
    case Some(agent) =>
      if agent.shortcode !in GetDisabledRules(c) then Outcome(0, c)
      else
        var c' := EnableRule(c, agent.shortcode);
        assert forall x :: x != agent.shortcode ==>
          (x in GetDisabledRules(c') <==> multiset(GetDisabledRules(c'))[x] > 0);
        Outcome(0, c')
  }

  /** `DisableCommand.execute`. */
  function Disable(c: Config, identifier: string): (o: Outcome)
    ensures ResolveRule(AGENTS, identifier).None? ==> o == Outcome(1, c)
    ensures ResolveRule(AGENTS, identifier).Some? ==>
              var sc := ResolveRule(AGENTS, identifier).value.shortcode;
              && o.code == 0
              && sc in GetDisabledRules(o.config)
              && (forall x :: x != sc ==> (x in GetDisabledRules(o.config) <==> x in GetDisabledRules(c)))
              && (sc in GetDisabledRules(c) ==> o.config == c)
              && (sc !in GetDisabledRules(c) ==> multiset(GetDisabledRules(o.config))[sc] == 1)
  {
    match ResolveRule(AGENTS, identifier)
    case None => Outcome(1, c)
    case Some(agent) =>
      if agent.shortcode in GetDisabledRules(c) then Outcome(0, c)
      else Outcome(0, DisableRule(c, agent.shortcode))
  }
}
