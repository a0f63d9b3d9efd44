/** The end-to-end examples of the pattern matcher: the matcher built from
    `["^dead", "beef$"]` accepts an address that starts with `dead` and
    rejects one whose `beef` is two digits short of the end. */
module PatternExamples {
  import opened Text
  import opened Patterns

  /** `^dead` becomes the prefix rule `dead`, `beef$` the suffix rule `beef`. */
  lemma DeadBeefMatcher()
    ensures Classify(["^dead", "beef$"]) == PatternMatcher(["dead"], ["beef"], [])
  {
    var ps := ["^dead", "beef$"];
    assert LowerStr("^dead") == "^dead";
    assert LowerStr("beef$") == "beef$";
    assert ClassifyPattern("^dead") == Rule(Prefix, "dead");
    assert ClassifyPattern("beef$") == Rule(Suffix, "beef");
    assert ps[..1] == ["^dead"];
    assert ["^dead"][..0] == [];
  }

  /** `n` zero digits. */
  function Zeros(n: nat): (z: string)
    ensures |z| == n && forall i :: 0 <= i < n ==> z[i] == '0'
  { seq(n, _ => '0') }

  /** `0x` followed by 40 lower-case hexadecimal digits is a well-formed
      address whose body is those digits. */
  lemma AddressOf(body: string)
    requires |body| == 40
    requires forall i :: 0 <= i < 40 ==> IsHexDigit(body[i]) && !('A' <= body[i] <= 'Z')
    ensures IsAddress("0x" + body) && Body("0x" + body) == body
  {
  }

  /** The two example addresses, spelled as marker and body. */
  lemma Spelled()
    ensures "0xdeadbeef00000000000000000000000000000000" == "0x" + ("deadbeef" + Zeros(32))
    ensures "0x0000000000000000000000000000000000beef00" == "0x" + (Zeros(34) + "beef00")
  {}

  /** The first example body starts with `dead`. */
  lemma Scenario1Body()
    ensures MatchesAny(PatternMatcher(["dead"], ["beef"], []), "0x" + ("deadbeef" + Zeros(32)))
  {
    var body := "deadbeef" + Zeros(32);
    AddressOf(body);
    assert body[..4] == "dead";
  }

  /** The second example body neither starts with `dead` nor ends with
      `beef`, and the matcher has no contains rule. */
  lemma Scenario2Body()
    ensures !MatchesAny(PatternMatcher(["dead"], ["beef"], []), "0x" + (Zeros(34) + "beef00"))
  {
    var body := Zeros(34) + "beef00";
    AddressOf(body);
    assert body[0] == '0' && body[39] == '0';
  }

  /** Both examples, on the matcher compiled from the raw patterns. */
  lemma Scenarios()
    ensures MatchesAny(Classify(["^dead", "beef$"]), "0xdeadbeef00000000000000000000000000000000")
    ensures !MatchesAny(Classify(["^dead", "beef$"]), "0x0000000000000000000000000000000000beef00")
  {
    DeadBeefMatcher();
    Spelled();
    Scenario1Body();
    Scenario2Body();
  }
}
