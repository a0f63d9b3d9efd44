/** The pattern matcher of `src/patterns.rs`: raw pattern strings are
    lower-cased and sorted into prefix, suffix and contains rules, and an
    address matches when it is well formed and its lower-cased hexadecimal
    body satisfies at least one rule.

    Every rule is modelled as a literal string: `IsLiteralPattern` states when
    the regular expression the source compiles means exactly that. */
module Patterns {
  import opened Text

  /** The three groups a pattern can be sorted into. */
  datatype Kind = Prefix | Suffix | Contains

  /** One compiled rule: its group and its text, anchor removed. */
  datatype Rule = Rule(kind: Kind, text: string)

  /** The matcher: the rule texts of each group, in input order. */
  datatype PatternMatcher = PatternMatcher(
    prefixPatterns: seq<string>,
    suffixPatterns: seq<string>,
    containsPatterns: seq<string>)

  // ---------------------------------------------------------------------
  // Classification of one pattern
  // ---------------------------------------------------------------------

  /** The pattern string a rule is written as: its text with its anchor. */
  function Anchored(r: Rule): string {
    match r.kind
    case Prefix => "^" + r.text
    case Suffix => r.text + "$"
    case Contains => r.text
  }

  /** A rule that classification can produce: a suffix rule's text does not
      start with `^` (that pattern would have been a prefix rule), and a
      contains rule's text carries neither anchor. */
  predicate IsCanonical(r: Rule) {
    match r.kind
    case Prefix => true
    case Suffix => !HasPrefix(r.text, "^")
    case Contains => !HasPrefix(r.text, "^") && !HasSuffix(r.text, "$")
  }

  /** The rule that `PatternMatcher::new` compiles one raw pattern into: the
      unique canonical rule whose anchored form is the lower-cased pattern. */
  function ClassifyPattern(raw: string): (r: Rule)
    ensures IsCanonical(r)
    ensures Anchored(r) == LowerStr(raw)
    ensures IsLowerStr(r.text)
  {
    var pattern := LowerStr(raw);
    LowerStrIsLower(raw);
    if |pattern| > 0 && pattern[0] == '^' then
      assert pattern == "^" + pattern[1..];
      Rule(Prefix, pattern[1..])
    else if |pattern| > 0 && pattern[|pattern| - 1] == '$' then
      assert pattern == pattern[..|pattern| - 1] + "$";
      Rule(Suffix, pattern[..|pattern| - 1])
    else
      Rule(Contains, pattern)
  }

  /** A canonical rule is determined by its anchored form, so classification
      and `Anchored` are inverse to each other on canonical lower-case rules. */
  lemma CanonicalUnique(r1: Rule, r2: Rule)
    requires IsCanonical(r1) && IsCanonical(r2)
    requires Anchored(r1) == Anchored(r2)
    ensures r1 == r2
  {
    var s := Anchored(r1);
    if r1.kind == Prefix && r2.kind == Prefix {
      assert r1.text == s[1..] == r2.text;
    } else if r1.kind == Suffix && r2.kind == Suffix {
      assert r1.text == s[..|s| - 1] == r2.text;
    } else if r1.kind == Contains && r2.kind == Contains {
    } else {
      assert r1.kind != r2.kind;
      CanonicalKindsDiffer(r1, r2);
    }
  }

  /** Canonical rules of different kinds never share an anchored form. */
  lemma CanonicalKindsDiffer(r1: Rule, r2: Rule)
    requires IsCanonical(r1) && IsCanonical(r2)
    requires r1.kind != r2.kind
    ensures Anchored(r1) != Anchored(r2)
  {
    if r1.kind == Prefix {
      PrefixAnchorDiffers(r1, r2);
    } else if r2.kind == Prefix {
      PrefixAnchorDiffers(r2, r1);
    } else if r1.kind == Suffix {
      SuffixAnchorDiffers(r1, r2);
    } else {
      SuffixAnchorDiffers(r2, r1);
    }
  }

  /** Only a prefix rule's anchored form starts with `^`. */
  lemma PrefixAnchorDiffers(p: Rule, q: Rule)
    requires p.kind == Prefix && q.kind != Prefix && IsCanonical(q)
    ensures Anchored(p) != Anchored(q)
  {
    assert Anchored(p)[0] == '^';
    if |q.text| > 0 {
      assert q.text[..1] == [q.text[0]];
      assert Anchored(q)[0] == q.text[0] != '^';
    }
  }

  /** A contains rule's form does not end with `$`, unlike a suffix rule's. */
  lemma SuffixAnchorDiffers(s: Rule, c: Rule)
    requires s.kind == Suffix && c.kind == Contains && IsCanonical(c)
    ensures Anchored(s) != Anchored(c)
  {
  }

  /** Putting the anchor back on a canonical lower-case rule and classifying
      it again gives the same rule. */
  lemma ClassifyAnchored(r: Rule)
    requires IsCanonical(r) && IsLowerStr(r.text)
    ensures ClassifyPattern(Anchored(r)) == r
  {
  }

  /** The three branches of the classification, in the source's order: the
      `^` test comes first, so a pattern with both anchors is a prefix rule
      that keeps its `$`. */
  lemma ClassificationCases(raw: string)
    ensures var p := LowerStr(raw);
      && (HasPrefix(p, "^") ==> ClassifyPattern(raw) == Rule(Prefix, p[1..]))
      && (!HasPrefix(p, "^") && HasSuffix(p, "$") ==>
            ClassifyPattern(raw) == Rule(Suffix, p[..|p| - 1]))
      && (!HasPrefix(p, "^") && !HasSuffix(p, "$") ==>
            ClassifyPattern(raw) == Rule(Contains, p))
  {
  }

  // ---------------------------------------------------------------------
  // Classification of a list of patterns
  // ---------------------------------------------------------------------

  /** The texts of the patterns of `ps` that fall into group `k`, in input
      order. */
  function Group(ps: seq<string>, k: Kind): (g: seq<string>)
    ensures |g| <= |ps|
    ensures forall i :: 0 <= i < |g| ==> IsLowerStr(g[i])
    decreases |ps|
  {
    if ps == [] then []
    else
      var r := ClassifyPattern(ps[|ps| - 1]);
      Group(ps[..|ps| - 1], k) + (if r.kind == k then [r.text] else [])
  }

  /** The matcher that `PatternMatcher::new` builds from `ps`. */
  function Classify(ps: seq<string>): (m: PatternMatcher)
    ensures |m.prefixPatterns| + |m.suffixPatterns| + |m.containsPatterns| == |ps|
  {
    GroupSizes(ps);
    PatternMatcher(Group(ps, Prefix), Group(ps, Suffix), Group(ps, Contains))
  }

  /** Grouping distributes over concatenation of the input lists. */
  lemma {:induction false} GroupAppend(ps: seq<string>, qs: seq<string>, k: Kind)
    ensures Group(ps + qs, k) == Group(ps, k) + Group(qs, k)
    decreases |qs|
  {
    if qs == [] {
      assert ps + qs == ps;
    } else {
      var n := |qs| - 1;
      assert (ps + qs)[..|ps + qs| - 1] == ps + qs[..n];
      assert (ps + qs)[|ps + qs| - 1] == qs[n];
      GroupAppend(ps, qs[..n], k);
    }
  }

  /** Classification is total and exclusive: the three groups together hold
      exactly as many rules as there are patterns. */
  lemma {:induction false} GroupSizes(ps: seq<string>)
    ensures |Group(ps, Prefix)| + |Group(ps, Suffix)| + |Group(ps, Contains)| == |ps|
    decreases |ps|
  {
    if ps != [] {
      GroupSizes(ps[..|ps| - 1]);
    }
  }

  /** A text is in group `k` exactly when some input pattern classifies to a
      rule of kind `k` with that text. */
  lemma {:induction false} GroupMembership(ps: seq<string>, k: Kind, t: string)
    ensures t in Group(ps, k) <==>
      exists i :: 0 <= i < |ps| && ClassifyPattern(ps[i]) == Rule(k, t)
    decreases |ps|
  {
    if t in Group(ps, k) {
      GroupMemberHasSource(ps, k, t);
    }
    if i :| 0 <= i < |ps| && ClassifyPattern(ps[i]) == Rule(k, t) {
      GroupPosition(ps, i);
    }
  }

  /** Every text of group `k` comes from some input pattern. */
  lemma {:induction false} GroupMemberHasSource(ps: seq<string>, k: Kind, t: string)
    requires t in Group(ps, k)
    ensures exists i :: 0 <= i < |ps| && ClassifyPattern(ps[i]) == Rule(k, t)
    decreases |ps|
  {
    var n := |ps| - 1;
    var front := ps[..n];
    var r := ClassifyPattern(ps[n]);
    assert Group(ps, k) == Group(front, k) + (if r.kind == k then [r.text] else []);
    if t in Group(front, k) {
      GroupMemberHasSource(front, k, t);
      var i :| 0 <= i < |front| && ClassifyPattern(front[i]) == Rule(k, t);
      assert ps[i] == front[i];
    } else {
      assert ClassifyPattern(ps[n]) == Rule(k, t);
    }
  }

  /** Where pattern `i` lands in its group: after the rules of the same kind
      that come before it in the input. */
  function GroupIndex(ps: seq<string>, i: nat): nat
    requires i < |ps|
  {
    |Group(ps[..i], ClassifyPattern(ps[i]).kind)|
  }

  /** Pattern `i` contributes its rule text at position `GroupIndex(ps, i)`
      of its own group and adds nothing to the other two groups. */
  lemma GroupPosition(ps: seq<string>, i: nat)
    requires i < |ps|
    ensures var r := ClassifyPattern(ps[i]);
      && GroupIndex(ps, i) < |Group(ps, r.kind)|
      && Group(ps, r.kind)[GroupIndex(ps, i)] == r.text
      && forall k :: k != r.kind ==> |Group(ps[..i + 1], k)| == |Group(ps[..i], k)|
  {
    var r := ClassifyPattern(ps[i]);
    assert ps == ps[..i] + [ps[i]] + ps[i + 1..];
    assert ps[..i + 1] == ps[..i] + [ps[i]];
    assert [ps[i]][..0] == [];
    GroupAppend(ps[..i] + [ps[i]], ps[i + 1..], r.kind);
    GroupAppend(ps[..i], [ps[i]], r.kind);
    forall k | k != r.kind
      ensures |Group(ps[..i + 1], k)| == |Group(ps[..i], k)|
    {
      GroupAppend(ps[..i], [ps[i]], k);
    }
  }

  /** Within a group, rules keep the order of their patterns in the input. */
  lemma GroupOrder(ps: seq<string>, i: nat, j: nat)
    requires i < j < |ps|
    requires ClassifyPattern(ps[i]).kind == ClassifyPattern(ps[j]).kind
    ensures GroupIndex(ps, i) < GroupIndex(ps, j)
  {
    var k := ClassifyPattern(ps[i]).kind;
    assert ps[..j] == ps[..i + 1] + ps[i + 1..j];
    GroupAppend(ps[..i + 1], ps[i + 1..j], k);
    assert ps[..i + 1][..i] == ps[..i];
  }

  /** `PatternMatcher::new`: one pass over the patterns that lower-cases each
      one and appends it, anchor stripped, to the group its anchors select. */
  method NewPatternMatcher(patterns: seq<string>) returns (m: PatternMatcher)
    ensures m == Classify(patterns)
    ensures |m.prefixPatterns| + |m.suffixPatterns| + |m.containsPatterns| == |patterns|
  {
    var prefixPatterns: seq<string> := [];
    var suffixPatterns: seq<string> := [];
    var containsPatterns: seq<string> := [];
    for i := 0 to |patterns|
      invariant prefixPatterns == Group(patterns[..i], Prefix)
      invariant suffixPatterns == Group(patterns[..i], Suffix)
      invariant containsPatterns == Group(patterns[..i], Contains)
    {
      assert patterns[..i + 1][..i] == patterns[..i];
      var pattern := LowerStr(patterns[i]);
      if |pattern| > 0 && pattern[0] == '^' {
        prefixPatterns := prefixPatterns + [pattern[1..]];
      } else if |pattern| > 0 && pattern[|pattern| - 1] == '$' {
        suffixPatterns := suffixPatterns + [pattern[..|pattern| - 1]];
      } else {
        containsPatterns := containsPatterns + [pattern];
      }
    }
    assert patterns[..|patterns|] == patterns;
    m := PatternMatcher(prefixPatterns, suffixPatterns, containsPatterns);
    GroupSizes(patterns);
  }

  // ---------------------------------------------------------------------
  // The literal-pattern restriction
  // ---------------------------------------------------------------------

  /** The characters the `regex` crate gives a meaning other than themselves. */
  predicate IsMeta(c: char) {
    c in "\\.+*?()|[]{}^$#&-~"
  }

  /** Text in which no character is special to the `regex` crate. */
  predicate IsLiteralText(t: string) {
    forall i :: 0 <= i < |t| ==> !IsMeta(t[i])
  }

  /** A raw pattern whose compiled expression is its anchor (if any) followed
      by plain literal text; for such patterns `RuleMatches` is what the
      compiled expression matches. */
  predicate IsLiteralPattern(raw: string) {
    IsLiteralText(ClassifyPattern(raw).text)
  }

  /** A run of lower-case hexadecimal digits is lower-case literal text
      with no anchor at either end. */
  lemma LowerHexIsPlain(t: string)
    requires IsLowerHex(t)
    ensures IsLowerStr(t) && IsLiteralText(t)
    ensures !HasPrefix(t, "^") && !HasSuffix(t, "$")
  {
    if |t| > 0 {
      assert t[..1] == [t[0]];
      assert t[|t| - 1..] == [t[|t| - 1]];
    }
  }

  /** The shape of every pattern the program is configured with: hexadecimal
      digits alone make a literal contains rule, and hexadecimal digits
      followed by `$` make a literal suffix rule on those digits. */
  lemma HexPatternIsLiteral(t: string)
    requires IsLowerHex(t)
    ensures ClassifyPattern(t) == Rule(Contains, t) && IsLiteralPattern(t)
    ensures ClassifyPattern(t + "$") == Rule(Suffix, t) && IsLiteralPattern(t + "$")
  {
    LowerHexIsPlain(t);
    ClassifyAnchored(Rule(Contains, t));
    ClassifyAnchored(Rule(Suffix, t));
  }

  // ---------------------------------------------------------------------
  // Matching
  // ---------------------------------------------------------------------

  /** `ADDRESS_REGEX`, `^0x[0-9a-fA-F]{40}$`: a lower-case `0x` marker then
      exactly 40 hexadecimal digits of either case. */
  predicate IsAddress(a: string) {
    |a| == 42 && a[0] == '0' && a[1] == 'x' &&
    forall i :: 2 <= i < |a| ==> IsHexDigit(a[i])
  }

  /** The lower-cased address without its two-character marker. */
  function Body(a: string): (body: string)
    requires |a| >= 2
    ensures |body| == |a| - 2
    ensures forall i :: 0 <= i < |body| ==> body[i] == Lower(a[i + 2])
    ensures IsLowerStr(body)
  {
    LowerStr(a)[2..]
  }

  /** The body of a well-formed address is 40 lower-case hexadecimal digits. */
  lemma AddressBody(a: string)
    requires IsAddress(a)
    ensures |Body(a)| == 40
    ensures forall i :: 0 <= i < 40 ==> IsHexDigit(Body(a)[i]) && !('A' <= Body(a)[i] <= 'F')
  {
  }

  /** What one literal rule accepts of a body. */
  predicate RuleMatches(r: Rule, body: string) {
    match r.kind
    case Prefix => HasPrefix(body, r.text)
    case Suffix => HasSuffix(body, r.text)
    case Contains => HasSubstring(body, r.text)
  }

  /** `texts.iter().any(|re| re.is_match(body))` for the rules of group `k`. */
  function AnyMatches(k: Kind, texts: seq<string>, body: string): (b: bool)
    ensures b <==> exists t :: t in texts && RuleMatches(Rule(k, t), body)
  {
    if texts == [] then false
    else RuleMatches(Rule(k, texts[0]), body) || AnyMatches(k, texts[1..], body)
  }

  /** `PatternMatcher::matches_any`: false for anything that is not a
      well-formed address; otherwise true exactly when some rule of some group
      holds of the lower-cased body. */
  function MatchesAny(m: PatternMatcher, address: string): (b: bool)
    ensures !IsAddress(address) ==> !b
    ensures IsAddress(address) ==> (b <==>
      (exists t :: t in m.prefixPatterns && HasPrefix(Body(address), t)) ||
      (exists t :: t in m.suffixPatterns && HasSuffix(Body(address), t)) ||
      (exists t :: t in m.containsPatterns && HasSubstring(Body(address), t)))
  {
    if !IsAddress(address) then false
    else
      var body := LowerStr(address)[2..];
      if AnyMatches(Prefix, m.prefixPatterns, body) then true
      else if AnyMatches(Suffix, m.suffixPatterns, body) then true
      else AnyMatches(Contains, m.containsPatterns, body)
  }

  /** Built from a pattern list, the matcher accepts a well-formed address
      exactly when the rule of some input pattern holds of its body. */
  lemma MatchesAnyClassify(ps: seq<string>, a: string)
    ensures MatchesAny(Classify(ps), a) <==>
      IsAddress(a) && exists i :: 0 <= i < |ps| && RuleMatches(ClassifyPattern(ps[i]), Body(a))
  {
    if IsAddress(a) {
      var body := Body(a);
      var m := Classify(ps);
      if MatchesAny(m, a) {
        var k, t;
        if t0 :| t0 in m.prefixPatterns && HasPrefix(body, t0) {
          k, t := Prefix, t0;
        } else if t0 :| t0 in m.suffixPatterns && HasSuffix(body, t0) {
          k, t := Suffix, t0;
        } else {
          var t0 :| t0 in m.containsPatterns && HasSubstring(body, t0);
          k, t := Contains, t0;
        }
        GroupMembership(ps, k, t);
        var i :| 0 <= i < |ps| && ClassifyPattern(ps[i]) == Rule(k, t);
        assert RuleMatches(ClassifyPattern(ps[i]), body);
      }
      if i :| 0 <= i < |ps| && RuleMatches(ClassifyPattern(ps[i]), body) {
        var r := ClassifyPattern(ps[i]);
        GroupMembership(ps, r.kind, r.text);
        assert r.text in Group(ps, r.kind);
      }
    }
  }

  /** A matcher built from an empty pattern list never matches. */
  lemma EmptyMatcherNeverMatches(a: string)
    ensures !MatchesAny(Classify([]), a)
  {
  }

  /** A single pattern: `^t` tests that the body starts with `t`, `t$` that it
      ends with `t`, and any other `t` that the body contains it, all after
      lower-casing. */
  lemma SinglePattern(raw: string, a: string)
    ensures MatchesAny(Classify([raw]), a) <==> IsAddress(a) && RuleMatches(ClassifyPattern(raw), Body(a))
  {
    MatchesAnyClassify([raw], a);
  }

  /** Lower-casing a well-formed address keeps it well formed and keeps its
      body. */
  lemma LowerAddress(a: string)
    requires IsAddress(a)
    ensures IsAddress(LowerStr(a)) && Body(LowerStr(a)) == Body(a)
  {
  }

  /** If the lower-cased string is a well-formed address, so was the string,
      unless its marker was `0X`. */
  lemma UnlowerAddress(a: string)
    requires IsAddress(LowerStr(a))
    requires a[1] != 'X'
    ensures IsAddress(a)
  {
  }

  /** Matching ignores the case of the hexadecimal digits: lower-casing the
      address first changes nothing, unless it turns the marker `0X` (which
      the format guard rejects) into `0x`. */
  lemma MatchesAnyCaseInsensitive(m: PatternMatcher, a: string)
    requires |a| < 2 || a[1] != 'X'
    ensures MatchesAny(m, LowerStr(a)) == MatchesAny(m, a)
  {
    if IsAddress(a) {
      LowerAddress(a);
    } else if IsAddress(LowerStr(a)) {
      UnlowerAddress(a);
    }
  }

  /** The exception above is real: with the marker `0X`, the address itself
      never matches, while its lower-cased form matches the pattern `0`. */
  lemma UpperMarkerCounterexample()
    ensures var a := "0X" + seq(40, _ => '0');
      && !MatchesAny(Classify(["0"]), a)
      && MatchesAny(Classify(["0"]), LowerStr(a))
  {
    var a := "0X" + seq(40, _ => '0');
    var l := LowerStr(a);
    assert !IsAddress(a);
    assert IsAddress(l);
    assert ClassifyPattern("0") == Rule(Contains, "0");
    assert Classify(["0"]) == PatternMatcher([], [], ["0"]);
    assert OccursAt(Body(l), "0", 0);
  }
}
