/** `sanitizeHtml` of src/components/sanitise.ts:2-16: twelve global
    replacements, applied in source order, each to the output of the one
    before. */
module Sanitise {
  import opened Text
  import opened Patterns
  import opened Replace

  /** One `.replace(/pattern/g, replacement)` call. */
  datatype Rule = Rule(pattern: Pattern, replacement: string)

  /** The chain of src/components/sanitise.ts:5-16, one rule per line. */
  const Rules: seq<Rule> := [
    Rule(Element("script"), ""),
    Rule(QuotedHandler('"'), ""),
    Rule(QuotedHandler('\''), ""),
    Rule(UnquotedHandler, ""),
    Rule(JavascriptScheme, ""),
    Rule(Element("iframe"), ""),
    Rule(Element("object"), ""),
    Rule(Element("embed"), ""),
    Rule(Position("fixed"), "position:relative"),
    Rule(Position("absolute"), "position:relative"),
    Rule(Offset("top"), ""),
    Rule(Offset("left"), "")
  ]

  /** Index of the one rule that can lengthen its input (line 13). */
  const FixedRule := 8

  function MatcherOf(p: Pattern): Matcher {
    t => MatchAt(p, t)
  }

  /** One step: `s.replace(/pattern/g, replacement)`. Every match is
      non-empty, so the empty string comes back empty, and a deleting step
      never lengthens its input. */
  function Apply(rule: Rule, s: string): (r: string)
    ensures s == [] ==> r == []
    ensures rule.replacement == [] ==> |r| <= |s|
  {
    ReplaceAll(MatcherOf(rule.pattern), rule.replacement, s)
  }

  /** The rules applied in order, each to the result of the one before. Any
      chain of steps maps the empty string to itself, and a chain of
      deleting steps never lengthens its input. */
  function Pipeline(rules: seq<Rule>, s: string): (r: string)
    ensures s == [] ==> r == []
    ensures (forall k :: 0 <= k < |rules| ==> rules[k].replacement == []) ==> |r| <= |s|
    decreases |rules|
  {
    if rules == [] then s
    else
      assert forall k :: 0 <= k < |rules| - 1 ==> rules[1..][k] == rules[k + 1];
      Pipeline(rules[1..], Apply(rules[0], s))
  }

  /** `sanitizeHtml`: the empty string comes back empty, and markup with
      none of the texts the rules look for comes back unchanged. */
  function SanitizeHtml(html: string): (r: string)
    ensures html == [] ==> r == []
    ensures Clean(html) ==> r == html
  {
    CleanPassesThrough(html);
    Pipeline(Rules, html)
  }

  // ---------------------------------------------------------------------
  // Inputs with nothing to match come back unchanged

  /** No rule's expression matches anywhere in `s`. */
  predicate NothingMatches(rules: seq<Rule>, s: string) {
    forall k :: 0 <= k < |rules| ==> NoMatchIn(MatcherOf(rules[k].pattern), s, 0, |s|)
  }

  /** A step that finds nothing returns its input, so the next step sees the
      same string. */
  lemma {:induction false} PipelineWithoutMatch(rules: seq<Rule>, s: string)
    requires NothingMatches(rules, s)
    ensures Pipeline(rules, s) == s
    decreases |rules|
  {
    if rules != [] {
      assert NoMatchIn(MatcherOf(rules[0].pattern), s, 0, |s|);
      ReplaceWithoutMatch(MatcherOf(rules[0].pattern), rules[0].replacement, s);
      assert NothingMatches(rules[1..], s) by {
        forall k | 0 <= k < |rules| - 1
          ensures NoMatchIn(MatcherOf(rules[1..][k].pattern), s, 0, |s|)
        {
          assert rules[1..][k] == rules[k + 1];
        }
      }
      PipelineWithoutMatch(rules[1..], s);
    }
  }

  /** `on` in any case, a word run and `=` start at index `k`. */
  predicate HandlerAt(s: string, k: nat) {
    StartsWithCiAt(s, k, "on")
    && exists e :: k + 2 < e < |s| && s[e] == '=' && forall i :: k + 2 <= i < e ==> IsWordChar(s[i])
  }

  /** Index `k` starts one of the texts some expression needs to begin with. */
  predicate Suspicious(s: string, k: nat) {
    StartsWithCiAt(s, k, "<script") || StartsWithCiAt(s, k, "<iframe")
    || StartsWithCiAt(s, k, "<object") || StartsWithCiAt(s, k, "<embed")
    || HandlerAt(s, k)
    || StartsWithAt(s, k, "javascript:")
    || StartsWithCiAt(s, k, "position")
    || StartsWithCiAt(s, k, "top") || StartsWithCiAt(s, k, "left")
  }

  /** Markup without any of the above anywhere. */
  predicate Clean(s: string) {
    forall k :: 0 <= k < |s| ==> !Suspicious(s, k)
  }

  /** The text a match of `p` at index `k` has to begin with. */
  predicate LeadsAt(p: Pattern, s: string, k: nat) {
    match p
    case Element(tag) => StartsWithCiAt(s, k, OpenTag(tag))
    case QuotedHandler(_) => StartsWithAt(s, k, "on") && HandlerAt(s, k)
    case UnquotedHandler => HandlerAt(s, k)
    case JavascriptScheme => StartsWithAt(s, k, "javascript:")
    case Position(_) => StartsWithCiAt(s, k, "position")
    case Offset(property) => StartsWithCiAt(s, k, property)
  }

  lemma HandlerMatchLeads(s: string, k: nat)
    requires k + 2 <= |s|
    requires StartsWithCiAt(s, k, "on") && HandlerEquals(s[k..]).Some?
    ensures HandlerAt(s, k)
  {
    var t := s[k..];
    var e := HandlerEquals(t).value;
    assert k + e < |s| && s[k + e] == '=';
    forall i | k + 2 <= i < k + e
      ensures IsWordChar(s[i])
    {
      assert t[i - k] == s[i];
    }
  }

  /** A match at index `k` begins with the text its expression starts with. */
  lemma MatchLeads(p: Pattern, s: string, k: nat)
    requires k < |s| && MatchAt(p, s[k..]).Some?
    ensures LeadsAt(p, s, k)
  {
    match p {
      case Element(tag) =>
        StartsWithCiInSuffix(s, k, 0, OpenTag(tag));
      case QuotedHandler(quote) =>
        StartsWithInSuffix(s, k, 0, "on");
        StartsWithCiInSuffix(s, k, 0, "on");
        HandlerMatchLeads(s, k);
      case UnquotedHandler =>
        StartsWithCiInSuffix(s, k, 0, "on");
        HandlerMatchLeads(s, k);
      case JavascriptScheme =>
        StartsWithInSuffix(s, k, 0, "javascript:");
      case Position(keyword) =>
        StartsWithCiInSuffix(s, k, 0, "position");
      case Offset(property) =>
        StartsWithCiInSuffix(s, k, 0, property);
    }
  }

  /** The character, up to ASCII case, that every match of `p` starts with. */
  function Lead(p: Pattern): char
    requires p.Offset? ==> |p.property| > 0
  {
    match p
    case Element(_) => '<'
    case QuotedHandler(_) => 'o'
    case UnquotedHandler => 'o'
    case JavascriptScheme => 'j'
    case Position(_) => 'p'
    case Offset(property) => Fold(property[0])
  }

  /** A match at index `k` starts with the expression's first character. */
  lemma MatchStartsWithLead(p: Pattern, s: string, k: nat)
    requires p.Offset? ==> |p.property| > 0
    requires k < |s| && MatchAt(p, s[k..]).Some?
    ensures Fold(s[k]) == Lead(p)
  {
    MatchLeads(p, s, k);
    var lit := match p
      case Element(tag) => OpenTag(tag)
      case JavascriptScheme => "javascript:"
      case Position(_) => "position"
      case Offset(property) => property
      case _ => "on";
    assert Fold(s[k + 0]) == Fold(lit[0]);
  }

  /** Where an expression's leading text does not start, it does not
      match. */
  lemma NoLeadNoMatch(p: Pattern, s: string, k: nat)
    requires k < |s| && !LeadsAt(p, s, k)
    ensures MatchAt(p, s[k..]).None?
  {
    if MatchAt(p, s[k..]).Some? {
      MatchLeads(p, s, k);
    }
  }

  /** Where nothing suspicious starts, no rule of the sanitizer matches. */
  lemma NotSuspiciousNoLead(s: string, k: nat)
    requires k < |s| && !Suspicious(s, k)
    ensures forall i :: 0 <= i < |Rules| ==> !LeadsAt(Rules[i].pattern, s, k)
    ensures forall i :: 0 <= i < |Rules| ==> MatchAt(Rules[i].pattern, s[k..]).None?
  {
    assert OpenTag("script") == "<script" && OpenTag("iframe") == "<iframe";
    assert OpenTag("object") == "<object" && OpenTag("embed") == "<embed";
    forall i | 0 <= i < |Rules|
      ensures MatchAt(Rules[i].pattern, s[k..]).None?
    {
      NoLeadNoMatch(Rules[i].pattern, s, k);
    }
  }

  /** Clean markup passes through all twelve steps unchanged. */
  lemma CleanPassesThrough(html: string)
    ensures Clean(html) ==> Pipeline(Rules, html) == html
  {
    if Clean(html) {
      forall i | 0 <= i < |Rules|
        ensures NoMatchIn(MatcherOf(Rules[i].pattern), html, 0, |html|)
      {
        forall k | 0 <= k < |html|
          ensures MatchAt(Rules[i].pattern, html[k..]).None?
        {
          NotSuspiciousNoLead(html, k);
        }
      }
      PipelineWithoutMatch(Rules, html);
    }
  }
}
