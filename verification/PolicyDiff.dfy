/**
 Permissiveness analysis of a policy change, and the policy evaluation it is about.
 Method lists are upper-cased, as `PolicyView::from_config` stores them. The URL
 pattern matcher is a parameter: every statement holds for every matcher.
 */
module PolicyDiff {
  import opened Options

  type Matcher = (string, string) -> bool

  datatype PolicyView = PolicyView(
    autoMethods: seq<string>,
    gatedMethods: seq<string>,
    autoUrls: seq<string>,
    gatedUrls: seq<string>,
    requirePasskey: bool,
    minApprovals: nat,
    allowedApprovers: seq<string>)

  /** What holds for a credential without a policy: reads pass, everything else is gated. */
  const DEFAULT_BASELINE := PolicyView(["GET", "HEAD"], [], [], [], false, 1, [])

  datatype Change =
    | MethodAutoApproved(item: string)
    | UrlAutoApproved(item: string)
    | UrlNoLongerGated(item: string)
    | PasskeyDropped
    | FewerApprovals(required: nat, nowRequired: nat)
    | ApproversUnrestricted
    | ApproverAdded(item: string)

  // ------------------------------------------------------------------
  // Evaluation.
  // ------------------------------------------------------------------

  datatype ApprovalMode = Gated | Autonomous

  predicate MatchesAny(matcher: Matcher, url: Option<string>, patterns: seq<string>) {
    url.Some? && exists p :: p in patterns && matcher(url.value, p)
  }

  /** Whether a request goes through without a human. */
  predicate AutoApproved(verb: string, policy: Option<PolicyView>, url: Option<string>, mode: ApprovalMode, matcher: Matcher) {
    match policy
    case None => mode == Autonomous || verb == "GET" || verb == "HEAD"
    case Some(p) =>
      if MatchesAny(matcher, url, p.gatedUrls) then false
      else if MatchesAny(matcher, url, p.autoUrls) then true
      else (if verb == "HEAD" then "GET" else verb) in p.autoMethods
  }

  /** A URL pattern that gates wins over everything that would let a request pass. */
  lemma GatedUrlIsNeverPassed(verb: string, p: PolicyView, url: string, pattern: string, mode: ApprovalMode, matcher: Matcher)
    requires pattern in p.gatedUrls && matcher(url, pattern)
    ensures !AutoApproved(verb, Some(p), Some(url), mode, matcher)
  {
  }

  /** Where none gates, a pattern that passes wins over the methods. */
  lemma AutoUrlPasses(verb: string, p: PolicyView, url: string, pattern: string, mode: ApprovalMode, matcher: Matcher)
    requires pattern in p.autoUrls && matcher(url, pattern) && forall g :: g in p.gatedUrls ==> !matcher(url, g)
    ensures AutoApproved(verb, Some(p), Some(url), mode, matcher)
  {
  }

  /** Where no pattern matches, listed methods pass, "HEAD" as "GET", and unlisted ones do not; the gated list is not needed. */
  lemma MethodsDecideTheRest(verb: string, p: PolicyView, url: Option<string>, mode: ApprovalMode, matcher: Matcher)
    requires url.Some? ==> forall u :: u in p.gatedUrls || u in p.autoUrls ==> !matcher(url.value, u)
    ensures AutoApproved(verb, Some(p), url, mode, matcher) <==>
              (verb != "HEAD" && verb in p.autoMethods) || (verb == "HEAD" && "GET" in p.autoMethods)
  {
  }

  /** The baseline is what a gated team without a policy does: reads pass, nothing else does, and approving is unrestricted. */
  lemma BaselineIsTheDefault(verb: string, url: Option<string>, matcher: Matcher, who: string)
    ensures AutoApproved(verb, None, url, Gated, matcher) <==> AutoApproved(verb, Some(DEFAULT_BASELINE), url, Gated, matcher)
    ensures AutoApproved(verb, None, url, Gated, matcher) <==> verb == "GET" || verb == "HEAD"
    ensures AutoApproved(verb, None, url, Autonomous, matcher)
    ensures MayApprove(DEFAULT_BASELINE, who) && !DEFAULT_BASELINE.requirePasskey && DEFAULT_BASELINE.minApprovals == 1
  {
  }

  predicate MayApprove(p: PolicyView, who: string) {
    p.allowedApprovers == [] || who in p.allowedApprovers
  }

  // ------------------------------------------------------------------
  // The diff.
  // ------------------------------------------------------------------

  /** The elements of `xs` that `ys` lacks, in order. */
  function Missing(xs: seq<string>, ys: seq<string>): seq<string> {
    if xs == [] then []
    else Missing(xs[..|xs| - 1], ys) + if xs[|xs| - 1] in ys then [] else [xs[|xs| - 1]]
  }

  lemma {:induction false} MissingIffNotSubset(xs: seq<string>, ys: seq<string>)
    ensures Missing(xs, ys) == [] <==> forall x :: x in xs ==> x in ys
  {
    if xs != [] {
      MissingIffNotSubset(xs[..|xs| - 1], ys);
      assert xs == xs[..|xs| - 1] + [xs[|xs| - 1]];
    }
  }

  function Tag(f: string -> Change, xs: seq<string>): seq<Change> {
    seq(|xs|, i requires 0 <= i < |xs| => f(xs[i]))
  }

  function ApproverChanges(before: PolicyView, after: PolicyView): seq<Change> {
    if before.allowedApprovers != [] && after.allowedApprovers == [] then [ApproversUnrestricted]
    else Tag(x => ApproverAdded(x), Missing(after.allowedApprovers, before.allowedApprovers))
  }

  /** Every reported way in which `after` gates less than `before`. */
  function Changes(before: PolicyView, after: PolicyView): seq<Change> {
    Tag(x => MethodAutoApproved(x), Missing(after.autoMethods, before.autoMethods))
    + Tag(x => UrlAutoApproved(x), Missing(after.autoUrls, before.autoUrls))
    + Tag(x => UrlNoLongerGated(x), Missing(before.gatedUrls, after.gatedUrls))
    + (if before.requirePasskey && !after.requirePasskey then [PasskeyDropped] else [])
    + (if after.minApprovals < before.minApprovals then [FewerApprovals(before.minApprovals, after.minApprovals)] else [])
    + ApproverChanges(before, after)
  }

  method ReportMissing(xs: seq<string>, ys: seq<string>, f: string -> Change) returns (changes: seq<Change>)
    ensures changes == Tag(f, Missing(xs, ys))
  {
    changes := [];
    for i := 0 to |xs|
      invariant changes == Tag(f, Missing(xs[..i], ys))
    {
      assert xs[..i + 1][..i] == xs[..i];
      if xs[i] !in ys {
        changes := changes + [f(xs[i])];
      }
    }
    assert xs[..|xs|] == xs;
  }

  method PermissiveChanges(before: Option<PolicyView>, after: PolicyView) returns (changes: seq<Change>)
    ensures changes == Changes(if before.Some? then before.value else DEFAULT_BASELINE, after)
  {
    var base := if before.Some? then before.value else DEFAULT_BASELINE;
    changes := ReportMissing(after.autoMethods, base.autoMethods, x => MethodAutoApproved(x));
    var more := ReportMissing(after.autoUrls, base.autoUrls, x => UrlAutoApproved(x));
    changes := changes + more;
    more := ReportMissing(base.gatedUrls, after.gatedUrls, x => UrlNoLongerGated(x));
    changes := changes + more;
    if base.requirePasskey && !after.requirePasskey {
      changes := changes + [PasskeyDropped];
    }
    if after.minApprovals < base.minApprovals {
      changes := changes + [FewerApprovals(base.minApprovals, after.minApprovals)];
    }
    if base.allowedApprovers != [] && after.allowedApprovers == [] {
      changes := changes + [ApproversUnrestricted];
    } else {
      more := ReportMissing(after.allowedApprovers, base.allowedApprovers, x => ApproverAdded(x));
      changes := changes + more;
    }
  }

  // ------------------------------------------------------------------
  // What an empty diff means.
  // ------------------------------------------------------------------

  predicate Subset(xs: seq<string>, ys: seq<string>) {
    forall x :: x in xs ==> x in ys
  }

  /** The diff is silent exactly on these changes. */
  predicate Silent(before: PolicyView, after: PolicyView) {
    && Subset(after.autoMethods, before.autoMethods)
    && Subset(after.autoUrls, before.autoUrls)
    && Subset(before.gatedUrls, after.gatedUrls)
    && (before.requirePasskey ==> after.requirePasskey)
    && before.minApprovals <= after.minApprovals
    && Subset(after.allowedApprovers, before.allowedApprovers)
    && (after.allowedApprovers == [] ==> before.allowedApprovers == [])
  }

  lemma EmptyDiffIffSilent(before: PolicyView, after: PolicyView)
    ensures Changes(before, after) == [] <==> Silent(before, after)
  {
    MissingIffNotSubset(after.autoMethods, before.autoMethods);
    MissingIffNotSubset(after.autoUrls, before.autoUrls);
    MissingIffNotSubset(before.gatedUrls, after.gatedUrls);
    MissingIffNotSubset(after.allowedApprovers, before.allowedApprovers);
  }

  /**
   Soundness: if nothing is reported, every request that passes unattended under the
   new policy already did under the old one, or under the default where there was none.
   */
  lemma EmptyDiffLoosensNothing(before: Option<PolicyView>, after: PolicyView, verb: string, url: Option<string>,
                                mode: ApprovalMode, matcher: Matcher)
    requires Changes(if before.Some? then before.value else DEFAULT_BASELINE, after) == []
    requires AutoApproved(verb, Some(after), url, mode, matcher)
    ensures AutoApproved(verb, before, url, mode, matcher)
  {
    EmptyDiffIffSilent(if before.Some? then before.value else DEFAULT_BASELINE, after);
  }

  /** ... and approving is no easier: same or stronger passkey rule, count and approver set. */
  lemma EmptyDiffKeepsApprovalStrength(before: PolicyView, after: PolicyView, who: string)
    requires Changes(before, after) == []
    ensures before.requirePasskey ==> after.requirePasskey
    ensures before.minApprovals <= after.minApprovals
    ensures MayApprove(after, who) ==> MayApprove(before, who)
  {
    EmptyDiffIffSilent(before, after);
  }

  lemma EmptyDiffIsPreorder(p: PolicyView, q: PolicyView, r: PolicyView)
    ensures Changes(p, p) == []
    ensures Changes(p, q) == [] && Changes(q, r) == [] ==> Changes(p, r) == []
  {
    EmptyDiffIffSilent(p, p);
    EmptyDiffIffSilent(p, q);
    EmptyDiffIffSilent(q, r);
    EmptyDiffIffSilent(p, r);
  }

  // ------------------------------------------------------------------
  // Where the report is exact, and where it is not.
  // ------------------------------------------------------------------

  lemma MethodPart(xs: seq<string>, ys: seq<string>, c: Change)
    ensures c in Tag(x => MethodAutoApproved(x), Missing(xs, ys)) <==> c.MethodAutoApproved? && c.item in xs && c.item !in ys
  {
    TaggedMembers(x => MethodAutoApproved(x), Missing(xs, ys), c);
    if c.MethodAutoApproved? {
      MissingMembers(xs, ys, c.item);
    }
  }

  lemma AutoUrlPart(xs: seq<string>, ys: seq<string>, c: Change)
    ensures c in Tag(x => UrlAutoApproved(x), Missing(xs, ys)) <==> c.UrlAutoApproved? && c.item in xs && c.item !in ys
  {
    TaggedMembers(x => UrlAutoApproved(x), Missing(xs, ys), c);
    if c.UrlAutoApproved? {
      MissingMembers(xs, ys, c.item);
    }
  }

  lemma GatedUrlPart(xs: seq<string>, ys: seq<string>, c: Change)
    ensures c in Tag(x => UrlNoLongerGated(x), Missing(xs, ys)) <==> c.UrlNoLongerGated? && c.item in xs && c.item !in ys
  {
    TaggedMembers(x => UrlNoLongerGated(x), Missing(xs, ys), c);
    if c.UrlNoLongerGated? {
      MissingMembers(xs, ys, c.item);
    }
  }

  lemma ApproverPart(before: PolicyView, after: PolicyView, c: Change)
    ensures c in ApproverChanges(before, after) <==>
              || (c.ApproversUnrestricted? && before.allowedApprovers != [] && after.allowedApprovers == [])
              || (c.ApproverAdded? && c.item in after.allowedApprovers && c.item !in before.allowedApprovers)
  {
    TaggedMembers(x => ApproverAdded(x), Missing(after.allowedApprovers, before.allowedApprovers), c);
    if c.ApproverAdded? {
      MissingMembers(after.allowedApprovers, before.allowedApprovers, c.item);
    }
  }

  lemma InConcat(a: seq<Change>, b: seq<Change>, c: Change)
    ensures c in a + b <==> c in a || c in b
  {
  }

  /** What is reported, kind by kind. */
  lemma ReportedIff(before: PolicyView, after: PolicyView, c: Change)
    ensures c in Changes(before, after) <==>
              match c
              case MethodAutoApproved(m) => m in after.autoMethods && m !in before.autoMethods
              case UrlAutoApproved(u) => u in after.autoUrls && u !in before.autoUrls
              case UrlNoLongerGated(u) => u in before.gatedUrls && u !in after.gatedUrls
              case PasskeyDropped => before.requirePasskey && !after.requirePasskey
              case FewerApprovals(m, n) => m == before.minApprovals && n == after.minApprovals && n < m
              case ApproversUnrestricted => before.allowedApprovers != [] && after.allowedApprovers == []
              case ApproverAdded(a) => a in after.allowedApprovers && a !in before.allowedApprovers
  {
    hide Missing, Tag, ApproverChanges;
    MethodPart(after.autoMethods, before.autoMethods, c);
    AutoUrlPart(after.autoUrls, before.autoUrls, c);
    GatedUrlPart(before.gatedUrls, after.gatedUrls, c);
    ApproverPart(before, after, c);
    var methods := Tag(x => MethodAutoApproved(x), Missing(after.autoMethods, before.autoMethods));
    var autos := Tag(x => UrlAutoApproved(x), Missing(after.autoUrls, before.autoUrls));
    var gates := Tag(x => UrlNoLongerGated(x), Missing(before.gatedUrls, after.gatedUrls));
    var passkey := if before.requirePasskey && !after.requirePasskey then [PasskeyDropped] else [];
    var fewer := if after.minApprovals < before.minApprovals then [FewerApprovals(before.minApprovals, after.minApprovals)] else [];
    InConcat(methods, autos, c);
    InConcat(methods + autos, gates, c);
    InConcat(methods + autos + gates, passkey, c);
    InConcat(methods + autos + gates + passkey, fewer, c);
    InConcat(methods + autos + gates + passkey + fewer, ApproverChanges(before, after), c);
  }

  lemma TaggedMembers(f: string -> Change, xs: seq<string>, c: Change)
    ensures c in Tag(f, xs) <==> exists x :: x in xs && f(x) == c
  {
    var tagged := Tag(f, xs);
    if c in tagged {
      var i :| 0 <= i < |tagged| && tagged[i] == c;
      assert xs[i] in xs && f(xs[i]) == c;
    }
    if exists x :: x in xs && f(x) == c {
      var x :| x in xs && f(x) == c;
      var i :| 0 <= i < |xs| && xs[i] == x;
      assert tagged[i] == c;
    }
  }

  /** A newly listed method really passes more requests, except that "HEAD" entries are never consulted. */
  lemma FlaggedMethodIsLooser(before: PolicyView, after: PolicyView, m: string, mode: ApprovalMode, matcher: Matcher)
    requires m in Missing(after.autoMethods, before.autoMethods)
    ensures m != "HEAD" ==> AutoApproved(m, Some(after), None, mode, matcher) && !AutoApproved(m, Some(before), None, mode, matcher)
  {
    MissingMembers(after.autoMethods, before.autoMethods, m);
  }

  lemma {:induction false} MissingMembers(xs: seq<string>, ys: seq<string>, x: string)
    ensures x in Missing(xs, ys) <==> x in xs && x !in ys
  {
    if xs != [] {
      MissingMembers(xs[..|xs| - 1], ys, x);
      assert xs == xs[..|xs| - 1] + [xs[|xs| - 1]];
    }
  }

  function Without(xs: seq<string>, x: string): (r: seq<string>)
    ensures forall y :: y in r <==> y in xs && y != x
  {
    if xs == [] then [] else (if xs[0] == x then [] else [xs[0]]) + Without(xs[1..], x)
  }

  /** A "HEAD" entry is never consulted: taking it out changes no decision, although adding it is reported. */
  lemma HeadEntryIsIdle(p: PolicyView, verb: string, url: Option<string>, mode: ApprovalMode, matcher: Matcher)
    ensures var q := p.(autoMethods := Without(p.autoMethods, "HEAD"));
            && (AutoApproved(verb, Some(p), url, mode, matcher) <==> AutoApproved(verb, Some(q), url, mode, matcher))
            && ("HEAD" in p.autoMethods ==> MethodAutoApproved("HEAD") in Changes(q, p))
  {
    var q := p.(autoMethods := Without(p.autoMethods, "HEAD"));
    MissingMembers(p.autoMethods, q.autoMethods, "HEAD");
    if "HEAD" in p.autoMethods {
      var flagged := Missing(p.autoMethods, q.autoMethods);
      var i :| 0 <= i < |flagged| && flagged[i] == "HEAD";
      assert Changes(q, p)[i] == MethodAutoApproved("HEAD");
    }
  }

  function Longest(xs: seq<string>): (r: string)
    ensures forall x :: x in xs ==> |x| <= |r|
  {
    if xs == [] then "" else
      var rest := Longest(xs[1..]);
      if |rest| < |xs[0]| then xs[0] else rest
  }

  /**
   The approver part is silent exactly when the approver set does not grow, with one
   exception: restricting "anyone" to a list is reported although it only narrows.
   */
  lemma ApproverReportIsExact(before: PolicyView, after: PolicyView)
    ensures ApproverChanges(before, after) == [] <==>
              && (forall who :: MayApprove(after, who) ==> MayApprove(before, who))
              && !(before.allowedApprovers == [] && after.allowedApprovers != [])
  {
    MissingIffNotSubset(after.allowedApprovers, before.allowedApprovers);
    if before.allowedApprovers != [] && after.allowedApprovers == [] {
      var stranger := Longest(before.allowedApprovers) + "x";
      assert stranger !in before.allowedApprovers;
      assert MayApprove(after, stranger) && !MayApprove(before, stranger);
    } else if before.allowedApprovers != [] {
      assert forall a :: a in after.allowedApprovers ==> MayApprove(after, a);
    } else if after.allowedApprovers != [] {
      assert after.allowedApprovers[0] in after.allowedApprovers;
    }
  }
}
