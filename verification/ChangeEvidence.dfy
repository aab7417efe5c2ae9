/** The change-management evidence of scripts/soc2: half-open windows over the landings on main. */
module ChangeEvidence {
  import opened Prelude
  import opened StableSort

  /** A landing as the source reports it; the merge time is an instant. */
  datatype Merge = Merge(
    sha: string, testedHead: Option<string>, pr: Option<int>, mergedAt: int,
    checks: map<string, string>, approvals: seq<string>)

  datatype ReviewRef = ReviewRef(author: string, independent: bool)

  datatype Exception = DirectPush | NotGreen(context: string, seen: string) | NoApproval

  datatype Evidence = Evidence(
    sha: string, testedHead: Option<string>, pr: Option<int>, mergedAt: int,
    required: map<string, string>, approvals: seq<ReviewRef>, exceptions: seq<Exception>)

  datatype Export = Export(merges: seq<Evidence>, nMerges: nat, nExceptions: nat, nSelfApproved: nat)

  const SUCCESS: string := "success"
  const MISSING: string := "missing"

  predicate InWindow(mergedAt: int, since: int, until: int) {
    since <= mergedAt < until
  }

  // ---------------------------------------------------------------------------
  // Classification
  // ---------------------------------------------------------------------------

  /** What a landing shows for a context. */
  function Seen(m: Merge, context: string): string {
    if context in m.checks then m.checks[context] else MISSING
  }

  predicate Green(m: Merge, context: string) {
    context in m.checks && m.checks[context] == SUCCESS
  }

  /** The contexts that are not green, in the order required. */
  function NotGreenOnes(m: Merge, required: seq<string>): seq<Exception> {
    if required == [] then []
    else
      var last := required[|required| - 1];
      NotGreenOnes(m, required[..|required| - 1]) + (if Green(m, last) then [] else [NotGreen(last, Seen(m, last))])
  }

  function Reviews(approvals: seq<string>, self: set<string>): seq<ReviewRef> {
    Map(approvals, (a: string) => ReviewRef(a, a !in self))
  }

  function Exceptions(m: Merge, required: seq<string>): seq<Exception> {
    (if m.pr.None? then [DirectPush] else [])
    + NotGreenOnes(m, required)
    + (if m.approvals == [] then [NoApproval] else [])
  }

  function Classified(m: Merge, required: seq<string>, self: set<string>): Evidence {
    Evidence(m.sha, m.testedHead, m.pr, m.mergedAt,
      map context | context in required :: Seen(m, context),
      Reviews(m.approvals, self), Exceptions(m, required))
  }

  /** _classify. */
  method Classify(m: Merge, required: seq<string>, self: set<string>) returns (e: Evidence)
    ensures e == Classified(m, required, self)
  {
    var exceptions: seq<Exception> := if m.pr.None? then [DirectPush] else [];
    var seen, notGreen := CheckContexts(m, required);
    exceptions := exceptions + notGreen;
    var approvals := Reviews(m.approvals, self);
    if approvals == [] {
      exceptions := exceptions + [NoApproval];
    }
    e := Evidence(m.sha, m.testedHead, m.pr, m.mergedAt, seen, approvals, exceptions);
  }

  /** The loop over the required contexts: what was seen, and what was not green. */
  method CheckContexts(m: Merge, required: seq<string>) returns (seen: map<string, string>, notGreen: seq<Exception>)
    ensures seen == map context | context in required :: Seen(m, context)
    ensures notGreen == NotGreenOnes(m, required)
  {
    seen, notGreen := map[], [];
    for i := 0 to |required|
      invariant notGreen == NotGreenOnes(m, required[..i])
      invariant seen == map context | context in required[..i] :: Seen(m, context)
    {
      var context := required[i];
      assert required[..i + 1] == required[..i] + [context];
      seen := seen[context := Seen(m, context)];
      if !Green(m, context) {
        notGreen := notGreen + [NotGreen(context, seen[context])];
      }
    }
    assert required[..|required|] == required;
  }

  lemma {:induction false} NotGreenExactly(m: Merge, required: seq<string>, x: Exception)
    ensures x in NotGreenOnes(m, required) <==>
      x.NotGreen? && x.context in required && !Green(m, x.context) && x.seen == Seen(m, x.context)
  {
    if required != [] {
      var init := required[..|required| - 1];
      NotGreenExactly(m, init, x);
      assert required == init + [required[|required| - 1]];
    }
  }

  /** A landing is clean iff it has a PR, every required context succeeded, and someone approved. */
  lemma CleanIff(m: Merge, required: seq<string>, self: set<string>)
    ensures Classified(m, required, self).exceptions == [] <==>
      m.pr.Some? && (forall context :: context in required ==> Green(m, context)) && m.approvals != []
  {
    forall context | context in required
      ensures Green(m, context) <==> NotGreen(context, Seen(m, context)) !in NotGreenOnes(m, required)
    {
      NotGreenExactly(m, required, NotGreen(context, Seen(m, context)));
    }
    if NotGreenOnes(m, required) != [] {
      NotGreenExactly(m, required, NotGreenOnes(m, required)[0]);
    }
  }

  /** Each exception is recorded exactly for its own reason. */
  lemma ExceptionsExactly(m: Merge, required: seq<string>, self: set<string>, x: Exception)
    ensures x in Classified(m, required, self).exceptions <==>
      match x
      case DirectPush => m.pr.None?
      case NotGreen(context, seen) => context in required && !Green(m, context) && seen == Seen(m, context)
      case NoApproval => m.approvals == []
  {
    NotGreenExactly(m, required, x);
  }

  // ---------------------------------------------------------------------------
  // The export
  // ---------------------------------------------------------------------------

  /** The evidence of the landings inside a window, in source order. */
  function Landed(raws: seq<Merge>, required: seq<string>, self: set<string>, since: int, until: int): seq<Evidence> {
    if raws == [] then []
    else
      var rest := Landed(raws[1..], required, self, since, until);
      if InWindow(raws[0].mergedAt, since, until) then [Classified(raws[0], required, self)] + rest else rest
  }

  function KeyOf(e: Evidence): Key {
    Key(e.mergedAt, e.sha)
  }

  predicate Flagged(e: Evidence) {
    e.exceptions != []
  }

  predicate SelfApproved(e: Evidence) {
    exists a :: a in e.approvals && !a.independent
  }

  /** What the export of a window is. */
  function Build(raws: seq<Merge>, required: seq<string>, self: set<string>, since: int, until: int): Export {
    var merges := Sort(Landed(raws, required, self, since, until), KeyOf, true);
    Export(merges, |merges|, Count(merges, Flagged), Count(merges, SelfApproved))
  }

  /** build_evidence: filter, classify, sort newest first, count. */
  method BuildEvidence(raws: seq<Merge>, required: seq<string>, self: set<string>, since: int, until: int)
    returns (r: Export)
    ensures r == Build(raws, required, self, since, until)
  {
    var evidence: seq<Evidence> := [];
    for i := 0 to |raws|
      invariant evidence + Landed(raws[i..], required, self, since, until) == Landed(raws, required, self, since, until)
    {
      assert raws[i..][1..] == raws[i + 1..];
      if InWindow(raws[i].mergedAt, since, until) {
        var e := Classify(raws[i], required, self);
        evidence := evidence + [e];
      }
    }
    assert evidence + [] == evidence && raws[|raws|..] == [];
    evidence := Sort(evidence, KeyOf, true);
    r := Export(evidence, |evidence|, Count(evidence, Flagged), Count(evidence, SelfApproved));
  }

  /** Newest first, and exactly the evidence of the window's landings. */
  lemma {:induction false} BuildOrdersTheWindow(
      raws: seq<Merge>, required: seq<string>, self: set<string>, since: int, until: int)
    ensures var r := Build(raws, required, self, since, until);
      && Sorted(r.merges, KeyOf, true)
      && multiset(r.merges) == multiset(Landed(raws, required, self, since, until))
  {
    SortSorts(Landed(raws, required, self, since, until), KeyOf, true);
    SortPermutes(Landed(raws, required, self, since, until), KeyOf, true);
  }

  /** Newest first, and at one instant the greater sha first. */
  lemma {:induction false} NewestFirst(
      raws: seq<Merge>, required: seq<string>, self: set<string>, since: int, until: int, i: nat, j: nat)
    requires i < j < |Build(raws, required, self, since, until).merges|
    ensures var merges := Build(raws, required, self, since, until).merges;
      && merges[i].mergedAt >= merges[j].mergedAt
      && (merges[i].mergedAt == merges[j].mergedAt ==> !StringLess(merges[i].sha, merges[j].sha))
  {
    BuildOrdersTheWindow(raws, required, self, since, until);
    var merges := Build(raws, required, self, since, until).merges;
    assert !Before(KeyOf(merges[j]), KeyOf(merges[i]), true);
  }

  // ---------------------------------------------------------------------------
  // Adjacent windows
  // ---------------------------------------------------------------------------

  lemma {:induction false} LandedInWindow(
      raws: seq<Merge>, required: seq<string>, self: set<string>, since: int, until: int)
    ensures forall e :: e in Landed(raws, required, self, since, until) ==> InWindow(e.mergedAt, since, until)
  {
    if raws != [] {
      LandedInWindow(raws[1..], required, self, since, until);
    }
  }

  lemma LandedHead(
      raws: seq<Merge>, required: seq<string>, self: set<string>, since: int, until: int, k: Key)
    requires raws != []
    ensures Class(Landed(raws, required, self, since, until), KeyOf, k) ==
      (if InWindow(raws[0].mergedAt, since, until) && KeyOf(Classified(raws[0], required, self)) == k
       then [Classified(raws[0], required, self)] else [])
      + Class(Landed(raws[1..], required, self, since, until), KeyOf, k)
  {
    var e := Classified(raws[0], required, self);
    var rest := Landed(raws[1..], required, self, since, until);
    if InWindow(raws[0].mergedAt, since, until) {
      ClassAppend([e], rest, KeyOf, k);
      assert [e][1..] == [];
    }
  }

  /** Two windows that both hold an instant have the same evidence there. */
  lemma {:induction false} SameInstant(
      raws: seq<Merge>, required: seq<string>, self: set<string>, a: int, b: int, c: int, d: int, k: Key)
    requires InWindow(k.rank, a, b) && InWindow(k.rank, c, d)
    ensures Class(Landed(raws, required, self, a, b), KeyOf, k) == Class(Landed(raws, required, self, c, d), KeyOf, k)
  {
    if raws != [] {
      SameInstant(raws[1..], required, self, a, b, c, d, k);
      LandedHead(raws, required, self, a, b, k);
      LandedHead(raws, required, self, c, d, k);
    }
  }

  lemma LandedClasses(raws: seq<Merge>, required: seq<string>, self: set<string>, a: int, b: int, c: int, k: Key)
    requires a <= b <= c
    ensures Class(Landed(raws, required, self, a, c), KeyOf, k)
      == Class(Landed(raws, required, self, b, c), KeyOf, k) + Class(Landed(raws, required, self, a, b), KeyOf, k)
  {
    if InWindow(k.rank, b, c) {
      SameInstant(raws, required, self, a, c, b, c, k);
      OtherClass(raws, required, self, a, b, k);
    } else if InWindow(k.rank, a, b) {
      SameInstant(raws, required, self, a, c, a, b, k);
      OtherClass(raws, required, self, b, c, k);
    } else {
      OtherClass(raws, required, self, a, c, k);
      OtherClass(raws, required, self, b, c, k);
      OtherClass(raws, required, self, a, b, k);
    }
  }

  /** A window has no landing at an instant outside it. */
  lemma OtherClass(raws: seq<Merge>, required: seq<string>, self: set<string>, since: int, until: int, k: Key)
    requires !InWindow(k.rank, since, until)
    ensures Class(Landed(raws, required, self, since, until), KeyOf, k) == []
  {
    var evidence := Landed(raws, required, self, since, until);
    LandedInWindow(raws, required, self, since, until);
    if Class(evidence, KeyOf, k) != [] {
      InClass(evidence, KeyOf, k, Class(evidence, KeyOf, k)[0]);
    }
  }

  /** The evidence of [a, c) is that of [b, c) followed by that of [a, b), and all three counts add up. */
  lemma WindowsCompose(raws: seq<Merge>, required: seq<string>, self: set<string>, a: int, b: int, c: int)
    requires a <= b <= c
    ensures
      var whole := Build(raws, required, self, a, c);
      var later, earlier := Build(raws, required, self, b, c), Build(raws, required, self, a, b);
      && whole.merges == later.merges + earlier.merges
      && whole.nMerges == later.nMerges + earlier.nMerges
      && whole.nExceptions == later.nExceptions + earlier.nExceptions
      && whole.nSelfApproved == later.nSelfApproved + earlier.nSelfApproved
  {
    SortedWindowsCompose(raws, required, self, a, b, c);
    var later, earlier := Build(raws, required, self, b, c).merges, Build(raws, required, self, a, b).merges;
    CountAppend(later, earlier, Flagged);
    CountAppend(later, earlier, SelfApproved);
  }

  lemma SortedWindowsCompose(raws: seq<Merge>, required: seq<string>, self: set<string>, a: int, b: int, c: int)
    requires a <= b <= c
    ensures Sort(Landed(raws, required, self, a, c), KeyOf, true)
      == Sort(Landed(raws, required, self, b, c), KeyOf, true) + Sort(Landed(raws, required, self, a, b), KeyOf, true)
  {
    var ac := Landed(raws, required, self, a, c);
    var bc, ab := Landed(raws, required, self, b, c), Landed(raws, required, self, a, b);
    LandedInWindow(raws, required, self, b, c);
    LandedInWindow(raws, required, self, a, b);
    forall k
      ensures Class(ac, KeyOf, k) == Class(bc, KeyOf, k) + Class(ab, KeyOf, k)
    {
      LandedClasses(raws, required, self, a, b, c, k);
    }
    SortAppend(bc, ab, ac, KeyOf, true);
  }

  // ---------------------------------------------------------------------------
  // Order of the source
  // ---------------------------------------------------------------------------

  function Lander(required: seq<string>, self: set<string>, since: int, until: int): Merge -> Option<Evidence> {
    (m: Merge) => if InWindow(m.mergedAt, since, until) then Some(Classified(m, required, self)) else None
  }

  lemma {:induction false} LandedIsCollect(
      raws: seq<Merge>, required: seq<string>, self: set<string>, since: int, until: int)
    ensures Landed(raws, required, self, since, until) == Collect(raws, Lander(required, self, since, until))
  {
    if raws != [] {
      LandedIsCollect(raws[1..], required, self, since, until);
    }
  }

  /**
   * The whole export is the same for every order in which the source may list the landings iff no
   * two different pieces of the window's evidence share instant and sha.
   */
  lemma OrderDoesNotMatterIff(raws: seq<Merge>, required: seq<string>, self: set<string>, since: int, until: int)
    ensures
      (forall raws' :: multiset(raws') == multiset(raws) ==>
        Build(raws', required, self, since, until) == Build(raws, required, self, since, until))
      <==> Determined(Landed(raws, required, self, since, until), KeyOf)
  {
    var f := Lander(required, self, since, until);
    forall raws'
      ensures Landed(raws', required, self, since, until) == Collect(raws', f)
    {
      LandedIsCollect(raws', required, self, since, until);
    }
    OrderHiddenIff(raws, f, KeyOf, true);
    assert forall raws' :: Build(raws', required, self, since, until).merges == Sort(Collect(raws', f), KeyOf, true);
  }

  predicate SameLanding(m: Merge, m': Merge, since: int, until: int) {
    InWindow(m.mergedAt, since, until) && m.mergedAt == m'.mergedAt && m.sha == m'.sha
  }

  /** Which holds when no two different landings of the window share instant and sha. */
  lemma DistinctIsDetermined(raws: seq<Merge>, required: seq<string>, self: set<string>, since: int, until: int)
    requires forall m, m' :: m in raws && m' in raws && SameLanding(m, m', since, until) ==> m == m'
    ensures Determined(Landed(raws, required, self, since, until), KeyOf)
  {
    forall x, y | x in Landed(raws, required, self, since, until)
        && y in Landed(raws, required, self, since, until) && KeyOf(x) == KeyOf(y)
      ensures x == y
    {
      var m := FromLanding(raws, required, self, since, until, x);
      var m' := FromLanding(raws, required, self, since, until, y);
      assert SameLanding(m, m', since, until);
    }
  }

  /** Every piece of evidence is that of a landing of the window. */
  lemma {:induction false} FromLanding(
      raws: seq<Merge>, required: seq<string>, self: set<string>, since: int, until: int, e: Evidence)
      returns (m: Merge)
    requires e in Landed(raws, required, self, since, until)
    ensures m in raws && InWindow(m.mergedAt, since, until) && e == Classified(m, required, self)
  {
    if InWindow(raws[0].mergedAt, since, until) && e == Classified(raws[0], required, self) {
      m := raws[0];
    } else {
      m := FromLanding(raws[1..], required, self, since, until, e);
    }
  }

  // ---------------------------------------------------------------------------
  // The export, read off the landings
  // ---------------------------------------------------------------------------

  /** What an export says of a landing. */
  ghost predicate Reports(e: Evidence, m: Merge, required: seq<string>, self: set<string>) {
    && (e.sha, e.testedHead, e.pr, e.mergedAt) == (m.sha, m.testedHead, m.pr, m.mergedAt)
    && (forall context :: context in e.required <==> context in required)
    && (forall context :: context in e.required ==>
          e.required[context] == if context in m.checks then m.checks[context] else "missing")
    && |e.approvals| == |m.approvals|
    && (forall i :: 0 <= i < |m.approvals| ==>
          && e.approvals[i].author == m.approvals[i]
          && (e.approvals[i].independent <==> m.approvals[i] !in self))
    && (e.exceptions == [] <==> Unexceptional(m, required))
  }

  predicate Unexceptional(m: Merge, required: seq<string>) {
    && m.pr.Some? && m.approvals != []
    && forall context :: context in required ==> context in m.checks && m.checks[context] == "success"
  }

  lemma ClassifiedReports(m: Merge, required: seq<string>, self: set<string>)
    ensures Reports(Classified(m, required, self), m, required, self)
  {
    CleanIff(m, required, self);
  }

  /** Every landing of the window is reported, and nothing else is. */
  lemma {:induction false} ExportReports(
      raws: seq<Merge>, required: seq<string>, self: set<string>, since: int, until: int)
    ensures var merges := Build(raws, required, self, since, until).merges;
      && (forall m :: m in raws && since <= m.mergedAt && m.mergedAt < until ==>
            exists e :: e in merges && Reports(e, m, required, self))
      && (forall e :: e in merges ==>
            exists m :: m in raws && since <= m.mergedAt && m.mergedAt < until && Reports(e, m, required, self))
  {
    var landed := Landed(raws, required, self, since, until);
    var merges := Build(raws, required, self, since, until).merges;
    BuildOrdersTheWindow(raws, required, self, since, until);
    forall m | m in raws && since <= m.mergedAt && m.mergedAt < until
      ensures exists e :: e in merges && Reports(e, m, required, self)
    {
      LandingLands(raws, required, self, since, until, m);
      ClassifiedReports(m, required, self);
      assert Classified(m, required, self) in multiset(merges);
    }
    forall e | e in merges
      ensures exists m :: m in raws && since <= m.mergedAt && m.mergedAt < until && Reports(e, m, required, self)
    {
      assert e in multiset(landed);
      var m := FromLanding(raws, required, self, since, until, e);
      ClassifiedReports(m, required, self);
    }
  }

  lemma {:induction false} LandingLands(
      raws: seq<Merge>, required: seq<string>, self: set<string>, since: int, until: int, m: Merge)
    requires m in raws && InWindow(m.mergedAt, since, until)
    ensures Classified(m, required, self) in Landed(raws, required, self, since, until)
  {
    if m != raws[0] {
      LandingLands(raws[1..], required, self, since, until, m);
    }
  }

  /** The landings of the window with some trait. */
  function Landings(raws: seq<Merge>, since: int, until: int, t: Merge -> bool): nat {
    Count(raws, (m: Merge) => since <= m.mergedAt < until && t(m))
  }

  predicate OwnApproval(m: Merge, self: set<string>) {
    exists a :: a in m.approvals && a in self
  }

  lemma SelfApprovedIs(m: Merge, required: seq<string>, self: set<string>)
    ensures SelfApproved(Classified(m, required, self)) <==> OwnApproval(m, self)
  {
    var approvals := Classified(m, required, self).approvals;
    if SelfApproved(Classified(m, required, self)) {
      var a :| a in approvals && !a.independent;
      assert a.author in m.approvals;
    }
    if a :| a in m.approvals && a in self {
      var i :| 0 <= i < |m.approvals| && m.approvals[i] == a;
      assert approvals[i] in approvals;
    }
  }

  /** The three counts, over the landings themselves. */
  lemma {:induction false} CountsAre(raws: seq<Merge>, required: seq<string>, self: set<string>, since: int, until: int)
    ensures var r := Build(raws, required, self, since, until);
      && r.nMerges == Landings(raws, since, until, m => true)
      && r.nExceptions == Landings(raws, since, until, m => !Unexceptional(m, required))
      && r.nSelfApproved == Landings(raws, since, until, m => OwnApproval(m, self))
  {
    var landed := Landed(raws, required, self, since, until);
    SortPermutes(landed, KeyOf, true);
    CountSort(landed, KeyOf, true, Flagged);
    CountSort(landed, KeyOf, true, SelfApproved);
    CountLanded(raws, required, self, since, until);
  }

  lemma {:induction false} CountLanded(
      raws: seq<Merge>, required: seq<string>, self: set<string>, since: int, until: int)
    ensures var landed := Landed(raws, required, self, since, until);
      && |landed| == Landings(raws, since, until, m => true)
      && Count(landed, Flagged) == Landings(raws, since, until, m => !Unexceptional(m, required))
      && Count(landed, SelfApproved) == Landings(raws, since, until, m => OwnApproval(m, self))
  {
    if raws != [] {
      CountLanded(raws[1..], required, self, since, until);
      SelfApprovedIs(raws[0], required, self);
      CleanIff(raws[0], required, self);
      CountAppend([Classified(raws[0], required, self)], Landed(raws[1..], required, self, since, until), Flagged);
      CountAppend([Classified(raws[0], required, self)], Landed(raws[1..], required, self, since, until), SelfApproved);
    }
  }
}
