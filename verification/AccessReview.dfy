/** The least-privilege access register of scripts/soc2. */
module AccessReview {
  import opened Prelude
  import opened StableSort

  const READ: string := "read"
  const WRITE: string := "write"
  const ADMIN: string := "admin"
  const UNKNOWN_RANK: int := 99
  const PRIVILEGED_RANK: int := 1

  /** A day, in the microseconds that instants are counted in. */
  const DAY: int := 86_400_000_000

  datatype Grant = Grant(login: string, surface: string, permission: string, lastActivity: Option<int>)

  datatype PolicyEntry = PolicyEntry(login: string, maxPermission: string, justification: string, selfApproval: bool)

  datatype Classification = OverPrivileged | Stale | Justified

  datatype Reviewed = Reviewed(grant: Grant, classification: Classification, selfApproval: bool)

  datatype Register = Register(grants: seq<Reviewed>, nPrincipals: nat, nOverPrivileged: nat, nStale: nat)

  function Rank(permission: string): int {
    if permission == READ then 0
    else if permission == WRITE then 1
    else if permission == ADMIN then 2
    else UNKNOWN_RANK
  }

  predicate IsPrivileged(g: Grant) {
    Rank(g.permission) >= PRIVILEGED_RANK
  }

  predicate IsStale(g: Grant, now: int, windowDays: int) {
    g.lastActivity.None? || g.lastActivity.value < now - windowDays * DAY
  }

  /** The dictionary of the policy by login: a later entry replaces an earlier one. */
  function EntryOf(policy: seq<PolicyEntry>, login: string): Option<PolicyEntry> {
    if policy == [] then None
    else if policy[|policy| - 1].login == login then Some(policy[|policy| - 1])
    else EntryOf(policy[..|policy| - 1], login)
  }

  function Classify(g: Grant, policy: seq<PolicyEntry>, now: int, windowDays: int): Reviewed {
    var entry := EntryOf(policy, g.login);
    var selfApproval := entry.Some? && entry.value.selfApproval;
    var classification :=
      if entry.None? || Rank(g.permission) > Rank(entry.value.maxPermission) then OverPrivileged
      else if IsStale(g, now, windowDays) then Stale
      else Justified;
    Reviewed(g, classification, selfApproval)
  }

  // ---------------------------------------------------------------------------
  // Failing closed
  // ---------------------------------------------------------------------------

  /** The entry of a login that no later entry of the same login replaces. */
  predicate LastEntry(policy: seq<PolicyEntry>, login: string, i: nat) {
    i < |policy| && policy[i].login == login && forall j :: i < j < |policy| ==> policy[j].login != login
  }

  lemma LastEntrySnoc(init: seq<PolicyEntry>, last: PolicyEntry, login: string, i: nat)
    ensures LastEntry(init + [last], login, i) <==>
      if last.login == login then i == |init| else LastEntry(init, login, i)
  {
    var policy := init + [last];
    assert policy[|init|] == last;
    assert forall j :: 0 <= j < |init| ==> policy[j] == init[j];
  }

  /** The dictionary's entry is the last one, and there is none iff no entry has the login. */
  lemma {:induction false} EntryIsLast(policy: seq<PolicyEntry>, login: string)
    ensures EntryOf(policy, login).None? <==> forall i :: 0 <= i < |policy| ==> policy[i].login != login
    ensures forall i: nat :: LastEntry(policy, login, i) ==> EntryOf(policy, login) == Some(policy[i])
    ensures EntryOf(policy, login).Some? ==> exists i: nat :: LastEntry(policy, login, i)
  {
    if policy != [] {
      var init, last := policy[..|policy| - 1], policy[|policy| - 1];
      EntryIsLast(init, login);
      assert policy == init + [last];
      forall i: nat
        ensures LastEntry(policy, login, i) <==> if last.login == login then i == |init| else LastEntry(init, login, i)
      {
        LastEntrySnoc(init, last, login, i);
      }
      assert last.login == login ==> LastEntry(policy, login, |init|);
    }
  }

  /** Justified iff the last policy entry of the login covers the grant and there was activity in the window. */
  lemma JustifiedIff(g: Grant, policy: seq<PolicyEntry>, now: int, windowDays: int)
    ensures Classify(g, policy, now, windowDays).classification == Justified <==>
      && (exists i: nat :: LastEntry(policy, g.login, i) && Rank(g.permission) <= Rank(policy[i].maxPermission))
      && g.lastActivity.Some? && g.lastActivity.value >= now - windowDays * DAY
  {
    EntryIsLast(policy, g.login);
  }

  /**
   * Over-privileged iff no policy entry of the login that counts covers the grant, however active
   * the login is; the self-approval mark is that of the same entry, and absent without one.
   */
  lemma {:induction false} FailsClosedIff(g: Grant, policy: seq<PolicyEntry>, now: int, windowDays: int)
    ensures Classify(g, policy, now, windowDays).classification == OverPrivileged <==>
      forall i: nat :: LastEntry(policy, g.login, i) ==> Rank(g.permission) > Rank(policy[i].maxPermission)
    ensures Classify(g, policy, now, windowDays).selfApproval <==>
      exists i: nat :: LastEntry(policy, g.login, i) && policy[i].selfApproval
    ensures (forall i :: 0 <= i < |policy| ==> policy[i].login != g.login) ==>
      Classify(g, policy, now, windowDays) == Reviewed(g, OverPrivileged, false)
  {
    EntryIsLast(policy, g.login);
  }

  predicate Known(permission: string) {
    permission == READ || permission == WRITE || permission == ADMIN
  }

  /**
   * An unrecognised grant is over-privileged, as promised, iff the policy's ceiling for the
   * login is a recognised one (or there is none): an unrecognised ceiling covers everything.
   */
  lemma UnknownFailsClosedIff(g: Grant, policy: seq<PolicyEntry>, now: int, windowDays: int)
    requires !Known(g.permission)
    ensures Classify(g, policy, now, windowDays).classification == OverPrivileged <==>
      forall i: nat :: LastEntry(policy, g.login, i) ==> Known(policy[i].maxPermission)
  {
    EntryIsLast(policy, g.login);
  }

  /** A misspelt ceiling justifies an unrecognised permission. */
  lemma {:induction false} UnknownCeilingJustifies(login: string, now: int)
    ensures
      var g := Grant(login, "org", "owner", Some(now));
      var policy := [PolicyEntry(login, "adminn", "", false)];
      Classify(g, policy, now, 90).classification == Justified
  {
    assert "owner"[0] != READ[0] && "owner"[0] != WRITE[0] && "owner"[0] != ADMIN[0];
    assert |"adminn"| != |READ| && |"adminn"| != |WRITE| && |"adminn"| != |ADMIN|;
  }

  // ---------------------------------------------------------------------------
  // The register
  // ---------------------------------------------------------------------------

  function Severity(c: Classification): int {
    match c
    case OverPrivileged => 0
    case Stale => 1
    case Justified => 2
  }

  function KeyOf(r: Reviewed): Key {
    Key(Severity(r.classification), r.grant.login)
  }

  /** The privileged grants, classified, in the order of the source. */
  function Review(grants: seq<Grant>, policy: seq<PolicyEntry>, now: int, windowDays: int): seq<Reviewed> {
    if grants == [] then []
    else
      (if IsPrivileged(grants[0]) then [Classify(grants[0], policy, now, windowDays)] else [])
      + Review(grants[1..], policy, now, windowDays)
  }

  predicate IsOverPrivileged(r: Reviewed) {
    r.classification == OverPrivileged
  }

  predicate IsDormant(r: Reviewed) {
    r.classification == Stale
  }

  function BuildRegister(grants: seq<Grant>, policy: seq<PolicyEntry>, now: int, windowDays: int): Register {
    var reviewed := Sort(Review(grants, policy, now, windowDays), KeyOf, false);
    Register(reviewed, |reviewed|, Count(reviewed, IsOverPrivileged), Count(reviewed, IsDormant))
  }

  /** Worst first and by login, every privileged grant once and nothing else, ties in source order. */
  lemma RegisterIsTheReview(grants: seq<Grant>, policy: seq<PolicyEntry>, now: int, windowDays: int)
    ensures var register := BuildRegister(grants, policy, now, windowDays).grants;
      && Sorted(register, KeyOf, false)
      && multiset(register) == multiset(Review(grants, policy, now, windowDays))
      && SameClasses(register, Review(grants, policy, now, windowDays), KeyOf)
  {
    var reviewed := Review(grants, policy, now, windowDays);
    SortSorts(reviewed, KeyOf, false);
    SortPermutes(reviewed, KeyOf, false);
    SortStable(reviewed, KeyOf, false);
  }

  /** Over-privileged before stale before justified, and within each the logins ascend. */
  lemma {:induction false} WorstFirst(
      grants: seq<Grant>, policy: seq<PolicyEntry>, now: int, windowDays: int, i: nat, j: nat)
    requires i < j < |BuildRegister(grants, policy, now, windowDays).grants|
    ensures var register := BuildRegister(grants, policy, now, windowDays).grants;
      && (register[j].classification == OverPrivileged ==> register[i].classification == OverPrivileged)
      && (register[i].classification == Justified ==> register[j].classification == Justified)
      && (register[i].classification == register[j].classification ==>
            !StringLess(register[j].grant.login, register[i].grant.login))
  {
    RegisterIsTheReview(grants, policy, now, windowDays);
    var register := BuildRegister(grants, policy, now, windowDays).grants;
    assert !Before(KeyOf(register[j]), KeyOf(register[i]), false);
  }

  lemma {:induction false} InReview(
      grants: seq<Grant>, policy: seq<PolicyEntry>, now: int, windowDays: int, r: Reviewed)
    ensures r in Review(grants, policy, now, windowDays) <==>
      r.grant in grants && IsPrivileged(r.grant) && r == Classify(r.grant, policy, now, windowDays)
  {
    if grants != [] {
      InReview(grants[1..], policy, now, windowDays, r);
      assert grants == [grants[0]] + grants[1..];
    }
  }

  /** What is in the register: the classification of each privileged grant. */
  lemma InRegister(grants: seq<Grant>, policy: seq<PolicyEntry>, now: int, windowDays: int, r: Reviewed)
    ensures r in BuildRegister(grants, policy, now, windowDays).grants <==>
      r.grant in grants && IsPrivileged(r.grant) && r == Classify(r.grant, policy, now, windowDays)
  {
    var reviewed := Review(grants, policy, now, windowDays);
    RegisterIsTheReview(grants, policy, now, windowDays);
    InReview(grants, policy, now, windowDays, r);
    assert r in multiset(reviewed) <==> r in reviewed;
    assert r in multiset(Sort(reviewed, KeyOf, false)) <==> r in Sort(reviewed, KeyOf, false);
  }

  function RowOf(policy: seq<PolicyEntry>, now: int, windowDays: int): Grant -> Option<Reviewed> {
    (g: Grant) => if IsPrivileged(g) then Some(Classify(g, policy, now, windowDays)) else None
  }

  lemma {:induction false} ReviewIsCollect(grants: seq<Grant>, policy: seq<PolicyEntry>, now: int, windowDays: int)
    ensures Review(grants, policy, now, windowDays) == Collect(grants, RowOf(policy, now, windowDays))
  {
    if grants != [] {
      ReviewIsCollect(grants[1..], policy, now, windowDays);
    }
  }

  /**
   * The order is total, so that the register is the same however the roster is listed, iff no two
   * different reviewed grants share severity and login.
   */
  lemma TotalOrderIff(grants: seq<Grant>, policy: seq<PolicyEntry>, now: int, windowDays: int)
    ensures
      (forall grants' :: multiset(grants') == multiset(grants) ==>
        BuildRegister(grants', policy, now, windowDays) == BuildRegister(grants, policy, now, windowDays))
      <==> Determined(Review(grants, policy, now, windowDays), KeyOf)
  {
    var f := RowOf(policy, now, windowDays);
    forall grants'
      ensures Review(grants', policy, now, windowDays) == Collect(grants', f)
    {
      ReviewIsCollect(grants', policy, now, windowDays);
    }
    OrderHiddenIff(grants, f, KeyOf, false);
    assert forall grants' ::
      BuildRegister(grants', policy, now, windowDays).grants == Sort(Collect(grants', f), KeyOf, false);
  }

  /** Two surfaces of one unlisted login tie, so the roster's order shows. */
  lemma OneLoginTwice(login: string, now: int)
    ensures
      var roster := [Grant(login, "org", WRITE, None), Grant(login, "repo", WRITE, None)];
      !Determined(Review(roster, [], now, 90), KeyOf)
  {
    var a, b := Grant(login, "org", WRITE, None), Grant(login, "repo", WRITE, None);
    InReview([a, b], [], now, 90, Classify(a, [], now, 90));
    InReview([a, b], [], now, 90, Classify(b, [], now, 90));
    assert |"org"| != |"repo"|;
    assert a in [a, b] && b in [a, b];
  }

  // ---------------------------------------------------------------------------
  // Time
  // ---------------------------------------------------------------------------

  /** Time passing turns justified into stale and changes nothing else. */
  lemma {:induction false} LaterOnlyStales(g: Grant, policy: seq<PolicyEntry>, now: int, later: int, windowDays: int)
    requires now <= later
    ensures var a, b := Classify(g, policy, now, windowDays), Classify(g, policy, later, windowDays);
      a == b || (a.classification == Justified && b == a.(classification := Stale))
  {
  }

  lemma {:induction false} ReviewLater(
      grants: seq<Grant>, policy: seq<PolicyEntry>, now: int, later: int, windowDays: int)
    requires now <= later
    ensures var a, b := Review(grants, policy, now, windowDays), Review(grants, policy, later, windowDays);
      && |a| == |b| && Count(a, IsOverPrivileged) == Count(b, IsOverPrivileged)
      && Count(a, IsDormant) <= Count(b, IsDormant)
  {
    if grants != [] {
      ReviewLater(grants[1..], policy, now, later, windowDays);
      LaterOnlyStales(grants[0], policy, now, later, windowDays);
      ReviewCons(grants, policy, now, windowDays, IsOverPrivileged);
      ReviewCons(grants, policy, now, windowDays, IsDormant);
      ReviewCons(grants, policy, later, windowDays, IsOverPrivileged);
      ReviewCons(grants, policy, later, windowDays, IsDormant);
    }
  }

  lemma ReviewCons(grants: seq<Grant>, policy: seq<PolicyEntry>, now: int, windowDays: int, p: Reviewed -> bool)
    requires grants != []
    ensures Count(Review(grants, policy, now, windowDays), p)
      == (if IsPrivileged(grants[0]) && p(Classify(grants[0], policy, now, windowDays)) then 1 else 0)
         + Count(Review(grants[1..], policy, now, windowDays), p)
  {
    if IsPrivileged(grants[0]) {
      CountAppend([Classify(grants[0], policy, now, windowDays)], Review(grants[1..], policy, now, windowDays), p);
    } else {
      assert [] + Review(grants[1..], policy, now, windowDays) == Review(grants[1..], policy, now, windowDays);
    }
  }

  /** The same roster reviewed later: the same principals, as many over-privileged, no fewer stale. */
  lemma RegisterLater(grants: seq<Grant>, policy: seq<PolicyEntry>, now: int, later: int, windowDays: int)
    requires now <= later
    ensures
      var a := BuildRegister(grants, policy, now, windowDays);
      var b := BuildRegister(grants, policy, later, windowDays);
      a.nPrincipals == b.nPrincipals && a.nOverPrivileged == b.nOverPrivileged && a.nStale <= b.nStale
  {
    ReviewLater(grants, policy, now, later, windowDays);
    CountsOf(grants, policy, now, windowDays);
    CountsOf(grants, policy, later, windowDays);
  }

  /** The counts are those of the review, whatever the sort did. */
  lemma CountsOf(grants: seq<Grant>, policy: seq<PolicyEntry>, now: int, windowDays: int)
    ensures var r, reviewed := BuildRegister(grants, policy, now, windowDays), Review(grants, policy, now, windowDays);
      && r.nPrincipals == |reviewed|
      && r.nOverPrivileged == Count(reviewed, IsOverPrivileged)
      && r.nStale == Count(reviewed, IsDormant)
  {
    var reviewed := Review(grants, policy, now, windowDays);
    SortPermutes(reviewed, KeyOf, false);
    CountSort(reviewed, KeyOf, false, IsOverPrivileged);
    CountSort(reviewed, KeyOf, false, IsDormant);
  }

  // ---------------------------------------------------------------------------
  // Permissions and days
  // ---------------------------------------------------------------------------

  /** Which ceilings cover which permissions. */
  lemma {:induction false} CoversIff(permission: string, ceiling: string)
    ensures Rank(permission) <= Rank(ceiling) <==>
      || ceiling !in ["read", "write", "admin"] || permission == ceiling
      || permission == "read" || (permission == "write" && ceiling == "admin")
    ensures Known(permission) <==> permission in ["read", "write", "admin"]
  {
    PermissionNames();
  }

  lemma PermissionNames()
    ensures "read" != "write" && "read" != "admin" && "write" != "admin"
  {
    assert |"read"| == 4 && |"write"| == 5 && |"admin"| == 5 && "write"[0] == 'w' && "admin"[0] == 'a';
  }

  /** Only a read grant is no privilege. */
  lemma PrivilegedIff(g: Grant)
    ensures IsPrivileged(g) <==> g.permission != "read"
  {
    PermissionNames();
  }

  /** Dormant: no activity on record, or none for the days of the window, in microseconds. */
  lemma StaleIff(g: Grant, now: int, windowDays: int)
    ensures IsStale(g, now, windowDays) <==>
      g.lastActivity.None? || now - g.lastActivity.value > windowDays * (24 * 60 * 60 * 1_000_000)
  {
  }

  /** The three counts, over the register's own rows. */
  lemma {:induction false} CountsAre(grants: seq<Grant>, policy: seq<PolicyEntry>, now: int, windowDays: int)
    ensures var r := BuildRegister(grants, policy, now, windowDays);
      && r.nPrincipals == |r.grants|
      && r.nPrincipals == r.nOverPrivileged + r.nStale + Count(r.grants, (x: Reviewed) => x.classification == Justified)
      && (r.nOverPrivileged == 0 <==> forall x :: x in r.grants ==> x.classification != OverPrivileged)
      && (r.nStale == 0 <==> forall x :: x in r.grants ==> x.classification != Stale)
  {
    var rows := BuildRegister(grants, policy, now, windowDays).grants;
    CountKinds(rows);
    CountNone(rows, IsOverPrivileged);
    CountNone(rows, IsDormant);
  }

  lemma {:induction false} CountKinds(rows: seq<Reviewed>)
    ensures |rows| == Count(rows, IsOverPrivileged) + Count(rows, IsDormant)
      + Count(rows, (x: Reviewed) => x.classification == Justified)
  {
    if rows != [] {
      CountKinds(rows[1..]);
    }
  }
}
