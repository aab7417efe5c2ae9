/** The vendor and subprocessor register of scripts/soc2. */
module VendorRegister {
  import opened Prelude
  import opened StableSort
  import Text

  const SIGNED: string := "signed"

  /** A declared processor; the DPA's expiry is an instant. */
  datatype Subprocessor = Subprocessor(
    name: string, purpose: string, dataCategories: seq<string>, region: string,
    customerData: bool, dpaStatus: string, dpaExpiry: Option<int>)

  /** A processor the system was seen to reach. */
  datatype UsageRef = UsageRef(name: string, surface: string, observedIn: string)

  datatype Classification = DpaExpired | Incomplete | Documented | Unused

  datatype Reviewed = Reviewed(vendor: Subprocessor, classification: Classification, used: bool)

  datatype Register = Register(
    vendors: seq<Reviewed>, undeclared: seq<UsageRef>, nVendors: nat, nIncomplete: nat, nExpired: nat, nUndeclared: nat)

  predicate RequiredPresent(v: Subprocessor) {
    && Text.Strip(v.purpose) != "" && Text.Strip(v.region) != "" && v.dataCategories != []
    && v.dpaStatus == SIGNED && v.dpaExpiry.Some?
  }

  function Classify(v: Subprocessor, used: bool, now: int): Reviewed {
    var classification :=
      if !RequiredPresent(v) then Incomplete
      else if now >= v.dpaExpiry.value then DpaExpired
      else if !used then Unused
      else Documented;
    Reviewed(v, classification, used)
  }

  // ---------------------------------------------------------------------------
  // Failing closed, and time
  // ---------------------------------------------------------------------------

  /** Documented iff signed, every field filled with more than blanks, reached, and not yet expired. */
  lemma DocumentedIff(v: Subprocessor, used: bool, now: int)
    ensures Classify(v, used, now).classification == Documented <==>
      && v.dpaStatus == SIGNED && v.dpaExpiry.Some? && now < v.dpaExpiry.value && used && v.dataCategories != []
      && Filled(v.purpose) && Filled(v.region)
  {
    BlankIff(v.purpose);
    BlankIff(v.region);
  }

  /** A field with something besides blanks in it. */
  predicate Filled(s: string) {
    exists i :: 0 <= i < |s| && !Text.IsSpace(s[i])
  }

  /**
   * Incomplete iff unsigned, undated or some field blank, reached or not; expired iff complete and
   * at or past its date.
   */
  lemma {:induction false} FailsClosedIff(v: Subprocessor, used: bool, now: int)
    ensures Classify(v, used, now).classification == Incomplete <==>
      v.dpaStatus != SIGNED || v.dpaExpiry.None? || v.dataCategories == [] || !Filled(v.purpose) || !Filled(v.region)
    ensures Classify(v, used, now).classification == DpaExpired <==>
      Classify(v, used, now).classification != Incomplete && v.dpaExpiry.value <= now
  {
    BlankIff(v.purpose);
    BlankIff(v.region);
  }

  /** Stripping leaves nothing iff every character is white space. */
  lemma BlankIff(s: string)
    ensures Text.Strip(s) == "" <==> forall i :: 0 <= i < |s| ==> Text.IsSpace(s[i])
  {
    LStripBlank(s);
    RStripBlank(Text.LStrip(s));
    assert forall i :: 0 <= i < |s| && !Text.IsSpace(s[i]) ==> s[i] in s;
  }

  lemma {:induction false} LStripBlank(s: string)
    ensures (forall i :: 0 <= i < |s| ==> Text.IsSpace(s[i])) <==> Text.LStrip(s) == ""
    ensures Text.LStrip(s) != "" ==> !Text.IsSpace(Text.LStrip(s)[0])
  {
    if s != "" && Text.IsSpace(s[0]) {
      LStripBlank(s[1..]);
      assert forall i :: 1 <= i < |s| ==> s[i] == s[1..][i - 1];
    }
  }

  lemma {:induction false} RStripBlank(s: string)
    requires s != "" ==> !Text.IsSpace(s[0])
    ensures Text.RStrip(s) == "" <==> s == ""
  {
    if |s| > 1 && Text.IsSpace(s[|s| - 1]) {
      RStripBlank(s[..|s| - 1]);
    }
  }

  /** Time passing turns documented and unused into expired and changes nothing else. */
  lemma {:induction false} LaterOnlyExpires(v: Subprocessor, used: bool, now: int, later: int)
    requires now <= later
    ensures var a, b := Classify(v, used, now), Classify(v, used, later);
      a == b || (a.classification in {Documented, Unused} && b == a.(classification := DpaExpired))
  {
  }

  /** Being reached turns unused into documented and changes no other classification. */
  lemma {:induction false} UseOnlyDocuments(v: Subprocessor, now: int)
    ensures var a, b := Classify(v, false, now).classification, Classify(v, true, now).classification;
      if a == Unused then b == Documented else a == b
  {
  }

  // ---------------------------------------------------------------------------
  // The register
  // ---------------------------------------------------------------------------

  function Severity(c: Classification): int {
    match c
    case DpaExpired => 0
    case Incomplete => 1
    case Documented => 2
    case Unused => 3
  }

  function KeyOf(r: Reviewed): Key {
    Key(Severity(r.classification), r.vendor.name)
  }

  predicate Reached(usage: seq<UsageRef>, name: string) {
    exists u :: u in usage && u.name == name
  }

  predicate Declares(declared: seq<Subprocessor>, name: string) {
    exists v :: v in declared && v.name == name
  }

  /** The customer-data vendors, classified, in declared order. */
  function Review(declared: seq<Subprocessor>, usage: seq<UsageRef>, now: int): seq<Reviewed> {
    if declared == [] then []
    else
      (if declared[0].customerData then [Classify(declared[0], Reached(usage, declared[0].name), now)] else [])
      + Review(declared[1..], usage, now)
  }

  predicate IsIncomplete(r: Reviewed) {
    r.classification == Incomplete
  }

  predicate IsExpired(r: Reviewed) {
    r.classification == DpaExpired
  }

  function BuildRegister(declared: seq<Subprocessor>, usage: seq<UsageRef>, now: int): Register {
    var undeclared := Filter(usage, (u: UsageRef) => !Declares(declared, u.name));
    var reviewed := Sort(Review(declared, usage, now), KeyOf, false);
    Register(reviewed, undeclared,
      |reviewed|, Count(reviewed, IsIncomplete), Count(reviewed, IsExpired), |undeclared|)
  }

  /** Worst first and by name, every customer-data vendor once and nothing else, ties in declared order. */
  lemma RegisterIsTheReview(declared: seq<Subprocessor>, usage: seq<UsageRef>, now: int)
    ensures var vendors := BuildRegister(declared, usage, now).vendors;
      && Sorted(vendors, KeyOf, false)
      && multiset(vendors) == multiset(Review(declared, usage, now))
      && SameClasses(vendors, Review(declared, usage, now), KeyOf)
  {
    var reviewed := Review(declared, usage, now);
    SortSorts(reviewed, KeyOf, false);
    SortPermutes(reviewed, KeyOf, false);
    SortStable(reviewed, KeyOf, false);
  }

  /** Expired before incomplete before documented before unused, and within each the names ascend. */
  lemma {:induction false} WorstFirst(declared: seq<Subprocessor>, usage: seq<UsageRef>, now: int, i: nat, j: nat)
    requires i < j < |BuildRegister(declared, usage, now).vendors|
    ensures var vendors := BuildRegister(declared, usage, now).vendors;
      var a, b := vendors[i].classification, vendors[j].classification;
      && (b == DpaExpired ==> a == DpaExpired)
      && (b == Incomplete ==> a in {DpaExpired, Incomplete})
      && (a == Unused ==> b == Unused)
      && (a == b ==> !StringLess(vendors[j].vendor.name, vendors[i].vendor.name))
  {
    RegisterIsTheReview(declared, usage, now);
    var vendors := BuildRegister(declared, usage, now).vendors;
    assert !Before(KeyOf(vendors[j]), KeyOf(vendors[i]), false);
  }

  lemma {:induction false} InReview(declared: seq<Subprocessor>, usage: seq<UsageRef>, now: int, r: Reviewed)
    ensures r in Review(declared, usage, now) <==>
      r.vendor in declared && r.vendor.customerData && r == Classify(r.vendor, Reached(usage, r.vendor.name), now)
  {
    if declared != [] {
      InReview(declared[1..], usage, now, r);
      assert declared == [declared[0]] + declared[1..];
    }
  }

  /** The undeclared findings are exactly the live references whose name nobody declared. */
  lemma UndeclaredExactly(declared: seq<Subprocessor>, usage: seq<UsageRef>, now: int, u: UsageRef)
    ensures u in BuildRegister(declared, usage, now).undeclared <==>
      u in usage && forall v :: v in declared ==> v.name != u.name
  {
    InFilter(usage, (x: UsageRef) => !Declares(declared, x.name), u);
  }

  /** The register has nothing undeclared iff every live name is declared, customer data or not. */
  lemma NoneUndeclaredIff(declared: seq<Subprocessor>, usage: seq<UsageRef>, now: int)
    ensures BuildRegister(declared, usage, now).nUndeclared == 0 <==>
      forall u :: u in usage ==> Declares(declared, u.name)
  {
    var undeclared := BuildRegister(declared, usage, now).undeclared;
    forall u | u in usage
      ensures u in undeclared <==> !Declares(declared, u.name)
    {
      UndeclaredExactly(declared, usage, now, u);
    }
    if undeclared != [] {
      UndeclaredExactly(declared, usage, now, undeclared[0]);
    }
  }

  function RowOf(usage: seq<UsageRef>, now: int): Subprocessor -> Option<Reviewed> {
    (v: Subprocessor) => if v.customerData then Some(Classify(v, Reached(usage, v.name), now)) else None
  }

  lemma {:induction false} ReviewIsCollect(declared: seq<Subprocessor>, usage: seq<UsageRef>, now: int)
    ensures Review(declared, usage, now) == Collect(declared, RowOf(usage, now))
  {
    if declared != [] {
      ReviewIsCollect(declared[1..], usage, now);
    }
  }

  /**
   * The order is total, so that the vendors are the same however they are declared, iff no two
   * different reviewed vendors share severity and name.
   */
  lemma TotalOrderIff(declared: seq<Subprocessor>, usage: seq<UsageRef>, now: int)
    ensures
      (forall declared' :: multiset(declared') == multiset(declared) ==>
        BuildRegister(declared', usage, now).vendors == BuildRegister(declared, usage, now).vendors)
      <==> Determined(Review(declared, usage, now), KeyOf)
  {
    var f := RowOf(usage, now);
    forall declared'
      ensures Review(declared', usage, now) == Collect(declared', f)
    {
      ReviewIsCollect(declared', usage, now);
    }
    OrderHiddenIff(declared, f, KeyOf, false);
    assert forall declared' ::
      BuildRegister(declared', usage, now).vendors == Sort(Collect(declared', f), KeyOf, false);
  }

  lemma ReviewCons(declared: seq<Subprocessor>, usage: seq<UsageRef>, now: int, p: Reviewed -> bool)
    requires declared != []
    ensures Count(Review(declared, usage, now), p)
      == (if declared[0].customerData && p(Classify(declared[0], Reached(usage, declared[0].name), now)) then 1 else 0)
         + Count(Review(declared[1..], usage, now), p)
  {
    var rest := Review(declared[1..], usage, now);
    if declared[0].customerData {
      CountAppend([Classify(declared[0], Reached(usage, declared[0].name), now)], rest, p);
    } else {
      assert [] + rest == rest;
    }
  }

  lemma {:induction false} ReviewLater(declared: seq<Subprocessor>, usage: seq<UsageRef>, now: int, later: int)
    requires now <= later
    ensures var a, b := Review(declared, usage, now), Review(declared, usage, later);
      |a| == |b| && Count(a, IsIncomplete) == Count(b, IsIncomplete) && Count(a, IsExpired) <= Count(b, IsExpired)
  {
    if declared != [] {
      ReviewLater(declared[1..], usage, now, later);
      LaterOnlyExpires(declared[0], Reached(usage, declared[0].name), now, later);
      ReviewCons(declared, usage, now, IsIncomplete);
      ReviewCons(declared, usage, now, IsExpired);
      ReviewCons(declared, usage, later, IsIncomplete);
      ReviewCons(declared, usage, later, IsExpired);
    }
  }

  /** The counts are those of the review, whatever the sort did. */
  lemma CountsOf(declared: seq<Subprocessor>, usage: seq<UsageRef>, now: int)
    ensures var r, reviewed := BuildRegister(declared, usage, now), Review(declared, usage, now);
      && r.nVendors == |reviewed|
      && r.nIncomplete == Count(reviewed, IsIncomplete)
      && r.nExpired == Count(reviewed, IsExpired)
  {
    var reviewed := Review(declared, usage, now);
    SortPermutes(reviewed, KeyOf, false);
    CountSort(reviewed, KeyOf, false, IsIncomplete);
    CountSort(reviewed, KeyOf, false, IsExpired);
  }

  /** The same register later: as many vendors, incomplete and undeclared, no fewer expired. */
  lemma RegisterLater(declared: seq<Subprocessor>, usage: seq<UsageRef>, now: int, later: int)
    requires now <= later
    ensures var a, b := BuildRegister(declared, usage, now), BuildRegister(declared, usage, later);
      && a.nVendors == b.nVendors && a.nIncomplete == b.nIncomplete && a.nExpired <= b.nExpired
      && a.undeclared == b.undeclared
  {
    ReviewLater(declared, usage, now, later);
    CountsOf(declared, usage, now);
    CountsOf(declared, usage, later);
  }

  // ---------------------------------------------------------------------------
  // What counts as evidence
  // ---------------------------------------------------------------------------

  /** The one status that counts, and the counts over the register's own rows. */
  lemma {:induction false} CountsAre(declared: seq<Subprocessor>, usage: seq<UsageRef>, now: int)
    ensures var r := BuildRegister(declared, usage, now);
      && r.nVendors == |r.vendors| && r.nUndeclared == |r.undeclared|
      && (r.nIncomplete == 0 <==> forall x :: x in r.vendors ==> x.classification != Incomplete)
      && (r.nExpired == 0 <==> forall x :: x in r.vendors ==> x.classification != DpaExpired)
      && (forall x :: x in r.vendors && x.vendor.dpaStatus != "signed" ==> x.classification == Incomplete)
      && r.nIncomplete + r.nExpired
         + Count(r.vendors, (x: Reviewed) => x.classification == Documented || x.classification == Unused) == r.nVendors
  {
    var rows := BuildRegister(declared, usage, now).vendors;
    CountNone(rows, IsIncomplete);
    CountNone(rows, IsExpired);
    CountKinds(rows);
    forall x | x in rows
      ensures x == Classify(x.vendor, Reached(usage, x.vendor.name), now)
    {
      RegisterIsTheReview(declared, usage, now);
      assert x in multiset(Review(declared, usage, now));
      InReview(declared, usage, now, x);
    }
  }

  lemma {:induction false} CountKinds(rows: seq<Reviewed>)
    ensures |rows| == Count(rows, IsIncomplete) + Count(rows, IsExpired)
      + Count(rows, (x: Reviewed) => x.classification == Documented || x.classification == Unused)
  {
    if rows != [] {
      CountKinds(rows[1..]);
    }
  }

  /** A vendor counts as used iff some live reference has its name. */
  lemma {:induction false} UsedIff(declared: seq<Subprocessor>, usage: seq<UsageRef>, now: int, r: Reviewed)
    requires r in BuildRegister(declared, usage, now).vendors
    ensures r.vendor in declared && r.vendor.customerData
    ensures r.used <==> exists i :: 0 <= i < |usage| && usage[i].name == r.vendor.name
  {
    RegisterIsTheReview(declared, usage, now);
    assert r in multiset(Review(declared, usage, now));
    InReview(declared, usage, now, r);
    assert forall u :: u in usage ==> exists i :: 0 <= i < |usage| && usage[i] == u;
  }
}
