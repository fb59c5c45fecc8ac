/** Ordering lists of patients for display: three comparators (first given
    name, family name, birth date), three lexicographic chains built from
    them, the sort that applies a chain, and the display form of a name. */
module PatientListOrder {
  import opened Wrappers
  import Resources
  import Strings

  /** A HumanName: prefixes, given names, family name, suffixes (each name
      part may lack a value) and the free-text form. An absent list is
      represented by the empty sequence, which every use here treats alike. */
  datatype HumanName = HumanName(
    prefix: seq<Option<string>>,
    given: seq<Option<string>>,
    family: Option<string>,
    suffix: seq<Option<string>>,
    text: Option<string>)

  /** A patient: identity, names, and birth date as whole seconds from the
      epoch (none when absent or not convertible to a date). */
  datatype Patient = Patient(handle: Resources.Handle, name: seq<HumanName>, birthDate: Option<int>)

  datatype Order = NameGivenAsc | NameFamilyAsc | BirthDateAsc

  /** Stands in for a missing name part. */
  const NoName: string := "ZZZ"

  /** Stands in for a missing birth date: 70 Julian years (of 365.25 days)
      before the epoch, in seconds. */
  const NoBirthDate: int := -70 * 31557600

  // ---------------------------------------------------------------------
  // Sort keys

  function GivenKey(p: Patient): string {
    if |p.name| > 0 && |p.name[0].given| > 0 && p.name[0].given[0].Some? then p.name[0].given[0].value
    else NoName
  }

  function FamilyKey(p: Patient): string {
    if |p.name| > 0 && p.name[0].family.Some? then p.name[0].family.value else NoName
  }

  function BirthKey(p: Patient): int {
    p.birthDate.GetOr(NoBirthDate)
  }

  // ---------------------------------------------------------------------
  // Comparators

  /** Three-way comparison of strings in ordinal order. */
  function CompareStrings(a: string, b: string): (c: int)
    ensures c == -1 || c == 0 || c == 1
    ensures c < 0 <==> Strings.StrLess(a, b)
    ensures c == 0 <==> a == b
    ensures c > 0 <==> Strings.StrLess(b, a)
  {
    Strings.StrLessTrichotomy(a, b);
    Strings.StrLessIrreflexive(a);
    Strings.StrLessAsymmetric(a, b);
    if Strings.StrLess(a, b) then -1
    else if Strings.StrLess(b, a) then 1
    else 0
  }

  /** Compares the first given names, a missing one read as `ZZZ`. */
  function CompareNameGiven(p: Patient, q: Patient): (c: int)
    ensures c == -1 || c == 0 || c == 1
    ensures c < 0 <==> Strings.StrLess(GivenKey(p), GivenKey(q))
    ensures c == 0 <==> GivenKey(p) == GivenKey(q)
  {
    CompareStrings(GivenKey(p), GivenKey(q))
  }

  /** Compares the family names, a missing one read as `ZZZ`. */
  function CompareNameFamily(p: Patient, q: Patient): (c: int)
    ensures c == -1 || c == 0 || c == 1
    ensures c < 0 <==> Strings.StrLess(FamilyKey(p), FamilyKey(q))
    ensures c == 0 <==> FamilyKey(p) == FamilyKey(q)
  {
    CompareStrings(FamilyKey(p), FamilyKey(q))
  }

  /** Compares the birth dates, a missing one read as the fixed sentinel. */
  function CompareBirthDate(p: Patient, q: Patient): (c: int)
    ensures c == -1 || c == 0 || c == 1
    ensures c < 0 <==> BirthKey(p) < BirthKey(q)
    ensures c == 0 <==> BirthKey(p) == BirthKey(q)
  {
    if BirthKey(p) < BirthKey(q) then -1 else if BirthKey(p) > BirthKey(q) then 1 else 0
  }

  /** Every comparator gives 0 on a patient and itself and is antisymmetric. */
  lemma ComparatorsAntisymmetric(p: Patient, q: Patient)
    ensures CompareNameGiven(p, p) == 0 && CompareNameFamily(p, p) == 0 && CompareBirthDate(p, p) == 0
    ensures CompareNameGiven(p, q) == -CompareNameGiven(q, p)
    ensures CompareNameFamily(p, q) == -CompareNameFamily(q, p)
    ensures CompareBirthDate(p, q) == -CompareBirthDate(q, p)
  {
    Strings.StrLessAsymmetric(GivenKey(p), GivenKey(q));
    Strings.StrLessAsymmetric(FamilyKey(p), FamilyKey(q));
  }

  /** The sentinel is no maximum: a lower-case given name sorts after a
      patient with no given name at all. */
  lemma SentinelIsNotMaximal(h1: Resources.Handle, h2: Resources.Handle)
    ensures var nameless := Patient(h1, [], None);
            var adam := Patient(h2, [HumanName([], [Some("adam")], None, [], None)], None);
            CompareNameGiven(adam, nameless) == 1
  {
    assert Strings.StrLess("ZZZ", "adam");
  }

  // ---------------------------------------------------------------------
  // Chains

  /** The "comes before" test of each ordering: the first non-zero
      comparator in the ordering's sequence decides. */
  function Precedes(o: Order, p: Patient, q: Patient): (b: bool)
    // no patient precedes itself
    ensures p == q ==> !b
    // the leading comparator is never overruled by a later one
    ensures b && o.NameGivenAsc? ==> CompareNameGiven(p, q) <= 0
    ensures b && o.NameFamilyAsc? ==> CompareNameFamily(p, q) <= 0
    ensures b && o.BirthDateAsc? ==> CompareBirthDate(p, q) <= 0
  {
    match o
    case NameGivenAsc =>
      var given := CompareNameGiven(p, q);
      if given != 0 then given < 0
      else var family := CompareNameFamily(p, q);
           if family != 0 then family < 0 else CompareBirthDate(p, q) < 0
    case NameFamilyAsc =>
      var family := CompareNameFamily(p, q);
      if family != 0 then family < 0
      else var given := CompareNameGiven(p, q);
           if given != 0 then given < 0 else CompareBirthDate(p, q) < 0
    case BirthDateAsc =>
      var birth := CompareBirthDate(p, q);
      if birth != 0 then birth < 0
      else var family := CompareNameFamily(p, q);
           if family != 0 then family < 0 else CompareNameGiven(p, q) < 0
  }

  /** A component of a sort key: a name or a date. */
  datatype KeyPart = Name(s: string) | Date(d: int)

  /** Strict order on key parts: names ordinally, dates numerically (a name
      and a date never meet in keys of the same ordering). */
  predicate PartLess(x: KeyPart, y: KeyPart) {
    match (x, y)
    case (Name(a), Name(b)) => Strings.StrLess(a, b)
    case (Date(a), Date(b)) => a < b
    case (Name(_), Date(_)) => true
    case (Date(_), Name(_)) => false
  }

  /** The key of a patient under an ordering, most significant part first. */
  function SortKey(o: Order, p: Patient): seq<KeyPart> {
    match o
    case NameGivenAsc => [Name(GivenKey(p)), Name(FamilyKey(p)), Date(BirthKey(p))]
    case NameFamilyAsc => [Name(FamilyKey(p)), Name(GivenKey(p)), Date(BirthKey(p))]
    case BirthDateAsc => [Date(BirthKey(p)), Name(FamilyKey(p)), Name(GivenKey(p))]
  }

  /** Lexicographic strict order on keys of equal length. */
  predicate KeyLess(xs: seq<KeyPart>, ys: seq<KeyPart>)
    requires |xs| == |ys|
    decreases |xs|
  {
    |xs| > 0 && (PartLess(xs[0], ys[0]) || (xs[0] == ys[0] && KeyLess(xs[1..], ys[1..])))
  }

  /** Each chain is the lexicographic order on its sort key. */
  lemma PrecedesIsKeyOrder(o: Order, p: Patient, q: Patient)
    ensures Precedes(o, p, q) <==> KeyLess(SortKey(o, p), SortKey(o, q))
  {
    var xs := SortKey(o, p);
    var ys := SortKey(o, q);
    assert xs[1..][1..] == [xs[2]] && ys[1..][1..] == [ys[2]];
    assert KeyLess([xs[2]], [ys[2]]) <==> PartLess(xs[2], ys[2]);
  }

  lemma PartLessIsStrictTotal(x: KeyPart, y: KeyPart, z: KeyPart)
    ensures !PartLess(x, x)
    ensures x == y || PartLess(x, y) || PartLess(y, x)
    ensures PartLess(x, y) && PartLess(y, z) ==> PartLess(x, z)
  {
    if x.Name? {
      Strings.StrLessIrreflexive(x.s);
    }
    if x.Name? && y.Name? {
      Strings.StrLessTrichotomy(x.s, y.s);
      if z.Name? && Strings.StrLess(x.s, y.s) && Strings.StrLess(y.s, z.s) {
        Strings.StrLessTransitive(x.s, y.s, z.s);
      }
    }
  }

  /** The lexicographic order on keys is a strict total order. */
  lemma {:induction false} KeyLessIsStrictTotal(xs: seq<KeyPart>, ys: seq<KeyPart>, zs: seq<KeyPart>)
    requires |xs| == |ys| == |zs|
    ensures !KeyLess(xs, xs)
    ensures xs == ys || KeyLess(xs, ys) || KeyLess(ys, xs)
    ensures KeyLess(xs, ys) && KeyLess(ys, zs) ==> KeyLess(xs, zs)
    decreases |xs|
  {
    if |xs| > 0 {
      PartLessIsStrictTotal(xs[0], ys[0], zs[0]);
      PartLessIsStrictTotal(ys[0], xs[0], zs[0]);
      KeyLessIsStrictTotal(xs[1..], ys[1..], zs[1..]);
      if xs[0] == ys[0] && xs[1..] == ys[1..] {
        assert xs == [xs[0]] + xs[1..] && ys == [ys[0]] + ys[1..];
      }
      if KeyLess(xs, ys) && KeyLess(ys, zs) && PartLess(xs[0], ys[0]) && ys[0] == zs[0] {
        assert PartLess(xs[0], zs[0]);
      }
    }
  }

  /** `p` may come before `q`: `q` does not strictly precede `p`. */
  predicate NotAfter(o: Order, p: Patient, q: Patient) {
    !Precedes(o, q, p)
  }

  /** Each chain is a strict weak order whose "not after" relation is a
      total preorder: reflexive, total and transitive. */
  lemma ChainIsTotalPreorder(o: Order, p: Patient, q: Patient, r: Patient)
    ensures !Precedes(o, p, p)
    ensures Precedes(o, p, q) ==> !Precedes(o, q, p)
    ensures NotAfter(o, p, p)
    ensures NotAfter(o, p, q) || NotAfter(o, q, p)
    ensures NotAfter(o, p, q) && NotAfter(o, q, r) ==> NotAfter(o, p, r)
    ensures Precedes(o, p, q) && Precedes(o, q, r) ==> Precedes(o, p, r)
  {
    PrecedesIsKeyOrder(o, p, q);
    PrecedesIsKeyOrder(o, q, p);
    PrecedesIsKeyOrder(o, q, r);
    PrecedesIsKeyOrder(o, r, q);
    PrecedesIsKeyOrder(o, p, r);
    PrecedesIsKeyOrder(o, r, p);
    PrecedesIsKeyOrder(o, p, p);
    var kp, kq, kr := SortKey(o, p), SortKey(o, q), SortKey(o, r);
    KeyLessIsStrictTotal(kp, kq, kr);
    KeyLessIsStrictTotal(kq, kp, kr);
    KeyLessIsStrictTotal(kr, kq, kp);
    KeyLessIsStrictTotal(kq, kr, kp);
    KeyLessIsStrictTotal(kp, kr, kq);
    KeyLessIsStrictTotal(kr, kp, kq);
  }

  // ---------------------------------------------------------------------
  // Sorting

  /** No element is preceded by a later one. */
  predicate SortedBy(o: Order, s: seq<Patient>) {
    forall i, j :: 0 <= i < j < |s| ==> NotAfter(o, s[i], s[j])
  }

  /** Inserts `x` into a sorted list before the first element it does not
      come after. */
  function Insert(o: Order, x: Patient, s: seq<Patient>): (r: seq<Patient>)
    requires SortedBy(o, s)
    ensures multiset(r) == multiset(s) + multiset{x}
    ensures SortedBy(o, r)
    decreases |s|
  {
    if |s| == 0 then [x]
    else if !Precedes(o, s[0], x) then
      InsertFront(o, x, s);
      [x] + s
    else
      var rest := Insert(o, x, s[1..]);
      InsertBehind(o, x, s, rest);
      assert s == [s[0]] + s[1..];
      [s[0]] + rest
  }

  lemma InsertFront(o: Order, x: Patient, s: seq<Patient>)
    requires SortedBy(o, s) && |s| > 0 && !Precedes(o, s[0], x)
    ensures SortedBy(o, [x] + s)
  {
    var r := [x] + s;
    forall i, j | 0 <= i < j < |r|
      ensures NotAfter(o, r[i], r[j])
    {
      if i == 0 {
        ChainIsTotalPreorder(o, x, s[0], s[j - 1]);
      }
    }
  }

  lemma InsertBehind(o: Order, x: Patient, s: seq<Patient>, rest: seq<Patient>)
    requires SortedBy(o, s) && |s| > 0 && Precedes(o, s[0], x)
    requires SortedBy(o, rest) && multiset(rest) == multiset(s[1..]) + multiset{x}
    ensures SortedBy(o, [s[0]] + rest)
  {
    var r := [s[0]] + rest;
    forall i, j | 0 <= i < j < |r|
      ensures NotAfter(o, r[i], r[j])
    {
      if i == 0 {
        assert r[j] in multiset(rest);
        if r[j] == x {
          ChainIsTotalPreorder(o, s[0], x, x);
        } else {
          assert r[j] in multiset(s[1..]);
          var k :| 0 <= k < |s[1..]| && s[1..][k] == r[j];
          assert s[k + 1] == r[j];
        }
      } else {
        assert r[i] == rest[i - 1] && r[j] == rest[j - 1];
      }
    }
  }

  /** `ordered`: the patients rearranged so that no patient is preceded by a
      later one under the chosen ordering. No claim is made about the
      relative order of patients whose keys are equal. */
  function Ordered(o: Order, patients: seq<Patient>): (r: seq<Patient>)
    ensures multiset(r) == multiset(patients)
    ensures SortedBy(o, r)
    decreases |patients|
  {
    if |patients| == 0 then []
    else
      assert patients == [patients[0]] + patients[1..];
      Insert(o, patients[0], Ordered(o, patients[1..]))
  }

  /** Two patients given only "Ben" and "Anna" come out as Anna, Ben. */
  lemma GivenNameExample()
    ensures var ben := Patient(Resources.Handle(1), [HumanName([], [Some("Ben")], None, [], None)], None);
            var anna := Patient(Resources.Handle(2), [HumanName([], [Some("Anna")], None, [], None)], None);
            Ordered(NameGivenAsc, [ben, anna]) == [anna, ben]
  {
    var ben := Patient(Resources.Handle(1), [HumanName([], [Some("Ben")], None, [], None)], None);
    var anna := Patient(Resources.Handle(2), [HumanName([], [Some("Anna")], None, [], None)], None);
    assert Strings.StrLess("Anna", "Ben");
    assert Precedes(NameGivenAsc, anna, ben);
    assert [ben, anna][1..] == [anna];
    assert Ordered(NameGivenAsc, [anna]) == [anna];
  }

  // ---------------------------------------------------------------------
  // Display

  /** Name parts in display order: prefixes, given names (a part without a
      value counts as empty), the family name if non-empty, suffixes. */
  function NameParts(n: HumanName): (parts: seq<string>)
    ensures |parts| == |n.prefix| + |n.given| + (if n.family.Some? && |n.family.value| > 0 then 1 else 0) + |n.suffix|
    ensures forall i :: 0 <= i < |n.prefix| ==> parts[i] == n.prefix[i].GetOr("")
    ensures forall i :: 0 <= i < |n.given| ==> parts[|n.prefix| + i] == n.given[i].GetOr("")
    ensures n.family.Some? && |n.family.value| > 0 ==> parts[|n.prefix| + |n.given|] == n.family.value
    ensures forall i :: 0 <= i < |n.suffix| ==> parts[|parts| - |n.suffix| + i] == n.suffix[i].GetOr("")
  {
    Values(n.prefix) + Values(n.given)
    + (if n.family.Some? && |n.family.value| > 0 then [n.family.value] else [])
    + Values(n.suffix)
  }

  function Values(s: seq<Option<string>>): (r: seq<string>)
    ensures |r| == |s|
    ensures forall i :: 0 <= i < |s| ==> r[i] == s[i].GetOr("")
  {
    if |s| == 0 then [] else [s[0].GetOr("")] + Values(s[1..])
  }

  /** The display form of a name: its parts joined by single spaces, or its
      text when it has no parts; none without a name. */
  function HumanNameDisplay(name: Option<HumanName>): (r: Option<string>)
    ensures name.None? ==> r.None?
    ensures name.Some? && |NameParts(name.value)| == 0 ==> r == name.value.text
    // otherwise the parts in order, with exactly one space before each part but the first
    ensures name.Some? && |NameParts(name.value)| > 0 ==>
              r.Some? && Strings.JoinedBy(r.value, NameParts(name.value), ' ')
  {
    match name
    case None => None
    case Some(n) =>
      var parts := NameParts(n);
      if |parts| > 0 then
        Strings.JoinLayout(parts, ' ');
        Some(Strings.Join(parts, ' '))
      else n.text
  }

  /** When no part contains a space, splitting the display form on spaces
      gives back exactly the name parts, in order. */
  lemma DisplayRecoversParts(n: HumanName)
    requires |NameParts(n)| > 0
    requires forall i :: 0 <= i < |NameParts(n)| ==> ' ' !in NameParts(n)[i]
    ensures Strings.Split(HumanNameDisplay(Some(n)).value, ' ') == NameParts(n)
  {
    Strings.SplitJoin(NameParts(n), ' ');
  }

  /** An empty family name is skipped, but an empty given name still
      contributes a part. */
  lemma EmptyPartsExample()
    ensures HumanNameDisplay(Some(HumanName([Some("Dr")], [None, Some("Ann")], Some(""), [], None)))
            == Some("Dr  Ann")
  {
    var n := HumanName([Some("Dr")], [None, Some("Ann")], Some(""), [], None);
    assert NameParts(n) == ["Dr", "", "Ann"];
    Strings.JoinCons("", ["Ann"], ' ');
    Strings.JoinCons("Dr", ["", "Ann"], ' ');
    assert [""] + ["Ann"] == ["", "Ann"] && ["Dr"] + ["", "Ann"] == NameParts(n);
    assert "Dr" + " " + ("" + " " + "Ann") == "Dr  Ann";
  }
}
