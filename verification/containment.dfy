/** Containing resources inside a domain resource (`contained`), looking a
    contained resource up by id, and building references to resources. */
module Containment {
  import opened Wrappers
  import opened Resources
  import Strings

  /** The contained resources, with an absent list read as empty. */
  function Entries(r: Resource): seq<Resource> {
    r.contained.GetOr([])
  }

  /** No two entries share an identity handle. */
  predicate DistinctHandles(s: seq<Resource>) {
    forall i, j :: 0 <= i < j < |s| ==> s[i].handle != s[j].handle
  }

  /** No two entries carry the same FHIR id. */
  predicate UniqueIds(s: seq<Resource>) {
    forall i, j :: 0 <= i < j < |s| && s[i].id.Some? ==> s[i].id != s[j].id
  }

  /** Position of the first entry whose id is `refid`, or `|s|` if none is. */
  function FirstWithId(s: seq<Resource>, refid: string): (k: nat)
    ensures k <= |s|
    ensures k < |s| ==> s[k].id == Some(refid)
    ensures forall j :: 0 <= j < k ==> s[j].id != Some(refid)
    decreases |s|
  {
    if |s| == 0 then 0
    else if s[0].id == Some(refid) then 0
    else 1 + FirstWithId(s[1..], refid)
  }

  /** The contained resource with id `refid`: the first one in `contained`
      order, or none when there is none or nothing is contained. */
  function ContainedResource(container: Resource, refid: string): (r: Option<Resource>)
    ensures container.contained.None? ==> r.None?
    ensures r.None? <==> forall i :: 0 <= i < |Entries(container)| ==> Entries(container)[i].id != Some(refid)
    ensures r.Some? ==> exists i :: 0 <= i < |Entries(container)|
                                  && Entries(container)[i] == r.value
                                  && r.value.id == Some(refid)
                                  && forall j :: 0 <= j < i ==> Entries(container)[j].id != Some(refid)
  {
    var s := Entries(container);
    var k := FirstWithId(s, refid);
    if k < |s| then Some(s[k]) else None
  }

  /** The entries that are not the instance `h` (Swift's `filter { $0 !== existing }`). */
  function WithoutHandle(s: seq<Resource>, h: Handle): (r: seq<Resource>)
    ensures |r| <= |s|
    ensures forall x :: x in r <==> x in s && x.handle != h
    ensures |s| == 1 ==> r == (if s[0].handle == h then [] else s)
  {
    if |s| == 0 then []
    else (if s[0].handle == h then [] else [s[0]]) + WithoutHandle(s[1..], h)
  }

  /** Filtering distributes over concatenation: together with the
      one-entry case this says that the kept entries stay in their order
      and keep their multiplicity. */
  lemma {:induction false} WithoutHandleAppend(a: seq<Resource>, b: seq<Resource>, h: Handle)
    ensures WithoutHandle(a + b, h) == WithoutHandle(a, h) + WithoutHandle(b, h)
    decreases |a|
  {
    if |a| > 0 {
      assert (a + b)[1..] == a[1..] + b;
      assert (a + b)[0] == a[0];
      WithoutHandleAppend(a[1..], b, h);
    } else {
      assert a + b == b;
    }
  }

  /** Contains `resource` in `container` and returns the updated container
      with a reference `"#id"` to it. Containing the container itself and
      containing a resource with no or an empty id are refused; a contained
      resource with the same id is replaced. */
  function Contain(container: Resource, resource: Resource, display: Option<string>)
    : (r: Result<(Resource, Reference), FhirError>)
    ensures resource.handle == container.handle ==> r == Failure(ResourceCannotContainItself)
    ensures resource.handle != container.handle && (resource.id.None? || resource.id == Some(""))
            ==> r == Failure(ResourceWithoutId)
    ensures r.Success? <==> resource.handle != container.handle && resource.id.Some? && resource.id.value != ""
    ensures r.Success? ==>
              && r.value.1 == Reference(Some("#" + resource.id.value), display)
              && r.value.0 == container.(contained := r.value.0.contained)
              && r.value.0.contained.Some?
              && |Entries(r.value.0)| > 0
              && Entries(r.value.0)[|Entries(r.value.0)| - 1] == resource
    // what is kept, for every container: the instance first found with
    // the id is filtered out, or, with no entry carrying the id, the
    // resource is simply appended
    ensures r.Success? ==>
              var s := Entries(container);
              var k := FirstWithId(s, resource.id.value);
              && (k == |s| ==> Entries(r.value.0) == s + [resource])
              && (k < |s| ==> Entries(r.value.0) == WithoutHandle(s, s[k].handle) + [resource])
  {
    if resource.handle == container.handle then
      Failure(ResourceCannotContainItself)
    else if resource.id.None? || resource.id.value == "" then
      Failure(ResourceWithoutId)
    else
      var refid := resource.id.value;
      var kept := match ContainedResource(container, refid)
                  case Some(existing) => WithoutHandle(Entries(container), existing.handle)
                  case None => Entries(container);
      Success((container.(contained := Some(kept + [resource])), Reference(Some("#" + refid), display)))
  }

  /** With distinct identities among the contained resources, `Contain`
      removes the first entry carrying the new id, keeps every other entry in
      its order, and appends the new resource: the count stays the same when
      an entry was replaced and grows by one otherwise. */
  lemma ContainReplacesInPlace(container: Resource, resource: Resource, display: Option<string>)
    requires DistinctHandles(Entries(container))
    requires Contain(container, resource, display).Success?
    ensures var s := Entries(container);
            var k := FirstWithId(s, resource.id.value);
            var s' := Entries(Contain(container, resource, display).value.0);
            && (k < |s| ==> s' == s[..k] + s[k + 1..] + [resource] && |s'| == |s|)
            && (k == |s| ==> s' == s + [resource] && |s'| == |s| + 1)
  {
    var s := Entries(container);
    var k := FirstWithId(s, resource.id.value);
    if k < |s| {
      WithoutOnlyOccurrence(s, k);
    }
  }

  /** Filtering out the identity of an entry that occurs once removes
      exactly that entry. */
  lemma {:induction false} WithoutOnlyOccurrence(s: seq<Resource>, k: nat)
    requires DistinctHandles(s) && k < |s|
    ensures WithoutHandle(s, s[k].handle) == s[..k] + s[k + 1..]
    decreases |s|
  {
    var h := s[k].handle;
    var t := s[1..];
    if k == 0 {
      assert forall i :: 0 <= i < |t| ==> t[i].handle != h by {
        assert forall i :: 0 <= i < |t| ==> t[i] == s[i + 1];
      }
      NoneWithHandle(t, h);
    } else {
      assert DistinctHandles(t) by {
        assert forall i :: 0 <= i < |t| ==> t[i] == s[i + 1];
      }
      assert t[k - 1] == s[k];
      WithoutOnlyOccurrence(t, k - 1);
      FilterStep(s, h);
      SliceShift(s, k);
    }
  }

  lemma SliceShift(s: seq<Resource>, k: nat)
    requires 0 < k < |s|
    ensures s[..k] + s[k + 1..] == [s[0]] + (s[1..][..k - 1] + s[1..][k..])
  {
    assert s[..k] == [s[0]] + s[1..][..k - 1];
    assert s[k + 1..] == s[1..][k..];
  }

  lemma FilterStep(s: seq<Resource>, h: Handle)
    requires |s| > 0 && s[0].handle != h
    ensures WithoutHandle(s, h) == [s[0]] + WithoutHandle(s[1..], h)
  {
  }

  lemma {:induction false} NoneWithHandle(s: seq<Resource>, h: Handle)
    requires forall i :: 0 <= i < |s| ==> s[i].handle != h
    ensures WithoutHandle(s, h) == s
    decreases |s|
  {
    if |s| > 0 {
      NoneWithHandle(s[1..], h);
    }
  }

  /** Filtering out an identity keeps distinct identities distinct. */
  lemma {:induction false} WithoutHandleKeepsDistinct(s: seq<Resource>, h: Handle)
    requires DistinctHandles(s)
    ensures DistinctHandles(WithoutHandle(s, h))
    decreases |s|
  {
    if |s| > 0 {
      var t := s[1..];
      assert DistinctHandles(t) by {
        assert forall i :: 0 <= i < |t| ==> t[i] == s[i + 1];
      }
      WithoutHandleKeepsDistinct(t, h);
      if s[0].handle != h {
        DistinctHandlesCons(s, WithoutHandle(t, h));
      }
    }
  }

  /** Putting the head of a sequence with distinct identities back in front
      of a selection from its tail keeps identities distinct. */
  lemma DistinctHandlesCons(s: seq<Resource>, t: seq<Resource>)
    requires |s| > 0 && DistinctHandles(s) && DistinctHandles(t)
    requires forall y :: y in t ==> y in s[1..]
    ensures DistinctHandles([s[0]] + t)
  {
    var r := [s[0]] + t;
    forall i, j | 0 <= i < j < |r|
      ensures r[i].handle != r[j].handle
    {
      if i == 0 {
        assert r[j] in s[1..];
        var k :| 0 <= k < |s[1..]| && s[1..][k] == r[j];
        assert s[k + 1] == r[j];
      } else {
        assert r[i] == t[i - 1] && r[j] == t[j - 1];
      }
    }
  }

  /** Containing a fresh instance keeps the contained identities distinct,
      so `ContainReplacesInPlace` applies again to the next `Contain`. */
  lemma ContainKeepsDistinctHandles(container: Resource, resource: Resource, display: Option<string>)
    requires DistinctHandles(Entries(container))
    requires forall x :: x in Entries(container) ==> x.handle != resource.handle
    requires Contain(container, resource, display).Success?
    ensures DistinctHandles(Entries(Contain(container, resource, display).value.0))
  {
    var s := Entries(container);
    var k := FirstWithId(s, resource.id.value);
    var kept := if k < |s| then WithoutHandle(s, s[k].handle) else s;
    if k < |s| {
      WithoutHandleKeepsDistinct(s, s[k].handle);
    }
    var r := kept + [resource];
    forall i, j | 0 <= i < j < |r|
      ensures r[i].handle != r[j].handle
    {
      assert r[i] == kept[i] && r[i] in s;
      if j < |kept| {
        assert r[j] == kept[j];
      }
    }
  }

  /** When the contained ids were unique, looking the new id up after a
      successful `Contain` finds exactly the resource just contained. */
  lemma ContainThenLookup(container: Resource, resource: Resource, display: Option<string>)
    requires UniqueIds(Entries(container))
    requires Contain(container, resource, display).Success?
    ensures ContainedResource(Contain(container, resource, display).value.0, resource.id.value) == Some(resource)
  {
    var refid := resource.id.value;
    var s := Entries(container);
    var kept := Entries(Contain(container, resource, display).value.0)[..|Entries(Contain(container, resource, display).value.0)| - 1];
    KeptLacksId(container, refid);
    assert Entries(Contain(container, resource, display).value.0) == kept + [resource];
    LookupAfterPrefix(kept, resource, refid);
  }

  /** After the filtering step no kept entry carries the contained id. */
  lemma KeptLacksId(container: Resource, refid: string)
    requires UniqueIds(Entries(container))
    ensures var s := Entries(container);
            var kept := match ContainedResource(container, refid)
                        case Some(existing) => WithoutHandle(s, existing.handle)
                        case None => s;
            forall x :: x in kept ==> x.id != Some(refid)
  {
    var s := Entries(container);
    var k := FirstWithId(s, refid);
    if k < |s| {
      forall x | x in WithoutHandle(s, s[k].handle)
        ensures x.id != Some(refid)
      {
        var i :| 0 <= i < |s| && s[i] == x;
        if i > k {
          assert s[k].id == Some(refid);
        }
      }
    }
  }

  lemma LookupAfterPrefix(kept: seq<Resource>, resource: Resource, refid: string)
    requires forall x :: x in kept ==> x.id != Some(refid)
    requires resource.id == Some(refid)
    ensures FirstWithId(kept + [resource], refid) == |kept|
  {
    var s := kept + [resource];
    assert forall j :: 0 <= j < |kept| ==> s[j] == kept[j] && s[j].id != Some(refid);
    assert s[|kept|].id == Some(refid);
  }

  /** Filtering out an identity keeps unique ids unique. */
  lemma {:induction false} WithoutHandleKeepsIdsUnique(s: seq<Resource>, h: Handle)
    requires UniqueIds(s)
    ensures UniqueIds(WithoutHandle(s, h))
    decreases |s|
  {
    if |s| > 0 {
      UniqueIdsTail(s);
      WithoutHandleKeepsIdsUnique(s[1..], h);
      if s[0].handle != h {
        assert [s[0]] + s[1..] == s;
        UniqueIdsCons(s[0], s[1..], WithoutHandle(s[1..], h));
      }
    }
  }

  /** Dropping the first entry keeps ids unique. */
  lemma UniqueIdsTail(s: seq<Resource>)
    requires UniqueIds(s) && |s| > 0
    ensures UniqueIds(s[1..])
  {
    forall i, j | 0 <= i < j < |s[1..]| && s[1..][i].id.Some?
      ensures s[1..][i].id != s[1..][j].id
    {
      assert s[1..][i] == s[i + 1] && s[1..][j] == s[j + 1];
    }
  }

  /** Putting the head of a unique sequence back in front of a unique
      selection `t` from its tail keeps ids unique. */
  lemma UniqueIdsCons(x: Resource, rest: seq<Resource>, t: seq<Resource>)
    requires UniqueIds([x] + rest) && UniqueIds(t)
    requires forall y :: y in t ==> y in rest
    ensures UniqueIds([x] + t)
  {
    var s := [x] + rest;
    var r := [x] + t;
    forall i, j | 0 <= i < j < |r| && r[i].id.Some?
      ensures r[i].id != r[j].id
    {
      if i == 0 {
        assert r[j] in rest;
        var k :| 0 <= k < |rest| && rest[k] == r[j];
        assert s[0] == r[0] && s[k + 1] == r[j];
      } else {
        assert r[i] == t[i - 1] && r[j] == t[j - 1];
      }
    }
  }

  /** Appending a resource whose id no entry carries keeps ids unique. */
  lemma AppendFreshId(t: seq<Resource>, x: Resource)
    requires UniqueIds(t)
    requires forall y :: y in t ==> y.id != x.id
    ensures UniqueIds(t + [x])
  {
    var r := t + [x];
    forall i, j | 0 <= i < j < |r| && r[i].id.Some?
      ensures r[i].id != r[j].id
    {
      if j == |t| {
        assert r[i] == t[i] && r[i] in t;
      } else {
        assert r[i] == t[i] && r[j] == t[j];
      }
    }
  }

  /** When the contained ids were unique, they stay unique after a
      successful `Contain`. */
  lemma ContainKeepsIdsUnique(container: Resource, resource: Resource, display: Option<string>)
    requires UniqueIds(Entries(container))
    requires Contain(container, resource, display).Success?
    ensures UniqueIds(Entries(Contain(container, resource, display).value.0))
  {
    var refid := resource.id.value;
    var s := Entries(container);
    KeptLacksId(container, refid);
    match ContainedResource(container, refid) {
      case Some(existing) =>
        WithoutHandleKeepsIdsUnique(s, existing.handle);
        AppendFreshId(WithoutHandle(s, existing.handle), resource);
      case None =>
        AppendFreshId(s, resource);
    }
  }

  /** A reference to `resource` relative to its server path: the resource's
      relative URL base, a slash and its id. Only an absent id is refused;
      unlike `Contain`, an empty id is accepted. */
  function ReferenceTo(resource: Resource, display: Option<string>, relativeUrlBase: string)
    : (r: Result<Reference, FhirError>)
    ensures r.Failure? <==> resource.id.None?
    ensures r.Failure? ==> r.error == ResourceWithoutId
    ensures r.Success? ==> && r.value.display == display
                           && r.value.reference.Some?
                           && Strings.HasPrefix(r.value.reference.value, relativeUrlBase)
                           && Strings.HasSuffix(r.value.reference.value, "/" + resource.id.value)
                           && |r.value.reference.value| == |relativeUrlBase| + 1 + |resource.id.value|
  {
    match resource.id
    case Some(id) => Success(Reference(Some(relativeUrlBase + "/" + id), display))
    case None => Failure(ResourceWithoutId)
  }

  /** With a slash-free type path and id, the reference has the canonical
      two-segment form `{type}/{id}`. */
  lemma ReferenceSegments(resource: Resource, display: Option<string>, relativeUrlBase: string)
    requires resource.id.Some?
    requires '/' !in relativeUrlBase && '/' !in resource.id.value
    ensures Strings.Split(ReferenceTo(resource, display, relativeUrlBase).value.reference.value, '/')
            == [relativeUrlBase, resource.id.value]
  {
    var parts := [relativeUrlBase, resource.id.value];
    assert Strings.Join(parts, '/') == relativeUrlBase + "/" + resource.id.value;
    Strings.SplitJoin(parts, '/');
  }

  /** An empty id: `ReferenceTo` accepts it while `Contain` refuses it. */
  lemma EmptyIdReferencedButNotContained(container: Resource, resource: Resource, base: string)
    requires resource.id == Some("") && resource.handle != container.handle
    ensures ReferenceTo(resource, None, base) == Success(Reference(Some(base + "/"), None))
    ensures Contain(container, resource, None) == Failure(ResourceWithoutId)
  {
    assert base + "/" + "" == base + "/";
  }
}
