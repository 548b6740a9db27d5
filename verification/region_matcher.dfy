/** The region matcher of `src/utils.ts`: normalisation of region ids between
    the `RF-` convention of the staff data and the `RU-` convention of the
    catalog, the representative-in-region predicate, the filter built on it,
    and the lookup of a region by id. The region catalog is a parameter. */
module RegionMatcher {
  import opened Wrappers
  import opened Domain
  import Seqs

  const ForeignPrefix: string := "RF-"
  const CanonicalPrefix: string := "RU-"

  predicate StartsWith(s: string, p: string) {
    |p| <= |s| && s[..|p|] == p
  }

  // ---------------------------------------------------------------------
  // normalizeRegionId

  /** Rewrites a leading `RF-` to `RU-`; absent or empty ids become `""`.
      Only the character at index 1 can change, and only from an `RF-`
      prefix to an `RU-` prefix, so the result never carries `RF-`. */
  function NormalizeRegionId(id: Option<string>): (r: string)
    ensures id.None? ==> r == ""
    ensures id.Some? ==> |r| == |id.value|
    ensures id.Some? ==> forall i :: 0 <= i < |r| && i != 1 ==> r[i] == id.value[i]
    ensures id.Some? && r != id.value ==> StartsWith(id.value, ForeignPrefix) && StartsWith(r, CanonicalPrefix)
    ensures !StartsWith(r, ForeignPrefix)
  {
    if id.None? || id.value == "" then ""
    else if StartsWith(id.value, ForeignPrefix) then CanonicalPrefix + id.value[|ForeignPrefix|..]
    else id.value
  }

  /** The canonical form of a present id. */
  function Canonical(id: string): string {
    NormalizeRegionId(Some(id))
  }

  lemma NormalizeIdempotent(id: Option<string>)
    ensures Canonical(NormalizeRegionId(id)) == NormalizeRegionId(id)
  {
  }

  /** `RF-x` and `RU-x` name the same region, and `RU-x` is its canonical form. */
  lemma NormalizePrefixInsensitive(x: string)
    ensures Canonical(ForeignPrefix + x) == Canonical(CanonicalPrefix + x) == CanonicalPrefix + x
  {
    assert (ForeignPrefix + x)[..3] == ForeignPrefix;
    assert (ForeignPrefix + x)[3..] == x;
    assert (CanonicalPrefix + x)[..3] == CanonicalPrefix;
  }

  /** Two present ids have the same canonical form exactly when they are
      equal, or they agree after a three-character prefix that is `RF-` or
      `RU-` on each side. */
  lemma SameCanonical(a: string, b: string)
    ensures Canonical(a) == Canonical(b) <==>
      (a == b ||
       (|a| >= 3 && |b| >= 3 && a[3..] == b[3..] &&
        (a[..3] == ForeignPrefix || a[..3] == CanonicalPrefix) &&
        (b[..3] == ForeignPrefix || b[..3] == CanonicalPrefix)))
  {
    if Canonical(a) == Canonical(b) && a != b {
      var ca := Canonical(a);
      assert |a| == |b|;
      // some position differs, and only index 1 may have changed
      assert StartsWith(a, ForeignPrefix) || StartsWith(b, ForeignPrefix);
      assert |a| >= 3;
      assert a[3..] == ca[3..] == b[3..];
      if StartsWith(a, ForeignPrefix) {
        assert ca[..3] == CanonicalPrefix;
        assert b[..3] == ForeignPrefix || b[..3] == CanonicalPrefix by {
          if !StartsWith(b, ForeignPrefix) {
            assert b == ca;
          }
        }
      } else {
        assert Canonical(b)[..3] == CanonicalPrefix;
        assert a == ca;
      }
    }
    if |a| >= 3 && |b| >= 3 && a[3..] == b[3..] &&
       (a[..3] == ForeignPrefix || a[..3] == CanonicalPrefix) &&
       (b[..3] == ForeignPrefix || b[..3] == CanonicalPrefix) {
      assert a == a[..3] + a[3..];
      assert b == b[..3] + b[3..];
      NormalizePrefixInsensitive(a[3..]);
    }
  }

  // ---------------------------------------------------------------------
  // isRepresentativeInRegion

  /** The scalar-or-list form of `rep.regionId` as a list. */
  function Listed(ref: RegionRef): seq<string> {
    match ref
    case Unassigned => []
    case Single(id) => [id]
    case Several(ids) => ids
  }

  predicate NonEmpty(s: string) { s != "" }

  /** The representative's associations after `filter(Boolean)`: the listed
      strings that are non-empty, in their original order. An absent field
      and an empty string both give the empty list. */
  function Associations(ref: RegionRef): (r: seq<string>)
    ensures forall i :: 0 <= i < |r| ==> r[i] != ""
    ensures forall s :: s in r <==> s in Listed(ref) && s != ""
  {
    Seqs.Filter(Listed(ref), NonEmpty)
  }

  /** Some association names the target region, up to normalisation. */
  predicate DirectMatch(ids: seq<string>, target: string) {
    exists i :: 0 <= i < |ids| && Canonical(ids[i]) == target
  }

  /** `RUSSIA_REGIONS.find(r => normalizeRegionId(r.id) === key)`: the first
      catalog region whose normalised id is `key`. */
  function FindByCanonical(catalog: seq<Region>, key: string): (r: Option<Region>)
    ensures r.None? <==> forall i :: 0 <= i < |catalog| ==> Canonical(catalog[i].id) != key
    ensures r.Some? ==> Canonical(r.value.id) == key
    ensures r.Some? ==> exists i :: (0 <= i < |catalog| && catalog[i] == r.value &&
                                    forall j :: 0 <= j < i ==> Canonical(catalog[j].id) != key)
  {
    if |catalog| == 0 then None
    else if Canonical(catalog[0].id) == key then Some(catalog[0])
    else
      var r := FindByCanonical(catalog[1..], key);
      assert r.Some? ==> exists i :: (1 <= i < |catalog| && catalog[i] == r.value &&
                                      forall j :: 0 <= j < i ==> Canonical(catalog[j].id) != key) by {
        if r.Some? {
          var i :| 0 <= i < |catalog| - 1 && catalog[1..][i] == r.value &&
            forall j :: 0 <= j < i ==> Canonical(catalog[1..][j].id) != key;
          assert catalog[i + 1] == r.value;
          forall j | 0 <= j < i + 1
            ensures Canonical(catalog[j].id) != key
          {
            if j > 0 {
              assert catalog[j] == catalog[1..][j - 1];
            }
          }
        }
      }
      r
  }

  /** Whether a representative serves a region, given the region catalog.
      False when the representative has no non-empty association or the
      target id normalises to `""`; true on a direct match up to
      normalisation; otherwise true exactly when the catalog knows the target
      region and its federal-district code occurs verbatim among the
      associations. */
  function IsRepresentativeInRegion(rep: Representative, regionId: string, catalog: seq<Region>): (r: bool)
    ensures |Associations(rep.regionId)| == 0 ==> !r
    ensures Canonical(regionId) == "" ==> !r
    ensures Canonical(regionId) != "" && DirectMatch(Associations(rep.regionId), Canonical(regionId)) ==> r
    ensures Canonical(regionId) != "" && !DirectMatch(Associations(rep.regionId), Canonical(regionId)) ==>
      (r <==> exists k :: 0 <= k < |catalog| && Canonical(catalog[k].id) == Canonical(regionId) &&
                          (forall j :: 0 <= j < k ==> Canonical(catalog[j].id) != Canonical(regionId)) &&
                          catalog[k].info in Associations(rep.regionId))
  {
    var ids := Associations(rep.regionId);
    if |ids| == 0 then false
    else
      var target := Canonical(regionId);
      if target == "" then false
      else if DirectMatch(ids, target) then true
      else
        match FindByCanonical(catalog, target)
        case None => false
        case Some(region) =>
          FirstMatchUnique(catalog, target, region);
          region.info in ids
  }

  /** The first catalog match is the region at the first matching index. */
  lemma FirstMatchUnique(catalog: seq<Region>, key: string, region: Region)
    requires FindByCanonical(catalog, key) == Some(region)
    ensures forall k :: (0 <= k < |catalog| && Canonical(catalog[k].id) == key &&
                         (forall j :: 0 <= j < k ==> Canonical(catalog[j].id) != key)) ==> catalog[k] == region
  {
    var i :| 0 <= i < |catalog| && catalog[i] == region &&
      forall j :: 0 <= j < i ==> Canonical(catalog[j].id) != key;
    forall k | 0 <= k < |catalog| && Canonical(catalog[k].id) == key &&
               (forall j :: 0 <= j < k ==> Canonical(catalog[j].id) != key)
      ensures catalog[k] == region
    {
    }
  }

  // ---------------------------------------------------------------------
  // getRepresentativesForRegion

  function RepresentativesForRegion(reps: seq<Representative>, regionId: string, catalog: seq<Region>): (r: seq<Representative>)
    ensures |r| <= |reps|
    ensures forall i :: 0 <= i < |r| ==> IsRepresentativeInRegion(r[i], regionId, catalog)
    ensures forall x :: x in r <==> x in reps && IsRepresentativeInRegion(x, regionId, catalog)
  {
    Seqs.Filter(reps, rep => IsRepresentativeInRegion(rep, regionId, catalog))
  }

  // ---------------------------------------------------------------------
  // findRegionById

  /** `findRegionById`: the first catalog region whose id matches `id` once
      both are normalised. */
  function FindRegionById(catalog: seq<Region>, id: string): (r: Option<Region>)
    ensures r.None? <==> forall i :: 0 <= i < |catalog| ==> Canonical(catalog[i].id) != Canonical(id)
    ensures r.Some? ==> exists i :: (0 <= i < |catalog| && catalog[i] == r.value &&
                                    Canonical(catalog[i].id) == Canonical(id) &&
                                    forall j :: 0 <= j < i ==> Canonical(catalog[j].id) != Canonical(id))
  {
    FindByCanonical(catalog, Canonical(id))
  }

  // ---------------------------------------------------------------------
  // Properties relating the operations

  /** Membership depends on the target id only through its canonical form,
      so `RF-x` and `RU-x` select the same representatives. */
  lemma InRegionPrefixInsensitive(rep: Representative, x: string, catalog: seq<Region>)
    ensures IsRepresentativeInRegion(rep, ForeignPrefix + x, catalog) ==
            IsRepresentativeInRegion(rep, CanonicalPrefix + x, catalog)
  {
    NormalizePrefixInsensitive(x);
  }

  /** Adding associations never removes a representative from a region. */
  lemma {:induction false} InRegionMonotone(rep: Representative, ids: seq<string>, more: seq<string>,
                                            regionId: string, catalog: seq<Region>)
    requires rep.regionId == Several(ids)
    requires IsRepresentativeInRegion(rep, regionId, catalog)
    ensures IsRepresentativeInRegion(rep.(regionId := Several(ids + more)), regionId, catalog)
  {
    var rep' := rep.(regionId := Several(ids + more));
    Seqs.FilterAppend(ids, more, NonEmpty);
    var small := Associations(rep.regionId);
    var big := Associations(rep'.regionId);
    assert big == small + Seqs.Filter(more, NonEmpty);
    var target := Canonical(regionId);
    if DirectMatch(small, target) {
      var i :| 0 <= i < |small| && Canonical(small[i]) == target;
      assert big[i] == small[i];
    } else if DirectMatch(big, target) {
    } else {
      var k :| 0 <= k < |catalog| && Canonical(catalog[k].id) == target &&
               (forall j :: 0 <= j < k ==> Canonical(catalog[j].id) != target) &&
               catalog[k].info in small;
      assert catalog[k].info in big;
    }
  }

  /** The filter keeps exactly the matching representatives, each as often
      as it occurs in the input, in input order. */
  lemma RepresentativesForRegionExact(reps: seq<Representative>, regionId: string, catalog: seq<Region>)
    ensures Seqs.IsSubsequence(RepresentativesForRegion(reps, regionId, catalog), reps)
    ensures forall x :: multiset(RepresentativesForRegion(reps, regionId, catalog))[x] ==
                        if IsRepresentativeInRegion(x, regionId, catalog) then multiset(reps)[x] else 0
  {
    var keep := rep => IsRepresentativeInRegion(rep, regionId, catalog);
    Seqs.FilterIsSubsequence(reps, keep);
    forall x
      ensures multiset(RepresentativesForRegion(reps, regionId, catalog))[x] ==
              if IsRepresentativeInRegion(x, regionId, catalog) then multiset(reps)[x] else 0
    {
      Seqs.FilterMultiplicity(reps, keep, x);
    }
  }

  /** Selecting by `RF-x` or by `RU-x` gives the same list. */
  lemma RepresentativesForRegionPrefixInsensitive(reps: seq<Representative>, x: string, catalog: seq<Region>)
    ensures RepresentativesForRegion(reps, ForeignPrefix + x, catalog) ==
            RepresentativesForRegion(reps, CanonicalPrefix + x, catalog)
  {
    forall i | 0 <= i < |reps|
      ensures IsRepresentativeInRegion(reps[i], ForeignPrefix + x, catalog) ==
              IsRepresentativeInRegion(reps[i], CanonicalPrefix + x, catalog)
    {
      InRegionPrefixInsensitive(reps[i], x, catalog);
    }
    Seqs.FilterCongruence(reps, rep => IsRepresentativeInRegion(rep, ForeignPrefix + x, catalog),
                                rep => IsRepresentativeInRegion(rep, CanonicalPrefix + x, catalog));
  }

  /** The lookup is insensitive to the `RF-`/`RU-` prefix and to
      normalising its argument first. */
  lemma FindRegionByIdCanonical(catalog: seq<Region>, id: string, x: string)
    ensures FindRegionById(catalog, Canonical(id)) == FindRegionById(catalog, id)
    ensures FindRegionById(catalog, ForeignPrefix + x) == FindRegionById(catalog, CanonicalPrefix + x)
  {
    NormalizeIdempotent(Some(id));
    NormalizePrefixInsensitive(x);
  }

  /** A small catalog for the concrete cases below. */
  const ExampleCatalog: seq<Region> := [
    Region("RU-MOW", "Москва", "ЦФО"),
    Region("RU-KDA", "Краснодарский край", "ЮФО"),
    Region("RU-SPE", "Санкт-Петербург", "СЗФО")
  ]

  /** A representative listed under two federal districts serves a region
      of one of them and not a region of a third. */
  lemma ExampleDistrictMatch()
    ensures var rep := Representative(1, "Иванов Иван Иванович", "Региональный менеджер",
                                      None, None, Several(["ЦФО", "СЗФО"]), None);
            IsRepresentativeInRegion(rep, "RU-MOW", ExampleCatalog) &&
            !IsRepresentativeInRegion(rep, "RU-KDA", ExampleCatalog)
  {
    var ids := ["ЦФО", "СЗФО"];
    var rep := Representative(1, "Иванов Иван Иванович", "Региональный менеджер",
                              None, None, Several(ids), None);
    assert Associations(rep.regionId) == ids by {
      assert Seqs.Filter(ids[2..], NonEmpty) == [];
      assert Seqs.Filter(ids[1..], NonEmpty) == [ids[1]];
    }
    assert Canonical(ids[0]) == ids[0] && Canonical(ids[1]) == ids[1];
    assert !DirectMatch(ids, "RU-MOW");
    assert !DirectMatch(ids, "RU-KDA");
    assert FindByCanonical(ExampleCatalog, "RU-MOW") == Some(ExampleCatalog[0]);
    assert FindByCanonical(ExampleCatalog, "RU-KDA") == Some(ExampleCatalog[1]);
  }

  /** A representative listed under `RU-SPE` is found under `RF-SPE`, and
      under no empty target. */
  lemma ExamplePrefixMatch()
    ensures var rep := Representative(2, "Петров Петр Петрович", "Менеджер по продажам",
                                      None, None, Single("RU-SPE"), None);
            IsRepresentativeInRegion(rep, "RF-SPE", ExampleCatalog) &&
            !IsRepresentativeInRegion(rep, "", ExampleCatalog)
  {
    var rep := Representative(2, "Петров Петр Петрович", "Менеджер по продажам",
                              None, None, Single("RU-SPE"), None);
    assert Associations(rep.regionId) == ["RU-SPE"];
    NormalizePrefixInsensitive("SPE");
    assert Canonical("RU-SPE") == "RU-SPE";
  }
}
