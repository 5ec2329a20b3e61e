/** The game-version compatibility resolver: decides whether a validator's
    supported-version policy admits any of the game versions an upload
    declares, consulting the catalog of known versions for release dates. */
module GameVersions {
  import opened Results

  /** One row of the catalog of known game versions. The release timestamp
      is an integer (seconds since the epoch) in place of `DateTime<Utc>`. */
  datatype CatalogEntry = CatalogEntry(version: string, date: int)

  /** The policy a validator declares for the game versions it handles. */
  datatype SupportedGameVersions =
    | All
    | PastDate(date: int)
    | Range(before: int, after: int)
    | Custom(versions: seq<string>)

  /** `Iterator::any`: some element of `s` satisfies `p`. */
  function Any<T>(s: seq<T>, p: T -> bool): (r: bool)
    ensures r <==> exists i :: 0 <= i < |s| && p(s[i])
  {
    if |s| == 0 then false
    else if p(s[0]) then true
    else
      var rest := Any(s[1..], p);
      assert forall i :: 1 <= i < |s| ==> s[1..][i - 1] == s[i];
      rest
  }

  /** Some catalog row is labelled `name`. */
  ghost predicate Listed(catalog: seq<CatalogEntry>, name: string)
  {
    exists k :: 0 <= k < |catalog| && catalog[k].version == name
  }

  /** Row `k` is the first catalog row labelled `name`. */
  ghost predicate FirstEntryAt(catalog: seq<CatalogEntry>, name: string, k: int)
  {
    && 0 <= k < |catalog|
    && catalog[k].version == name
    && forall j :: 0 <= j < k ==> catalog[j].version != name
  }

  /** The scan of `find` from row `i` onwards. */
  function FindFrom(catalog: seq<CatalogEntry>, name: string, i: nat): (r: Option<CatalogEntry>)
    requires i <= |catalog|
    decreases |catalog| - i
    ensures r.None? ==> forall k :: i <= k < |catalog| ==> catalog[k].version != name
    ensures r.Some? ==>
              exists k :: && i <= k < |catalog|
                          && catalog[k].version == name
                          && (forall j :: i <= j < k ==> catalog[j].version != name)
                          && r.value == catalog[k]
  {
    if i == |catalog| then None
    else if catalog[i].version == name then Some(catalog[i])
    else FindFrom(catalog, name, i + 1)
  }

  /** `all_game_versions.iter().find(|y| y.version == name)`: the first
      catalog row with that name, or `None` when the name is unknown. */
  function Find(catalog: seq<CatalogEntry>, name: string): (r: Option<CatalogEntry>)
    ensures r.None? <==> !Listed(catalog, name)
    ensures forall k :: FirstEntryAt(catalog, name, k) ==> r == Some(catalog[k])
    ensures r.Some? ==> exists k :: FirstEntryAt(catalog, name, k) && r.value == catalog[k]
  {
    FindFrom(catalog, name, 0)
  }

  /** The closure of the `PastDate` arm: the first row for `name` was
      released strictly after `date`; an unknown name yields false. */
  function ReleasedAfter(catalog: seq<CatalogEntry>, name: string, date: int): bool
  {
    match Find(catalog, name)
    case Some(e) => e.date > date
    case None => false
  }

  /** The closure of the `Range` arm: the first row for `name` was released
      strictly between `before` and `after`; an unknown name yields false. */
  function ReleasedBetween(catalog: seq<CatalogEntry>, name: string, before: int, after: int): bool
  {
    match Find(catalog, name)
    case Some(e) => e.date > before && e.date < after
    case None => false
  }

  /** A release date lies inside the window a date policy opens: after the
      cutoff for `PastDate`, strictly between the bounds for `Range`. */
  predicate InWindow(policy: SupportedGameVersions, date: int)
    requires policy.PastDate? || policy.Range?
  {
    if policy.PastDate? then date > policy.date
    else policy.before < date < policy.after
  }

  /** `game_version_supported`: the policy admits some declared version.
      Date policies use the first catalog row of each declared name and
      ignore labels the catalog lacks; `Custom` never reads the catalog. */
  function GameVersionSupported(declared: seq<string>, catalog: seq<CatalogEntry>,
                                policy: SupportedGameVersions): (r: bool)
    ensures policy.All? ==> r
    ensures policy.PastDate? ==>
              (r <==> exists i, k :: && 0 <= i < |declared|
                                     && FirstEntryAt(catalog, declared[i], k)
                                     && catalog[k].date > policy.date)
    ensures policy.Range? ==>
              (r <==> exists i, k :: && 0 <= i < |declared|
                                     && FirstEntryAt(catalog, declared[i], k)
                                     && policy.before < catalog[k].date < policy.after)
    ensures policy.Custom? ==>
              (r <==> exists v :: v in policy.versions && v in declared)
  {
    match policy
    case All => true
    case PastDate(date) =>
      Any(declared, (x: string) => ReleasedAfter(catalog, x, date))
    case Range(before, after) =>
      Any(declared, (x: string) => ReleasedBetween(catalog, x, before, after))
    case Custom(versions) =>
      Any(versions, (x: string) => x in declared)
  }

  /** `All` admits every upload, whatever it declares and whatever the catalog says. */
  lemma AllAdmitsEverything(declared: seq<string>, catalog: seq<CatalogEntry>)
    ensures GameVersionSupported(declared, catalog, All)
  {
  }

  /** `Custom` never reads the catalog: any two catalogs give the same answer. */
  lemma CustomIgnoresCatalog(declared: seq<string>, versions: seq<string>,
                             catalog1: seq<CatalogEntry>, catalog2: seq<CatalogEntry>)
    ensures GameVersionSupported(declared, catalog1, Custom(versions))
            == GameVersionSupported(declared, catalog2, Custom(versions))
  {
  }

  /** `Custom` is a set intersection: only which labels are declared matters,
      not their order or multiplicity. */
  lemma CustomIsOrderIndependent(declared1: seq<string>, declared2: seq<string>,
                                 versions: seq<string>, catalog: seq<CatalogEntry>)
    requires forall x :: x in declared1 <==> x in declared2
    ensures GameVersionSupported(declared1, catalog, Custom(versions))
            == GameVersionSupported(declared2, catalog, Custom(versions))
  {
  }

  /** With nothing declared, only `All` is satisfied. */
  lemma NothingDeclaredOnlyAll(catalog: seq<CatalogEntry>, policy: SupportedGameVersions)
    ensures GameVersionSupported([], catalog, policy) <==> policy.All?
  {
  }

  /** A declared label absent from the catalog never contributes to a date
      policy: dropping it leaves the answer unchanged. */
  lemma UnlistedVersionNeverContributes(front: seq<string>, name: string, back: seq<string>,
                                        catalog: seq<CatalogEntry>, policy: SupportedGameVersions)
    requires policy.PastDate? || policy.Range?
    requires !Listed(catalog, name)
    ensures GameVersionSupported(front + [name] + back, catalog, policy)
            == GameVersionSupported(front + back, catalog, policy)
  {
    DateSupportByAdmits(front + [name] + back, catalog, policy);
    DateSupportByAdmits(front + back, catalog, policy);
    DropUnadmitted(front, name, back, catalog, policy);
  }

  /** Removing a label that does not admit a date policy keeps whether some
      remaining label admits it. */
  lemma DropUnadmitted(front: seq<string>, name: string, back: seq<string>,
                       catalog: seq<CatalogEntry>, policy: SupportedGameVersions)
    requires policy.PastDate? || policy.Range?
    requires !Listed(catalog, name)
    ensures (exists i :: 0 <= i < |front + [name] + back| && Admits(policy, catalog, (front + [name] + back)[i]))
            <==> (exists i :: 0 <= i < |front + back| && Admits(policy, catalog, (front + back)[i]))
  {
    var longer, shorter := front + [name] + back, front + back;
    assert !Admits(policy, catalog, name);
    if i :| 0 <= i < |longer| && Admits(policy, catalog, longer[i]) {
      if i < |front| {
        assert longer[i] == shorter[i];
      } else {
        assert longer[i] == shorter[i - 1];
      }
    }
    if i :| 0 <= i < |shorter| && Admits(policy, catalog, shorter[i]) {
      if i < |front| {
        assert longer[i] == shorter[i];
      } else {
        assert longer[i + 1] == shorter[i];
      }
    }
  }

  /** The declared label `name` satisfies a date policy on its own. */
  ghost predicate Admits(policy: SupportedGameVersions, catalog: seq<CatalogEntry>, name: string)
    requires policy.PastDate? || policy.Range?
  {
    exists k :: FirstEntryAt(catalog, name, k) && InWindow(policy, catalog[k].date)
  }

  /** A date policy is satisfied exactly when one declared label admits it. */
  lemma DateSupportByAdmits(declared: seq<string>, catalog: seq<CatalogEntry>, policy: SupportedGameVersions)
    requires policy.PastDate? || policy.Range?
    ensures GameVersionSupported(declared, catalog, policy)
            <==> exists i :: 0 <= i < |declared| && Admits(policy, catalog, declared[i])
  {
  }

  /** A date policy with no declared label in the catalog fails closed. */
  lemma UnlistedVersionsFailClosed(declared: seq<string>, catalog: seq<CatalogEntry>,
                                   policy: SupportedGameVersions)
    requires policy.PastDate? || policy.Range?
    requires forall x :: x in declared ==> !Listed(catalog, x)
    ensures !GameVersionSupported(declared, catalog, policy)
  {
  }

  /** Date policies see the catalog only through the first row of each
      declared label: catalogs that agree on those give the same answer. */
  lemma OnlyFirstEntriesMatter(declared: seq<string>, catalog1: seq<CatalogEntry>,
                               catalog2: seq<CatalogEntry>, policy: SupportedGameVersions)
    requires forall x :: x in declared ==> Find(catalog1, x) == Find(catalog2, x)
    ensures GameVersionSupported(declared, catalog1, policy)
            == GameVersionSupported(declared, catalog2, policy)
  {
  }

  /** Rows appended for labels the catalog already lists are shadowed by the
      earlier rows and change no answer. */
  lemma ShadowedRowsIgnored(declared: seq<string>, catalog: seq<CatalogEntry>,
                            more: seq<CatalogEntry>, policy: SupportedGameVersions)
    requires forall j :: 0 <= j < |more| ==> Listed(catalog, more[j].version)
    ensures GameVersionSupported(declared, catalog + more, policy)
            == GameVersionSupported(declared, catalog, policy)
  {
    forall x | x in declared
      ensures Find(catalog + more, x) == Find(catalog, x)
    {
      FindIgnoresShadowedRows(catalog, more, x);
    }
    OnlyFirstEntriesMatter(declared, catalog + more, catalog, policy);
  }

  /** `find` over a catalog extended with already-listed labels returns the
      row it returned before the extension. */
  lemma FindIgnoresShadowedRows(catalog: seq<CatalogEntry>, more: seq<CatalogEntry>, name: string)
    requires forall j :: 0 <= j < |more| ==> Listed(catalog, more[j].version)
    ensures Find(catalog + more, name) == Find(catalog, name)
  {
    var whole := catalog + more;
    if Listed(catalog, name) {
      assert Find(catalog, name).Some?;
      var k :| FirstEntryAt(catalog, name, k);
      assert forall j :: 0 <= j <= k ==> whole[j] == catalog[j];
      assert FirstEntryAt(whole, name, k);
    }
  }

  /** `PastDate` is antitone in its threshold: an earlier cutoff admits at
      least what a later one admits. */
  lemma PastDateAntitone(declared: seq<string>, catalog: seq<CatalogEntry>, early: int, late: int)
    requires early <= late
    ensures GameVersionSupported(declared, catalog, PastDate(late))
            ==> GameVersionSupported(declared, catalog, PastDate(early))
  {
  }

  /** A `Range` whose lower bound is `before` admits no more than `PastDate(before)`. */
  lemma RangeWithinPastDate(declared: seq<string>, catalog: seq<CatalogEntry>, before: int, after: int)
    ensures GameVersionSupported(declared, catalog, Range(before, after))
            ==> GameVersionSupported(declared, catalog, PastDate(before))
  {
  }

  /** Both bounds of `Range` are exclusive: with integer dates, a range with
      no integer strictly inside it admits nothing. */
  lemma EmptyRangeAdmitsNothing(declared: seq<string>, catalog: seq<CatalogEntry>, before: int, after: int)
    requires after <= before + 1
    ensures !GameVersionSupported(declared, catalog, Range(before, after))
  {
  }
}
