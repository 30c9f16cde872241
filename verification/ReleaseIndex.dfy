/** The release index of the download mirror: merging one release into it
    (workers/downloads/scripts/sync_r2.py, merge_index). */
module ReleaseIndex {
  import opened Wrappers

  datatype File = File(name: string, size: nat, sha256: string)

  datatype Release = Release(tag: string, publishedAt: string, prerelease: bool, files: seq<File>)

  datatype Index = Index(schema: int, latest: Option<string>, releases: seq<Release>)

  const SCHEMA := 1

  // ------------------------------------------------------- string order

  /** Code-point order of strings. */
  predicate Less(a: string, b: string) {
    b != [] && (a == [] || a[0] < b[0] || (a[0] == b[0] && Less(a[1..], b[1..])))
  }

  lemma {:induction false} LessTotal(a: string, b: string)
    ensures Less(a, b) || Less(b, a) || a == b
    ensures !(Less(a, b) && Less(b, a))
    ensures !Less(a, a)
  {
    if a != [] && b != [] && a[0] == b[0] {
      LessTotal(a[1..], b[1..]);
      assert a == [a[0]] + a[1..] && b == [b[0]] + b[1..];
    }
    if a != [] {
      LessTotal(a[1..], a[1..]);
    }
  }

  lemma {:induction false} LessTransitive(a: string, b: string, c: string)
    requires Less(a, b) && Less(b, c)
    ensures Less(a, c)
  {
    if a != [] && a[0] == b[0] == c[0] {
      LessTransitive(a[1..], b[1..], c[1..]);
    }
  }

  /** a is newer than b: a later publication time, ties broken by the tag. */
  predicate Newer(a: Release, b: Release) {
    Less(b.publishedAt, a.publishedAt) || (a.publishedAt == b.publishedAt && Less(b.tag, a.tag))
  }

  lemma NewerTotal(a: Release, b: Release)
    ensures Newer(a, b) || Newer(b, a) || (a.publishedAt == b.publishedAt && a.tag == b.tag)
    ensures !(Newer(a, b) && Newer(b, a))
  {
    LessTotal(a.publishedAt, b.publishedAt);
    LessTotal(a.tag, b.tag);
  }

  lemma NewerTransitive(a: Release, b: Release, c: Release)
    requires Newer(a, b) && Newer(b, c)
    ensures Newer(a, c)
  {
    if Less(b.publishedAt, a.publishedAt) && Less(c.publishedAt, b.publishedAt) {
      LessTransitive(c.publishedAt, b.publishedAt, a.publishedAt);
    } else if a.publishedAt == b.publishedAt == c.publishedAt {
      LessTransitive(c.tag, b.tag, a.tag);
    }
  }

  // ------------------------------------------------- releases by their tag

  type Catalog = map<string, Release>

  ghost predicate TagKeyed(m: Catalog) {
    forall t | t in m :: m[t].tag == t
  }

  /** The dictionary built from a release list; a later entry replaces an
      earlier one with the same tag. */
  function ByTag(rs: seq<Release>): (m: Catalog)
    ensures TagKeyed(m)
  {
    if rs == [] then map[]
    else ByTag(rs[..|rs| - 1])[rs[|rs| - 1].tag := rs[|rs| - 1]]
  }

  lemma {:induction false} ByTagCovers(rs: seq<Release>, r: Release)
    requires r in rs
    ensures r.tag in ByTag(rs)
  {
    if r in rs[..|rs| - 1] { ByTagCovers(rs[..|rs| - 1], r); }
  }

  lemma {:induction false} ByTagFrom(rs: seq<Release>, t: string)
    requires t in ByTag(rs)
    ensures ByTag(rs)[t] in rs
  {
    if rs[|rs| - 1].tag != t { ByTagFrom(rs[..|rs| - 1], t); }
  }

  ghost predicate IsNewest(m: Catalog, t: string) {
    t in m && forall u | u in m && u != t :: Newer(m[t], m[u])
  }

  lemma {:induction false} NewestExists(m: Catalog)
    requires TagKeyed(m) && m != map[]
    ensures exists t :: IsNewest(m, t)
    decreases |m|
  {
    var u :| u in m;
    var rest := m - {u};
    if rest == map[] {
      assert forall v | v in m && v != u :: v in rest;
      assert IsNewest(m, u);
    } else {
      SmallerKeys(rest, m, u);
      NewestExists(rest);
      var t :| IsNewest(rest, t);
      NewestExtends(m, u, t);
    }
  }

  lemma NewestExtends(m: Catalog, u: string, t: string)
    requires TagKeyed(m) && u in m && IsNewest(m - {u}, t)
    ensures IsNewest(m, t) || IsNewest(m, u)
  {
    NewerTotal(m[t], m[u]);
    var rest := m - {u};
    if Newer(m[t], m[u]) {
      forall v | v in m && v != t ensures Newer(m[t], m[v]) {
        if v != u { assert v in rest && rest[v] == m[v]; }
      }
    } else {
      forall v | v in m && v != u ensures Newer(m[u], m[v]) {
        assert v in rest && rest[v] == m[v];
        if v != t { NewerTransitive(m[u], m[t], m[v]); }
      }
    }
  }

  lemma SmallerKeys(small: Catalog, big: Catalog, extra: string)
    requires extra in big && small.Keys == big.Keys - {extra}
    ensures |small| == |big| - 1
  {
    assert |small| == |small.Keys| && |big| == |big.Keys|;
  }

  lemma NewestUnique(m: Catalog, t: string, u: string)
    requires TagKeyed(m) && IsNewest(m, t) && IsNewest(m, u)
    ensures t == u
  {
    if t != u { NewerTotal(m[t], m[u]); }
  }

  ghost function Newest(m: Catalog): (t: string)
    requires TagKeyed(m) && m != map[]
    ensures IsNewest(m, t)
  {
    NewestExists(m);
    var t :| IsNewest(m, t);
    t
  }

  /** The releases of a catalogue, newest first. */
  ghost function Descending(m: Catalog): (rs: seq<Release>)
    requires TagKeyed(m)
    ensures |rs| == |m|
    decreases |m|
  {
    if m == map[] then []
    else
      var t := Newest(m);
      var rest := m - {t};
      SmallerKeys(rest, m, t);
      [m[t]] + Descending(rest)
  }

  lemma {:induction false} InDescending(m: Catalog, r: Release)
    requires TagKeyed(m)
    ensures r in Descending(m) <==> r.tag in m && m[r.tag] == r
    decreases |m|
  {
    if m != map[] {
      var t := Newest(m);
      SmallerKeys(m - {t}, m, t);
      InDescending(m - {t}, r);
    }
  }

  ghost predicate Sorted(rs: seq<Release>) {
    forall i, j | 0 <= i < j < |rs| :: Newer(rs[i], rs[j])
  }

  lemma {:induction false} DescendingSorted(m: Catalog)
    requires TagKeyed(m)
    ensures Sorted(Descending(m))
    decreases |m|
  {
    if m != map[] {
      var t := Newest(m);
      var rest := m - {t};
      SmallerKeys(rest, m, t);
      DescendingSorted(rest);
      var tail := Descending(rest);
      forall j | 0 <= j < |tail| ensures Newer(m[t], tail[j]) {
        InDescending(rest, tail[j]);
      }
    }
  }

  /** rs lists exactly the releases of m. */
  ghost predicate Lists(rs: seq<Release>, m: Catalog) {
    forall r {:trigger r in rs} :: r in rs <==> r.tag in m && m[r.tag] == r
  }

  lemma Listed(m: Catalog, rs: seq<Release>, t: string)
    requires TagKeyed(m) && Lists(rs, m) && t in m
    ensures m[t] in rs
  {
  }

  /** Whatever produces a strictly descending list of exactly the releases of
      a catalogue produces this one. */
  lemma {:induction false} DescendingUnique(m: Catalog, rs: seq<Release>)
    requires TagKeyed(m) && Sorted(rs) && Lists(rs, m)
    ensures rs == Descending(m)
    decreases |m|
  {
    if rs == [] {
      if t :| t in m {
        Listed(m, rs, t);
        assert false;
      }
    } else {
      HeadIsNewest(m, rs);
      var t := rs[0].tag;
      SmallerKeys(m - {t}, m, t);
      TailLists(m, rs);
      TailSorted(rs);
      hide Lists, Sorted, Newer, IsNewest;
      DescendingUnique(m - {t}, rs[1..]);
      assert rs == [rs[0]] + rs[1..];
    }
  }

  lemma TailSorted(rs: seq<Release>)
    requires Sorted(rs) && rs != []
    ensures Sorted(rs[1..])
  {
    forall i, j | 0 <= i < j < |rs[1..]| ensures Newer(rs[1..][i], rs[1..][j]) {
      assert Newer(rs[i + 1], rs[j + 1]);
    }
  }

  lemma HeadIsNewest(m: Catalog, rs: seq<Release>)
    requires TagKeyed(m) && Sorted(rs) && Lists(rs, m) && rs != []
    ensures m != map[] && rs[0].tag in m && m[rs[0].tag] == rs[0] && rs[0].tag == Newest(m)
  {
    var t := rs[0].tag;
    assert rs[0] in rs;
    forall u | u in m && u != t ensures Newer(m[t], m[u]) {
      assert m[u] in rs;
      var j :| 0 <= j < |rs| && rs[j] == m[u];
      assert Newer(rs[0], rs[j]);
    }
    NewestUnique(m, t, Newest(m));
  }

  lemma TailLists(m: Catalog, rs: seq<Release>)
    requires TagKeyed(m) && Sorted(rs) && Lists(rs, m) && rs != []
    ensures Lists(rs[1..], m - {rs[0].tag})
  {
    var t, tail := rs[0].tag, rs[1..];
    assert rs[0] in rs;
    forall r ensures r in tail <==> r.tag in m - {t} && (m - {t})[r.tag] == r {
      if r in tail {
        var j :| 0 <= j < |tail| && tail[j] == r;
        assert r == rs[j + 1] && Newer(rs[0], rs[j + 1]);
        assert r in rs;
        NewerTotal(rs[0], r);
      }
      if r.tag in m - {t} && m[r.tag] == r {
        Listed(m, rs, r.tag);
        var j :| 0 <= j < |rs| && rs[j] == r;
        assert r == tail[j - 1];
      }
    }
  }

  // --------------------------------------------------------- the operation

  ghost function StableOf(rs: seq<Release>): (s: seq<Release>)
    ensures forall r :: r in s <==> r in rs && !r.prerelease
  {
    if rs == [] then []
    else if rs[0].prerelease then StableOf(rs[1..])
    else [rs[0]] + StableOf(rs[1..])
  }

  /** The tag offered as the latest release, given the releases newest first. */
  ghost function LatestOf(ordered: seq<Release>, latestTag: string): Option<string> {
    var stable := StableOf(ordered);
    if stable == [] then None
    else if exists r :: r in stable && r.tag == latestTag && !Less(r.publishedAt, stable[0].publishedAt)
    then Some(latestTag)
    else Some(stable[0].tag)
  }

  function ReleasesOf(index: Option<Index>): seq<Release> {
    if index.Some? then index.value.releases else []
  }

  /** The index of a catalogue. */
  ghost function IndexOf(m: Catalog, latestTag: string): Index
    requires TagKeyed(m)
  {
    Index(SCHEMA, LatestOf(Descending(m), latestTag), Descending(m))
  }

  /** The catalogue of an index after merging a release into it. */
  function Merged(index: Option<Index>, release: Release): (m: Catalog)
    ensures TagKeyed(m)
  {
    ByTag(ReleasesOf(index))[release.tag := release]
  }

  ghost function Merge(index: Option<Index>, release: Release, latestTag: string): Result<Index> {
    if index.Some? && index.value.schema != SCHEMA then Err("Unsupported index schema")
    else Ok(IndexOf(Merged(index, release), latestTag))
  }

  // ------------------------------------------------------------- properties

  /** A descending list is recovered from its dictionary, so an index carries
      exactly its catalogue. */
  lemma ByTagDescending(m: Catalog)
    requires TagKeyed(m)
    ensures ByTag(Descending(m)) == m
  {
    var rs := Descending(m);
    forall t | t in m ensures t in ByTag(rs) {
      InDescending(m, m[t]);
      ByTagCovers(rs, m[t]);
    }
    forall t | t in ByTag(rs) ensures t in m && m[t] == ByTag(rs)[t] {
      ByTagFrom(rs, t);
      InDescending(m, ByTag(rs)[t]);
    }
    SameMaps(ByTag(rs), m);
  }

  lemma SameMaps(a: Catalog, b: Catalog)
    requires forall t | t in b :: t in a
    requires forall t | t in a :: t in b && b[t] == a[t]
    ensures a == b
  {
  }

  /** The merged index lists, newest first and once each, the given release
      and every release listed before under another tag, and nothing else. */
  lemma MergeReleases(index: Option<Index>, release: Release, latestTag: string)
    requires index.Some? ==> index.value.schema == SCHEMA
    ensures var merged := Merge(index, release, latestTag);
            && merged.Ok? && Sorted(merged.value.releases)
            && Lists(merged.value.releases, Merged(index, release))
            && ByTag(merged.value.releases) == Merged(index, release)
  {
    var m := Merged(index, release);
    ByTagDescending(m);
    DescendingSorted(m);
    forall r ensures r in Descending(m) <==> r.tag in m && m[r.tag] == r {
      InDescending(m, r);
    }
  }

  /** Merging into an index is updating its catalogue. */
  lemma MergeIntoIndex(m: Catalog, release: Release, someTag: string, latestTag: string)
    requires TagKeyed(m)
    ensures Merge(Some(IndexOf(m, someTag)), release, latestTag) == Ok(IndexOf(m[release.tag := release], latestTag))
  {
    ByTagDescending(m);
  }

  lemma UpdatesCommute(m: Catalog, a: Release, b: Release)
    requires a.tag != b.tag
    ensures m[a.tag := a][b.tag := b] == m[b.tag := b][a.tag := a]
  {
  }

  /** Releases of distinct tags can be merged in either order. */
  lemma MergesCommute(index: Option<Index>, a: Release, b: Release, latestTag: string)
    requires index.Some? ==> index.value.schema == SCHEMA
    requires a.tag != b.tag
    ensures Merge(Some(Merge(index, a, latestTag).value), b, latestTag)
         == Merge(Some(Merge(index, b, latestTag).value), a, latestTag)
  {
    MergeIntoIndex(Merged(index, a), b, latestTag, latestTag);
    MergeIntoIndex(Merged(index, b), a, latestTag, latestTag);
    UpdatesCommute(ByTag(ReleasesOf(index)), a, b);
  }

  /** Merging the same release again changes nothing. */
  lemma MergeIdempotent(index: Option<Index>, a: Release, latestTag: string)
    requires index.Some? ==> index.value.schema == SCHEMA
    ensures Merge(Some(Merge(index, a, latestTag).value), a, latestTag) == Merge(index, a, latestTag)
  {
    hide LatestOf, Descending, ByTag;
    var m := ByTag(ReleasesOf(index));
    MergeIntoIndex(m[a.tag := a], a, latestTag, latestTag);
    assert m[a.tag := a][a.tag := a] == m[a.tag := a];
  }

  /** r is stable and no stable release of rs was published after it. */
  ghost predicate NewestStable(rs: seq<Release>, r: Release) {
    r in rs && !r.prerelease && forall s | s in rs && !s.prerelease :: !Less(r.publishedAt, s.publishedAt)
  }

  lemma {:induction false} FirstStable(rs: seq<Release>)
    requires Sorted(rs) && StableOf(rs) != []
    ensures NewestStable(rs, StableOf(rs)[0])
  {
    var first := StableOf(rs)[0];
    assert first in StableOf(rs);
    if rs[0].prerelease {
      var tail := rs[1..];
      TailSorted(rs);
      FirstStable(tail);
      forall s | s in rs && !s.prerelease ensures !Less(first.publishedAt, s.publishedAt) {
        assert s in tail;
      }
    } else {
      forall s | s in rs && !s.prerelease ensures !Less(first.publishedAt, s.publishedAt) {
        var j :| 0 <= j < |rs| && rs[j] == s;
        LessTotal(first.publishedAt, s.publishedAt);
        if j > 0 { assert Newer(rs[0], rs[j]); }
      }
    }
  }

  /** The latest tag is absent exactly when nothing stable is listed, and
      otherwise names a stable release of maximal publication time; the tag
      preferred by the caller wins exactly when it is one of those. */
  lemma LatestIsNewestStable(index: Option<Index>, release: Release, latestTag: string)
    requires index.Some? ==> index.value.schema == SCHEMA
    ensures var m := Merge(index, release, latestTag).value;
            && (m.latest.None? <==> forall r | r in m.releases :: r.prerelease)
            && (m.latest.Some? ==> exists r :: NewestStable(m.releases, r) && r.tag == m.latest.value)
            && (m.latest == Some(latestTag) <==> exists r :: NewestStable(m.releases, r) && r.tag == latestTag)
  {
    MergeReleases(index, release, latestTag);
    var m := Merge(index, release, latestTag).value;
    var stable := StableOf(m.releases);
    if stable == [] {
      forall r | r in m.releases ensures r.prerelease {
        assert r !in stable;
      }
    } else {
      FirstStable(m.releases);
      assert stable[0] in stable;
      if r :| r in stable && r.tag == latestTag && !Less(r.publishedAt, stable[0].publishedAt) {
        SameTime(m.releases, r);
      } else if r :| NewestStable(m.releases, r) && r.tag == latestTag {
        assert false;
      }
    }
  }

  /** A stable release no older than the first stable one is itself newest. */
  lemma SameTime(rs: seq<Release>, r: Release)
    requires Sorted(rs) && StableOf(rs) != [] && r in StableOf(rs)
    requires !Less(r.publishedAt, StableOf(rs)[0].publishedAt)
    ensures NewestStable(rs, r)
  {
    FirstStable(rs);
    var first := StableOf(rs)[0];
    LessTotal(r.publishedAt, first.publishedAt);
  }

  /** What latest should be: absent when nothing stable is listed, otherwise the
      tag of a newest stable release. */
  ghost predicate LatestRight(m: Index) {
    && (m.latest.None? <==> forall r | r in m.releases :: r.prerelease)
    && (m.latest.Some? ==> exists r :: NewestStable(m.releases, r) && r.tag == m.latest.value)
  }

  /** The release named as latest is at least as recent as was. */
  ghost predicate NoEarlier(m: Index, was: Release) {
    m.latest.Some? && exists now :: NewestStable(m.releases, now) && now.tag == m.latest.value
                                    && !Less(now.publishedAt, was.publishedAt)
  }

  lemma StableBound(m: Index, x: Release)
    requires LatestRight(m) && x in m.releases && !x.prerelease
    ensures NoEarlier(m, x)
  {
    hide Less;
  }

  ghost predicate Holds(m: Catalog, r: Release) {
    r.tag in m && m[r.tag] == r
  }

  /** was is stable and no stable release of the catalogue is more recent. */
  ghost predicate NewestStableIn(m: Catalog, was: Release) {
    && Holds(m, was) && !was.prerelease
    && forall r | Holds(m, r) && !r.prerelease :: !Less(was.publishedAt, r.publishedAt)
  }

  /** The merged record no longer counts for was: it is a prerelease or earlier,
      and every listed stable release as recent as was is the one it replaces. */
  ghost predicate Demotes(m: Catalog, release: Release, was: Release) {
    && (release.prerelease || Less(release.publishedAt, was.publishedAt))
    && forall r | Holds(m, r) && !r.prerelease && r.publishedAt == was.publishedAt :: r.tag == release.tag
  }

  lemma MergedHolds(index: Option<Index>, release: Release, latestTag: string, r: Release)
    requires index.Some? ==> index.value.schema == SCHEMA
    ensures r in Merge(index, release, latestTag).value.releases
       <==> r == release || (r.tag != release.tag && Holds(ByTag(ReleasesOf(index)), r))
  {
    MergeReleases(index, release, latestTag);
    hide Merge, Sorted, ByTag;
  }

  lemma MergeLatestRight(index: Option<Index>, release: Release, latestTag: string)
    requires index.Some? ==> index.value.schema == SCHEMA
    ensures LatestRight(Merge(index, release, latestTag).value)
  {
    hide Merge, NewestStable;
    LatestIsNewestStable(index, release, latestTag);
  }

  lemma MergeSucceeds(index: Option<Index>, release: Release, latestTag: string)
    requires index.Some? ==> index.value.schema == SCHEMA
    ensures Merge(index, release, latestTag).Ok?
  {
  }

  /** When a merge moves the latest release back in time, or leaves none, for
      the newest stable release listed before: exactly when the merged record
      demotes it. */
  lemma LatestGoesBackIff(index: Option<Index>, release: Release, latestTag: string, was: Release)
    requires index.Some? ==> index.value.schema == SCHEMA
    requires NewestStableIn(ByTag(ReleasesOf(index)), was)
    ensures !NoEarlier(Merge(index, release, latestTag).value, was) <==> Demotes(ByTag(ReleasesOf(index)), release, was)
  {
    hide Merge, Less, ByTag, LatestRight;
    MergeSucceeds(index, release, latestTag);
    MergeLatestRight(index, release, latestTag);
    var m, before := Merge(index, release, latestTag).value, ByTag(ReleasesOf(index));
    if Demotes(before, release, was) {
      if now :| NewestStable(m.releases, now) && !Less(now.publishedAt, was.publishedAt) {
        MergedHolds(index, release, latestTag, now);
        LessTotal(now.publishedAt, was.publishedAt);
        assert false;
      }
    } else if !release.prerelease && !Less(release.publishedAt, was.publishedAt) {
      MergedHolds(index, release, latestTag, release);
      StableBound(m, release);
      NoEarlierThan(m, release, was);
    } else {
      var r :| Holds(before, r) && !r.prerelease && r.publishedAt == was.publishedAt && r.tag != release.tag;
      MergedHolds(index, release, latestTag, r);
      StableBound(m, r);
      NoEarlierThan(m, r, was);
    }
  }

  lemma NoEarlierThan(m: Index, x: Release, was: Release)
    requires NoEarlier(m, x) && !Less(x.publishedAt, was.publishedAt)
    ensures NoEarlier(m, was)
  {
    hide Less, NewestStable;
    var now :| NewestStable(m.releases, now) && now.tag == m.latest.value && !Less(now.publishedAt, x.publishedAt);
    if Less(now.publishedAt, was.publishedAt) {
      LessTotal(now.publishedAt, x.publishedAt);
      LessTotal(x.publishedAt, was.publishedAt);
      if now.publishedAt != x.publishedAt && x.publishedAt != was.publishedAt {
        LessTransitive(was.publishedAt, x.publishedAt, now.publishedAt);
      }
      LessTotal(now.publishedAt, was.publishedAt);
      assert false;
    }
  }

  /** Adding a release never moves the latest release back in time, as long as
      a listed tag is only ever merged with the record already listed: whatever
      stable release was listed, the one now named is at least as recent. */
  lemma LatestNeverGoesBack(index: Option<Index>, release: Release, latestTag: string, was: Release)
    requires index.Some? ==> index.value.schema == SCHEMA
    requires release.tag in ByTag(ReleasesOf(index)) ==> ByTag(ReleasesOf(index))[release.tag] == release
    requires Holds(ByTag(ReleasesOf(index)), was) && !was.prerelease
    ensures NoEarlier(Merge(index, release, latestTag).value, was)
  {
    hide Merge, ByTag, LatestRight, NoEarlier;
    MergeSucceeds(index, release, latestTag);
    MergedHolds(index, release, latestTag, was);
    MergeLatestRight(index, release, latestTag);
    StableBound(Merge(index, release, latestTag).value, was);
  }

  /** Two ways back, in an index of two stable releases of different times: the
      newer one merged again as a prerelease, or with a date before the older. */
  lemma RepublishingMovesLatestBack(a: Release, b: Release, earlier: string)
    requires !a.prerelease && !b.prerelease && a.tag != b.tag
    requires Less(b.publishedAt, a.publishedAt) && Less(earlier, b.publishedAt)
    ensures var index := Some(Index(SCHEMA, Some(a.tag), [a, b]));
            && LatestRight(index.value)
            && Merge(index, a.(prerelease := true), a.tag).value.latest == Some(b.tag)
            && Merge(index, a.(publishedAt := earlier), a.tag).value.latest == Some(b.tag)
  {
    var index := Some(Index(SCHEMA, Some(a.tag), [a, b]));
    TwoByTag(a, b);
    LessTotal(a.publishedAt, b.publishedAt);
    LessTotal(a.publishedAt, a.publishedAt);
    assert a in index.value.releases && NewestStable(index.value.releases, a);
    SecondTakesOver(index, a.(prerelease := true), b);
    LessTotal(earlier, b.publishedAt);
    SecondTakesOver(index, a.(publishedAt := earlier), b);
  }

  lemma TwoByTag(a: Release, b: Release)
    requires a.tag != b.tag
    ensures ByTag([a, b]) == map[a.tag := a, b.tag := b]
  {
    assert [a, b][..1] == [a] && [a][..0] == [];
    assert ByTag([a]) == map[a.tag := a];
  }

  lemma SecondTakesOver(index: Option<Index>, release: Release, b: Release)
    requires index.Some? && index.value.schema == SCHEMA && release.tag != b.tag && !b.prerelease
    requires ByTag(index.value.releases).Keys == {release.tag, b.tag} && ByTag(index.value.releases)[b.tag] == b
    requires release.prerelease
             || (Less(release.publishedAt, b.publishedAt) && !Less(b.publishedAt, release.publishedAt))
    ensures Merge(index, release, release.tag).value.latest == Some(b.tag)
  {
    hide Merge, ByTag, Less;
    MergeSucceeds(index, release, release.tag);
    var m := Merge(index, release, release.tag).value;
    MergeLatestRight(index, release, release.tag);
    MergedHolds(index, release, release.tag, b);
    var now :| NewestStable(m.releases, now) && now.tag == m.latest.value;
    MergedHolds(index, release, release.tag, now);
  }
}
